/** Which JSON numerals survive, by their digits: conditions to look at before a
    rotation, and numbers that show where they end. */
module NumeralDigits {
  import opened Binary64
  import opened ShortestNumeral
  import opened JsonNumber

  // ------------------------------------------------------- Trailing zeros

  lemma LastDigit(d: nat, m: nat, p: nat)
    requires p >= 1 && d * p == m * (10 * p)
    ensures d == 10 * m
  {
    Swap(m, 10, p);
    assert m * (10 * p) == (10 * m) * p;
    Quotient(d, p);
    Quotient(10 * m, p);
  }

  lemma NotRounder(d: nat, p: nat, n: nat, c: nat)
    requires p >= 1 && d % 10 != 0 && n == d * p && Multiple(c, 10 * p)
    ensures c != n && Multiple(c, p)
  {
    var m: nat :| c == m * (10 * p);
    assert c == (m * 10) * p;
    if c == n {
      LastDigit(d, m, p);
    }
  }

  /** `k` is all the zeros there are. */
  lemma ZerosAtMost(d: nat, k: nat, n: nat, j: nat)
    requires d % 10 != 0 && n == d * Pow10(k) && Multiple(n, Pow10(j))
    ensures j <= k
  {
    if j > k {
      TenDivides(k + 1, j);
      MultipleTransitive(n, Pow10(j), Pow10(k + 1));
      NotRounder(d, Pow10(k), n, n);
    }
  }

  /** A numeral with a rounder one that reads alike is lost. */
  lemma RounderWins(g: Grid, d: nat, k: nat, n: nat, c: nat)
    requires d % 10 != 0 && n == d * Pow10(k) && Multiple(c, Pow10(k + 1))
    ensures g.Read(c) == g.Read(n) ==> !g.Survives(n)
  {
    if g.Read(c) == g.Read(n) {
      MulMono(1, d, Pow10(k));
      SurvivesExactly(g, n);
      forall j: nat
        ensures !Shortest(g.Read, g.Read(n), n, j)
      {
        if Multiple(n, Pow10(j)) {
          ZerosAtMost(d, k, n, j);
          TenDivides(j + 1, k + 1);
          MultipleTransitive(c, Pow10(k + 1), Pow10(j + 1));
        }
      }
    }
  }

  /** So is one with a nearer numeral of as many zeros. */
  lemma NearerWins(g: Grid, d: nat, k: nat, n: nat, c: nat)
    requires d % 10 != 0 && n == d * Pow10(k) && Multiple(c, Pow10(k))
    ensures g.Read(c) == g.Read(n) && Gap(c, g.Read(n)) < Gap(n, g.Read(n)) ==> !g.Survives(n)
  {
    var x := g.Read(n);
    if g.Read(c) == x && Gap(c, x) < Gap(n, x) {
      MulMono(1, d, Pow10(k));
      SurvivesExactly(g, n);
      forall j: nat
        ensures !Shortest(g.Read, x, n, j)
      {
        if Multiple(n, Pow10(j)) {
          ZerosAtMost(d, k, n, j);
          TenDivides(j, k);
          MultipleTransitive(c, Pow10(k), Pow10(j));
          assert !Beats(x, n, c, Pow10(j));
        }
      }
    }
  }

  /** The only numeral of its step that reads as its value is the shortest. */
  lemma SoleReading(g: Grid, d: nat, k: nat, n: nat)
    requires d % 10 != 0 && n == d * Pow10(k)
    requires forall c: nat :: Multiple(c, Pow10(k)) && g.Read(c) == g.Read(n) ==> c == n
    ensures g.Survives(n)
  {
    forall c: nat | Multiple(c, Pow10(k + 1))
      ensures g.Read(c) != g.Read(n)
    {
      NotRounder(d, Pow10(k), n, c);
    }
    assert Shortest(g.Read, g.Read(n), n, k);
    MulMono(1, d, Pow10(k));
    SurvivesExactly(g, n);
  }

  // ------------------------------------------------ Up to fifteen digits

  const FifteenDigits: nat := 1_000_000_000_000_000

  /** At least 2^-1022, the least normal float64. */
  predicate Normal(g: Grid, n: nat) {
    Precision / 2 * g.unit <= n
  }

  lemma UlpGrows(unit: pos, a: nat, b: nat)
    requires a <= b
    ensures Ulp(unit, a) <= Ulp(unit, b)
  {
    UlpSpaced(unit, a);
    UlpSpaced(unit, b);
    SpacingAtMost(unit, a, Ulp(unit, a), Ulp(unit, b));
  }

  lemma SmallStep(u: nat, b: nat, p: nat)
    requires Precision / 2 * u <= b <= FifteenDigits * p && p >= 1
    ensures u < p
  {
  }

  lemma NormalUlp(g: Grid, b: nat, p: nat)
    requires Normal(g, b) && b <= FifteenDigits * p && p >= 1
    ensures Ulp(g.unit, b) < p
  {
    UlpSpaced(g.unit, b);
    SpacingDoubles(g.unit, Ulp(g.unit, b));
    SmallStep(Ulp(g.unit, b), b, p);
  }

  /** Multiples of `p` up to 10^15 p are told apart. */
  lemma ToldApart(g: Grid, a: nat, b: nat, p: nat)
    requires p >= 1 && a + p <= b <= FifteenDigits * p && Normal(g, b)
    ensures g.Read(a) < g.Read(b)
  {
    NormalUlp(g, b, p);
    UlpGrows(g.unit, a, b);
    RoundToMeans(a, Ulp(g.unit, a));
    RoundToMeans(b, Ulp(g.unit, b));
  }

  lemma OnlyReading(g: Grid, n: nat, p: nat, c: nat)
    requires p >= 1 && Multiple(n, p) && Multiple(c, p) && n + p <= FifteenDigits * p && Normal(g, n)
    ensures g.Read(c) == g.Read(n) ==> c == n
  {
    NothingBetween(c, n, p);
    NothingBetween(n, c, p);
    if c + p <= n {
      ToldApart(g, c, n, p);
    } else if n + p <= c {
      ToldApart(g, n, n + p, p);
      RoundMonotone(g.unit, n + p, c);
    }
  }

  lemma ShiftZero(h: nat, k: nat)
    ensures h * Pow10(k + 1) == 10 * h * Pow10(k)
  {
    assert Pow10(k + 1) == 10 * Pow10(k);
  }

  lemma NextStep(d: nat, p: nat, n: nat)
    requires d < FifteenDigits && n == d * p
    ensures n + p <= FifteenDigits * p && Multiple(n, p)
  {
    MulMono(d + 1, FifteenDigits, p);
    assert (d + 1) * p == n + p;
  }

  lemma FifteenNoZeros(g: Grid, d: nat, k: nat, n: nat)
    requires d < FifteenDigits && d % 10 != 0 && n == d * Pow10(k) && Normal(g, n)
    ensures g.Survives(n)
  {
    NextStep(d, Pow10(k), n);
    forall c: nat | Multiple(c, Pow10(k)) && g.Read(c) == g.Read(n)
      ensures c == n
    {
      OnlyReading(g, n, Pow10(k), c);
    }
    SoleReading(g, d, k, n);
  }

  /** Every numeral of at most fifteen significant digits survives, unless it is
      below the normal numbers. */
  lemma {:induction false} FifteenDigitsSurvive(g: Grid, d: nat, k: nat)
    requires d < FifteenDigits && (d == 0 || Normal(g, d * Pow10(k)))
    ensures g.Survives(d * Pow10(k))
    decreases d
  {
    if d == 0 {
      ZeroReads(g);
      ZeroPrints(g);
    } else if d % 10 == 0 {
      ShiftZero(d / 10, k);
      FifteenDigitsSurvive(g, d / 10, k + 1);
    } else {
      FifteenNoZeros(g, d, k, d * Pow10(k));
    }
  }

  // -------------------------------------------- More than seventeen digits

  const SeventeenDigits: nat := 100_000_000_000_000_000

  lemma TwiceBelow(u: nat, v: nat, y: nat)
    requires 4 * v <= u && y < Precision * v
    ensures y < Precision / 2 * u && 2 * (Precision / 2 * u - y) >= u
  {
  }

  lemma OnceBelow(u: nat, v: nat, y: nat)
    requires u == 2 * v && v >= 1 && Multiple(y, v) && y < Precision * v
    ensures y < Precision / 2 * u && 2 * (Precision / 2 * u - y) >= u
  {
    NoMultipleBetween(y, Precision - 1, v);
    assert (Precision - 1) * v + v == Precision * v;
  }

  /** Below a binade of spacing `u` the next value is at least half of `u` away. */
  lemma BinadeEdge(unit: pos, u: nat, y: nat, v: nat)
    requires Spacing(unit, u) && Spaced(unit, y, v) && v < u && Multiple(y, v)
    ensures y < Precision / 2 * u && 2 * (Precision / 2 * u - y) >= u
  {
    SpacingsCompare(unit, v, u);
    SpacingDoubles(unit, v);
    if 2 * v < u {
      SpacingsCompare(unit, 2 * v, u);
      TwiceBelow(u, v, y);
    } else {
      OnceBelow(u, v, y);
    }
  }

  lemma StepApart(x: nat, y: nat, u: nat)
    requires u >= 1 && x != y && Multiple(x, u) && Multiple(y, u)
    ensures Gap(x, y) >= u
  {
    NothingBetween(x, y, u);
    NothingBetween(y, x, u);
  }

  lemma GapInBinade(x: nat, y: nat, u: nat)
    requires Gap(x, y) >= u && x < Precision * u
    ensures Precision * Gap(x, y) >= x
  {
  }

  lemma GapAcross(x: nat, y: nat, u: nat)
    requires y < Precision / 2 * u <= x && 2 * (Precision / 2 * u - y) >= u
    ensures Precision * Gap(x, y) >= x
  {
  }

  /** Neighbouring values are further apart than their 2^53rd part. */
  lemma NeighbourGap(unit: pos, x: nat, y: nat)
    requires IsBinary64(unit, x) && IsBinary64(unit, y) && x != y
    ensures Precision * Gap(x, y) >= x
  {
    RoundFixes(unit, x);
    RoundFixes(unit, y);
    UlpSpaced(unit, x);
    UlpSpaced(unit, y);
    SpacedGap(unit, x, Ulp(unit, x), y, Ulp(unit, y));
  }

  lemma SpacedGap(unit: pos, x: nat, u: nat, y: nat, v: nat)
    requires Spaced(unit, x, u) && Spaced(unit, y, v) && Multiple(x, u) && Multiple(y, v) && x != y
    ensures Precision * Gap(x, y) >= x
  {
    SpacingDoubles(unit, u);
    if u <= v {
      SpacingsCompare(unit, u, v);
      MultipleTransitive(y, v, u);
      StepApart(x, y, u);
      GapInBinade(x, y, u);
    } else {
      LowerBinade(unit, x, u, y, v);
      BinadeEdge(unit, u, y, v);
      GapAcross(x, y, u);
    }
  }

  lemma UnitGap(unit: pos, x: nat, y: nat)
    requires IsBinary64(unit, x) && IsBinary64(unit, y) && x != y
    ensures Gap(x, y) >= unit
  {
    MultipleOfUnit(unit, x);
    MultipleOfUnit(unit, y);
    StepApart(x, y, unit);
  }

  lemma SpacingIsMultiple(unit: pos, u: nat)
    requires Spacing(unit, u)
    ensures Multiple(u, unit)
  {
    var e: nat :| u == unit * Pow2(e);
    assert u == Pow2(e) * unit;
  }

  lemma MultipleOfUnit(unit: pos, x: nat)
    requires IsBinary64(unit, x)
    ensures Multiple(x, unit)
  {
    RoundFixes(unit, x);
    UlpSpaced(unit, x);
    SpacingIsMultiple(unit, Ulp(unit, x));
    MultipleTransitive(x, Ulp(unit, x), unit);
  }

  lemma Triangle(x: nat, y: nat, c: nat, unit: nat)
    requires Gap(y, c) <= Gap(x, c) && Precision * Gap(x, y) >= x && Gap(x, y) >= unit
    ensures 2 * Precision * Gap(c, x) >= x && 2 * Gap(c, x) >= unit
  {
  }

  /** Whatever is near enough to a value reads as it. */
  lemma ReadsWithin(g: Grid, x: nat, c: nat)
    requires g.Read(x) == x
    ensures 2 * Precision * Gap(c, x) < x || 2 * Gap(c, x) < g.unit ==> g.Read(c) == x
  {
    var y := g.Read(c);
    ReadFixes(g, c);
    RoundNearest(g.unit, c, x);
    if y != x {
      NeighbourGap(g.unit, x, y);
      UnitGap(g.unit, x, y);
      Triangle(x, y, c, g.unit);
    }
  }

  /** A numeral of eighteen digits is far above the steps of its last but one. */
  lemma FarAbove(g: Grid, n: nat, p: nat)
    requires p >= 1 && SeventeenDigits * p <= n
    ensures 10 * Precision * p < g.Read(n) || 10 * p < g.unit
  {
    UlpSpaced(g.unit, n);
    RoundToMeans(n, Ulp(g.unit, n));
  }

  lemma RounderNear(x: nat, p: nat) returns (c: nat)
    requires p >= 1
    ensures Multiple(c, 10 * p) && Gap(c, x) <= 5 * p
  {
    c := RoundTo(x, 10 * p);
    RoundToMeans(x, 10 * p);
  }

  lemma NearReads(g: Grid, x: nat, p: nat, c: nat)
    requires g.Read(x) == x && Gap(c, x) <= 5 * p && (10 * Precision * p < x || 10 * p < g.unit)
    ensures g.Read(c) == x
  {
    ReadsWithin(g, x, c);
  }

  lemma RounderReads(g: Grid, n: nat, p: nat) returns (c: nat)
    requires p >= 1 && SeventeenDigits * p <= n
    ensures Multiple(c, 10 * p) && g.Read(c) == g.Read(n)
  {
    FarAbove(g, n, p);
    ReadFixes(g, n);
    c := RounderNear(g.Read(n), p);
    NearReads(g, g.Read(n), p, c);
  }

  /** Every numeral of more than seventeen significant digits is lost. */
  lemma SeventeenDigitsAtMost(g: Grid, d: nat, k: nat)
    requires d >= SeventeenDigits && d % 10 != 0
    ensures !g.Survives(d * Pow10(k))
  {
    var n := d * Pow10(k);
    MulMono(SeventeenDigits, d, Pow10(k));
    var c := RounderReads(g, n, Pow10(k));
    RounderWins(g, d, k, n, c);
  }

  // ------------------------------------------------------- Whole numbers

  /** One, on the grid. */
  function One(sc: Scale): pos {
    Pow10(sc.places)
  }

  /** Whole numbers below 2^53 are float64 values. */
  lemma WholeReads(sc: Scale, n: nat)
    requires n < Precision
    ensures sc.Read(n * One(sc)) == n * One(sc)
  {
    WholeScaled(sc, n);
    ScaledReads(sc, n * One(sc), n, Subnormal);
  }

  lemma WholeScaled(sc: Scale, n: nat)
    requires n < Precision
    ensures Scaled(sc.unit, n * One(sc), n, Subnormal)
  {
    assert One(sc) == sc.unit * Pow2(Subnormal);
  }

  lemma EdgeReads(sc: Scale)
    ensures sc.Read(Precision * One(sc)) == Precision * One(sc)
    ensures sc.Read((Precision + 2) * One(sc)) == (Precision + 2) * One(sc)
  {
    var t := One(sc);
    WholeReads(sc, Precision / 2);
    TwiceReads(sc, Precision / 2 * t);
    assert 2 * (Precision / 2 * t) == Precision * t;
    WholeReads(sc, Precision / 2 + 1);
    TwiceReads(sc, (Precision / 2 + 1) * t);
    assert 2 * ((Precision / 2 + 1) * t) == (Precision + 2) * t;
  }

  lemma Cancel(m: nat, n: nat, t: pos)
    ensures m * t == n * t <==> m == n
    ensures m < n ==> m * t < n * t
  {
    MulMono(m + 1, n, t);
    MulMono(n + 1, m, t);
    assert (m + 1) * t == m * t + t && (n + 1) * t == n * t + t;
  }

  lemma WholeApart(sc: Scale, n: nat, m: nat)
    requires n < Precision
    ensures sc.Read(m * One(sc)) == sc.Read(n * One(sc)) ==> m == n
  {
    var t := One(sc);
    WholeReads(sc, n);
    Cancel(m, n, t);
    if m < Precision {
      WholeReads(sc, m);
    } else {
      EdgeReads(sc);
      MulMono(Precision, m, t);
      RoundMonotone(sc.unit, Precision * t, m * t);
      Cancel(n, Precision, t);
    }
  }

  lemma {:induction false} Pow10Add(i: nat, j: nat)
    ensures Pow10(i + j) == Pow10(i) * Pow10(j)
  {
    if i != 0 {
      Pow10Add(i - 1, j);
    }
  }

  lemma WholeSole(sc: Scale, n: nat, k: nat, c: nat)
    requires n < Precision && k >= sc.places && Multiple(c, Pow10(k))
    ensures sc.Read(c) == sc.Read(n * One(sc)) ==> c == n * One(sc)
  {
    TenDivides(sc.places, k);
    MultipleTransitive(c, Pow10(k), Pow10(sc.places));
    var m: nat :| c == m * One(sc);
    WholeApart(sc, n, m);
  }

  lemma WholeNoZeros(sc: Scale, d: nat, k: nat, n: nat, w: nat)
    requires n < Precision && w == n * One(sc) && k >= sc.places && d % 10 != 0 && w == d * Pow10(k)
    ensures sc.Survives(w)
  {
    forall c: nat | Multiple(c, Pow10(k)) && sc.Read(c) == sc.Read(w)
      ensures c == w
    {
      WholeSole(sc, n, k, c);
    }
    SoleReading(sc, d, k, w);
  }

  lemma {:induction false} StripZeros(n: nat) returns (d: nat, i: nat)
    requires n > 0
    ensures d % 10 != 0 && n == d * Pow10(i)
  {
    if n % 10 != 0 {
      d, i := n, 0;
    } else {
      d, i := StripZeros(n / 10);
      ShiftZero(d, i);
      i := i + 1;
    }
  }

  lemma Regroup(d: nat, i: nat, places: nat)
    ensures d * Pow10(i) * Pow10(places) == d * Pow10(i + places)
  {
    Pow10Add(i, places);
  }

  /** Every whole number below 2^53 survives. */
  lemma WholeSurvives(sc: Scale, n: nat)
    requires n < Precision
    ensures sc.Survives(n * One(sc))
  {
    if n == 0 {
      ZeroReads(sc);
      ZeroPrints(sc);
    } else {
      var d, i := StripZeros(n);
      Regroup(d, i, sc.places);
      WholeNoZeros(sc, d, i + sc.places, n, n * One(sc));
    }
  }
}
