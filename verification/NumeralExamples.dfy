/** Numbers that show where the rules about surviving numerals end. */
module NumeralExamples {
  import opened Binary64
  import opened ShortestNumeral
  import opened JsonNumber
  import opened NumeralDigits

  // ------------------------------------------- Reading large whole numbers

  lemma WholeSpacing(sc: Scale, w: nat, e: nat)
    requires w == Pow2(e)
    ensures Spacing(sc.unit, w * One(sc))
  {
    Pow2Add(e, Subnormal);
    Swap(w, sc.unit, Pow2(Subnormal));
    assert w * One(sc) == sc.unit * Pow2(e + Subnormal);
  }

  lemma WholeBounds(n: nat, w: nat, t: pos)
    requires Precision / 2 * w <= n < Precision * w
    ensures Precision / 2 * (w * t) <= n * t < Precision * (w * t)
  {
    MulMono(Precision / 2 * w, n, t);
    MulMono(n + 1, Precision * w, t);
    assert (n + 1) * t == n * t + t;
    assert Precision / 2 * w * t == Precision / 2 * (w * t) && Precision * w * t == Precision * (w * t);
  }

  /** Between 2^52 w and 2^53 w whole numbers are spaced by `w`. */
  lemma WholeUlp(sc: Scale, n: nat, w: nat, e: nat)
    requires w == Pow2(e) && Precision / 2 * w <= n < Precision * w
    ensures Ulp(sc.unit, n * One(sc)) == w * One(sc)
  {
    WholeSpacing(sc, w, e);
    WholeBounds(n, w, One(sc));
    UlpIs(sc.unit, n * One(sc), w * One(sc));
  }

  lemma WholeDivision(n: nat, w: pos, q: nat, r: nat, t: pos)
    requires n == q * w + r && r < w
    ensures n * t / (w * t) == q && n * t % (w * t) == r * t
  {
    MulMono(r + 1, w, t);
    assert (r + 1) * t == r * t + t;
    assert n * t == q * (w * t) + r * t;
    DivModUnique(n * t, w * t, q, r * t);
  }

  lemma RoundDown(a: nat, u: pos, q: nat)
    requires a / u == q && (2 * (a % u) < u || (2 * (a % u) == u && q % 2 == 0))
    ensures RoundTo(a, u) == q * u
  {
  }

  /** A remainder below half, or of half over an even quotient, is dropped. */
  lemma ReadWhole(sc: Scale, n: nat, w: pos, e: nat, q: nat, r: nat)
    requires w == Pow2(e) && Precision / 2 * w <= n < Precision * w && n == q * w + r
    requires 2 * r < w || (2 * r == w && q % 2 == 0)
    ensures sc.Read(n * One(sc)) == q * w * One(sc)
  {
    var t := One(sc);
    WholeUlp(sc, n, w, e);
    WholeDivision(n, w, q, r, t);
    HalfScaled(r, w, t);
    RoundDown(n * t, w * t, q);
    Assoc(q, w, t);
  }

  lemma Assoc(a: nat, b: nat, c: nat)
    ensures a * (b * c) == a * b * c
  {
  }

  lemma HalfScaled(r: nat, w: nat, t: pos)
    ensures 2 * r < w ==> 2 * (r * t) < w * t
    ensures 2 * r == w ==> 2 * (r * t) == w * t
  {
    Assoc(2, r, t);
    MulMono(2 * r + 1, w, t);
    assert (2 * r + 1) * t == 2 * r * t + t;
  }

  // ------------------------------------------------------------ Examples

  /** 2^53 + 1 is lost: it reads as 2^53. */
  lemma FirstLoss(sc: Scale)
    ensures sc.Read((Precision + 1) * One(sc)) == Precision * One(sc)
    ensures !sc.Survives((Precision + 1) * One(sc))
  {
    var n := (Precision + 1) * One(sc);
    var c := Precision * One(sc);
    assert Pow2(1) == 2;
    ReadWhole(sc, Precision + 1, 2, 1, Precision / 2, 1);
    EdgeReads(sc);
    NearerWins(sc, Precision + 1, sc.places, n, c);
  }

  /** No multiple of ten reads as 2^53. */
  lemma NoTensAtEdge(sc: Scale, c: nat)
    requires Multiple(c, Pow10(sc.places + 1))
    ensures sc.Read(c) != Precision * One(sc)
  {
    var t := One(sc);
    var m: nat :| c == m * Pow10(sc.places + 1);
    ShiftZero(m, sc.places);
    AwayFromEdge(sc, 10 * m, c);
  }

  lemma AwayFromEdge(sc: Scale, m: nat, c: nat)
    requires c == m * One(sc) && (m < Precision || m >= Precision + 2)
    ensures sc.Read(c) != Precision * One(sc)
  {
    var t := One(sc);
    Cancel(m, Precision, t);
    EdgeReads(sc);
    if m < Precision {
      WholeReads(sc, m);
    } else {
      MulMono(Precision + 2, m, t);
      RoundMonotone(sc.unit, (Precision + 2) * t, c);
      Cancel(Precision, Precision + 2, t);
    }
  }

  lemma EdgePrints(sc: Scale)
    ensures sc.Print(Precision * One(sc)) == Precision * One(sc)
  {
    var x := Precision * One(sc);
    EdgeReads(sc);
    forall c: nat | Multiple(c, Pow10(sc.places + 1))
      ensures sc.Read(c) != x
    {
      NoTensAtEdge(sc, c);
    }
    assert Shortest(sc.Read, x, x, sc.places);
    PrintedExactly(sc, x, x);
  }

  /** It comes back as 2^53. */
  lemma FirstLossComesBackAs(sc: Scale)
    ensures sc.Reread((Precision + 1) * One(sc)) == Precision * One(sc)
  {
    FirstLoss(sc);
    EdgePrints(sc);
  }

  /** 2^60 is a float64 value and is lost: a rounder numeral reads alike. */
  lemma BinaryValueLost(sc: Scale)
    ensures IsBinary64(sc.unit, 0x1000_0000_0000_0000 * One(sc)) && !sc.Survives(0x1000_0000_0000_0000 * One(sc))
  {
    var n, c := 0x1000_0000_0000_0000 * One(sc), 1152921504606847000 * One(sc);
    assert Pow2(8) == 256;
    ReadWhole(sc, 0x1000_0000_0000_0000, 256, 8, 0x10_0000_0000_0000, 0);
    ReadWhole(sc, 1152921504606847000, 256, 8, 0x10_0000_0000_0000, 24);
    assert Pow10(sc.places + 1) == 10 * One(sc);
    assert c == 115292150460684700 * Pow10(sc.places + 1);
    RounderWins(sc, 0x1000_0000_0000_0000, sc.places, n, c);
  }

  lemma TenTo23(n: nat)
    requires n == Pow10(23)
    ensures n == 100_000_000_000_000_000_000_000
  {
    assert Pow10(8) == 100_000_000;
    assert Pow10(16) == 10_000_000_000_000_000;
  }

  lemma TwoTo24()
    ensures Pow2(24) == 0x100_0000
  {
    assert Pow2(12) == 0x1000;
  }

  lemma TwoTo52()
    ensures Pow2(52) == Precision / 2
  {
    assert Pow2(13) == 0x2000;
    Pow2Add(13, 13);
    Pow2Add(26, 26);
  }

  /** One is a normal number. */
  lemma OneIsNormal(sc: Scale)
    ensures Precision / 2 * sc.unit <= One(sc)
  {
    TwoTo52();
    Pow2Grows(52, Subnormal);
    NormalProduct(sc.unit, Pow2(Subnormal));
  }

  lemma NormalProduct(u: nat, p: nat)
    requires Precision / 2 <= p
    ensures Precision / 2 * u <= u * p
  {
    MulMono(Precision / 2, p, u);
  }

  lemma NotAMultiple(a: nat, u: pos, q: nat, r: nat)
    requires a / u == q && a % u == r && r > 0
    ensures !Multiple(a, u)
  {
    DivMod(a, u);
    if Multiple(a, u) {
      NoMultipleBetween(a, q, u);
    }
  }

  lemma HalfwayBetween(sc: Scale, n: nat)
    requires n == 100_000_000_000_000_000_000_000
    ensures !IsBinary64(sc.unit, n * One(sc))
  {
    TwoTo24();
    WholeUlp(sc, n, 0x100_0000, 24);
    WholeDivision(n, 0x100_0000, 5960464477539062, 0x80_0000, One(sc));
    NotAMultiple(n * One(sc), 0x100_0000 * One(sc), 5960464477539062, 0x80_0000 * One(sc));
    RoundFixes(sc.unit, n * One(sc));
  }

  /** 10^23 is no float64 value and survives. */
  lemma NonBinaryValueSurvives(sc: Scale, n: nat)
    requires n == Pow10(23)
    ensures !IsBinary64(sc.unit, n * One(sc)) && sc.Survives(n * One(sc))
  {
    TenTo23(n);
    HalfwayBetween(sc, n);
    Pow10Add(23, sc.places);
    OneIsNormal(sc);
    MulMono(1, n, One(sc));
    FifteenDigitsSurvive(sc, 1, 23 + sc.places);
  }

  lemma Squared(e: nat, v: nat)
    requires Pow2(e) == v
    ensures Pow2(e + e) == v * v
  {
    Pow2Add(e, e);
  }

  lemma TwoTo128(e: nat)
    requires e == 8
    ensures Pow2(16 * e) == 0x1_0000_0000_0000_0000_0000_0000_0000_0000
  {
    assert Pow2(8) == 256;
    Squared(e, 0x100);
    Squared(2 * e, 0x1_0000);
    Squared(4 * e, 0x1_0000_0000);
    Squared(8 * e, 0x1_0000_0000_0000_0000);
  }

  lemma EighthPower(e: nat)
    requires Pow2(e) == 0x1_0000_0000_0000_0000_0000_0000_0000_0000
    ensures Pow2(8 * e) == Overflow
  {
    Squared(e, 0x1_0000_0000_0000_0000_0000_0000_0000_0000);
    Squared(2 * e, 0x1_0000_0000_0000_0000_0000_0000_0000_0000_0000_0000_0000_0000_0000_0000_0000_0000);
    Squared(4 * e, 0x1_0000_0000_0000_0000_0000_0000_0000_0000_0000_0000_0000_0000_0000_0000_0000_0000_0000_0000_0000_0000_0000_0000_0000_0000_0000_0000_0000_0000_0000_0000_0000_0000);
  }

  /** The range ends at 2^1024. */
  lemma OverflowIsPowerOfTwo(e: nat)
    requires e == 1024
    ensures Overflow == Pow2(e)
  {
    var eight := e / 128;
    TwoTo128(eight);
    EighthPower(16 * eight);
    assert 8 * (16 * eight) == e;
  }

  // ------------------------------------------------------ Where the range ends

  /** From half a step below 2^53 steps on, rounding reaches 2^53 steps. */
  lemma LastStep(a: nat, h: pos)
    requires Precision / 2 * (2 * h) <= a < Precision * (2 * h)
    ensures RoundTo(a, 2 * h) < Precision * (2 * h) <==> a < Precision * (2 * h) - h
  {
    var u := 2 * h;
    var q, r := a / u, a % u;
    DivMod(a, u);
    MulMono(Precision, q, u);
    MulMono(q + 1, Precision - 1, u);
    assert (q + 1) * u == q * u + u && (Precision - 1) * u == Precision * u - u;
    if q == Precision - 1 {
      assert q % 2 == 1;
    }
  }

  lemma RangeOfBinade(g: Grid, a: nat, h: pos)
    requires Spacing(g.unit, 2 * h) && 2 * h > g.unit
    ensures g.Read(a) < Precision * (2 * h) <==> a < Precision * (2 * h) - h
  {
    var u := 2 * h;
    HalfEdge(g, u, Precision / 2 * u);
    FullEdge(g, u, Precision / 2 * u, Precision * u);
    if a < Precision / 2 * u {
      RoundMonotone(g.unit, a, Precision / 2 * u);
    } else if a < Precision * u {
      UlpIs(g.unit, a, u);
      LastStep(a, h);
    } else {
      RoundMonotone(g.unit, Precision * u, a);
    }
  }

  lemma FullEdge(g: Grid, u: pos, x: nat, y: nat)
    requires Spacing(g.unit, u) && x == Precision / 2 * u && y == 2 * x
    ensures g.Read(y) == y
  {
    HalfEdge(g, u, x);
    TwiceReads(g, x);
  }

  lemma HalfEdge(g: Grid, u: pos, x: nat)
    requires Spacing(g.unit, u) && x == Precision / 2 * u
    ensures g.Read(x) == x
  {
    var e: nat :| u == g.unit * Pow2(e);
    assert Scaled(g.unit, x, Precision / 2, e);
    ScaledReads(g, x, Precision / 2, e);
  }

  /** 2^970, half the distance of the largest float64 from 2^1024. */
  const LastHalf: nat := 0x400_0000_0000_0000_0000_0000_0000_0000_0000_0000_0000_0000_0000_0000_0000_0000_0000_0000_0000_0000_0000_0000_0000_0000_0000_0000_0000_0000_0000_0000_0000_0000_0000_0000_0000_0000_0000_0000_0000_0000_0000_0000_0000_0000_0000_0000_0000_0000_0000_0000_0000_0000_0000_0000_0000_0000_0000_0000_0000_0000_0000

  lemma LastSpacing(e: nat)
    requires e == 1024
    ensures Pow2(e - 53) == 2 * LastHalf
  {
    OverflowIsPowerOfTwo(e);
    Pow2Add(53, e - 53);
    TwoTo53();
    assert Precision * Pow2(e - 53) == Precision * (2 * LastHalf);
  }

  lemma TwoTo53()
    ensures Pow2(53) == Precision
  {
    TwoTo52();
  }

  /** A number is in range exactly below 2^1024 - 2^970: from there on it rounds to
      2^1024. */
  lemma RangeExactly(sc: Scale, n: int)
    ensures sc.InRange(n) <==> Magnitude(n) < (Overflow - LastHalf) * One(sc)
  {
    var t := One(sc);
    var h := LastHalf * t;
    LastSpacing(1024);
    WholeSpacing(sc, 2 * LastHalf, 1024 - 53);
    assert 2 * LastHalf * t == 2 * h;
    OneIsNormal(sc);
    MulMono(1, LastHalf, t);
    RangeOfBinade(sc, Magnitude(n), h);
    assert Precision * (2 * h) == Overflow * t;
    assert (Overflow - LastHalf) * t == Overflow * t - h;
  }
}
