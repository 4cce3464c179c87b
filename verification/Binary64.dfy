/** Rounding to binary64, on a grid of equally spaced numbers fine enough to hold
    every binary64 value: numbers are counted in steps of the grid, and `unit` is
    the least positive binary64 value, 2^-1074, counted that way. */
module Binary64 {

  type pos = n: nat | n >= 1 witness 1

  /** 2^53, the number of significands. */
  const Precision: nat := 0x20_0000_0000_0000

  // ----------------------------------------------------------- Multiples

  ghost predicate Multiple(x: nat, u: nat) {
    exists m: nat :: x == m * u
  }

  function Gap(x: nat, y: nat): nat {
    if x < y then y - x else x - y
  }

  lemma MulMono(a: nat, b: nat, u: nat)
    ensures a <= b ==> a * u <= b * u
  {
  }

  lemma DivMod(a: nat, u: nat)
    requires u >= 1
    ensures a == a / u * u + a % u && 0 <= a % u < u
  {
  }

  lemma DivModUnique(a: nat, u: nat, q: nat, r: nat)
    requires u >= 1 && a == q * u + r && r < u
    ensures a / u == q && a % u == r
  {
    DivMod(a, u);
    var k := a / u;
    MulMono(k + 1, q, u);
    MulMono(q + 1, k, u);
    assert (k + 1) * u == k * u + u && (q + 1) * u == q * u + u;
  }

  /** Between neighbouring multiples there is no other. */
  lemma NoMultipleBetween(x: nat, q: nat, u: nat)
    requires u >= 1 && Multiple(x, u)
    ensures x <= q * u || q * u + u <= x
  {
    var m: nat :| x == m * u;
    MulMono(m, q, u);
    MulMono(q + 1, m, u);
    assert (q + 1) * u == q * u + u;
  }

  lemma MultipleTransitive(x: nat, v: nat, u: nat)
    requires Multiple(x, v) && Multiple(v, u)
    ensures Multiple(x, u)
  {
    var m: nat :| x == m * v;
    var t: nat :| v == t * u;
    assert x == (m * t) * u;
  }

  // -------------------------------------------------------- Powers of two

  function Pow2(e: nat): (p: nat)
    ensures p >= 1
  {
    if e == 0 then 1 else 2 * Pow2(e - 1)
  }

  lemma {:induction false} Pow2Add(d: nat, e: nat)
    ensures Pow2(d + e) == Pow2(d) * Pow2(e)
  {
    if d != 0 {
      Pow2Add(d - 1, e);
    }
  }

  lemma {:induction false} Pow2Grows(d: nat, e: nat)
    requires d < e
    ensures 2 * Pow2(d) <= Pow2(e)
    decreases e
  {
    if d < e - 1 {
      Pow2Grows(d, e - 1);
    }
  }

  /** A distance between neighbouring binary64 values. */
  ghost predicate Spacing(unit: pos, u: nat) {
    exists e: nat :: u == unit * Pow2(e)
  }

  lemma SpacingDoubles(unit: pos, u: nat)
    requires Spacing(unit, u)
    ensures Spacing(unit, 2 * u) && u >= unit
  {
    var e: nat :| u == unit * Pow2(e);
    assert 2 * u == unit * Pow2(e + 1);
    MulMono(1, Pow2(e), unit);
  }

  lemma Swap(a: nat, b: nat, c: nat)
    ensures a * b * c == b * (a * c) && a * (b * c) == b * (a * c)
  {
  }

  lemma LargerExponent(unit: pos, d: nat, e: nat)
    requires d < e
    ensures 2 * (unit * Pow2(d)) <= unit * Pow2(e)
  {
    Pow2Grows(d, e);
    MulMono(2 * Pow2(d), Pow2(e), unit);
    Swap(2, unit, Pow2(d));
  }

  lemma ExponentDivides(unit: pos, d: nat, e: nat)
    requires d <= e
    ensures Multiple(unit * Pow2(e), unit * Pow2(d))
  {
    Pow2Add(e - d, d);
    Swap(unit, Pow2(e - d), Pow2(d));
  }

  /** Of two spacings the larger is a multiple of the smaller, and at least twice it. */
  lemma SpacingsCompare(unit: pos, u: nat, v: nat)
    requires Spacing(unit, u) && Spacing(unit, v)
    ensures u < v ==> 2 * u <= v
    ensures u <= v ==> Multiple(v, u)
  {
    var d: nat :| u == unit * Pow2(d);
    var e: nat :| v == unit * Pow2(e);
    if d < e {
      LargerExponent(unit, d, e);
    } else if e < d {
      LargerExponent(unit, e, d);
      SpacingDoubles(unit, v);
    }
    if d <= e {
      ExponentDivides(unit, d, e);
    }
  }

  // ------------------------------------------------------------ Rounding

  /** The distance between neighbouring binary64 values at `a`. */
  function Ulp(unit: pos, a: nat): (u: pos)
    decreases a
  {
    if a < Precision * unit then unit else 2 * Ulp(unit, a / 2)
  }

  /** The nearest multiple of `u`, ties to the even one. */
  function RoundTo(a: nat, u: pos): nat {
    var q, r := a / u, a % u;
    if 2 * r < u || (2 * r == u && q % 2 == 0) then q * u else (q + 1) * u
  }

  /** The nearest binary64 value, ties to the even significand. */
  function Round(unit: pos, a: nat): nat {
    RoundTo(a, Ulp(unit, a))
  }

  predicate IsBinary64(unit: pos, x: nat) {
    Round(unit, x) == x
  }

  /** The binade of `x` has spacing `u`. */
  ghost predicate Spaced(unit: pos, x: nat, u: nat) {
    Spacing(unit, u) && x < Precision * u && (u > unit ==> Precision / 2 * u <= x)
  }

  lemma {:induction false} UlpSpaced(unit: pos, a: nat)
    ensures Spaced(unit, a, Ulp(unit, a))
    decreases a
  {
    if a < Precision * unit {
      assert Pow2(0) == 1 && unit == unit * Pow2(0);
    } else {
      UlpSpaced(unit, a / 2);
      SpacingDoubles(unit, Ulp(unit, a / 2));
    }
  }

  lemma SpacingUnique(unit: pos, x: nat, u: nat, v: nat)
    requires Spaced(unit, x, u) && Spaced(unit, x, v)
    ensures u == v
  {
    SpacingsCompare(unit, u, v);
    SpacingsCompare(unit, v, u);
    SpacingDoubles(unit, u);
    SpacingDoubles(unit, v);
  }

  lemma UlpIs(unit: pos, x: nat, u: nat)
    requires Spaced(unit, x, u)
    ensures Ulp(unit, x) == u
  {
    UlpSpaced(unit, x);
    SpacingUnique(unit, x, u, Ulp(unit, x));
  }

  lemma RoundToMeans(a: nat, u: pos)
    ensures Multiple(RoundTo(a, u), u)
    ensures 2 * RoundTo(a, u) <= 2 * a + u && 2 * a <= 2 * RoundTo(a, u) + u
    ensures forall d: nat :: Multiple(d, u) ==> Gap(RoundTo(a, u), a) <= Gap(d, a)
  {
    var q, r := a / u, a % u;
    DivMod(a, u);
    assert (q + 1) * u == q * u + u;
    forall d: nat | Multiple(d, u)
      ensures Gap(RoundTo(a, u), a) <= Gap(d, a)
    {
      NoMultipleBetween(d, q, u);
    }
  }

  /** Halfway between two multiples the even one is taken. */
  lemma TieToEven(q: nat, h: pos)
    ensures RoundTo(q * (2 * h) + h, 2 * h) == (if q % 2 == 0 then q else q + 1) * (2 * h)
  {
    DivModUnique(q * (2 * h) + h, 2 * h, q, h);
  }

  // ------------------------------------------------- What rounding means

  lemma RoundFixes(unit: pos, x: nat)
    ensures IsBinary64(unit, x) <==> Multiple(x, Ulp(unit, x))
  {
    var u := Ulp(unit, x);
    RoundToMeans(x, u);
    if Multiple(x, u) {
      assert Gap(RoundTo(x, u), x) <= Gap(x, x);
    }
  }

  lemma StaysInBinade(unit: pos, a: nat, u: pos, x: nat)
    requires Spaced(unit, a, u) && Multiple(x, u) && 2 * x <= 2 * a + u && 2 * a <= 2 * x + u
    ensures x <= Precision * u && (u > unit ==> Precision / 2 * u <= x)
  {
    NoMultipleBetween(x, Precision, u);
    NoMultipleBetween(x, Precision / 2 - 1, u);
    assert (Precision / 2 - 1) * u + u == Precision / 2 * u;
  }

  /** Rounding gives a binary64 value, so it is idempotent. */
  lemma RoundIsBinary64(unit: pos, a: nat)
    ensures IsBinary64(unit, Round(unit, a))
  {
    var u, x := Ulp(unit, a), Round(unit, a);
    UlpSpaced(unit, a);
    RoundToMeans(a, u);
    StaysInBinade(unit, a, u, x);
    if x < Precision * u {
      UlpIs(unit, x, u);
    } else {
      SpacingDoubles(unit, u);
      UlpIs(unit, x, 2 * u);
      assert x == Precision / 2 * (2 * u);
    }
    RoundFixes(unit, x);
  }

  predicate Scaled(unit: pos, x: nat, m: nat, e: nat) {
    m < Precision && x == m * (unit * Pow2(e))
  }

  lemma TimesBelow(m: nat, v: pos)
    requires m < Precision
    ensures m * v < Precision * v
  {
    MulMono(m + 1, Precision, v);
    assert (m + 1) * v == m * v + v;
  }

  lemma BelowTimes(m: nat, v: pos)
    requires m * v < Precision * v
    ensures m < Precision
  {
    MulMono(Precision, m, v);
  }

  lemma SpacingAtMost(unit: pos, x: nat, u: nat, v: nat)
    requires Spaced(unit, x, u) && Spacing(unit, v) && x < Precision * v
    ensures u <= v
  {
    SpacingsCompare(unit, v, u);
    SpacingDoubles(unit, v);
  }

  /** The textbook form: a significand of 53 bits times a power of two. */
  lemma Binary64Form(unit: pos, x: nat)
    ensures IsBinary64(unit, x) <==> exists m: nat, e: nat :: Scaled(unit, x, m, e)
  {
    var u := Ulp(unit, x);
    RoundFixes(unit, x);
    UlpSpaced(unit, x);
    if IsBinary64(unit, x) {
      var m: nat :| x == m * u;
      var e: nat :| u == unit * Pow2(e);
      BelowTimes(m, u);
      assert Scaled(unit, x, m, e);
    }
    if m: nat, e: nat :| Scaled(unit, x, m, e) {
      var v := unit * Pow2(e);
      SpacingDoubles(unit, v);
      TimesBelow(m, v);
      SpacingAtMost(unit, x, u, v);
      SpacingsCompare(unit, u, v);
      MultipleTransitive(x, v, u);
    }
  }

  /** A value of a lower binade lies below the whole of this one. */
  lemma LowerBinade(unit: pos, a: nat, u: nat, d: nat, v: nat)
    requires Spaced(unit, a, u) && Spaced(unit, d, v) && v < u
    ensures d < Precision / 2 * u <= a
  {
    SpacingsCompare(unit, v, u);
    SpacingDoubles(unit, v);
  }

  /** No binary64 value is nearer. */
  lemma RoundNearest(unit: pos, a: nat, d: nat)
    requires IsBinary64(unit, d)
    ensures Gap(Round(unit, a), a) <= Gap(d, a)
  {
    var u, v := Ulp(unit, a), Ulp(unit, d);
    UlpSpaced(unit, a);
    UlpSpaced(unit, d);
    RoundToMeans(a, u);
    RoundFixes(unit, d);
    if u <= v {
      SpacingsCompare(unit, u, v);
      MultipleTransitive(d, v, u);
    } else {
      LowerBinade(unit, a, u, d, v);
      assert Multiple(Precision / 2 * u, u);
    }
  }

  lemma RoundMonotone(unit: pos, a: nat, b: nat)
    requires a <= b
    ensures Round(unit, a) <= Round(unit, b)
  {
    RoundIsBinary64(unit, a);
    RoundIsBinary64(unit, b);
    RoundNearest(unit, a, Round(unit, b));
    RoundNearest(unit, b, Round(unit, a));
  }
}
