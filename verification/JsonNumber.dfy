/** Which numbers of a JSON document survive `json.Unmarshal` into `any` and
    `json.Marshal` back. */
module JsonNumber {
  import opened Binary64
  import opened ShortestNumeral

  /** The least positive float64 is 2^-1074. */
  const Subnormal: nat := 1074

  /** 2^1024: a numeral that rounds to this much is out of range. */
  const Overflow: nat :=
    0x1_0000_0000_0000_0000_0000_0000_0000_0000_0000_0000_0000_0000_0000_0000_0000_0000_0000_0000_0000_0000_0000_0000_0000_0000_0000_0000_0000_0000_0000_0000_0000_0000_0000_0000_0000_0000_0000_0000_0000_0000_0000_0000_0000_0000_0000_0000_0000_0000_0000_0000_0000_0000_0000_0000_0000_0000_0000_0000_0000_0000_0000_0000_0000_0000

  function Magnitude(n: int): nat {
    if n < 0 then -n else n
  }

  function WithSign(n: int, a: nat): int {
    if n < 0 then 0 - a as int else a as int
  }

  /** The numerals with at most `places` decimals: `n` stands for n / 10^places.
      `unit` is the least positive float64, counted in these steps. */
  datatype Grid = Grid(places: nat, unit: pos) {

    ghost predicate Lawful() {
      unit * Pow2(Subnormal) == Pow10(places)
    }

    /** `strconv.ParseFloat`, up to sign and range. */
    function Read(a: nat): nat {
      Round(unit, a)
    }

    /** `strconv.AppendFloat` with precision -1, up to sign. */
    function Print(x: nat): nat {
      Show(this.Read, x)
    }

    /** `ParseFloat` reports no range error. */
    predicate InRange(n: int) {
      Read(Magnitude(n)) < Overflow * Pow10(places)
    }

    /** The value a numeral is decoded to. */
    function Decoded(n: int): int {
      WithSign(n, Read(Magnitude(n)))
    }

    /** The numeral a decoded value is encoded as. */
    function Encoded(x: int): int {
      WithSign(x, Print(Magnitude(x)))
    }

    /** What a stored numeral comes back as. */
    function Reread(n: int): int {
      Encoded(Decoded(n))
    }

    predicate Survives(n: int) {
      Reread(n) == n
    }

    /** A float64 in range. */
    predicate Fits(x: int) {
      IsBinary64(unit, Magnitude(x)) && Magnitude(x) < Overflow * Pow10(places)
    }
  }

  /** A grid that holds every float64. Any finite set of numerals lies on one. */
  type Scale = g: Grid | g.Lawful() ghost witness Finest()

  function Pow5(n: nat): (p: pos) {
    if n == 0 then 1 else 5 * Pow5(n - 1)
  }

  lemma {:induction false} FiveTwoTen(n: nat)
    ensures Pow5(n) * Pow2(n) == Pow10(n)
  {
    if n != 0 {
      FiveTwoTen(n - 1);
      assert 5 * Pow5(n - 1) * (2 * Pow2(n - 1)) == 10 * (Pow5(n - 1) * Pow2(n - 1));
    }
  }

  function Finest(): (g: Grid)
    ensures g.Lawful()
  {
    FiveTwoTen(Subnormal);
    Grid(Subnormal, Pow5(Subnormal))
  }

  // ------------------------------------------------------------ Printing

  lemma ReadIsMonotone(g: Grid)
    ensures Monotone(g.Read)
  {
    forall a: nat, b: nat | a <= b
      ensures g.Read(a) <= g.Read(b)
    {
      RoundMonotone(g.unit, a, b);
    }
  }

  lemma ScaledReads(g: Grid, x: nat, m: nat, e: nat)
    requires Scaled(g.unit, x, m, e)
    ensures g.Read(x) == x
  {
    Binary64Form(g.unit, x);
  }

  lemma ZeroReads(g: Grid)
    ensures g.Read(0) == 0
  {
    assert Scaled(g.unit, 0, 0, 0);
    ScaledReads(g, 0, 0, 0);
  }

  lemma TwiceReads(g: Grid, x: nat)
    requires g.Read(x) == x
    ensures g.Read(2 * x) == 2 * x
  {
    Binary64Form(g.unit, x);
    var m: nat, e: nat :| Scaled(g.unit, x, m, e);
    TwiceScaled(g.unit, x, m, e);
    ScaledReads(g, 2 * x, m, e + 1);
  }

  lemma TwiceScaled(unit: pos, x: nat, m: nat, e: nat)
    requires Scaled(unit, x, m, e)
    ensures Scaled(unit, 2 * x, m, e + 1)
  {
    Swap(unit, 2, Pow2(e));
    Swap(m, 2, unit * Pow2(e));
  }

  lemma LeastMultiple(c: nat, p: nat)
    requires Multiple(c, p)
    ensures c == 0 || p <= c
  {
    var m: nat :| c == m * p;
    MulMono(1, m, p);
  }

  /** Ten times as much is never read as the same value. */
  lemma NoLongRunOfZeros(g: Grid, x: nat)
    requires x > 0 && g.Read(x) == x
    ensures NoneReads(g.Read, x, Pow10(Width(x) + 1))
  {
    ReadIsMonotone(g);
    WidthBounds(x);
    TwiceReads(g, x);
    ZeroReads(g);
    forall c: nat | Multiple(c, Pow10(Width(x) + 1))
      ensures g.Read(c) != x
    {
      LeastMultiple(c, Pow10(Width(x) + 1));
      assert c > 0 ==> g.Read(2 * x) <= g.Read(c);
    }
  }

  /** The numeral of a positive value is its shortest one. */
  lemma PrintedExactly(g: Grid, x: nat, n: nat)
    requires x > 0 && g.Read(x) == x
    ensures g.Print(x) == n <==> exists k :: Shortest(g.Read, x, n, k)
  {
    ReadIsMonotone(g);
    NoLongRunOfZeros(g, x);
    ShowExactly(g.Read, x, n);
  }

  lemma ZeroPrints(g: Grid)
    ensures g.Print(0) == 0
  {
    ZeroReads(g);
    assert Floor(0, 1) == 0;
  }

  lemma ReadFixes(g: Grid, a: nat)
    ensures g.Read(g.Read(a)) == g.Read(a)
  {
    RoundIsBinary64(g.unit, a);
  }

  /** What is printed reads back as the value. */
  lemma PrintReadsBack(g: Grid, x: nat)
    requires g.Read(x) == x
    ensures g.Read(g.Print(x)) == x
  {
    if x == 0 {
      ZeroPrints(g);
    } else {
      PrintedExactly(g, x, g.Print(x));
    }
  }

  /** Decoding gives a float64; encoding and decoding that changes nothing. */
  lemma DecodedFits(g: Grid, n: int)
    requires g.InRange(n)
    ensures g.Fits(g.Decoded(n))
  {
    ReadFixes(g, Magnitude(n));
  }

  lemma EncodedFits(g: Grid, x: int)
    requires g.Fits(x)
    ensures g.InRange(g.Encoded(x)) && g.Decoded(g.Encoded(x)) == x
  {
    PrintReadsBack(g, Magnitude(x));
    ZeroPrints(g);
    ZeroReads(g);
  }

  // ------------------------------------------------------------ Survival

  lemma ZeroIsNoShortest(g: Grid, n: nat, k: nat)
    ensures !Shortest(g.Read, 0, n, k)
  {
    ZeroReads(g);
    assert Multiple(0, Pow10(k + 1)) by {
      assert 0 == 0 * Pow10(k + 1);
    }
  }

  /** A positive numeral survives exactly when it is the shortest numeral of the
      value it is decoded to: no numeral with fewer digits reads alike, and none
      with as many is nearer, or as near with an even last digit. */
  lemma SurvivesExactly(g: Grid, n: nat)
    requires n > 0
    ensures g.Survives(n) <==> exists k :: Shortest(g.Read, g.Read(n), n, k)
  {
    ReadFixes(g, n);
    if g.Read(n) == 0 {
      ZeroPrints(g);
      forall k: nat
        ensures !Shortest(g.Read, 0, n, k)
      {
        ZeroIsNoShortest(g, n, k);
      }
    } else {
      PrintedExactly(g, g.Read(n), n);
    }
  }

  lemma SignIrrelevant(g: Grid, n: int)
    ensures g.Survives(n) <==> g.Survives(Magnitude(n))
  {
    ZeroPrints(g);
    ZeroReads(g);
  }
}
