/** Shortest printing: the numeral with the fewest digits that reads back as the
    same value, for any monotone reader of numerals. */
module ShortestNumeral {
  import opened Binary64

  type Reader = nat -> nat

  ghost predicate Monotone(read: Reader) {
    forall a: nat, b: nat :: a <= b ==> read(a) <= read(b)
  }

  function Pow10(k: nat): (p: nat)
    ensures p >= 1
  {
    if k == 0 then 1 else 10 * Pow10(k - 1)
  }

  /** The number of decimal digits. */
  function Width(x: nat): nat {
    if x == 0 then 0 else 1 + Width(x / 10)
  }

  /** The multiple of `p` at or below `x`. */
  function Floor(x: nat, p: nat): (lo: nat)
    requires p >= 1
    ensures lo <= x < lo + p && Multiple(lo, p)
  {
    DivMod(x, p);
    x / p * p
  }

  predicate EvenMultiple(n: nat, p: nat)
    requires p >= 1
  {
    n / p % 2 == 0
  }

  /** Of the two multiples of `p` around `x`, is the lower one the nearer, or
      equally near and even? */
  predicate PreferLower(x: nat, lo: nat, p: nat)
    requires p >= 1 && lo <= x
  {
    2 * (x - lo) < p || (2 * (x - lo) == p && EvenMultiple(lo, p))
  }

  /** The better of the two multiples of `p` around `x` that read as `x`. */
  function Choose(read: Reader, x: nat, p: nat): nat
    requires p >= 1
  {
    var lo := Floor(x, p);
    if read(lo) == x && (read(lo + p) != x || PreferLower(x, lo, p)) then lo else lo + p
  }

  /** Giving up trailing zeros one by one until some numeral reads as `x`. */
  function ShowFrom(read: Reader, x: nat, k: nat): nat {
    var n := Choose(read, x, Pow10(k));
    if read(n) == x || k == 0 then n else ShowFrom(read, x, k - 1)
  }

  /** `strconv.AppendFloat` with precision -1: drop as many digits as the value
      allows, then take the nearest numeral, ties to the even digit. */
  function Show(read: Reader, x: nat): nat {
    ShowFrom(read, x, Width(x))
  }

  // ------------------------------------------------------------ Meaning

  /** `n` is the numeral of `x` with the most trailing zeros; of several, the
      nearest; of two, the one with the even last digit. */
  ghost predicate Shortest(read: Reader, x: nat, n: nat, k: nat) {
    && read(n) == x && Multiple(n, Pow10(k))
    && NoneReads(read, x, Pow10(k + 1))
    && (forall c: nat :: Multiple(c, Pow10(k)) && read(c) == x && c != n ==> Beats(x, n, c, Pow10(k)))
  }

  ghost predicate NoneReads(read: Reader, x: nat, p: nat) {
    forall c: nat :: Multiple(c, p) ==> read(c) != x
  }

  ghost predicate Beats(x: nat, n: nat, c: nat, p: nat) {
    Gap(n, x) < Gap(c, x) || (Gap(n, x) == Gap(c, x) && Multiple(n, 2 * p))
  }

  lemma Quotient(q: nat, p: nat)
    requires p >= 1
    ensures q * p / p == q
  {
    DivModUnique(q * p, p, q, 0);
  }

  lemma Doubled(q: nat, h: nat, p: nat)
    requires q == 2 * h
    ensures Multiple(q * p, 2 * p)
  {
    assert q * p == h * (2 * p);
  }

  lemma Parity(n: nat, p: nat)
    requires p >= 1 && Multiple(n, p)
    ensures EvenMultiple(n, p) ==> Multiple(n, 2 * p)
    ensures !EvenMultiple(n, p) ==> Multiple(n + p, 2 * p)
  {
    var q: nat :| n == q * p;
    Quotient(q, p);
    if q % 2 == 0 {
      Doubled(q, q / 2, p);
    } else {
      Doubled(q + 1, (q + 1) / 2, p);
      assert (q + 1) * p == n + p;
    }
  }

  lemma NextMultiple(lo: nat, p: nat)
    requires Multiple(lo, p)
    ensures Multiple(lo + p, p)
  {
    var q: nat :| lo == q * p;
    assert lo + p == (q + 1) * p;
  }

  lemma NothingBetween(c: nat, lo: nat, p: nat)
    requires p >= 1 && Multiple(lo, p) && Multiple(c, p)
    ensures c <= lo || lo + p <= c
  {
    var q: nat :| lo == q * p;
    NoMultipleBetween(c, q, p);
  }

  /** Around `x`, the two neighbouring multiples stand for all multiples. */
  lemma NeighboursSuffice(read: Reader, x: nat, lo: nat, p: nat, c: nat)
    requires Monotone(read) && read(x) == x && p >= 1
    requires Multiple(lo, p) && lo <= x < lo + p
    requires Multiple(c, p) && read(c) == x
    ensures (c <= lo && read(lo) == x) || (lo + p <= c && read(lo + p) == x)
  {
    NothingBetween(c, lo, p);
    assert c <= lo ==> read(c) <= read(lo) <= read(x);
    assert lo + p <= c ==> read(x) <= read(lo + p) <= read(c);
  }

  /** The choice among the multiples of `p`, if any of them reads as `x`. */
  lemma ChoiceBeats(read: Reader, x: nat, p: nat, c: nat)
    requires Monotone(read) && read(x) == x && p >= 1 && Multiple(c, p) && read(c) == x
    ensures var n := Choose(read, x, p);
            read(n) == x && (c != n ==> Beats(x, n, c, p))
  {
    var lo := Floor(x, p);
    NeighboursSuffice(read, x, lo, p, c);
    Parity(lo, p);
  }

  lemma ChoiceIsMultiple(read: Reader, x: nat, p: nat)
    requires p >= 1
    ensures Multiple(Choose(read, x, p), p)
  {
    NextMultiple(Floor(x, p), p);
  }

  /** The search ends at the shortest numeral. */
  lemma {:induction false} SearchFinds(read: Reader, x: nat, k: nat) returns (j: nat)
    requires Monotone(read) && read(x) == x && NoneReads(read, x, Pow10(k + 1))
    ensures Shortest(read, x, ShowFrom(read, x, k), j)
  {
    var p := Pow10(k);
    var n := Choose(read, x, p);
    ChoiceIsMultiple(read, x, p);
    if k == 0 {
      assert x == x * p;
      ChoiceBeats(read, x, p, x);
    }
    if read(n) == x {
      j := k;
      forall c: nat | Multiple(c, p) && read(c) == x && c != n
        ensures Beats(x, n, c, p)
      {
        ChoiceBeats(read, x, p, c);
      }
    } else {
      forall c: nat | Multiple(c, p)
        ensures read(c) != x
      {
        if read(c) == x {
          ChoiceBeats(read, x, p, c);
        }
      }
      j := SearchFinds(read, x, k - 1);
    }
  }

  lemma {:induction false} TenDivides(i: nat, j: nat)
    requires i <= j
    ensures Multiple(Pow10(j), Pow10(i))
    decreases j
  {
    if i == j {
      assert Pow10(j) == 1 * Pow10(i);
    } else {
      TenDivides(i, j - 1);
      assert Pow10(j) == 10 * Pow10(j - 1);
      MultipleTransitive(Pow10(j), Pow10(j - 1), Pow10(i));
    }
  }

  lemma SameZeros(read: Reader, x: nat, n: nat, i: nat, m: nat, j: nat)
    requires Shortest(read, x, n, i) && Shortest(read, x, m, j)
    ensures i >= j
  {
    if i < j {
      TenDivides(i + 1, j);
      MultipleTransitive(m, Pow10(j), Pow10(i + 1));
    }
  }

  /** Two even multiples as near as each other would leave a nearer one between. */
  lemma NearerBetween(x: nat, n: nat, m: nat, p: nat)
    requires p >= 1 && Multiple(n, 2 * p) && Multiple(m, 2 * p) && n < m && Gap(n, x) == Gap(m, x)
    ensures n < n + p < m && Gap(n + p, x) < Gap(n, x)
  {
    NothingBetween(m, n, 2 * p);
  }

  lemma NotTheNearest(read: Reader, x: nat, n: nat, m: nat, k: nat)
    requires Monotone(read) && read(n) == x && read(m) == x && n < m && Gap(n, x) == Gap(m, x)
    requires Multiple(n, 2 * Pow10(k)) && Multiple(m, 2 * Pow10(k))
    ensures !Shortest(read, x, n, k) && !Shortest(read, x, m, k)
  {
    var p := Pow10(k);
    var c := n + p;
    NearerBetween(x, n, m, p);
    assert Multiple(2 * p, p);
    MultipleTransitive(n, 2 * p, p);
    NextMultiple(n, p);
    assert read(n) <= read(c) <= read(m);
    assert !Beats(x, n, c, p) && !Beats(x, m, c, p);
  }

  /** There is one shortest numeral. */
  lemma ShortestUnique(read: Reader, x: nat, n: nat, i: nat, m: nat, j: nat)
    requires Monotone(read) && Shortest(read, x, n, i) && Shortest(read, x, m, j)
    ensures n == m && i == j
  {
    SameZeros(read, x, n, i, m, j);
    SameZeros(read, x, m, j, n, i);
    if n < m {
      assert Beats(x, n, m, Pow10(i)) && Beats(x, m, n, Pow10(i));
      NotTheNearest(read, x, n, m, i);
    } else if m < n {
      assert Beats(x, n, m, Pow10(i)) && Beats(x, m, n, Pow10(i));
      NotTheNearest(read, x, m, n, i);
    }
  }

  lemma {:induction false} WidthBounds(x: nat)
    ensures x < Pow10(Width(x))
  {
    if x != 0 {
      WidthBounds(x / 10);
    }
  }

  /** Printing gives the shortest numeral and nothing else does. */
  lemma ShowExactly(read: Reader, x: nat, n: nat)
    requires Monotone(read) && read(x) == x
    requires NoneReads(read, x, Pow10(Width(x) + 1))
    ensures Show(read, x) == n <==> exists k :: Shortest(read, x, n, k)
  {
    var j := SearchFinds(read, x, Width(x));
    if k :| Shortest(read, x, n, k) {
      ShortestUnique(read, x, n, k, Show(read, x), j);
    }
  }
}
