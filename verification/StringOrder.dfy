/** Go's byte order on strings, sorting, and sorted lists as canonical forms of
    sets. */
module StringOrder {

  /** `a < b`, bytewise. */
  predicate Lt(a: string, b: string) {
    b != "" && (a == "" || a[0] < b[0] || (a[0] == b[0] && Lt(a[1..], b[1..])))
  }

  lemma {:induction false} LtIrreflexive(a: string)
    ensures !Lt(a, a)
  {
    if a != "" {
      LtIrreflexive(a[1..]);
    }
  }

  lemma {:induction false} LtTransitive(a: string, b: string, c: string)
    requires Lt(a, b) && Lt(b, c)
    ensures Lt(a, c)
  {
    if a != "" && a[0] == b[0] == c[0] {
      LtTransitive(a[1..], b[1..], c[1..]);
    }
  }

  lemma {:induction false} LtTotal(a: string, b: string)
    ensures a == b || Lt(a, b) || Lt(b, a)
  {
    if a != "" && b != "" && a[0] == b[0] {
      LtTotal(a[1..], b[1..]);
      if a[1..] == b[1..] {
        assert a == [a[0]] + a[1..] && b == [b[0]] + b[1..];
      }
    }
  }

  lemma LtAsymmetric(a: string, b: string)
    ensures !(Lt(a, b) && Lt(b, a))
  {
  }

  /** No element is followed by a smaller one. */
  predicate Sorted(s: seq<string>) {
    forall i, j :: 0 <= i < j < |s| ==> !Lt(s[j], s[i])
  }

  predicate StrictlySorted(s: seq<string>) {
    forall i, j :: 0 <= i < j < |s| ==> Lt(s[i], s[j])
  }

  function Elements(s: seq<string>): set<string> {
    set x | x in s
  }

  lemma ElementsConcat(a: seq<string>, b: seq<string>)
    ensures Elements(a + b) == Elements(a) + Elements(b)
  {
  }

  lemma ElementsNonEmpty(s: seq<string>)
    requires s != []
    ensures Elements(s) != {}
  {
    assert s[0] in Elements(s);
  }

  // ------------------------------------------------------------- Sorting

  function Insert(x: string, s: seq<string>): (r: seq<string>)
    ensures Elements(r) == Elements(s) + {x}
    ensures |r| == |s| + 1
  {
    if s == [] || !Lt(s[0], x) then [x] + s
    else
      assert s == [s[0]] + s[1..];
      ElementsConcat([s[0]], s[1..]);
      ElementsConcat([s[0]], Insert(x, s[1..]));
      [s[0]] + Insert(x, s[1..])
  }

  /** `sort.Strings`. */
  function Sort(s: seq<string>): (r: seq<string>)
    ensures Elements(r) == Elements(s)
    ensures |r| == |s|
  {
    if s == [] then []
    else
      assert s == [s[0]] + s[1..];
      Insert(s[0], Sort(s[1..]))
  }

  lemma {:induction false} InsertSorted(x: string, s: seq<string>)
    requires Sorted(s)
    ensures Sorted(Insert(x, s))
  {
    if s == [] {
    } else if !Lt(s[0], x) {
      forall k | 0 <= k < |s|
        ensures !Lt(s[k], x)
      {
        if Lt(s[k], x) {
          LtTotal(s[0], x);
          if x != s[0] {
            LtTransitive(s[k], x, s[0]);
          }
        }
      }
    } else {
      InsertSorted(x, s[1..]);
      var rest := Insert(x, s[1..]);
      LtAsymmetric(s[0], x);
      forall k | 0 <= k < |rest|
        ensures !Lt(rest[k], s[0])
      {
        assert rest[k] in Elements(rest);
      }
    }
  }

  lemma {:induction false} SortSorted(s: seq<string>)
    ensures Sorted(Sort(s))
  {
    if s != [] {
      SortSorted(s[1..]);
      InsertSorted(s[0], Sort(s[1..]));
    }
  }

  // ------------------------------------------------- Canonical lists of sets

  /** Adjacent repetitions collapse to their first occurrence. */
  function DropAdjacent(s: seq<string>): (r: seq<string>) {
    if s == [] then []
    else
      var n := |s| - 1;
      DropAdjacent(s[..n]) + if n > 0 && s[n] == s[n - 1] then [] else [s[n]]
  }

  lemma {:induction false} DropAdjacentLast(s: seq<string>)
    requires s != []
    ensures DropAdjacent(s) != [] && DropAdjacent(s)[|DropAdjacent(s)| - 1] == s[|s| - 1]
    ensures Elements(DropAdjacent(s)) == Elements(s)
  {
    var n := |s| - 1;
    if n > 0 {
      DropAdjacentLast(s[..n]);
    }
    assert s == s[..n] + [s[n]];
    ElementsConcat(s[..n], [s[n]]);
    ElementsConcat(DropAdjacent(s[..n]), [s[n]]);
  }

  lemma {:induction false} DropAdjacentStrict(s: seq<string>)
    requires Sorted(s)
    ensures StrictlySorted(DropAdjacent(s))
  {
    if s != [] {
      var n := |s| - 1;
      DropAdjacentStrict(s[..n]);
      if n > 0 && s[n] != s[n - 1] {
        var r := DropAdjacent(s[..n]);
        DropAdjacentLast(s[..n]);
        LtTotal(s[n - 1], s[n]);
        forall i | 0 <= i < |r|
          ensures Lt(r[i], s[n])
        {
          if i < |r| - 1 {
            LtTransitive(r[i], s[n - 1], s[n]);
          }
        }
      }
    }
  }

  /** Sort, then drop adjacent repetitions. */
  function Canonical(s: seq<string>): seq<string> {
    DropAdjacent(Sort(s))
  }

  lemma CanonicalMeans(s: seq<string>)
    ensures StrictlySorted(Canonical(s)) && Elements(Canonical(s)) == Elements(s)
  {
    SortSorted(s);
    DropAdjacentStrict(Sort(s));
    if s != [] {
      DropAdjacentLast(Sort(s));
    }
  }

  /** A strictly increasing list is determined by its elements. */
  lemma {:induction false} StrictUnique(a: seq<string>, b: seq<string>)
    requires StrictlySorted(a) && StrictlySorted(b) && Elements(a) == Elements(b)
    ensures a == b
  {
    if a == [] {
      if b != [] {
        ElementsNonEmpty(b);
      }
    } else {
      assert a[0] in Elements(b);
      assert b != [];
      assert b[0] in Elements(a);
      HeadIsLeast(a, b[0]);
      HeadIsLeast(b, a[0]);
      LtAsymmetric(a[0], b[0]);
      TailElements(a);
      TailElements(b);
      StrictUnique(a[1..], b[1..]);
      assert a == [a[0]] + a[1..] && b == [b[0]] + b[1..];
    }
  }

  lemma HeadIsLeast(s: seq<string>, x: string)
    requires StrictlySorted(s) && x in s
    ensures s[0] == x || Lt(s[0], x)
  {
  }

  lemma TailElements(s: seq<string>)
    requires StrictlySorted(s) && s != []
    ensures Elements(s[1..]) == Elements(s) - {s[0]}
  {
    forall i | 0 < i < |s|
      ensures s[i] != s[0]
    {
      LtIrreflexive(s[0]);
    }
    forall x | x in Elements(s) - {s[0]}
      ensures x in s[1..]
    {
      var i :| 0 <= i < |s| && s[i] == x;
      assert s[1..][i - 1] == x;
    }
  }

  /** The canonical list identifies exactly the sets: order and repetitions of
      the input are forgotten, nothing else is. */
  lemma CanonicalIdentifiesSets(a: seq<string>, b: seq<string>)
    ensures Canonical(a) == Canonical(b) <==> Elements(a) == Elements(b)
  {
    CanonicalMeans(a);
    CanonicalMeans(b);
    if Elements(a) == Elements(b) {
      StrictUnique(Canonical(a), Canonical(b));
    }
  }

  /** Any strictly increasing list of the right elements is the canonical one. */
  lemma CanonicalUnique(s: seq<string>, r: seq<string>)
    requires StrictlySorted(r) && Elements(r) == Elements(s)
    ensures r == Canonical(s)
  {
    CanonicalMeans(s);
    StrictUnique(r, Canonical(s));
  }

  /** Sorting a list without repetitions gives the canonical list. */
  lemma SortDistinct(s: seq<string>)
    requires forall i, j :: 0 <= i < j < |s| ==> s[i] != s[j]
    ensures Sort(s) == Canonical(s)
  {
    SortSorted(s);
    SortKeepsCount(s);
    var r := Sort(s);
    forall i, j | 0 <= i < j < |r|
      ensures Lt(r[i], r[j])
    {
      LtTotal(r[i], r[j]);
      DistinctByCount(s, r, i, j);
    }
    CanonicalUnique(s, r);
  }

  lemma {:induction false} InsertKeepsCount(x: string, s: seq<string>)
    ensures multiset(Insert(x, s)) == multiset(s) + multiset{x}
  {
    if s != [] && Lt(s[0], x) {
      InsertKeepsCount(x, s[1..]);
      assert s == [s[0]] + s[1..];
    }
  }

  lemma {:induction false} SortKeepsCount(s: seq<string>)
    ensures multiset(Sort(s)) == multiset(s)
  {
    if s != [] {
      SortKeepsCount(s[1..]);
      InsertKeepsCount(s[0], Sort(s[1..]));
      assert s == [s[0]] + s[1..];
    }
  }

  lemma DistinctByCount(s: seq<string>, r: seq<string>, i: nat, j: nat)
    requires forall k, l :: 0 <= k < l < |s| ==> s[k] != s[l]
    requires multiset(r) == multiset(s) && i < j < |r|
    ensures r[i] != r[j]
  {
    if r[i] == r[j] {
      assert r == r[..i] + [r[i]] + r[i + 1..j] + [r[j]] + r[j + 1..];
      assert multiset(r)[r[i]] >= 2;
      AtMostOnce(s, r[i]);
    }
  }

  lemma {:induction false} AtMostOnce(s: seq<string>, x: string)
    requires forall k, l :: 0 <= k < l < |s| ==> s[k] != s[l]
    ensures multiset(s)[x] <= 1
  {
    if s != [] {
      AtMostOnce(s[1..], x);
      assert s == [s[0]] + s[1..];
      if x == s[0] {
        assert x !in s[1..];
        assert multiset(s[1..])[x] == 0;
      }
    }
  }

  // ------------------------------------------------------- The order itself

  /** `a` and `b` agree on the first `i` characters and `a` is smaller there: it
      ends, or has the smaller character. */
  predicate SmallerAt(a: string, b: string, i: nat) {
    && i <= |a| && i < |b| && a[..i] == b[..i]
    && (i == |a| || a[i] < b[i])
  }

  lemma SmallerNext(a: string, b: string, i: nat)
    requires a != "" && b != "" && a[0] == b[0]
    ensures SmallerAt(a, b, i + 1) <==> SmallerAt(a[1..], b[1..], i)
  {
    if i + 1 <= |a| && i + 1 <= |b| {
      assert a[..i + 1] == [a[0]] + a[1..][..i] && b[..i + 1] == [b[0]] + b[1..][..i];
      assert a[..i + 1][1..] == a[1..][..i] && b[..i + 1][1..] == b[1..][..i];
    }
  }

  /** Byte order: decided by the first difference, a prefix coming first. */
  lemma {:induction false} LtExactly(a: string, b: string)
    ensures Lt(a, b) <==> exists i: nat :: SmallerAt(a, b, i)
  {
    if a != "" && b != "" && a[0] == b[0] {
      LtExactly(a[1..], b[1..]);
      if i: nat :| SmallerAt(a[1..], b[1..], i) {
        SmallerNext(a, b, i);
      }
      if i: nat :| SmallerAt(a, b, i) {
        assert i > 0;
        SmallerNext(a, b, i - 1);
      }
    } else {
      if Lt(a, b) {
        assert SmallerAt(a, b, 0);
      }
      if i: nat :| SmallerAt(a, b, i) {
        assert i > 0 ==> a[..i][0] == b[..i][0];
      }
    }
  }
}
