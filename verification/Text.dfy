/** The parts of Go's `strings` package the identity provider leans on, as
    functions on sequences, with the laws its callers need. */
module Text {

  /** A character of the ASCII part of `unicode.IsSpace`. */
  predicate IsAsciiSpace(c: char) {
    c == ' ' || '\t' <= c <= '\r'
  }

  predicate HasSuffix(s: string, suffix: string) {
    |suffix| <= |s| && s[|s| - |suffix|..] == suffix
  }

  lemma SuffixLast(s: string, suffix: string)
    requires HasSuffix(s, suffix) && suffix != ""
    ensures s[|s| - 1] == suffix[|suffix| - 1]
  {
  }

  predicate AllOf(s: string, p: char -> bool) {
    forall i :: 0 <= i < |s| ==> p(s[i])
  }

  predicate NoneOf(s: string, p: char -> bool) {
    forall i :: 0 <= i < |s| ==> !p(s[i])
  }

  function Map<S, T>(s: seq<S>, f: S -> T): (r: seq<T>)
    ensures |r| == |s|
    ensures forall i :: 0 <= i < |s| ==> r[i] == f(s[i])
  {
    seq(|s|, i requires 0 <= i < |s| => f(s[i]))
  }

  function LowerAscii(c: char): char {
    if 'A' <= c <= 'Z' then c - 'A' + 'a' else c
  }

  // ---------------------------------------------------------------- Trimming

  function TrimLeft(s: string, p: char -> bool): (r: string)
    ensures |r| <= |s| && r == s[|s| - |r|..]
    ensures r != "" ==> !p(r[0])
  {
    if s != "" && p(s[0]) then TrimLeft(s[1..], p) else s
  }

  function TrimRight(s: string, p: char -> bool): (r: string)
    ensures r <= s
    ensures r != "" ==> !p(r[|r| - 1])
  {
    if s != "" && p(s[|s| - 1]) then TrimRight(s[..|s| - 1], p) else s
  }

  /** `strings.TrimFunc`. */
  function Trim(s: string, p: char -> bool): (r: string)
    ensures |r| <= |s|
    ensures r != "" ==> !p(r[0]) && !p(r[|r| - 1])
    ensures forall i :: 0 <= i < |r| ==> r[i] in s
  {
    TrimRight(TrimLeft(s, p), p)
  }

  function TrimSpace(s: string): string {
    Trim(s, IsAsciiSpace)
  }

  /** Trimming is the identity on text with clean ends, so it is idempotent. */
  lemma TrimClean(s: string, p: char -> bool)
    requires s != "" ==> !p(s[0]) && !p(s[|s| - 1])
    ensures Trim(s, p) == s
  {
  }

  lemma {:induction false} TrimLeftPadded(a: string, r: string, p: char -> bool)
    requires AllOf(a, p) && (r != "" ==> !p(r[0]))
    ensures TrimLeft(a + r, p) == r
  {
    if a == "" {
      assert a + r == r;
    } else {
      assert (a + r)[1..] == a[1..] + r;
      TrimLeftPadded(a[1..], r, p);
    }
  }

  lemma {:induction false} TrimRightPadded(r: string, b: string, p: char -> bool)
    requires AllOf(b, p) && (r != "" ==> !p(r[|r| - 1]))
    ensures TrimRight(r + b, p) == r
  {
    if b == "" {
      assert r + b == r;
    } else {
      var s := r + b;
      assert s[..|s| - 1] == r + b[..|b| - 1] && s[|s| - 1] == b[|b| - 1];
      TrimRightPadded(r, b[..|b| - 1], p);
    }
  }

  /** Trimming removes exactly the padding. */
  lemma TrimPadded(a: string, r: string, b: string, p: char -> bool)
    requires AllOf(a, p) && AllOf(b, p) && r != "" && !p(r[0]) && !p(r[|r| - 1])
    ensures Trim(a + r + b, p) == r
  {
    assert a + r + b == a + (r + b) && (r + b)[0] == r[0];
    TrimLeftPadded(a, r + b, p);
    TrimRightPadded(r, b, p);
  }

  // ------------------------------------------------------ Splitting on a byte

  /** `strings.Split` with a one-character separator. */
  function Split(s: string, sep: char): (parts: seq<string>)
    ensures |parts| >= 1
  {
    if s == "" then [""]
    else
      var rest := Split(s[1..], sep);
      if s[0] == sep then [""] + rest else [[s[0]] + rest[0]] + rest[1..]
  }

  /** `strings.Join`. */
  function Join(parts: seq<string>, sep: string): string {
    if parts == [] then ""
    else if |parts| == 1 then parts[0]
    else parts[0] + sep + Join(parts[1..], sep)
  }

  lemma {:induction false} SplitPartsClean(s: string, sep: char)
    ensures forall k :: 0 <= k < |Split(s, sep)| ==> sep !in Split(s, sep)[k]
  {
    if s != "" {
      SplitPartsClean(s[1..], sep);
    }
  }

  /** Text free of the separator is one part. */
  lemma {:induction false} SplitNone(s: string, sep: char)
    requires sep !in s
    ensures Split(s, sep) == [s]
  {
    if s != "" {
      SplitNone(s[1..], sep);
      assert [s[0]] + s[1..] == s;
    }
  }

  /** The first separator ends the first part. */
  lemma {:induction false} SplitFirst(a: string, b: string, sep: char)
    requires sep !in a
    ensures Split(a + [sep] + b, sep) == [a] + Split(b, sep)
  {
    var s := a + [sep] + b;
    if a == "" {
      assert s[1..] == b;
    } else {
      assert s[1..] == a[1..] + [sep] + b;
      SplitFirst(a[1..], b, sep);
      assert [s[0]] + a[1..] == a;
    }
  }

  lemma {:induction false} JoinSplit(s: string, sep: char)
    ensures Join(Split(s, sep), [sep]) == s
  {
    if s != "" {
      JoinSplit(s[1..], sep);
      var rest := Split(s[1..], sep);
      var parts := Split(s, sep);
      if s[0] == sep {
        assert parts[1..] == rest;
      } else if |rest| > 1 {
        assert parts[1..] == rest[1..];
      }
    }
  }

  lemma {:induction false} SplitJoin(parts: seq<string>, sep: char)
    requires parts != []
    requires forall k :: 0 <= k < |parts| ==> sep !in parts[k]
    ensures Split(Join(parts, [sep]), sep) == parts
  {
    if |parts| == 1 {
      SplitNone(parts[0], sep);
    } else {
      var tail := Join(parts[1..], [sep]);
      SplitJoin(parts[1..], sep);
      SplitFirst(parts[0], tail, sep);
      assert Join(parts, [sep]) == parts[0] + [sep] + tail;
      assert [parts[0]] + parts[1..] == parts;
    }
  }

  /** The index of the first `c` in `s`, or -1 (`strings.IndexByte`). */
  function IndexOf(s: string, c: char): (i: int)
    ensures -1 <= i < |s|
    ensures i == -1 <==> c !in s
    ensures i >= 0 ==> s[i] == c && forall j :: 0 <= j < i ==> s[j] != c
  {
    if s == "" then -1
    else if s[0] == c then 0
    else
      var r := IndexOf(s[1..], c);
      if r == -1 then -1 else r + 1
  }

  lemma IndexOfFirst(a: string, b: string, c: char)
    requires c !in a
    ensures IndexOf(a + [c] + b, c) == |a|
  {
    var s := a + [c] + b;
    assert s[|a|] == c;
    assert forall i :: 0 <= i < |a| ==> s[i] == a[i];
  }

  // ------------------------------------------------------- Splitting on runs

  /** The length of the longest prefix free of separators. */
  function RunLength(s: string, sep: char -> bool): (n: nat)
    ensures n <= |s|
    ensures forall x :: 0 <= x < n ==> !sep(s[x])
    ensures n < |s| ==> sep(s[n])
    ensures s != "" && !sep(s[0]) ==> n > 0
  {
    if s == "" || sep(s[0]) then 0 else 1 + RunLength(s[1..], sep)
  }

  /** The maximal separator-free runs, in order (`strings.FieldsFunc`). */
  function Fields(s: string, sep: char -> bool): (out: seq<string>)
    ensures forall k :: 0 <= k < |out| ==> Token(out[k], sep)
    decreases |s|
  {
    if s == "" then []
    else if sep(s[0]) then Fields(s[1..], sep)
    else
      var n := RunLength(s, sep);
      [s[..n]] + Fields(s[n..], sep)
  }

  /** What a field looks like: non-empty and free of separators. */
  predicate Token(t: string, sep: char -> bool) {
    t != "" && NoneOf(t, sep)
  }

  lemma {:induction false} RunLengthAppend(t: string, rest: string, sep: char -> bool)
    requires NoneOf(t, sep)
    requires rest != "" ==> sep(rest[0])
    ensures RunLength(t + rest, sep) == |t|
  {
    if t == "" {
      assert t + rest == rest;
    } else {
      assert (t + rest)[1..] == t[1..] + rest;
      RunLengthAppend(t[1..], rest, sep);
    }
  }

  /** A token in front of a separator is the first field. */
  lemma FieldsPrepend(t: string, rest: string, sep: char -> bool)
    requires Token(t, sep)
    requires rest != "" ==> sep(rest[0])
    ensures Fields(t + rest, sep) == [t] + Fields(rest, sep)
  {
    RunLengthAppend(t, rest, sep);
    assert (t + rest)[..|t|] == t && (t + rest)[|t|..] == rest;
  }

  /** Joining tokens by a separator and splitting again gives them back. */
  lemma {:induction false} FieldsJoin(ts: seq<string>, c: char, sep: char -> bool)
    requires sep(c)
    requires forall k :: 0 <= k < |ts| ==> Token(ts[k], sep)
    ensures Fields(Join(ts, [c]), sep) == ts
  {
    if ts == [] {
    } else if |ts| == 1 {
      assert ts[0] + "" == ts[0];
      FieldsPrepend(ts[0], "", sep);
    } else {
      var rest := [c] + Join(ts[1..], [c]);
      FieldsJoin(ts[1..], c, sep);
      FieldsPrepend(ts[0], rest, sep);
      assert ts[0] + [c] + Join(ts[1..], [c]) == ts[0] + rest;
      assert rest[1..] == Join(ts[1..], [c]);
    }
  }

  /** `s[i..j]` is a run that cannot be extended on either side. */
  predicate MaximalRun(s: string, sep: char -> bool, i: int, j: int) {
    && 0 <= i < j <= |s|
    && (forall x :: i <= x < j ==> !sep(s[x]))
    && (i > 0 ==> sep(s[i - 1]))
    && (j < |s| ==> sep(s[j]))
  }

  /** The field boundaries, from position `at` on. */
  function FieldSpans(s: string, sep: char -> bool, at: nat): (spans: seq<(nat, nat)>)
    requires at <= |s|
    decreases |s| - at
  {
    if at == |s| then []
    else if sep(s[at]) then FieldSpans(s, sep, at + 1)
    else
      var n := RunLength(s[at..], sep);
      [(at, at + n)] + FieldSpans(s, sep, at + n)
  }

  predicate OrderedRuns(s: string, sep: char -> bool, at: nat, spans: seq<(nat, nat)>) {
    && (forall k :: 0 <= k < |spans| ==> at <= spans[k].0 && MaximalRun(s, sep, spans[k].0, spans[k].1))
    && (forall k, l :: 0 <= k < l < |spans| ==> spans[k].1 < spans[l].0)
  }

  /** The run that starts at a boundary is maximal, and the only maximal run
      that starts inside it. */
  lemma FirstRun(s: string, sep: char -> bool, at: nat, i: nat, j: nat)
    requires at < |s| && !sep(s[at]) && (at > 0 ==> sep(s[at - 1]))
    ensures var end := at + RunLength(s[at..], sep);
            && MaximalRun(s, sep, at, end)
            && (at <= i < end && MaximalRun(s, sep, i, j) ==> i == at && j == end)
  {
  }

  lemma OrderedCons(s: string, sep: char -> bool, at: nat, end: nat, tail: seq<(nat, nat)>)
    requires MaximalRun(s, sep, at, end)
    requires OrderedRuns(s, sep, end, tail)
    ensures OrderedRuns(s, sep, at, [(at, end)] + tail)
  {
  }

  lemma OrderedFromLater(s: string, sep: char -> bool, at: nat, later: nat, spans: seq<(nat, nat)>)
    requires at <= later && OrderedRuns(s, sep, later, spans)
    ensures OrderedRuns(s, sep, at, spans)
  {
  }

  /** Every span found is a maximal run, and they come in order. */
  lemma {:induction false} SpansSound(s: string, sep: char -> bool, at: nat)
    requires at <= |s|
    requires 0 < at < |s| && !sep(s[at]) ==> sep(s[at - 1])
    ensures OrderedRuns(s, sep, at, FieldSpans(s, sep, at))
    decreases |s| - at
  {
    if at == |s| {
    } else if sep(s[at]) {
      SpansSound(s, sep, at + 1);
      OrderedFromLater(s, sep, at, at + 1, FieldSpans(s, sep, at + 1));
    } else {
      FirstRun(s, sep, at, 0, 0);
      var end := SpansStep(s, sep, at);
      SpansSound(s, sep, end);
      OrderedCons(s, sep, at, end, FieldSpans(s, sep, end));
    }
  }

  /** No maximal run is missed. */
  lemma {:induction false} SpansComplete(s: string, sep: char -> bool, at: nat, i: nat, j: nat)
    requires at <= i && MaximalRun(s, sep, i, j)
    requires 0 < at && !sep(s[at]) ==> sep(s[at - 1])
    ensures (i, j) in FieldSpans(s, sep, at)
    decreases |s| - at
  {
    if sep(s[at]) {
      SpansComplete(s, sep, at + 1, i, j);
    } else {
      FirstRun(s, sep, at, i, j);
      var end := SpansStep(s, sep, at);
      if end <= i {
        SpansComplete(s, sep, end, i, j);
      }
    }
  }

  lemma SpansStep(s: string, sep: char -> bool, at: nat) returns (end: nat)
    requires at < |s| && !sep(s[at])
    ensures end == at + RunLength(s[at..], sep) && at < end <= |s|
    ensures FieldSpans(s, sep, at) == [(at, end)] + FieldSpans(s, sep, end)
  {
    assert s[at..][0] == s[at];
    end := at + RunLength(s[at..], sep);
  }

  /** The fields `fs` are the texts at `spans`. */
  predicate TextsAt(s: string, spans: seq<(nat, nat)>, fs: seq<string>) {
    && |spans| == |fs|
    && forall k :: 0 <= k < |spans| ==>
         spans[k].0 <= spans[k].1 <= |s| && fs[k] == s[spans[k].0..spans[k].1]
  }

  lemma TextsAtCons(s: string, i: nat, j: nat, spans: seq<(nat, nat)>, fs: seq<string>)
    requires i <= j <= |s| && TextsAt(s, spans, fs)
    ensures TextsAt(s, [(i, j)] + spans, [s[i..j]] + fs)
  {
  }

  lemma {:induction false} FieldsFollowSpans(s: string, sep: char -> bool, at: nat)
    requires at <= |s|
    ensures TextsAt(s, FieldSpans(s, sep, at), Fields(s[at..], sep))
    decreases |s| - at
  {
    var here := s[at..];
    if at == |s| {
    } else if sep(s[at]) {
      FieldsFollowSpans(s, sep, at + 1);
      assert here[1..] == s[at + 1..];
    } else {
      var n := RunLength(here, sep);
      FieldsFollowSpans(s, sep, at + n);
      assert here[n..] == s[at + n..] && here[..n] == s[at..at + n];
      TextsAtCons(s, at, at + n, FieldSpans(s, sep, at + n), Fields(s[at + n..], sep));
    }
  }

  /** Exactly the maximal runs, in order: the declarative reading of `Fields`. */
  ghost predicate MaximalRuns(s: string, sep: char -> bool, out: seq<string>, spans: seq<(nat, nat)>) {
    && OrderedRuns(s, sep, 0, spans)
    && TextsAt(s, spans, out)
    && (forall i: nat, j: nat :: MaximalRun(s, sep, i, j) ==> (i, j) in spans)
  }

  lemma FieldsAreMaximalRuns(s: string, sep: char -> bool)
    ensures MaximalRuns(s, sep, Fields(s, sep), FieldSpans(s, sep, 0))
  {
    SpansSound(s, sep, 0);
    forall i: nat, j: nat | MaximalRun(s, sep, i, j)
      ensures (i, j) in FieldSpans(s, sep, 0)
    {
      SpansComplete(s, sep, 0, i, j);
    }
    FieldsFollowSpans(s, sep, 0);
    assert s[0..] == s;
  }
}
