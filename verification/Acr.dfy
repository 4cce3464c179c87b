/** The authentication-context ladder and the requests made against it. */
module Acr {
  import Text

  const Password := "urn:identuum:loa:password"
  const Mfa := "urn:identuum:loa:mfa"
  const PhishingResistant := "urn:identuum:loa:phishing-resistant"

  /** The ladder; an unknown value ranks below every rung. */
  function Rank(s: string): (r: nat)
    ensures r <= 3
  {
    if s == Password then 1 else if s == Mfa then 2 else if s == PhishingResistant then 3 else 0
  }

  predicate Known(s: string) {
    Rank(s) > 0
  }

  lemma RungsDiffer()
    ensures Rank(Password) == 1 && Rank(Mfa) == 2 && Rank(PhishingResistant) == 3 && Rank("") == 0
  {
  }

  /** `ACRMeetsFloor`. */
  predicate MeetsFloor(presented: string, required: string) {
    required == "" || (Known(required) && Rank(presented) >= Rank(required))
  }

  /** The rungs, lowest first. */
  const Ladder := [Password, Mfa, PhishingResistant]

  /** On the ladder a rung meets exactly the floors at or below it. */
  lemma LadderExactly(i: nat, j: nat)
    requires i < 3 && j < 3
    ensures MeetsFloor(Ladder[i], Ladder[j]) <==> i >= j
  {
    RungsDiffer();
    assert Rank(Ladder[i]) == i + 1 && Rank(Ladder[j]) == j + 1;
  }

  /** Off it: no floor is met by everything, an unknown floor by nothing, and an
      unknown value meets no floor at all. */
  lemma OffTheLadder(p: string, r: string)
    ensures MeetsFloor(p, "")
    ensures r != "" && r !in Ladder ==> !MeetsFloor(p, r)
    ensures p !in Ladder && r != "" ==> !MeetsFloor(p, r)
  {
    assert Ladder[0] == Password && Ladder[1] == Mfa && Ladder[2] == PhishingResistant;
  }

  /** `ACRMax`. */
  function Max(a: string, b: string): string {
    if Rank(a) >= Rank(b) then a else b
  }

  predicate Unknown(s: string) {
    s != "" && !Known(s)
  }

  /** Meeting the higher of two floors is meeting both, exactly when no unknown
      floor is dropped in favour of something weaker: an unknown second floor
      needs an unknown first one, and an unknown first floor no known second. */
  lemma MaxIsBothFloors(a: string, b: string)
    ensures (forall p :: MeetsFloor(p, Max(a, b)) <==> MeetsFloor(p, a) && MeetsFloor(p, b))
       <==> (Unknown(b) ==> Unknown(a)) && (Unknown(a) ==> !Known(b))
  {
    RungsDiffer();
    var top := PhishingResistant;
    if !((Unknown(b) ==> Unknown(a)) && (Unknown(a) ==> !Known(b))) {
      assert MeetsFloor(top, Max(a, b)) && !(MeetsFloor(top, a) && MeetsFloor(top, b));
    }
  }

  /** One failing input: the unknown second floor is dropped for no floor at all. */
  lemma UnknownFloorDropped()
    ensures MeetsFloor("", Max("", "urn:example:unknown")) && !MeetsFloor("", "urn:example:unknown")
  {
    RungsDiffer();
    assert |"urn:example:unknown"| == 19;
  }

  /** In particular for floors that are known or absent. */
  lemma MaxOfValidFloors(p: string, a: string, b: string)
    requires !Unknown(a) && !Unknown(b)
    ensures MeetsFloor(p, Max(a, b)) <==> MeetsFloor(p, a) && MeetsFloor(p, b)
  {
  }

  // ------------------------------------------------------------- Requests

  predicate IsBlank(c: char) {
    c == ' ' || c == '\t'
  }

  /** What the splitter has seen at `i`: the finished fields in `out`, and an open
      run from `start` unless that is -1. */
  ghost predicate Splitting(s: string, i: int, start: int, out: seq<string>) {
    && 0 <= i <= |s| && -1 <= start < i
    && (start >= 0 ==> forall k :: start <= k < i ==> !IsBlank(s[k]))
    && Requested(s) == out + Requested(s[(if start >= 0 then start else i)..])
  }

  lemma OpenRun(s: string, i: int, out: seq<string>)
    requires Splitting(s, i, -1, out) && i < |s| && !IsBlank(s[i])
    ensures Splitting(s, i + 1, i, out)
  {
  }

  lemma SkipBlank(s: string, i: int, out: seq<string>)
    requires Splitting(s, i, -1, out) && i < |s| && IsBlank(s[i])
    ensures Splitting(s, i + 1, -1, out)
  {
  }

  lemma CloseRun(s: string, i: int, start: int, out: seq<string>)
    requires Splitting(s, i, start, out) && start >= 0 && (i < |s| ==> IsBlank(s[i]))
    ensures Splitting(s, i, -1, out + [s[start..i]])
  {
    var run, rest := s[start..i], s[i..];
    assert s[start..] == run + rest;
    assert forall k :: 0 <= k < |run| ==> run[k] == s[start + k];
    Text.FieldsPrepend(run, rest, IsBlank);
  }

  /** `fields`, the hand-written splitter. */
  method Fields(s: string) returns (out: seq<string>)
    ensures out == Requested(s)
  {
    out := [];
    var start := -1;
    var i := 0;
    while i < |s|
      invariant Splitting(s, i, start, out)
    {
      if s[i] == ' ' || s[i] == '\t' {
        if start >= 0 {
          CloseRun(s, i, start, out);
          out := out + [s[start..i]];
          start := -1;
        }
        SkipBlank(s, i, out);
      } else if start < 0 {
        OpenRun(s, i, out);
        start := i;
      }
      i := i + 1;
    }
    if start >= 0 {
      CloseRun(s, i, start, out);
      assert s[start..i] == s[start..];
      out := out + [s[start..]];
    }
  }

  /** The values of a request; `SplitterFindsMaximalRuns` says which they are. */
  function Requested(acrValues: string): seq<string> {
    Text.Fields(acrValues, IsBlank)
  }

  lemma SplitterFindsMaximalRuns(acrValues: string)
    ensures Text.MaximalRuns(acrValues, IsBlank, Requested(acrValues), Text.FieldSpans(acrValues, IsBlank, 0))
  {
    Text.FieldsAreMaximalRuns(acrValues, IsBlank);
  }

  predicate AnyKnown(ts: seq<string>) {
    exists k :: 0 <= k < |ts| && Known(ts[k])
  }

  /** `rung` is the cheapest known rung among `ts`. */
  predicate IsLowest(ts: seq<string>, rung: string) {
    && rung in ts && Known(rung)
    && forall k :: 0 <= k < |ts| && Known(ts[k]) ==> Rank(rung) <= Rank(ts[k])
  }

  /** `LowestRequestedRung`. */
  method LowestRequestedRung(acrValues: string) returns (rung: string, ok: bool)
    ensures ok <==> AnyKnown(Requested(acrValues))
    ensures ok ==> IsLowest(Requested(acrValues), rung)
    ensures !ok ==> rung == ""
  {
    var best, bestRank := "", 0;
    var ts := Fields(acrValues);
    for i := 0 to |ts|
      invariant best == "" <==> !AnyKnown(ts[..i])
      invariant best != "" ==> IsLowest(ts[..i], best) && bestRank == Rank(best)
    {
      var v := ts[i];
      assert ts[..i + 1] == ts[..i] + [v];
      assert AnyKnown(ts[..i + 1]) <==> AnyKnown(ts[..i]) || Known(v) by {
        assert Known(v) ==> Known(ts[..i + 1][i]);
        if AnyKnown(ts[..i]) {
          var k :| 0 <= k < i && Known(ts[..i][k]);
          assert Known(ts[..i + 1][k]);
        }
      }
      RungsDiffer();
      if !Known(v) {
        continue;
      }
      if best == "" || Rank(v) < bestRank {
        best, bestRank := v, Rank(v);
      }
    }
    assert ts[..|ts|] == ts;
    return best, best != "";
  }

  /** Nothing known was asked for, or one known request is met. */
  predicate Satisfied(presented: string, ts: seq<string>) {
    AnyKnown(ts) ==> exists k :: 0 <= k < |ts| && Known(ts[k]) && MeetsFloor(presented, ts[k])
  }

  /** `RequestSatisfiedBy`. */
  method RequestSatisfiedBy(presented: string, acrValues: string) returns (yes: bool)
    ensures yes <==> Satisfied(presented, Requested(acrValues))
  {
    var anyKnown := false;
    var ts := Fields(acrValues);
    for i := 0 to |ts|
      invariant anyKnown <==> exists k :: 0 <= k < i && Known(ts[k])
      invariant forall k :: 0 <= k < i && Known(ts[k]) ==> !MeetsFloor(presented, ts[k])
    {
      if !Known(ts[i]) {
        continue;
      }
      anyKnown := true;
      if MeetsFloor(presented, ts[i]) {
        return true;
      }
    }
    return !anyKnown;
  }

  /** A request is satisfied exactly when nothing known was requested or the
      presented rung meets the lowest one requested. */
  lemma SatisfiedExactlyByLowest(presented: string, ts: seq<string>, rung: string)
    requires AnyKnown(ts) ==> IsLowest(ts, rung)
    ensures Satisfied(presented, ts) <==> !AnyKnown(ts) || MeetsFloor(presented, rung)
  {
  }

  // ---------------------------------------------------- Upstream attestations

  /** `toLowerASCII`. */
  method ToLower(s: string) returns (r: string)
    ensures r == Text.Map(s, Text.LowerAscii)
  {
    var b := new char[|s|];
    var i := 0;
    while i < |s|
      invariant 0 <= i <= |s|
      invariant forall k :: 0 <= k < i ==> b[k] == Text.LowerAscii(s[k])
    {
      var c := s[i];
      if 'A' <= c <= 'Z' {
        c := c - 'A' + 'a';
      }
      b[i] := c;
      i := i + 1;
    }
    r := b[..];
  }

  predicate At(haystack: string, needle: string, i: int) {
    0 <= i <= |haystack| - |needle| && haystack[i..i + |needle|] == needle
  }

  predicate Contains(haystack: string, needle: string) {
    exists i :: 0 <= i <= |haystack| && At(haystack, needle, i)
  }

  /** `containsASCII`. */
  method ContainsAscii(haystack: string, needle: string) returns (yes: bool)
    ensures yes <==> Contains(haystack, needle)
  {
    if |needle| == 0 {
      assert At(haystack, needle, 0);
      return true;
    }
    if |needle| > |haystack| {
      return false;
    }
    var i := 0;
    while i + |needle| <= |haystack|
      invariant 0 <= i
      invariant forall k :: 0 <= k < i ==> !At(haystack, needle, k)
    {
      var ok := true;
      var j := 0;
      while j < |needle|
        invariant 0 <= j <= |needle|
        invariant ok ==> forall k :: 0 <= k < j ==> haystack[i + k] == needle[k]
        invariant ok || !At(haystack, needle, i)
      {
        if haystack[i + j] != needle[j] {
          assert haystack[i..i + |needle|][j] != needle[j];
          ok := false;
          break;
        }
        j := j + 1;
      }
      if ok {
        assert At(haystack, needle, i);
        return true;
      }
      i := i + 1;
    }
    return false;
  }

  const Markers := ["phishing-resistant", "fido", "webauthn", "passkey"]

  /** An upstream value that names a phishing-resistant factor, in any case. */
  predicate Marked(upstream: string) {
    exists k :: 0 <= k < |Markers| && Contains(Text.Map(upstream, Text.LowerAscii), Markers[k])
  }

  /** `MapUpstreamACRToLadder`: the rung is always known, a recognised attestation
      is never raised, and anything unrecognised is reported as assumed. */
  method MapUpstream(upstream: string) returns (rung: string, assumed: bool)
    ensures Known(rung)
    ensures Known(upstream) ==> rung == upstream && !assumed
    ensures assumed <==> upstream == "" || (!Known(upstream) && upstream != "0" && upstream != "1" && !Marked(upstream))
    ensures assumed ==> rung == Mfa
    ensures upstream == "0" ==> rung == Password
    ensures upstream == "1" ==> rung == Mfa
    ensures rung == PhishingResistant <==>
              upstream == PhishingResistant || (!Known(upstream) && upstream !in ["", "0", "1"] && Marked(upstream))
  {
    RungsDiffer();
    if upstream == "" {
      return Mfa, true;
    }
    if Known(upstream) {
      return upstream, false;
    }
    if upstream == "0" {
      return Password, false;
    }
    if upstream == "1" {
      return Mfa, false;
    }
    var lower := ToLower(upstream);
    for k := 0 to |Markers|
      invariant forall m :: 0 <= m < k ==> !Contains(lower, Markers[m])
    {
      var found := ContainsAscii(lower, Markers[k]);
      if found {
        return PhishingResistant, false;
      }
    }
    return Mfa, true;
  }
}
