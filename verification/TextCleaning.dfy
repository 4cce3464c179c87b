/** `SanitizeString` and slugs, against the simple reading of both: the tokens of
    the input joined by one separator. */
module TextCleaning {
  import opened Text

  // ------------------------------------------- Texts with single separators

  /** Tokens separated by single occurrences of `c`: every separator is `c`, none
      is doubled and none stands at an end. */
  predicate SinglySeparated(s: string, c: char, sep: char -> bool) {
    && (forall i :: 0 <= i < |s| && sep(s[i]) ==> s[i] == c)
    && (forall i, j :: 0 <= i < |s| && j == i + 1 < |s| ==> !(sep(s[i]) && sep(s[j])))
    && (s != "" ==> !sep(s[0]) && !sep(s[|s| - 1]))
  }

  /** What follows the first separator is singly separated again. */
  lemma SeparatedTail(s: string, c: char, sep: char -> bool, n: nat)
    requires SinglySeparated(s, c, sep) && n == RunLength(s, sep) && n < |s|
    ensures n + 1 < |s|
    ensures SinglySeparated(s[n + 1..], c, sep)
  {
  }

  lemma SeparatedHead(s: string, c: char, sep: char -> bool, n: nat)
    requires SinglySeparated(s, c, sep) && n == RunLength(s, sep) && n < |s|
    ensures Token(s[..n], sep) && s == s[..n] + [c] + s[n + 1..]
  {
    CutAt(s, n);
  }

  lemma CutAt(s: string, n: nat)
    requires n < |s|
    ensures s == s[..n] + [s[n]] + s[n + 1..]
  {
  }

  lemma FieldsOfPair(t: string, c: char, tail: string, sep: char -> bool)
    requires Token(t, sep) && sep(c)
    ensures Fields(t + [c] + tail, sep) == [t] + Fields(tail, sep)
  {
    var rest := [c] + tail;
    assert t + [c] + tail == t + rest && rest[1..] == tail;
    FieldsPrepend(t, rest, sep);
  }

  lemma FieldsOfToken(t: string, sep: char -> bool)
    requires Token(t, sep)
    ensures Fields(t, sep) == [t]
  {
    assert t + "" == t;
    FieldsPrepend(t, "", sep);
  }

  lemma JoinCons(t: string, ts: seq<string>, c: string)
    requires ts != []
    ensures Join([t] + ts, c) == t + c + Join(ts, c)
  {
  }

  /** Such a text is its own tokens, joined. */
  lemma {:induction false} SeparatedIsJoin(s: string, c: char, sep: char -> bool)
    requires sep(c) && SinglySeparated(s, c, sep)
    ensures Join(Fields(s, sep), [c]) == s
    decreases |s|
  {
    if s != "" {
      var n := RunLength(s, sep);
      if n == |s| {
        FieldsOfToken(s, sep);
      } else {
        SeparatedHead(s, c, sep, n);
        SeparatedTail(s, c, sep, n);
        SeparatedIsJoin(s[n + 1..], c, sep);
        FieldsOfPair(s[..n], c, s[n + 1..], sep);
        JoinCons(s[..n], Fields(s[n + 1..], sep), [c]);
      }
    }
  }

  lemma SeparatedCons(t: string, c: char, r: string, sep: char -> bool)
    requires Token(t, sep) && SinglySeparated(r, c, sep) && r != ""
    ensures SinglySeparated(t + [c] + r, c, sep)
  {
  }

  /** And joining tokens gives such a text. */
  lemma {:induction false} JoinIsSeparated(ts: seq<string>, c: char, sep: char -> bool)
    requires forall k :: 0 <= k < |ts| ==> Token(ts[k], sep)
    ensures SinglySeparated(Join(ts, [c]), c, sep)
    ensures ts != [] ==> Join(ts, [c]) != ""
  {
    if |ts| > 1 {
      JoinIsSeparated(ts[1..], c, sep);
      SeparatedCons(ts[0], c, Join(ts[1..], [c]), sep);
    } else if |ts| == 1 {
      assert Token(ts[0], sep);
    }
  }

  // ------------------------------------------------------ Fields, one char on

  lemma FieldsOfRun(c: char, t: string, rest: string, sep: char -> bool)
    requires Token(t, sep) && !sep(c) && (rest != "" ==> sep(rest[0]))
    ensures Fields(t + rest, sep) == [t] + Fields(rest, sep)
    ensures Fields([c] + t + rest, sep) == [[c] + t] + Fields(rest, sep)
  {
    FieldsPrepend(t, rest, sep);
    FieldsPrepend([c] + t, rest, sep);
  }

  /** A character in front of a token lengthens the first field. */
  lemma FieldsGrow(c: char, s: string, sep: char -> bool)
    requires s != "" && !sep(s[0]) && !sep(c)
    ensures Fields(s, sep) != []
    ensures Fields([c] + s, sep) == [[c] + Fields(s, sep)[0]] + Fields(s, sep)[1..]
  {
    var n := RunLength(s, sep);
    var t, rest := s[..n], s[n..];
    assert t + rest == s && [c] + t + rest == [c] + s;
    FieldsOfRun(c, t, rest, sep);
  }

  /** How one more character in front changes the fields. */
  lemma FieldsCons(c: char, s: string, sep: char -> bool)
    ensures s != "" && !sep(s[0]) ==> Fields(s, sep) != []
    ensures Fields([c] + s, sep) ==
              if sep(c) then Fields(s, sep)
              else if s == "" || sep(s[0]) then [[c]] + Fields(s, sep)
              else [[c] + Fields(s, sep)[0]] + Fields(s, sep)[1..]
  {
    assert ([c] + s)[1..] == s;
    if !sep(c) {
      if s == "" || sep(s[0]) {
        FieldsPrepend([c], s, sep);
      } else {
        FieldsGrow(c, s, sep);
      }
    }
  }

  // --------------------------------------------------------------- Sanitising

  /** The characters that end up as spaces. */
  predicate IsGap(c: char) {
    c == ' ' || c == '\t' || c == '\n' || c == '\r'
  }

  predicate HasDouble(s: string) {
    exists i :: 0 <= i < |s| - 1 && s[i] == ' ' && s[i + 1] == ' '
  }

  /** `strings.ReplaceAll(s, "  ", " ")`. */
  function Halve(s: string): (r: string)
    ensures |r| <= |s| && (s == "" <==> r == "")
    ensures s != "" ==> r[0] == s[0] && (s[|s| - 1] != ' ' ==> r[|r| - 1] == s[|s| - 1])
  {
    if |s| < 2 then s
    else if s[0] == ' ' && s[1] == ' ' then " " + Halve(s[2..])
    else [s[0]] + Halve(s[1..])
  }

  lemma {:induction false} HalveShrinks(s: string)
    requires HasDouble(s)
    ensures |Halve(s)| < |s|
  {
    if !(s[0] == ' ' && s[1] == ' ') {
      var i :| 0 <= i < |s| - 1 && s[i] == ' ' && s[i + 1] == ' ';
      assert s[1..][i - 1] == ' ' && s[1..][i] == ' ';
      HalveShrinks(s[1..]);
    }
  }

  lemma {:induction false} HalveKeepsFields(s: string)
    ensures Fields(Halve(s), IsGap) == Fields(s, IsGap)
  {
    if |s| >= 2 {
      if s[0] == ' ' && s[1] == ' ' {
        HalveKeepsFields(s[2..]);
        FieldsCons(' ', Halve(s[2..]), IsGap);
        assert s == [' '] + s[1..] && s[1..] == [' '] + s[2..];
        FieldsCons(' ', s[1..], IsGap);
        FieldsCons(' ', s[2..], IsGap);
      } else {
        HalveKeepsFields(s[1..]);
        assert s == [s[0]] + s[1..];
        FieldsCons(s[0], s[1..], IsGap);
        FieldsCons(s[0], Halve(s[1..]), IsGap);
      }
    }
  }

  /** The collapse loop. */
  function Collapse(s: string): (r: string)
    ensures !HasDouble(r) && (s == "" <==> r == "")
    ensures s != "" ==> r[0] == s[0] && (s[|s| - 1] != ' ' ==> r[|r| - 1] == s[|s| - 1])
    decreases |s|
  {
    if HasDouble(s) then
      HalveShrinks(s);
      Collapse(Halve(s))
    else s
  }

  lemma {:induction false} CollapseKeepsFields(s: string)
    ensures Fields(Collapse(s), IsGap) == Fields(s, IsGap)
    decreases |s|
  {
    if HasDouble(s) {
      HalveShrinks(s);
      HalveKeepsFields(s);
      CollapseKeepsFields(Halve(s));
    }
  }

  function Flatten(c: char): char {
    if IsGap(c) then ' ' else c
  }

  lemma {:induction false} FlattenKeepsFields(s: string)
    ensures Fields(Map(s, Flatten), IsGap) == Fields(s, IsGap)
  {
    if s != "" {
      FlattenKeepsFields(s[1..]);
      assert s == [s[0]] + s[1..];
      assert Map(s, Flatten) == [Flatten(s[0])] + Map(s[1..], Flatten);
      FieldsCons(s[0], s[1..], IsGap);
      FieldsCons(Flatten(s[0]), Map(s[1..], Flatten), IsGap);
    }
  }

  /** One replacement per control character, as the source does them. */
  function ReplaceChar(s: string, c: char): string {
    Map(s, x => if x == c then ' ' else x)
  }

  /** What sanitising means. */
  function Sanitized(input: string): string {
    Join(Fields(TrimSpace(input), IsGap), " ")
  }

  /** One collapse loop: it ends because each pass shortens the text. */
  method CollapseSpaces(input: string) returns (s: string)
    ensures s == Collapse(input)
  {
    s := input;
    while HasDouble(s)
      invariant Collapse(s) == Collapse(input)
      decreases |s|
    {
      HalveShrinks(s);
      s := Halve(s);
    }
  }

  lemma ReplacingIsFlattening(s: string)
    ensures ReplaceChar(ReplaceChar(ReplaceChar(s, '\t'), '\n'), '\r') == Map(s, Flatten)
  {
  }

  /** `SanitizeString`: the input's tokens separated by single spaces. */
  method SanitizeString(input: string) returns (r: string)
    ensures r == Sanitized(input)
  {
    var s := TrimSpace(input);
    s := CollapseSpaces(s);
    s := ReplaceChar(s, '\t');
    s := ReplaceChar(s, '\n');
    s := ReplaceChar(s, '\r');
    s := CollapseSpaces(s);
    r := TrimSpace(s);
    StepsMakeSanitized(input);
  }

  lemma StepsMakeSanitized(input: string)
    ensures var once := Collapse(TrimSpace(input));
            TrimSpace(Collapse(ReplaceChar(ReplaceChar(ReplaceChar(once, '\t'), '\n'), '\r'))) == Sanitized(input)
  {
    var trimmed := Trim(input, IsAsciiSpace);
    var once := Collapse(trimmed);
    ReplacingIsFlattening(once);
    PipelineIsJoin(trimmed);
    var out := Collapse(Map(once, Flatten));
    TrimClean(out, IsAsciiSpace);
  }

  lemma PipelineIsJoin(trimmed: string)
    requires trimmed != "" ==> !IsAsciiSpace(trimmed[0]) && !IsAsciiSpace(trimmed[|trimmed| - 1])
    ensures var out := Collapse(Map(Collapse(trimmed), Flatten));
            && out == Join(Fields(trimmed, IsGap), " ")
            && (out != "" ==> !IsAsciiSpace(out[0]) && !IsAsciiSpace(out[|out| - 1]))
  {
    var once := Collapse(trimmed);
    var flat := Map(once, Flatten);
    var out := Collapse(flat);
    CollapseKeepsFields(trimmed);
    FlattenKeepsFields(once);
    CollapseKeepsFields(flat);
    CollapseOfFlat(flat);
    SeparatedIsJoin(out, ' ', IsGap);
  }

  lemma {:induction false} CollapseOfFlat(s: string)
    requires forall i :: 0 <= i < |s| && IsGap(s[i]) ==> s[i] == ' '
    requires s != "" ==> !IsGap(s[0]) && !IsGap(s[|s| - 1])
    ensures SinglySeparated(Collapse(s), ' ', IsGap)
    decreases |s|
  {
    if HasDouble(s) {
      HalveShrinks(s);
      HalveFlat(s);
      CollapseOfFlat(Halve(s));
    }
  }

  lemma {:induction false} HalveFlat(s: string)
    requires forall i :: 0 <= i < |s| && IsGap(s[i]) ==> s[i] == ' '
    ensures forall i :: 0 <= i < |Halve(s)| && IsGap(Halve(s)[i]) ==> Halve(s)[i] == ' '
  {
    if |s| >= 2 {
      if s[0] == ' ' && s[1] == ' ' {
        HalveFlat(s[2..]);
      } else {
        HalveFlat(s[1..]);
      }
    }
  }

  /** The result has no tab, CR, LF, doubled space or outer white space, and
      sanitising it again changes nothing. */
  lemma SanitizedIsClean(input: string)
    ensures var r := Sanitized(input);
            && SinglySeparated(r, ' ', IsGap)
            && '\t' !in r && '\n' !in r && '\r' !in r && !HasDouble(r)
            && TrimSpace(r) == r
            && Sanitized(r) == r
  {
    var trimmed := TrimSpace(input);
    var r := Sanitized(input);
    PipelineIsJoin(trimmed);
    JoinIsSeparated(Fields(trimmed, IsGap), ' ', IsGap);
    TrimClean(r, IsAsciiSpace);
    SeparatedIsJoin(r, ' ', IsGap);
    SeparatedIsTight(r);
  }

  /** Single separation rules out a doubled space. */
  lemma SeparatedIsTight(s: string)
    requires SinglySeparated(s, ' ', IsGap)
    ensures !HasDouble(s)
  {
  }

  // -------------------------------------------------------------------- Slugs

  predicate IsAlnum(c: char) {
    'a' <= c <= 'z' || '0' <= c <= '9'
  }

  predicate NotAlnum(c: char) {
    !IsAlnum(c)
  }

  predicate IsHyphen(c: char) {
    c == '-'
  }

  /** Replacing every maximal run of other characters by one hyphen. */
  function Hyphenate(s: string): (r: string)
    ensures s != "" && IsAlnum(s[0]) ==> r != "" && r[0] == s[0]
    decreases |s|
  {
    if s == "" then ""
    else if IsAlnum(s[0]) then [s[0]] + Hyphenate(s[1..])
    else "-" + Hyphenate(TrimLeft(s, NotAlnum))
  }

  /** `GenerateSlug`, over any lower-casing of characters. */
  function GenerateSlug(lower: char -> char, input: string): string {
    Trim(Hyphenate(Map(input, lower)), IsHyphen)
  }

  lemma {:induction false} TrimRightAppend(a: string, b: string, p: char -> bool)
    requires TrimRight(b, p) != ""
    ensures TrimRight(a + b, p) == a + TrimRight(b, p)
  {
    var s := a + b;
    assert s[|s| - 1] == b[|b| - 1];
    if p(b[|b| - 1]) {
      assert s[..|s| - 1] == a + b[..|b| - 1];
      TrimRightAppend(a, b[..|b| - 1], p);
    }
  }

  lemma {:induction false} HyphenateRun(t: string, rest: string)
    requires AllOf(t, IsAlnum)
    ensures Hyphenate(t + rest) == t + Hyphenate(rest)
  {
    if t == "" {
      assert t + rest == rest;
    } else {
      assert (t + rest)[1..] == t[1..] + rest;
      HyphenateRun(t[1..], rest);
    }
  }

  lemma {:induction false} FieldsSkip(s: string)
    ensures Fields(TrimLeft(s, NotAlnum), NotAlnum) == Fields(s, NotAlnum)
  {
    if s != "" && NotAlnum(s[0]) {
      FieldsSkip(s[1..]);
    }
  }

  lemma HyphenateOther(rest: string)
    requires rest != "" && NotAlnum(rest[0])
    ensures Hyphenate(rest) == "-" + Hyphenate(TrimLeft(rest, NotAlnum))
  {
  }

  lemma HyphenateGap(t: string, rest: string, h: string)
    requires AllOf(t, IsAlnum) && Hyphenate(rest) == "-" + h
    ensures Hyphenate(t + rest) == t + "-" + h
  {
    HyphenateRun(t, rest);
    assert t + ("-" + h) == t + "-" + h;
  }

  lemma TrimAfterToken(t: string, h: string)
    requires Token(t, NotAlnum)
    ensures h == "" ==> TrimRight(t + "-" + h, IsHyphen) == t
    ensures TrimRight(h, IsHyphen) != "" ==> TrimRight(t + "-" + h, IsHyphen) == t + "-" + TrimRight(h, IsHyphen)
  {
    if TrimRight(h, IsHyphen) != "" {
      TrimRightAppend(t + "-", h, IsHyphen);
    } else if h == "" {
      assert t + "-" + h == t + "-" && (t + "-")[..|t|] == t;
      assert IsAlnum(t[|t| - 1]);
    }
  }

  /** From a text that starts with a token. */
  lemma {:induction false} SlugFromToken(s: string)
    requires s != "" ==> IsAlnum(s[0])
    ensures TrimRight(Hyphenate(s), IsHyphen) == Join(Fields(s, NotAlnum), "-")
    decreases |s|
  {
    if s != "" {
      var n := RunLength(s, NotAlnum);
      var t, rest := s[..n], s[n..];
      assert s == t + rest;
      if rest == "" {
        HyphenateToken(s);
        FieldsOfToken(s, NotAlnum);
      } else {
        var tail := TrimLeft(rest, NotAlnum);
        HyphenateOther(rest);
        HyphenateGap(t, rest, Hyphenate(tail));
        FieldsPrepend(t, rest, NotAlnum);
        FieldsSkip(rest);
        SlugFromToken(tail);
        SlugStep(t, tail);
      }
    }
  }

  lemma HyphenateToken(t: string)
    requires Token(t, NotAlnum)
    ensures TrimRight(Hyphenate(t), IsHyphen) == t
  {
    HyphenateRun(t, "");
    assert t + "" == t;
    assert IsAlnum(t[|t| - 1]);
  }

  lemma SlugStep(t: string, tail: string)
    requires Token(t, NotAlnum)
    requires tail != "" ==> IsAlnum(tail[0])
    requires TrimRight(Hyphenate(tail), IsHyphen) == Join(Fields(tail, NotAlnum), "-")
    ensures TrimRight(t + "-" + Hyphenate(tail), IsHyphen) == Join([t] + Fields(tail, NotAlnum), "-")
  {
    TrimAfterToken(t, Hyphenate(tail));
    if tail != "" {
      JoinIsSeparated(Fields(tail, NotAlnum), '-', NotAlnum);
      JoinCons(t, Fields(tail, NotAlnum), "-");
    }
  }

  lemma LeadingGap(s: string)
    ensures TrimLeft(Hyphenate(s), IsHyphen) == Hyphenate(TrimLeft(s, NotAlnum))
  {
  }

  /** A generated slug is the input's alphanumeric runs joined by hyphens. */
  lemma SlugIsJoin(lower: char -> char, input: string)
    ensures GenerateSlug(lower, input) == Join(Fields(Map(input, lower), NotAlnum), "-")
  {
    var s := Map(input, lower);
    LeadingGap(s);
    FieldsSkip(s);
    SlugFromToken(TrimLeft(s, NotAlnum));
  }

  predicate ValidSlug(s: string) {
    && 1 <= |s| <= 63
    && s[0] != '-' && s[|s| - 1] != '-'
    && (forall i :: 0 <= i < |s| ==> IsAlnum(s[i]) || s[i] == '-')
    && (forall i, j :: 0 <= i < |s| && j == i + 1 < |s| ==> !(s[i] == '-' && s[j] == '-'))
  }

  /** `IsValidSlug`. */
  method IsValidSlug(slug: string) returns (ok: bool)
    ensures ok <==> ValidSlug(slug)
  {
    if |slug| == 0 || |slug| > 63 {
      return false;
    }
    if slug[0] == '-' || slug[|slug| - 1] == '-' {
      return false;
    }
    for i := 0 to |slug|
      invariant forall k :: 0 <= k < i ==> IsAlnum(slug[k]) || slug[k] == '-'
    {
      var c := slug[i];
      if (c < 'a' || c > 'z') && (c < '0' || c > '9') && c != '-' {
        return false;
      }
    }
    ok := !(exists i :: 0 <= i < |slug| - 1 && slug[i] == '-' && slug[i + 1] == '-');
  }

  /** Up to its length, validity is being singly separated. */
  lemma ValidIsSeparated(s: string)
    ensures ValidSlug(s) <==> 1 <= |s| <= 63 && SinglySeparated(s, '-', NotAlnum)
  {
  }

  /** A generated slug is valid exactly when its length is 1 to 63. */
  lemma GeneratedSlugValid(lower: char -> char, input: string)
    ensures ValidSlug(GenerateSlug(lower, input)) <==> 1 <= |GenerateSlug(lower, input)| <= 63
  {
    SlugIsJoin(lower, input);
    JoinIsSeparated(Fields(Map(input, lower), NotAlnum), '-', NotAlnum);
    ValidIsSeparated(GenerateSlug(lower, input));
  }

  /** Generation is the identity on valid slugs, for any lower-casing that fixes
      slug characters. */
  lemma ValidSlugIsFixed(lower: char -> char, slug: string)
    requires forall c :: IsAlnum(c) || c == '-' ==> lower(c) == c
    requires ValidSlug(slug)
    ensures GenerateSlug(lower, slug) == slug
  {
    ValidIsSeparated(slug);
    assert Map(slug, lower) == slug;
    SeparatedIsJoin(slug, '-', NotAlnum);
    SlugIsJoin(lower, slug);
  }
}
