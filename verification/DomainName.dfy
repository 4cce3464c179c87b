/** Organization domains: normalisation and the one grammar they must meet. */
module DomainName {
  import opened Wrappers
  import Text

  /** Unicode white space and case mapping, known only on ASCII. */
  datatype Unicode = Unicode(isSpace: char -> bool, toLower: char -> char)

  ghost predicate AsciiConform(u: Unicode) {
    forall c: char :: c < 128 as char ==>
      (u.isSpace(c) <==> Text.IsAsciiSpace(c)) && u.toLower(c) == Text.LowerAscii(c)
  }

  type Locale = u: Unicode | AsciiConform(u) ghost witness Unicode(Text.IsAsciiSpace, Text.LowerAscii)

  const MaxLength := 253
  const LabelMaxLength := 63

  /** `NormalizeDomain`: trimmed, lower-cased, one trailing dot removed. */
  function Normalize(u: Locale, d: string): string {
    var n := Text.Map(Text.Trim(d, u.isSpace), u.toLower);
    if Text.HasSuffix(n, ".") then n[..|n| - 1] else n
  }

  // ------------------------------------------------------------ The grammar

  predicate IsAlpha(c: char) {
    'a' <= c <= 'z'
  }

  /** Letters, digits, hyphen. */
  predicate IsLdh(c: char) {
    IsAlpha(c) || '0' <= c <= '9' || c == '-'
  }

  predicate LabelOk(part: string) {
    && 1 <= |part| <= LabelMaxLength
    && part[0] != '-' && part[|part| - 1] != '-'
    && Text.AllOf(part, IsLdh)
  }

  predicate TldOk(part: string) {
    |part| >= 2 && ("xn--" <= part || Text.AllOf(part, IsAlpha))
  }

  predicate LabelsOk(labels: seq<string>) {
    && |labels| >= 2
    && (forall k :: 0 <= k < |labels| ==> LabelOk(labels[k]))
    && TldOk(labels[|labels| - 1])
  }

  /** A well-formed name: at least two good labels joined by dots. */
  ghost predicate WellFormed(n: string) {
    |n| <= MaxLength && exists labels :: LabelsOk(labels) && n == Text.Join(labels, ".")
  }

  lemma LabelUndotted(part: string)
    requires LabelOk(part)
    ensures '.' !in part
  {
  }

  /** The labels of a well-formed name are what splitting it gives. */
  lemma WellFormedBySplit(n: string)
    ensures WellFormed(n) <==> |n| <= 253 && LabelsOk(Text.Split(n, '.'))
  {
    if |n| <= MaxLength && LabelsOk(Text.Split(n, '.')) {
      Text.JoinSplit(n, '.');
    }
    if WellFormed(n) {
      var labels :| LabelsOk(labels) && n == Text.Join(labels, ".");
      forall k | 0 <= k < |labels|
        ensures '.' !in labels[k]
      {
        LabelUndotted(labels[k]);
      }
      Text.SplitJoin(labels, '.');
    }
  }

  // ----------------------------------------------------------- The validator

  datatype DomainError = Required | TooLong | NonAscii | NoDot | BadLabel | BadTld

  method CheckLabel(part: string) returns (ok: bool)
    ensures ok <==> LabelOk(part)
  {
    if part == "" || |part| > LabelMaxLength || part[0] == '-' || part[|part| - 1] == '-' {
      return false;
    }
    for i := 0 to |part|
      invariant forall k :: 0 <= k < i ==> IsLdh(part[k])
    {
      var c := part[i];
      var isLower := 'a' <= c <= 'z';
      var isDigit := '0' <= c <= '9';
      if !isLower && !isDigit && c != '-' {
        return false;
      }
    }
    return true;
  }

  method CheckTld(tld: string) returns (ok: bool)
    ensures ok <==> TldOk(tld)
  {
    if |tld| < 2 {
      return false;
    }
    if !("xn--" <= tld) {
      for i := 0 to |tld|
        invariant forall k :: 0 <= k < i ==> IsAlpha(tld[k])
      {
        if tld[i] < 'a' || tld[i] > 'z' {
          return false;
        }
      }
    }
    return true;
  }

  predicate IsAscii(c: char) {
    c <= 127 as char
  }

  method CheckAscii(n: string) returns (ok: bool)
    ensures ok <==> Text.AllOf(n, IsAscii)
  {
    var i := 0;
    while i < |n|
      invariant 0 <= i <= |n| && forall k :: 0 <= k < i ==> IsAscii(n[k])
    {
      if n[i] > 127 as char {
        return false;
      }
      i := i + 1;
    }
    return true;
  }

  method CheckLabels(labels: seq<string>) returns (ok: bool)
    ensures ok <==> forall k :: 0 <= k < |labels| ==> LabelOk(labels[k])
  {
    for k := 0 to |labels|
      invariant forall j :: 0 <= j < k ==> LabelOk(labels[j])
    {
      ok := CheckLabel(labels[k]);
      if !ok {
        return;
      }
    }
    return true;
  }

  lemma NameIsAscii(n: string)
    requires LabelsOk(Text.Split(n, '.')) && |n| <= MaxLength
    ensures n != "" && Text.AllOf(n, IsAscii)
  {
    WellFormedBySplit(n);
    WellFormedIsAscii(n);
  }

  method CheckName(n: string) returns (r: Result<(), DomainError>)
    ensures r.Ok? <==> |n| <= MaxLength && LabelsOk(Text.Split(n, '.'))
  {
    var labels := Text.Split(n, '.');
    if |n| <= MaxLength && LabelsOk(labels) {
      NameIsAscii(n);
    }
    if n == "" {
      return Err(Required);
    }
    if |n| > MaxLength {
      return Err(TooLong);
    }
    var ascii := CheckAscii(n);
    if !ascii {
      return Err(NonAscii);
    }
    if |labels| < 2 {
      return Err(NoDot);
    }
    var labelsOk := CheckLabels(labels);
    if !labelsOk {
      return Err(BadLabel);
    }
    var tldOk := CheckTld(labels[|labels| - 1]);
    r := if tldOk then Ok(()) else Err(BadTld);
  }

  /** `ValidateDomainFormat`: accepts exactly the inputs whose normal form is a
      well-formed name. */
  method ValidateFormat(u: Locale, d: string) returns (r: Result<(), DomainError>)
    ensures r.Ok? <==> WellFormed(Normalize(u, d))
  {
    var n := Normalize(u, d);
    WellFormedBySplit(n);
    r := CheckName(n);
  }

  // ---------------------------------------------------------------- Theorems

  predicate NameChar(c: char) {
    IsLdh(c) || c == '.'
  }

  lemma {:induction false} JoinedChars(labels: seq<string>)
    requires forall k :: 0 <= k < |labels| ==> LabelOk(labels[k])
    requires labels != []
    ensures var n := Text.Join(labels, "."); n != "" && Text.AllOf(n, NameChar) && n[0] != '.' && n[|n| - 1] != '.'
  {
    if |labels| > 1 {
      JoinedChars(labels[1..]);
      assert Text.Join(labels, ".") == labels[0] + "." + Text.Join(labels[1..], ".");
    }
  }

  lemma WellFormedIsAscii(n: string)
    requires WellFormed(n)
    ensures n != "" && n[0] != '.' && n[|n| - 1] != '.'
    ensures forall i :: 0 <= i < |n| ==> NameChar(n[i]) && n[i] < 128 as char
  {
    var labels :| LabelsOk(labels) && n == Text.Join(labels, ".");
    JoinedChars(labels);
  }

  /** A character of a name is no white space and no upper case. */
  lemma CleanChar(u: Locale, c: char)
    requires NameChar(c) && c < 128 as char
    ensures !u.isSpace(c) && u.toLower(c) == c
  {
  }

  /** So a name has clean ends and lower-casing leaves it alone. */
  lemma CleanName(u: Locale, n: string)
    requires WellFormed(n)
    ensures n != "" && n[|n| - 1] != '.'
    ensures !u.isSpace(n[0]) && !u.isSpace(n[|n| - 1]) && Text.Map(n, u.toLower) == n
  {
    WellFormedIsAscii(n);
    forall i | 0 <= i < |n|
      ensures !u.isSpace(n[i]) && u.toLower(n[i]) == n[i]
    {
      CleanChar(u, n[i]);
    }
  }

  lemma CleanDot(u: Locale, n: string, d: string)
    requires n != "" && !u.isSpace(n[0]) && Text.Map(n, u.toLower) == n && d == n + "."
    ensures !u.isSpace(d[0]) && !u.isSpace(d[|d| - 1]) && Text.Map(d, u.toLower) == d
  {
    CleanChar(u, '.');
    forall i | 0 <= i < |n|
      ensures u.toLower(d[i]) == d[i]
    {
      assert Text.Map(n, u.toLower)[i] == n[i] == d[i];
    }
  }

  /** A well-formed name is its own normal form. */
  lemma WellFormedIsNormal(u: Locale, n: string)
    requires WellFormed(n)
    ensures Normalize(u, n) == n
  {
    CleanName(u, n);
    Text.TrimClean(n, u.isSpace);
    if Text.HasSuffix(n, ".") {
      Text.SuffixLast(n, ".");
    }
  }

  /** So normalising an accepted input is idempotent, keeps it accepted, and gives
      its labels joined by dots. */
  lemma NormalFormIsFixed(u: Locale, d: string)
    requires WellFormed(Normalize(u, d))
    ensures Normalize(u, Normalize(u, d)) == Normalize(u, d)
    ensures WellFormed(Normalize(u, Normalize(u, d)))
    ensures Text.Join(Text.Split(Normalize(u, d), '.'), ".") == Normalize(u, d)
  {
    WellFormedIsNormal(u, Normalize(u, d));
    Text.JoinSplit(Normalize(u, d), '.');
  }

  /** The trailing root dot does not distinguish two inputs. */
  lemma RootDotForgotten(u: Locale, n: string)
    requires WellFormed(n)
    ensures Normalize(u, n + ".") == Normalize(u, n) == n
  {
    WellFormedIsNormal(u, n);
    var d := n + ".";
    CleanName(u, n);
    CleanDot(u, n, d);
    Text.TrimClean(d, u.isSpace);
    assert Text.HasSuffix(d, ".") && d[..|d| - 1] == n;
  }

  /** Every spelling of a well-formed name normalises to it: white space around,
      capitals within, a root dot behind. */
  lemma SpellingsNormalise(u: Locale, left: string, s: string, right: string, n: string, dotted: bool)
    requires WellFormed(n) && Text.AllOf(left, Text.IsAsciiSpace) && Text.AllOf(right, Text.IsAsciiSpace)
    requires Text.Map(s, Text.LowerAscii) == n
    ensures Normalize(u, left + (if dotted then s + "." else s) + right) == n
  {
    var core := if dotted then s + "." else s;
    SpelledChars(u, s, n);
    CoreTrimmed(u, left, s, core, right, dotted);
    CoreLowered(u, s, core, n, dotted);
    if !dotted && Text.HasSuffix(n, ".") {
      WellFormedIsAscii(n);
      Text.SuffixLast(n, ".");
    }
  }

  lemma CoreTrimmed(u: Locale, left: string, s: string, core: string, right: string, dotted: bool)
    requires Text.AllOf(left, Text.IsAsciiSpace) && Text.AllOf(right, Text.IsAsciiSpace)
    requires s != "" && !u.isSpace(s[0]) && !u.isSpace(s[|s| - 1]) && core == if dotted then s + "." else s
    ensures Text.Trim(left + core + right, u.isSpace) == core
  {
    CleanChar(u, '.');
    SpacesTrim(u, left);
    SpacesTrim(u, right);
    assert core[0] == s[0] && core[|core| - 1] == if dotted then '.' else s[|s| - 1];
    Text.TrimPadded(left, core, right, u.isSpace);
  }

  lemma CoreLowered(u: Locale, s: string, core: string, n: string, dotted: bool)
    requires Text.Map(s, u.toLower) == n && core == if dotted then s + "." else s
    ensures Text.Map(core, u.toLower) == if dotted then n + "." else n
    ensures dotted ==> Text.HasSuffix(n + ".", ".") && (n + ".")[..|n|] == n
  {
    CleanChar(u, '.');
  }

  lemma SpacesTrim(u: Locale, s: string)
    requires Text.AllOf(s, Text.IsAsciiSpace)
    ensures Text.AllOf(s, u.isSpace)
  {
  }

  /** The characters of a spelling: no white space, and lower-cased as in the name. */
  lemma SpelledChars(u: Locale, s: string, n: string)
    requires WellFormed(n) && Text.Map(s, Text.LowerAscii) == n
    ensures s != "" && Text.Map(s, u.toLower) == n
    ensures !u.isSpace(s[0]) && !u.isSpace(s[|s| - 1])
  {
    WellFormedIsAscii(n);
    forall i | 0 <= i < |s|
      ensures !u.isSpace(s[i]) && u.toLower(s[i]) == n[i]
    {
      assert Text.LowerAscii(s[i]) == n[i] && NameChar(n[i]);
    }
  }

  /** The characters of a label. */
  lemma LdhExactly(c: char)
    ensures IsLdh(c) <==> c in "abcdefghijklmnopqrstuvwxyz0123456789-"
  {
    assert "abcdefghijklmnopqrstuvwxyz0123456789-" == "abcdefghijklm" + "nopqrstuvwxyz" + "0123456789-";
  }

  lemma LabelExactly(part: string)
    ensures LabelOk(part) <==>
              1 <= |part| <= 63 && part[0] != '-' && part[|part| - 1] != '-' && Text.AllOf(part, IsLdh)
  {
  }
}
