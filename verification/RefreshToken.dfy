/** The client-facing refresh token `selector.validator`. */
module RefreshToken {
  import opened Wrappers
  import opened Encoding
  import Text

  datatype Token = Token(selector: Uuid, validator: Bytes)

  datatype TokenError = BadFormat | BadSelector | BadValidator

  /** `UUID.String`: lower-case hex in groups of 8-4-4-4-12. */
  function UuidString(u: Uuid): (s: string)
    ensures |s| == 36
  {
    HexEncode(u[..4]) + "-" + HexEncode(u[4..6]) + "-" + HexEncode(u[6..8]) + "-" + HexEncode(u[8..10]) + "-" + HexEncode(u[10..])
  }

  /** The dashed form at the front of `s`. */
  function ParseDashed(s: string): (r: Option<Uuid>)
    requires |s| >= 36
  {
    if s[8] != '-' || s[13] != '-' || s[18] != '-' || s[23] != '-' then None
    else
      match HexDecode(s[..8] + s[9..13] + s[14..18] + s[19..23] + s[24..36])
      case None => None
      case Some(u) => Some(u)
  }

  /** `uuid.Parse`: plain, URN, wrapped (the wrapping characters are not looked
      at) or undashed. */
  function ParseUuid(s: string): Option<Uuid> {
    if |s| == 36 then ParseDashed(s)
    else if |s| == 45 then
      if Text.Map(s[..9], Text.LowerAscii) == "urn:uuid:" then ParseDashed(s[9..]) else None
    else if |s| == 38 then ParseDashed(s[1..])
    else if |s| == 32 then
      match HexDecode(s)
      case None => None
      case Some(u) => Some(u)
    else None
  }

  /** `SecureRefreshToken.Encode`. */
  function Print(t: Token): string {
    UuidString(t.selector) + "." + Encode(URLEncoding, t.validator)
  }

  /** `ParseSecureRefreshToken`. */
  function Parse(s: string): Result<Token, TokenError> {
    var parts := Text.Split(s, '.');
    if |parts| != 2 then Err(BadFormat)
    else
      match ParseUuid(parts[0])
      case None => Err(BadSelector)
      case Some(selector) =>
        match Decode(URLEncoding, parts[1])
        case None => Err(BadValidator)
        case Some(validator) => Ok(Token(selector, validator))
  }

  lemma {:induction false} HexConcat(a: Bytes, b: Bytes)
    ensures HexEncode(a + b) == HexEncode(a) + HexEncode(b)
  {
    if a == [] {
      assert a + b == b;
    } else {
      assert (a + b)[1..] == a[1..] + b;
      HexConcat(a[1..], b);
    }
  }

  /** The groups of the dashed form are read back in order. */
  lemma DashedGroups(a: string, b: string, c: string, d: string, e: string)
    requires |a| == 8 && |b| == |c| == |d| == 4 && |e| == 12
    ensures var s := a + "-" + b + "-" + c + "-" + d + "-" + e;
            && |s| == 36 && s[8] == s[13] == s[18] == s[23] == '-'
            && s[..8] + s[9..13] + s[14..18] + s[19..23] + s[24..36] == a + b + c + d + e
  {
  }

  lemma HexGroups(u: Uuid)
    ensures HexEncode(u[..4]) + HexEncode(u[4..6]) + HexEncode(u[6..8]) + HexEncode(u[8..10]) + HexEncode(u[10..]) == HexEncode(u)
  {
    HexConcat(u[..4], u[4..6]);
    assert u[..4] + u[4..6] == u[..6];
    HexConcat(u[..6], u[6..8]);
    assert u[..6] + u[6..8] == u[..8];
    HexConcat(u[..8], u[8..10]);
    assert u[..8] + u[8..10] == u[..10];
    HexConcat(u[..10], u[10..]);
    assert u[..10] + u[10..] == u;
  }

  lemma UuidRoundTrip(u: Uuid)
    ensures ParseUuid(UuidString(u)) == Some(u)
  {
    DashedGroups(HexEncode(u[..4]), HexEncode(u[4..6]), HexEncode(u[6..8]), HexEncode(u[8..10]), HexEncode(u[10..]));
    HexGroups(u);
    HexRoundTrip(u);
  }

  lemma UuidUndotted(u: Uuid)
    ensures '.' !in UuidString(u)
  {
  }

  /** Parsing what was printed gives the token back, for every selector and for
      validators of every length, the empty one included; the text has exactly
      one dot. */
  lemma TokenRoundTrip(t: Token)
    ensures Parse(Print(t)) == Ok(t)
    ensures |Text.Split(Print(t), '.')| == 2
  {
    var left, right := UuidString(t.selector), Encode(URLEncoding, t.validator);
    UuidRoundTrip(t.selector);
    UuidUndotted(t.selector);
    assert '.' !in right;
    Text.SplitFirst(left, right, '.');
    Text.SplitNone(right, '.');
    Base64RoundTrip(URLEncoding, t.validator);
  }

  // ------------------------------------------------------ What is accepted

  lemma EqualPieces(a: string, b: string, x: string, y: string)
    requires |a| == |x|
    ensures a + b == x + y <==> a == x && b == y
  {
    if a + b == x + y {
      assert (a + b)[..|a|] == a && (x + y)[..|a|] == x;
      assert (a + b)[|a|..] == b && (x + y)[|a|..] == y;
    }
  }

  lemma LowerConcat(a: string, b: string)
    ensures Lower(a + b) == Lower(a) + Lower(b)
  {
  }

  lemma LowerPieces(s: string, i: nat)
    requires i <= |s|
    ensures Lower(s) == Lower(s[..i]) + Lower(s[i..])
  {
    assert s == s[..i] + s[i..];
    LowerConcat(s[..i], s[i..]);
  }

  /** Comparing `a-rest` in lower case piece by piece. */
  lemma DashedPiece(s: string, n: nat, group: string, rest: string)
    requires n < |s| && |group| == n
    ensures Lower(s) == group + "-" + rest <==> Lower(s[..n]) == group && s[n] == '-' && Lower(s[n + 1..]) == rest
  {
    LowerPieces(s, n);
    LowerPieces(s[n..], 1);
    var dash := Lower(s[n..][..1]);
    assert s[n..][1..] == s[n + 1..];
    assert Lower(s) == Lower(s[..n]) + (dash + Lower(s[n + 1..]));
    assert group + "-" + rest == group + ("-" + rest);
    EqualPieces(Lower(s[..n]), dash + Lower(s[n + 1..]), group, "-" + rest);
    EqualPieces(dash, Lower(s[n + 1..]), "-", rest);
    assert dash == "-" <==> s[n] == '-' by {
      assert |dash| == 1 && dash[0] == Text.LowerAscii(s[n]);
    }
  }

  /** The five groups of a dashed text. */
  function Groups(s: string): string
    requires |s| == 36
  {
    s[..8] + s[9..13] + s[14..18] + s[19..23] + s[24..36]
  }

  predicate Dashed(s: string) {
    |s| == 36 && s[8] == '-' && s[13] == '-' && s[18] == '-' && s[23] == '-'
  }

  lemma ThreePieces(s: string, c: string, d: string, e: string)
    requires |s| == 22 && |c| == |d| == 4
    ensures Lower(s) == c + "-" + (d + "-" + e)
       <==> Lower(s[..4]) == c && s[4] == '-' && Lower(s[5..9]) == d && s[9] == '-' && Lower(s[10..]) == e
  {
    Slices(s);
    DashedPiece(s, 4, c, d + "-" + e);
    DashedPiece(s[5..], 4, d, e);
  }

  lemma Slices(s: string)
    requires |s| >= 10
    ensures s[5..][..4] == s[5..9] && s[5..][4] == s[9] && s[5..][5..] == s[10..]
  {
  }

  lemma FourPieces(s: string, b: string, c: string, d: string, e: string)
    requires |s| == 27 && |b| == |c| == |d| == 4
    ensures Lower(s) == b + "-" + (c + "-" + (d + "-" + e))
       <==> Lower(s[..4]) == b && s[4] == '-' && Lower(s[5..9]) == c && s[9] == '-'
            && Lower(s[10..14]) == d && s[14] == '-' && Lower(s[15..]) == e
  {
    var t := s[5..];
    DashedPiece(s, 4, b, c + "-" + (d + "-" + e));
    ThreePieces(t, c, d, e);
    assert t[..4] == s[5..9] && t[4] == s[9] && t[5..9] == s[10..14] && t[9] == s[14] && t[10..] == s[15..];
  }

  lemma FivePieces(s: string, a: string, b: string, c: string, d: string, e: string)
    requires |s| == 36 && |a| == 8 && |b| == |c| == |d| == 4
    ensures Lower(s) == a + "-" + (b + "-" + (c + "-" + (d + "-" + e)))
       <==> Dashed(s) && Lower(s[..8]) == a && Lower(s[9..13]) == b && Lower(s[14..18]) == c
            && Lower(s[19..23]) == d && Lower(s[24..36]) == e
  {
    var t := s[9..];
    DashedPiece(s, 8, a, b + "-" + (c + "-" + (d + "-" + e)));
    FourPieces(t, b, c, d, e);
    assert t[..4] == s[9..13] && t[4] == s[13] && t[5..9] == s[14..18] && t[9] == s[18];
    assert t[10..14] == s[19..23] && t[14] == s[23] && t[15..] == s[24..36];
  }

  lemma LowerGroups(s: string, a: string, b: string, c: string, d: string, e: string)
    requires |s| == 36 && |a| == 8 && |b| == |c| == |d| == 4 && |e| == 12
    ensures Lower(Groups(s)) == a + b + c + d + e
       <==> Lower(s[..8]) == a && Lower(s[9..13]) == b && Lower(s[14..18]) == c
            && Lower(s[19..23]) == d && Lower(s[24..36]) == e
  {
    var g4 := s[..8] + s[9..13] + s[14..18] + s[19..23];
    var g3 := s[..8] + s[9..13] + s[14..18];
    LowerConcat(g4, s[24..36]);
    LowerConcat(g3, s[19..23]);
    LowerConcat(s[..8] + s[9..13], s[14..18]);
    LowerConcat(s[..8], s[9..13]);
    EqualPieces(Lower(g4), Lower(s[24..36]), a + b + c + d, e);
    EqualPieces(Lower(g3), Lower(s[19..23]), a + b + c, d);
    EqualPieces(Lower(s[..8] + s[9..13]), Lower(s[14..18]), a + b, c);
    EqualPieces(Lower(s[..8]), Lower(s[9..13]), a, b);
  }

  lemma Regroup(a: string, b: string, c: string, d: string, e: string)
    ensures a + "-" + b + "-" + c + "-" + d + "-" + e == a + "-" + (b + "-" + (c + "-" + (d + "-" + e)))
  {
  }

  /** A dashed text in lower case, and its groups in lower case. */
  lemma DashedByGroups(s: string, a: string, b: string, c: string, d: string, e: string)
    requires |s| == 36 && |a| == 8 && |b| == |c| == |d| == 4 && |e| == 12
    ensures Lower(s) == a + "-" + b + "-" + c + "-" + d + "-" + e
       <==> Dashed(s) && Lower(Groups(s)) == a + b + c + d + e
  {
    Regroup(a, b, c, d, e);
    LowerGroups(s, a, b, c, d, e);
    FivePieces(s, a, b, c, d, e);
  }

  lemma ParseGroups(s: string, u: Uuid)
    requires |s| == 36
    ensures ParseDashed(s) == Some(u) <==> Dashed(s) && HexDecode(Groups(s)) == Some(u)
  {
  }

  /** The dashed form is read exactly in either letter case. */
  lemma DashedExactly(s: string, u: Uuid)
    requires |s| == 36
    ensures ParseDashed(s) == Some(u) <==> Lower(s) == UuidString(u)
  {
    ParseGroups(s, u);
    HexDecodeExactly(Groups(s), u);
    HexGroups(u);
    DashedByGroups(s, HexEncode(u[..4]), HexEncode(u[4..6]), HexEncode(u[6..8]), HexEncode(u[8..10]), HexEncode(u[10..]));
  }

  /** The spellings of a UUID that `uuid.Parse` takes: dashed, as a URN, between
      any two characters, or undashed, in either letter case. */
  predicate Spelling(s: string, u: Uuid) {
    || Lower(s) == UuidString(u)
    || Lower(s) == "urn:uuid:" + UuidString(u)
    || (|s| == 38 && Lower(s[1..37]) == UuidString(u))
    || Lower(s) == HexEncode(u)
  }

  lemma ParseDashedPrefix(s: string)
    requires |s| >= 36
    ensures ParseDashed(s) == ParseDashed(s[..36])
  {
    var t := s[..36];
    assert t[..8] == s[..8] && t[9..13] == s[9..13] && t[14..18] == s[14..18] && t[19..23] == s[19..23] && t[24..36] == s[24..36];
  }

  lemma UuidSpellings(s: string, u: Uuid)
    ensures ParseUuid(s) == Some(u) <==> Spelling(s, u)
  {
    if |s| == 36 {
      DashedExactly(s, u);
    } else if |s| == 45 {
      DashedExactly(s[9..], u);
      LowerPieces(s, 9);
      EqualPieces(Lower(s[..9]), Lower(s[9..]), "urn:uuid:", UuidString(u));
    } else if |s| == 38 {
      ParseDashedPrefix(s[1..]);
      assert s[1..][..36] == s[1..37];
      DashedExactly(s[1..37], u);
    } else if |s| == 32 {
      HexDecodeExactly(s, u);
    }
  }

  /** The accepted texts: one dot, before it any spelling of the selector, after it
      the padded URL-safe base64 of the validator, line ends and unused bits apart. */
  lemma AcceptedExactly(s: string, t: Token)
    ensures Parse(s) == Ok(t)
       <==> var parts := Text.Split(s, '.');
            |parts| == 2 && s == parts[0] + "." + parts[1]
            && Spelling(parts[0], t.selector) && Spells(URLEncoding, WithoutLineEnds(parts[1]), t.validator)
  {
    var parts := Text.Split(s, '.');
    if |parts| == 2 {
      UuidSpellings(parts[0], t.selector);
      DecodeExactly(URLEncoding, parts[1], t.validator);
      Text.JoinSplit(s, '.');
      assert Text.Join(parts[1..], ".") == parts[1];
    }
  }
}
