/** Password hashes in the PHC string format: what is printed, everything that is
    parsed, and the comparison in between. */
module PasswordHash {
  import opened Wrappers
  import opened Encoding
  import Text

  const Argon2Version := 19
  const Memory := 65536
  const Time := 3
  const Threads := 4
  const KeyLen := 32
  const SaltLen := 16

  datatype HashError = UnsupportedFormat | InvalidFormat | Mismatch

  /** The decoded content of a PHC string. */
  datatype Phc = Phc(memory: nat, time: nat, threads: nat, salt: Bytes, digest: Bytes)

  /** The cost ceilings, and a digest that can be recomputed. */
  predicate Affordable(h: Phc) {
    && 0 < h.memory <= Memory * 16
    && 0 < h.time <= Time * 10
    && 0 < h.threads <= Threads * 4
    && 0 < |h.digest| <= 0x7FFF_FFFF
  }

  // ------------------------------------------------------------- Numbers

  predicate IsDigit(c: char) {
    '0' <= c <= '9'
  }

  predicate NotDigit(c: char) {
    !IsDigit(c)
  }

  /** `%d` when printing. */
  function Decimal(n: nat): (s: string)
    ensures s != "" && forall i :: 0 <= i < |s| ==> IsDigit(s[i])
  {
    var last := ['0' + (n % 10) as char];
    if n < 10 then last else Decimal(n / 10) + last
  }

  function Value(digits: string): nat
    requires forall i :: 0 <= i < |digits| ==> IsDigit(digits[i])
  {
    if digits == "" then 0
    else
      var n := |digits| - 1;
      assert IsDigit(digits[n]);
      Value(digits[..n]) * 10 + (digits[n] as int - '0' as int)
  }

  lemma {:induction false} ValueOfDecimal(n: nat)
    ensures Value(Decimal(n)) == n
  {
    var s := Decimal(n);
    if n >= 10 {
      ValueOfDecimal(n / 10);
      assert s[..|s| - 1] == Decimal(n / 10);
    } else {
      assert s[..0] == "";
    }
  }

  /** Blanks before a number; a line feed is an error. */
  function SkipSpace(s: string): Option<string> {
    if s == "" || !Text.IsAsciiSpace(s[0]) then Some(s)
    else if s[0] == '\n' then None
    else SkipSpace(s[1..])
  }

  /** A run of digits with a value below `limit`, and what follows it. */
  function ScanDigits(s: string, limit: nat): Option<(nat, string)> {
    var n := Text.RunLength(s, NotDigit);
    if n == 0 || Value(s[..n]) >= limit then None else Some((Value(s[..n]), s[n..]))
  }

  /** `%d` when scanning into an unsigned variable of the given range. */
  function ScanUint(s: string, limit: nat): Option<(nat, string)> {
    match SkipSpace(s)
    case None => None
    case Some(rest) => ScanDigits(rest, limit)
  }

  /** `%d` when scanning into an `int`. */
  function ScanInt(s: string): Option<(int, string)> {
    match SkipSpace(s)
    case None => None
    case Some(rest) =>
      if rest != "" && rest[0] == '-' then
        match ScanDigits(rest[1..], 0x8000_0000_0000_0001)
        case None => None
        case Some((v, tail)) => Some((-(v as int), tail))
      else
        match ScanDigits(if rest != "" && rest[0] == '+' then rest[1..] else rest, 0x8000_0000_0000_0000)
        case None => None
        case Some((v, tail)) => Some((v as int, tail))
  }

  function Literal(s: string, lit: string): Option<string> {
    if lit <= s then Some(s[|lit|..]) else None
  }

  lemma ScanDecimal(n: nat, rest: string, limit: nat)
    requires rest != "" ==> !IsDigit(rest[0])
    requires n < limit
    ensures ScanUint(Decimal(n) + rest, limit) == Some((n, rest))
    ensures limit == 0x8000_0000_0000_0000 ==> ScanInt(Decimal(n) + rest) == Some((n, rest))
  {
    var d := Decimal(n);
    var s := d + rest;
    assert s[0] == d[0] && IsDigit(d[0]);
    Text.RunLengthAppend(d, rest, NotDigit);
    assert s[..|d|] == d && s[|d|..] == rest;
    ValueOfDecimal(n);
  }

  // ------------------------------------------------------- Scanning the fields

  /** `fmt.Sscanf(part, "v=%d", ...)`: text after the number is ignored. */
  function ScanVersion(part: string): Option<int> {
    match Literal(part, "v=")
    case None => None
    case Some(rest) =>
      match ScanInt(rest)
      case None => None
      case Some((v, _)) => Some(v)
  }

  /** One `<lit>%d` step of the cost format. */
  function ScanField(s: string, lit: string, limit: nat): Option<(nat, string)> {
    match Literal(s, lit)
    case None => None
    case Some(rest) => ScanUint(rest, limit)
  }

  /** `fmt.Sscanf(part, "m=%d,t=%d,p=%d", ...)` into two uint32 and a uint8. */
  function ScanCost(part: string): Option<(nat, nat, nat)> {
    match ScanField(part, "m=", 0x1_0000_0000)
    case None => None
    case Some((m, afterM)) =>
      match ScanField(afterM, ",t=", 0x1_0000_0000)
      case None => None
      case Some((t, afterT)) =>
        match ScanField(afterT, ",p=", 256)
        case None => None
        case Some((p, _)) => Some((m, t, p))
  }

  /** The parsing half of `CompareHashAndPasswordContext`. No input gets past it
      with a cost above the ceilings. */
  function Parse(s: string): (r: Result<Phc, HashError>)
    ensures r.Ok? ==> Affordable(r.value)
  {
    if !("$argon2id$" <= s) then Err(UnsupportedFormat)
    else
      var parts := Text.Split(s, '$');
      if |parts| != 6 then Err(InvalidFormat)
      else
        var version, cost := ScanVersion(parts[2]), ScanCost(parts[3]);
        var salt, digest := Decode(RawStdEncoding, parts[4]), Decode(RawStdEncoding, parts[5]);
        if version != Some(Argon2Version) || cost.None? || salt.None? || digest.None? then Err(InvalidFormat)
        else
          var h := Phc(cost.value.0, cost.value.1, cost.value.2, salt.value, digest.value);
          if Affordable(h) then Ok(h) else Err(InvalidFormat)
  }

  // ---------------------------------------------------------------- Printing

  function CostField(h: Phc): string {
    "m=" + Decimal(h.memory) + ",t=" + Decimal(h.time) + ",p=" + Decimal(h.threads)
  }

  function Fields(h: Phc): seq<string> {
    ["", "argon2id", "v=" + Decimal(Argon2Version), CostField(h), Encode(RawStdEncoding, h.salt), Encode(RawStdEncoding, h.digest)]
  }

  /** `$argon2id$v=..$m=..,t=..,p=..$salt$digest`. */
  function Print(h: Phc): string {
    "$argon2id$v=" + Decimal(Argon2Version) + "$" + CostField(h) + "$" + Encode(RawStdEncoding, h.salt)
    + "$" + Encode(RawStdEncoding, h.digest)
  }

  lemma ScanFieldPrinted(lit: string, n: nat, rest: string, limit: nat)
    requires rest != "" ==> !IsDigit(rest[0])
    requires n < limit
    ensures ScanField(lit + Decimal(n) + rest, lit, limit) == Some((n, rest))
  {
    var s := lit + Decimal(n) + rest;
    assert s == lit + (Decimal(n) + rest);
    assert s[|lit|..] == Decimal(n) + rest;
    ScanDecimal(n, rest, limit);
  }

  lemma CostRoundTrip(h: Phc)
    requires Affordable(h)
    ensures ScanCost(CostField(h)) == Some((h.memory, h.time, h.threads))
  {
    var p := ",p=" + Decimal(h.threads);
    var t := ",t=" + Decimal(h.time) + p;
    assert CostField(h) == "m=" + Decimal(h.memory) + t;
    ScanFieldPrinted("m=", h.memory, t, 0x1_0000_0000);
    ScanFieldPrinted(",t=", h.time, p, 0x1_0000_0000);
    assert p == ",p=" + Decimal(h.threads) + "";
    ScanFieldPrinted(",p=", h.threads, "", 256);
  }

  lemma VersionRoundTrip()
    ensures ScanVersion("v=" + Decimal(Argon2Version)) == Some(Argon2Version)
  {
    var s := "v=" + Decimal(Argon2Version);
    assert s[2..] == Decimal(Argon2Version) == Decimal(Argon2Version) + "";
    ScanDecimal(Argon2Version, "", 0x8000_0000_0000_0000);
  }

  lemma FieldsAreClean(h: Phc)
    ensures forall k :: 0 <= k < |Fields(h)| ==> '$' !in Fields(h)[k]
  {
    var c := CostField(h);
    assert c == "m=" + Decimal(h.memory) + (",t=" + (Decimal(h.time) + (",p=" + Decimal(h.threads))));
    assert '$' !in "argon2id";
    assert '$' !in "v=" + Decimal(Argon2Version);
  }

  lemma JoinSix(a: string, b: string, c: string, d: string, e: string, f: string, sep: string)
    ensures Text.Join([a, b, c, d, e, f], sep) == a + sep + (b + sep + (c + sep + (d + sep + (e + sep + f))))
  {
    assert [a, b, c, d, e, f][1..] == [b, c, d, e, f];
    assert [b, c, d, e, f][1..] == [c, d, e, f];
    assert [c, d, e, f][1..] == [d, e, f];
    assert [d, e, f][1..] == [e, f];
    assert [e, f][1..] == [f];
    assert Text.Join([e, f], sep) == e + sep + f;
    assert Text.Join([d, e, f], sep) == d + sep + (e + sep + f);
    assert Text.Join([c, d, e, f], sep) == c + sep + (d + sep + (e + sep + f));
  }

  lemma PrintIsJoin(h: Phc)
    ensures Print(h) == Text.Join(Fields(h), "$")
  {
    var f := Fields(h);
    JoinSix(f[0], f[1], f[2], f[3], f[4], f[5], "$");
    assert f == [f[0], f[1], f[2], f[3], f[4], f[5]];
    Flatten(f[2], f[3], f[4], f[5]);
    assert "$argon2id$v=" + Decimal(Argon2Version) == "$argon2id$" + f[2];
  }

  lemma Flatten(c: string, d: string, e: string, f: string)
    ensures "" + "$" + ("argon2id" + "$" + (c + "$" + (d + "$" + (e + "$" + f))))
         == "$argon2id$" + c + "$" + d + "$" + e + "$" + f
  {
  }

  /** Every hash with affordable cost survives printing and parsing. */
  lemma PhcRoundTrip(h: Phc)
    requires Affordable(h)
    ensures Parse(Print(h)) == Ok(h)
  {
    PrintIsJoin(h);
    FieldsAreClean(h);
    Text.SplitJoin(Fields(h), '$');
    VersionRoundTrip();
    CostRoundTrip(h);
    Base64RoundTrip(RawStdEncoding, h.salt);
    Base64RoundTrip(RawStdEncoding, h.digest);
    assert "$argon2id$" <= Print(h);
  }

  // ------------------------------------------------------ What is accepted

  /** A blank the scanner skips: any ASCII white space but a line feed. */
  predicate IsBlank(c: char) {
    Text.IsAsciiSpace(c) && c != '\n'
  }

  /** Blanks, then digits as long as they last, then `rest`. */
  ghost predicate NumberThen(s: string, n: nat, rest: string) {
    exists blanks: string, digits: string :: NumberSpelled(s, blanks, digits, rest) && Value(digits) == n
  }

  predicate NumberSpelled(s: string, blanks: string, digits: string, rest: string) {
    && s == blanks + digits + rest
    && Text.AllOf(blanks, IsBlank)
    && digits != "" && (forall i :: 0 <= i < |digits| ==> IsDigit(digits[i]))
    && (rest != "" ==> !IsDigit(rest[0]))
  }

  lemma {:induction false} SkipBlanks(blanks: string, t: string)
    requires Text.AllOf(blanks, IsBlank) && (t != "" ==> !Text.IsAsciiSpace(t[0]))
    ensures SkipSpace(blanks + t) == Some(t)
  {
    if blanks == "" {
      assert blanks + t == t;
    } else {
      assert IsBlank(blanks[0]);
      assert (blanks + t)[1..] == blanks[1..] + t;
      SkipBlanks(blanks[1..], t);
    }
  }

  lemma {:induction false} SkippedBlanks(s: string) returns (blanks: string)
    requires SkipSpace(s).Some?
    ensures Text.AllOf(blanks, IsBlank) && s == blanks + SkipSpace(s).value
    ensures SkipSpace(s).value != "" ==> !Text.IsAsciiSpace(SkipSpace(s).value[0])
  {
    if s == "" || !Text.IsAsciiSpace(s[0]) {
      blanks := "";
    } else {
      var tail := SkippedBlanks(s[1..]);
      blanks := [s[0]] + tail;
    }
  }

  lemma ScanDigitsExactly(t: string, limit: nat, n: nat, rest: string)
    ensures ScanDigits(t, limit) == Some((n, rest))
       <==> n < limit && exists digits: string :: NumberSpelled(t, "", digits, rest) && Value(digits) == n
  {
    if ScanDigits(t, limit) == Some((n, rest)) {
      var k := Text.RunLength(t, NotDigit);
      assert t == "" + t[..k] + t[k..];
      assert NumberSpelled(t, "", t[..k], rest);
    }
    if n < limit {
      if digits: string :| NumberSpelled(t, "", digits, rest) && Value(digits) == n {
        assert t == digits + rest;
        Text.RunLengthAppend(digits, rest, NotDigit);
        assert t[..|digits|] == digits && t[|digits|..] == rest;
      }
    }
  }

  /** `%d` into an unsigned variable, as a grammar. */
  lemma ScanUintExactly(s: string, limit: nat, n: nat, rest: string)
    ensures ScanUint(s, limit) == Some((n, rest)) <==> n < limit && NumberThen(s, n, rest)
  {
    if ScanUint(s, limit) == Some((n, rest)) {
      var blanks := SkippedBlanks(s);
      var t := SkipSpace(s).value;
      ScanDigitsExactly(t, limit, n, rest);
      var digits: string :| NumberSpelled(t, "", digits, rest) && Value(digits) == n;
      assert s == blanks + digits + rest;
      assert NumberSpelled(s, blanks, digits, rest);
    }
    if n < limit && NumberThen(s, n, rest) {
      var blanks: string, digits: string :| NumberSpelled(s, blanks, digits, rest) && Value(digits) == n;
      var t := digits + rest;
      assert s == blanks + t && t[0] == digits[0];
      SkipBlanks(blanks, t);
      assert t == "" + digits + rest;
      assert NumberSpelled(t, "", digits, rest);
      ScanDigitsExactly(t, limit, n, rest);
    }
  }

  /** `<lit>` and a number, then `rest`. */
  ghost predicate FieldThen(s: string, lit: string, n: nat, rest: string) {
    lit <= s && NumberThen(s[|lit|..], n, rest)
  }

  lemma ScanFieldExactly(s: string, lit: string, limit: nat, n: nat, rest: string)
    ensures ScanField(s, lit, limit) == Some((n, rest)) <==> n < limit && FieldThen(s, lit, n, rest)
  {
    if lit <= s {
      ScanUintExactly(s[|lit|..], limit, n, rest);
    }
  }

  /** The cost field: three numbers, each after optional blanks, and any text after
      the last. */
  ghost predicate CostText(part: string, m: nat, t: nat, p: nat) {
    exists afterM: string, afterT: string, rest: string ::
      CostSpelled(part, m, afterM, t, afterT, p, rest)
  }

  ghost predicate CostSpelled(part: string, m: nat, afterM: string, t: nat, afterT: string, p: nat, rest: string) {
    FieldThen(part, "m=", m, afterM) && FieldThen(afterM, ",t=", t, afterT) && FieldThen(afterT, ",p=", p, rest)
  }

  lemma ScanCostExactly(part: string, m: nat, t: nat, p: nat)
    ensures ScanCost(part) == Some((m, t, p))
       <==> m < 0x1_0000_0000 && t < 0x1_0000_0000 && p < 256 && CostText(part, m, t, p)
  {
    if ScanCost(part) == Some((m, t, p)) {
      var afterM := ScanField(part, "m=", 0x1_0000_0000).value.1;
      var afterT := ScanField(afterM, ",t=", 0x1_0000_0000).value.1;
      var rest := ScanField(afterT, ",p=", 256).value.1;
      ScanFieldExactly(part, "m=", 0x1_0000_0000, m, afterM);
      ScanFieldExactly(afterM, ",t=", 0x1_0000_0000, t, afterT);
      ScanFieldExactly(afterT, ",p=", 256, p, rest);
      assert CostSpelled(part, m, afterM, t, afterT, p, rest);
    }
    if m < 0x1_0000_0000 && t < 0x1_0000_0000 && p < 256 && CostText(part, m, t, p) {
      var afterM: string, afterT: string, rest: string :| CostSpelled(part, m, afterM, t, afterT, p, rest);
      ScanFieldExactly(part, "m=", 0x1_0000_0000, m, afterM);
      ScanFieldExactly(afterM, ",t=", 0x1_0000_0000, t, afterT);
      ScanFieldExactly(afterT, ",p=", 256, p, rest);
    }
  }

  /** The version field: blanks, an optional plus sign, 19, and any text after it. */
  ghost predicate VersionText(part: string) {
    "v=" <= part && exists blanks: string, sign: string, digits: string, rest: string ::
      VersionSpelled(part[2..], blanks, sign, digits, rest)
  }

  predicate VersionSpelled(s: string, blanks: string, sign: string, digits: string, rest: string) {
    && s == blanks + (sign + digits + rest) && (sign == "" || sign == "+")
    && Text.AllOf(blanks, IsBlank)
    && NumberSpelled(digits + rest, "", digits, rest) && Value(digits) == Argon2Version
  }

  /** The digits after an optional sign. */
  function Unsigned(t: string): string {
    if t != "" && t[0] == '+' then t[1..] else t
  }

  lemma ScanPositive(t: string)
    ensures (ScanInt(t).Some? && ScanInt(t).value.0 == Argon2Version)
       <==> SkipSpace(t).Some?
            && var u := SkipSpace(t).value;
               var d := ScanDigits(Unsigned(u), 0x8000_0000_0000_0000);
               !(u != "" && u[0] == '-') && d.Some? && d.value.0 == Argon2Version
  {
  }

  lemma SignSplit(u: string, digits: string, rest: string) returns (sign: string)
    requires Unsigned(u) == digits + rest
    ensures (sign == "" || sign == "+") && u == sign + digits + rest
  {
    if u != "" && u[0] == '+' {
      sign := "+";
      assert u == "+" + u[1..];
    } else {
      sign := "";
      assert u == "" + digits + rest;
    }
  }

  /** The version digits at the front of `t`. */
  lemma DigitsFound(t: string) returns (digits: string, rest: string)
    requires ScanDigits(t, 0x8000_0000_0000_0000).Some? && ScanDigits(t, 0x8000_0000_0000_0000).value.0 == Argon2Version
    ensures t == digits + rest && NumberSpelled(t, "", digits, rest) && Value(digits) == Argon2Version
  {
    rest := ScanDigits(t, 0x8000_0000_0000_0000).value.1;
    ScanDigitsExactly(t, 0x8000_0000_0000_0000, Argon2Version, rest);
    digits :| NumberSpelled(t, "", digits, rest) && Value(digits) == Argon2Version;
    assert "" + digits + rest == digits + rest;
  }

  lemma VersionFound(s: string)
    requires ScanInt(s).Some? && ScanInt(s).value.0 == Argon2Version
    ensures exists blanks: string, sign: string, digits: string, rest: string :: VersionSpelled(s, blanks, sign, digits, rest)
  {
    ScanPositive(s);
    var blanks := SkippedBlanks(s);
    var u := SkipSpace(s).value;
    var digits, rest := DigitsFound(Unsigned(u));
    var sign := SignSplit(u, digits, rest);
    assert VersionSpelled(s, blanks, sign, digits, rest);
  }

  lemma VersionRead(s: string, blanks: string, sign: string, digits: string, rest: string)
    requires VersionSpelled(s, blanks, sign, digits, rest)
    ensures ScanInt(s).Some? && ScanInt(s).value.0 == Argon2Version
  {
    var u := sign + digits + rest;
    var t := digits + rest;
    assert t[0] == digits[0] && IsDigit(t[0]);
    if sign == "" {
      assert u == t;
    } else {
      assert u[0] == '+' && u[1..] == t;
    }
    SkipBlanks(blanks, u);
    ScanDigitsExactly(t, 0x8000_0000_0000_0000, Argon2Version, rest);
    ScanPositive(s);
  }

  lemma ScanVersionExactly(part: string)
    ensures ScanVersion(part) == Some(Argon2Version) <==> VersionText(part)
  {
    if ScanVersion(part) == Some(Argon2Version) {
      VersionFound(part[2..]);
    }
    if VersionText(part) {
      var blanks: string, sign: string, digits: string, rest: string :|
        VersionSpelled(part[2..], blanks, sign, digits, rest);
      VersionRead(part[2..], blanks, sign, digits, rest);
    }
  }

  /** The leading `$argon2id$` says what the first two of six parts are. */
  lemma HeadExactly(s: string)
    requires |Text.Split(s, '$')| == 6
    ensures "$argon2id$" <= s <==> Text.Split(s, '$')[0] == "" && Text.Split(s, '$')[1] == "argon2id"
  {
    var parts := Text.Split(s, '$');
    Text.JoinSplit(s, '$');
    if "$argon2id$" <= s {
      var tail := s[10..];
      assert s == "" + "$" + ("argon2id" + "$" + tail);
      Text.SplitFirst("", "argon2id" + "$" + tail, '$');
      assert '$' !in "argon2id";
      Text.SplitFirst("argon2id", tail, '$');
    }
    if parts[0] == "" && parts[1] == "argon2id" {
      assert parts[1..][1..] == parts[2..];
      assert s == "" + "$" + ("argon2id" + "$" + Text.Join(parts[2..], "$"));
      assert s == "$argon2id$" + Text.Join(parts[2..], "$");
    }
  }

  /** Exactly the accepted texts: six parts, the scheme's name, version and cost in
      the grammar above (text after a number is ignored), salt and digest in
      base64, line ends and unused bits apart, and a cost within the ceilings. */
  lemma AcceptedExactly(s: string, h: Phc)
    ensures Parse(s) == Ok(h)
       <==> var parts := Text.Split(s, '$');
            && |parts| == 6 && parts[0] == "" && parts[1] == "argon2id"
            && VersionText(parts[2]) && CostText(parts[3], h.memory, h.time, h.threads)
            && Spells(RawStdEncoding, WithoutLineEnds(parts[4]), h.salt)
            && Spells(RawStdEncoding, WithoutLineEnds(parts[5]), h.digest)
            && 0 < h.memory <= 1_048_576 && 0 < h.time <= 30 && 0 < h.threads <= 16
            && 0 < |h.digest| <= 0x7FFF_FFFF
  {
    var parts := Text.Split(s, '$');
    if |parts| == 6 {
      HeadExactly(s);
      ScanVersionExactly(parts[2]);
      ScanCostExactly(parts[3], h.memory, h.time, h.threads);
      DecodeExactly(RawStdEncoding, parts[4], h.salt);
      DecodeExactly(RawStdEncoding, parts[5], h.digest);
    }
  }

  // -------------------------------------------------------------- Passwords

  /** Argon2id: password, salt, time, memory, threads, key length. */
  type KeyDerivation = (Bytes, Bytes, nat, nat, nat, nat) -> Bytes

  ghost predicate FillsKey(idKey: KeyDerivation) {
    forall pw, salt, t, m, p, n :: |idKey(pw, salt, t, m, p, n)| == n
  }

  /** `GenerateHash`, for the salt drawn. */
  function Generate(idKey: KeyDerivation, password: Bytes, salt: Bytes): string {
    Print(Phc(Memory, Time, Threads, salt, idKey(password, salt, Time, Memory, Threads, KeyLen)))
  }

  function Zeros(n: nat): (z: Bytes)
    ensures |z| == n && forall i :: 0 <= i < n ==> z[i] == 0
  {
    seq(n, i => 0)
  }

  /** `DummyPasswordHash`. */
  function Dummy(): string {
    Print(Phc(Memory, Time, Threads, Zeros(SaltLen), Zeros(KeyLen)))
  }

  /** `CompareHashAndPassword`. */
  function Compare(idKey: KeyDerivation, encoded: string, password: Bytes): Result<(), HashError> {
    match Parse(encoded)
    case Err(e) => Err(e)
    case Ok(h) =>
      if idKey(password, h.salt, h.time, h.memory, h.threads, |h.digest|) == h.digest then Ok(()) else Err(Mismatch)
  }

  /** Any affordable hash accepts exactly the passwords that derive its digest from
      its salt at its own cost. */
  lemma CompareExactly(idKey: KeyDerivation, h: Phc, password: Bytes)
    requires Affordable(h)
    ensures Compare(idKey, Print(h), password) == Ok(())
       <==> idKey(password, h.salt, h.time, h.memory, h.threads, |h.digest|) == h.digest
    ensures Compare(idKey, Print(h), password) == Ok(()) || Compare(idKey, Print(h), password) == Err(Mismatch)
  {
    PhcRoundTrip(h);
  }

  /** A generated hash accepts exactly the passwords that derive the same key
      under its salt, the original among them; any other is a mismatch and never
      a format error. */
  lemma GeneratedHashAccepts(idKey: KeyDerivation, password: Bytes, salt: Bytes, attempt: Bytes)
    requires FillsKey(idKey)
    ensures Compare(idKey, Generate(idKey, password, salt), password) == Ok(())
    ensures Compare(idKey, Generate(idKey, password, salt), attempt)
         == if idKey(attempt, salt, Time, Memory, Threads, KeyLen) == idKey(password, salt, Time, Memory, Threads, KeyLen)
            then Ok(()) else Err(Mismatch)
  {
    PhcRoundTrip(Phc(Memory, Time, Threads, salt, idKey(password, salt, Time, Memory, Threads, KeyLen)));
  }

  /** The dummy hash costs what a real one does: it parses to the same cost and
      reaches the digest comparison for every password. */
  lemma DummyReachesComparison(idKey: KeyDerivation, password: Bytes)
    ensures Parse(Dummy()) == Ok(Phc(Memory, Time, Threads, Zeros(SaltLen), Zeros(KeyLen)))
    ensures Compare(idKey, Dummy(), password)
         == if idKey(password, Zeros(SaltLen), Time, Memory, Threads, KeyLen) == Zeros(KeyLen) then Ok(()) else Err(Mismatch)
  {
    PhcRoundTrip(Phc(Memory, Time, Threads, Zeros(SaltLen), Zeros(KeyLen)));
  }

  lemma DecimalStep(n: nat, s: string, d: nat)
    requires Decimal(n) == s && n > 0 && d < 10
    ensures Decimal(10 * n + d) == s + ['0' + d as char]
  {
    assert (10 * n + d) / 10 == n && (10 * n + d) % 10 == d;
  }

  lemma DecimalOf65536(six: nat)
    requires six == 6
    ensures Decimal(10923 * six - 2) == "65536"
  {
    assert Decimal(6) == "6";
    DecimalStep(six, "6", 5);
    DecimalStep(10 * six + 5, "65", 5);
    DecimalStep(10 * (10 * six + 5) + 5, "655", 3);
    DecimalStep(10 * (10 * (10 * six + 5) + 5) + 3, "6553", 6);
    assert 10 * (10 * (10 * (10 * six + 5) + 5) + 3) + 6 == 10923 * six - 2;
  }

  lemma DefaultCost(h: Phc)
    requires h.memory == Memory && h.time == Time && h.threads == Threads
    ensures CostField(h) == "m=65536,t=3,p=4"
  {
    DecimalOf65536(6);
    assert h.memory == 10923 * 6 - 2;
    assert Decimal(3) == "3" && Decimal(4) == "4";
    assert "m=" + "65536" + ",t=" + "3" + ",p=" + "4" == "m=65536,t=3,p=4";
  }

  lemma HeadOf(cost: string, tail: string)
    requires cost == "m=65536,t=3,p=4"
    ensures "$argon2id$v=19$m=65536,t=3,p=4$" <= "$argon2id$v=" + "19" + "$" + cost + "$" + tail
  {
    assert "$argon2id$v=" + "19" + "$" + cost + "$" + tail == "$argon2id$v=19$m=65536,t=3,p=4$" + tail;
  }

  lemma VersionIs19()
    ensures Decimal(Argon2Version) == "19"
  {
    assert Decimal(1) == "1";
    DecimalStep(1, "1", 9);
  }

  lemma PrintPieces(h: Phc, v: string, cost: string)
    requires v == Decimal(Argon2Version) && cost == CostField(h)
    ensures Print(h) == "$argon2id$v=" + v + "$" + cost + "$" + (Encode(RawStdEncoding, h.salt) + "$" + Encode(RawStdEncoding, h.digest))
  {
    TailOf("$argon2id$v=" + v + "$" + cost + "$", Encode(RawStdEncoding, h.salt), Encode(RawStdEncoding, h.digest));
  }

  lemma TailOf(head: string, a: string, b: string)
    ensures head + a + "$" + b == head + (a + "$" + b)
  {
  }

  lemma PrintedHead(h: Phc)
    requires h.memory == Memory && h.time == Time && h.threads == Threads
    ensures "$argon2id$v=19$m=65536,t=3,p=4$" <= Print(h)
  {
    DefaultCost(h);
    VersionIs19();
    PrintPieces(h, "19", "m=65536,t=3,p=4");
    HeadOf("m=65536,t=3,p=4", Encode(RawStdEncoding, h.salt) + "$" + Encode(RawStdEncoding, h.digest));
  }

  /** The head of every generated hash, as text. */
  lemma GeneratedHead(idKey: KeyDerivation, password: Bytes, salt: Bytes)
    ensures "$argon2id$v=19$m=65536,t=3,p=4$" <= Generate(idKey, password, salt)
  {
    PrintedHead(Phc(Memory, Time, Threads, salt, idKey(password, salt, Time, Memory, Threads, KeyLen)));
  }
}
