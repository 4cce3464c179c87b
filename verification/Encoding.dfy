/** Hexadecimal and base64 as Go's `encoding/hex` and `encoding/base64` do
    them: what they print, and everything they accept. */
module Encoding {
  import opened Wrappers
  import Text

  type byte = b: int | 0 <= b < 256
  type Bytes = seq<byte>

  /** The sixteen bytes of a UUID. */
  type Uuid = u: Bytes | |u| == 16 witness seq(16, i => 0)

  // --------------------------------------------------------------- Hex

  predicate IsLowerHex(c: char) {
    '0' <= c <= '9' || 'a' <= c <= 'f'
  }

  function HexDigit(d: int): (c: char)
    requires 0 <= d < 16
    ensures IsLowerHex(c)
  {
    if d < 10 then '0' + d as char else 'a' + (d - 10) as char
  }

  function HexValue(c: char): (r: Option<int>)
    ensures r.Some? ==> 0 <= r.value < 16
  {
    if '0' <= c <= '9' then Some(c as int - '0' as int)
    else if 'a' <= c <= 'f' then Some(c as int - 'a' as int + 10)
    else if 'A' <= c <= 'F' then Some(c as int - 'A' as int + 10)
    else None
  }

  function HexEncode(bs: Bytes): (s: string)
    ensures |s| == 2 * |bs|
    ensures forall i :: 0 <= i < |s| ==> IsLowerHex(s[i])
  {
    if bs == [] then "" else [HexDigit(bs[0] / 16), HexDigit(bs[0] % 16)] + HexEncode(bs[1..])
  }

  /** Either letter case is accepted; an odd length or a foreign character is not. */
  function HexDecode(s: string): (r: Option<Bytes>)
    ensures r.Some? ==> |s| == 2 * |r.value|
  {
    if s == "" then Some([])
    else if |s| == 1 then None
    else
      var hi, lo, rest := HexValue(s[0]), HexValue(s[1]), HexDecode(s[2..]);
      if hi.None? || lo.None? || rest.None? then None
      else Some([hi.value * 16 + lo.value] + rest.value)
  }

  lemma HexDigitValue(d: int)
    requires 0 <= d < 16
    ensures HexValue(HexDigit(d)) == Some(d)
  {
  }

  lemma {:induction false} HexRoundTrip(bs: Bytes)
    ensures HexDecode(HexEncode(bs)) == Some(bs)
  {
    if bs != [] {
      HexRoundTrip(bs[1..]);
      HexDigitValue(bs[0] / 16);
      HexDigitValue(bs[0] % 16);
      assert HexEncode(bs)[2..] == HexEncode(bs[1..]);
      assert [bs[0]] + bs[1..] == bs;
    }
  }

  lemma HexCharExactly(c: char, d: int)
    requires 0 <= d < 16
    ensures HexValue(c) == Some(d) <==> Text.LowerAscii(c) == HexDigit(d)
  {
  }

  function Lower(s: string): (r: string)
    ensures |r| == |s|
  {
    Text.Map(s, Text.LowerAscii)
  }

  lemma HexPair(c: char, e: char, b: byte)
    ensures HexValue(c) == Some(b / 16) && HexValue(e) == Some(b % 16)
       <==> [Text.LowerAscii(c), Text.LowerAscii(e)] == [HexDigit(b / 16), HexDigit(b % 16)]
  {
    HexCharExactly(c, b / 16);
    HexCharExactly(e, b % 16);
  }

  /** A text decodes to `u` exactly when it is its spelling in either letter case. */
  lemma {:induction false} HexDecodeExactly(s: string, u: Bytes)
    ensures HexDecode(s) == Some(u) <==> Lower(s) == HexEncode(u)
  {
    if |s| >= 2 && u != [] {
      HexDecodeExactly(s[2..], u[1..]);
      HexPair(s[0], s[1], u[0]);
      var l, h := Lower(s), HexEncode(u);
      assert l[2..] == Lower(s[2..]) && h[2..] == HexEncode(u[1..]);
      assert l == [l[0], l[1]] + l[2..] && h == [h[0], h[1]] + h[2..];
      assert u == [u[0]] + u[1..];
      HexSplit(s, u);
    }
  }

  lemma HexSplit(s: string, u: Bytes)
    requires |s| >= 2 && u != []
    ensures HexDecode(s) == Some(u)
       <==> HexValue(s[0]) == Some(u[0] / 16) && HexValue(s[1]) == Some(u[0] % 16) && HexDecode(s[2..]) == Some(u[1..])
  {
    assert u == [u[0]] + u[1..];
    var hi, lo, rest := HexValue(s[0]), HexValue(s[1]), HexDecode(s[2..]);
    if hi.Some? && lo.Some? && rest.Some? {
      var x: byte := hi.value * 16 + lo.value;
      assert x / 16 == hi.value && x % 16 == lo.value;
      assert ([x] + rest.value)[1..] == rest.value;
    }
  }

  predicate IsHex(c: char) {
    HexValue(c).Some?
  }

  /** Which texts decode at all. */
  lemma {:induction false} HexDecodable(s: string)
    ensures HexDecode(s).Some? <==> |s| % 2 == 0 && Text.AllOf(s, IsHex)
  {
    if |s| >= 2 {
      HexDecodable(s[2..]);
      assert forall i :: 2 <= i < |s| ==> s[i] == s[2..][i - 2];
      assert forall i :: 0 <= i < |s| - 2 ==> s[2..][i] == s[i + 2];
    }
  }

  // ------------------------------------------------------------ Base64

  /** The four standard encodings: two alphabets, padded or raw. */
  datatype Base64 = Base64(url: bool, padded: bool)

  const StdEncoding := Base64(false, true)
  const RawStdEncoding := Base64(false, false)
  const URLEncoding := Base64(true, true)
  const RawURLEncoding := Base64(true, false)

  /** A character this encoding can print. */
  predicate Printable(enc: Base64, c: char) {
    || 'A' <= c <= 'Z' || 'a' <= c <= 'z' || '0' <= c <= '9'
    || c == (if enc.url then '-' else '+')
    || c == (if enc.url then '_' else '/')
    || (enc.padded && c == '=')
  }

  function Symbol(enc: Base64, v: int): (c: char)
    requires 0 <= v < 64
    ensures Printable(enc, c) && c != '='
  {
    if v < 26 then 'A' + v as char
    else if v < 52 then 'a' + (v - 26) as char
    else if v < 62 then '0' + (v - 52) as char
    else if v == 62 then (if enc.url then '-' else '+')
    else (if enc.url then '_' else '/')
  }

  function SymbolValue(enc: Base64, c: char): (r: Option<int>)
    ensures r.Some? ==> 0 <= r.value < 64
    ensures c == '=' ==> r.None?
  {
    if 'A' <= c <= 'Z' then Some(c as int - 'A' as int)
    else if 'a' <= c <= 'z' then Some(c as int - 'a' as int + 26)
    else if '0' <= c <= '9' then Some(c as int - '0' as int + 52)
    else if c == (if enc.url then '-' else '+') then Some(62)
    else if c == (if enc.url then '_' else '/') then Some(63)
    else None
  }

  lemma SymbolRoundTrip(enc: Base64, v: int)
    requires 0 <= v < 64
    ensures SymbolValue(enc, Symbol(enc, v)) == Some(v)
  {
  }

  /** `EncodeToString`. */
  function Encode(enc: Base64, bs: Bytes): (s: string)
    ensures forall i :: 0 <= i < |s| ==> Printable(enc, s[i])
    ensures s == "" <==> bs == []
  {
    if bs == [] then ""
    else if |bs| == 1 then
      [Symbol(enc, bs[0] / 4), Symbol(enc, bs[0] % 4 * 16)] + if enc.padded then "==" else ""
    else if |bs| == 2 then
      [Symbol(enc, bs[0] / 4), Symbol(enc, bs[0] % 4 * 16 + bs[1] / 16), Symbol(enc, bs[1] % 16 * 4)]
      + if enc.padded then "=" else ""
    else
      [Symbol(enc, bs[0] / 4), Symbol(enc, bs[0] % 4 * 16 + bs[1] / 16),
       Symbol(enc, bs[1] % 16 * 4 + bs[2] / 64), Symbol(enc, bs[2] % 64)] + Encode(enc, bs[3..])
  }

  function FirstByte(a: int, b: int): byte
    requires 0 <= a < 64 && 0 <= b < 64
  {
    a * 4 + b / 16
  }

  function SecondByte(b: int, c: int): byte
    requires 0 <= b < 64 && 0 <= c < 64
  {
    b % 16 * 16 + c / 4
  }

  function ThirdByte(c: int, d: int): byte
    requires 0 <= c < 64 && 0 <= d < 64
  {
    c % 4 * 64 + d
  }

  /** The quanta of a text from which line ends have been removed. The unused
      low bits of a short final quantum are ignored: decoding is not strict. */
  function DecodeQuanta(enc: Base64, s: string): (r: Option<Bytes>) {
    if s == "" then Some([])
    else if |s| == 1 then None
    else
      var a, b := SymbolValue(enc, s[0]), SymbolValue(enc, s[1]);
      if a.None? || b.None? then None
      else if s[2..] == (if enc.padded then "==" else "") then Some([FirstByte(a.value, b.value)])
      else if |s| == 2 then None
      else
        var c := SymbolValue(enc, s[2]);
        if c.None? then None
        else if s[3..] == (if enc.padded then "=" else "") then
          Some([FirstByte(a.value, b.value), SecondByte(b.value, c.value)])
        else if |s| == 3 then None
        else
          var d, rest := SymbolValue(enc, s[3]), DecodeQuanta(enc, s[4..]);
          if d.None? || rest.None? then None
          else Some([FirstByte(a.value, b.value), SecondByte(b.value, c.value), ThirdByte(c.value, d.value)] + rest.value)
  }

  function WithoutLineEnds(s: string): string {
    if s == "" then ""
    else if s[0] == '\n' || s[0] == '\r' then WithoutLineEnds(s[1..])
    else [s[0]] + WithoutLineEnds(s[1..])
  }

  /** `DecodeString`: CR and LF are skipped wherever they stand. */
  function Decode(enc: Base64, s: string): Option<Bytes> {
    DecodeQuanta(enc, WithoutLineEnds(s))
  }

  lemma {:induction false} LineEndsAbsent(s: string)
    requires '\n' !in s && '\r' !in s
    ensures WithoutLineEnds(s) == s
  {
    if s != "" {
      LineEndsAbsent(s[1..]);
      assert [s[0]] + s[1..] == s;
    }
  }

  // ------------------------------------------------ Which texts decode to what

  function Padding(enc: Base64, n: nat): string {
    if !enc.padded then "" else if n == 1 then "==" else "="
  }

  /** One byte in two symbols, the low four bits of the second being `x`. */
  function OneSpelled(enc: Base64, b: byte, x: int): string
    requires 0 <= x < 16
  {
    [Symbol(enc, b / 4), Symbol(enc, b % 4 * 16 + x)] + Padding(enc, 1)
  }

  /** Two bytes in three symbols, the low two bits of the third being `x`. */
  function TwoSpelled(enc: Base64, b: byte, c: byte, x: int): string
    requires 0 <= x < 4
  {
    [Symbol(enc, b / 4), Symbol(enc, b % 4 * 16 + c / 16), Symbol(enc, c % 16 * 4 + x)] + Padding(enc, 2)
  }

  function ThreeSpelled(enc: Base64, b: byte, c: byte, d: byte): string {
    [Symbol(enc, b / 4), Symbol(enc, b % 4 * 16 + c / 16), Symbol(enc, c % 16 * 4 + d / 64), Symbol(enc, d % 64)]
  }

  /** `t` is the encoding of `bs`, up to the unused low bits of its last symbol. */
  predicate Spells(enc: Base64, t: string, bs: Bytes) {
    if bs == [] then t == ""
    else if |bs| == 1 then exists x :: 0 <= x < 16 && t == OneSpelled(enc, bs[0], x)
    else if |bs| == 2 then exists x :: 0 <= x < 4 && t == TwoSpelled(enc, bs[0], bs[1], x)
    else |t| >= 4 && t[..4] == ThreeSpelled(enc, bs[0], bs[1], bs[2]) && Spells(enc, t[4..], bs[3..])
  }

  lemma SymbolExactly(enc: Base64, c: char, v: int)
    requires 0 <= v < 64
    ensures SymbolValue(enc, c) == Some(v) <==> c == Symbol(enc, v)
  {
  }

  lemma OneDecodes(enc: Base64, b: byte, x: int)
    requires 0 <= x < 16
    ensures DecodeQuanta(enc, OneSpelled(enc, b, x)) == Some([b])
  {
    var t := OneSpelled(enc, b, x);
    SymbolRoundTrip(enc, b / 4);
    SymbolRoundTrip(enc, b % 4 * 16 + x);
    assert t[2..] == Padding(enc, 1);
  }

  lemma TwoDecode(enc: Base64, b: byte, c: byte, x: int)
    requires 0 <= x < 4
    ensures DecodeQuanta(enc, TwoSpelled(enc, b, c, x)) == Some([b, c])
  {
    var t := TwoSpelled(enc, b, c, x);
    SymbolRoundTrip(enc, b / 4);
    SymbolRoundTrip(enc, b % 4 * 16 + c / 16);
    SymbolRoundTrip(enc, c % 16 * 4 + x);
    assert t[2..][0] == t[2] != '=';
    assert t[3..] == Padding(enc, 2);
    TwoBytesBack(b, c, x);
  }

  lemma TwoBytesBack(b: byte, c: byte, x: int)
    requires 0 <= x < 4
    ensures FirstByte(b / 4, b % 4 * 16 + c / 16) == b
    ensures SecondByte(b % 4 * 16 + c / 16, c % 16 * 4 + x) == c
  {
  }

  lemma ThreeBytesBack(x: byte, y: byte, z: byte)
    ensures FirstByte(x / 4, x % 4 * 16 + y / 16) == x
    ensures SecondByte(x % 4 * 16 + y / 16, y % 16 * 4 + z / 64) == y
    ensures ThirdByte(y % 16 * 4 + z / 64, z % 64) == z
  {
  }

  /** A quantum of four symbols is never taken for a padded one. */
  lemma FullQuantum(enc: Base64, q: string, rest: string)
    requires |q| == 4 && q[2] != '=' && q[3] != '='
    ensures var a, b, c, d := SymbolValue(enc, q[0]), SymbolValue(enc, q[1]), SymbolValue(enc, q[2]), SymbolValue(enc, q[3]);
            var r := DecodeQuanta(enc, rest);
            DecodeQuanta(enc, q + rest)
            == if a.None? || b.None? || c.None? || d.None? || r.None? then None
               else Some([FirstByte(a.value, b.value), SecondByte(b.value, c.value), ThirdByte(c.value, d.value)] + r.value)
  {
    var s := q + rest;
    assert s[2..][0] == s[2] != '=' && s[3..][0] == s[3] != '=';
    assert s[4..] == rest && s[0] == q[0] && s[1] == q[1];
  }

  lemma ThreeDecode(enc: Base64, b: byte, c: byte, d: byte, rest: string)
    ensures DecodeQuanta(enc, ThreeSpelled(enc, b, c, d) + rest)
         == if DecodeQuanta(enc, rest).None? then None else Some([b, c, d] + DecodeQuanta(enc, rest).value)
  {
    SymbolRoundTrip(enc, b / 4);
    SymbolRoundTrip(enc, b % 4 * 16 + c / 16);
    SymbolRoundTrip(enc, c % 16 * 4 + d / 64);
    SymbolRoundTrip(enc, d % 64);
    ThreeBytesBack(b, c, d);
    FullQuantum(enc, ThreeSpelled(enc, b, c, d), rest);
  }

  /** What is spelled decodes. */
  lemma {:induction false} SpelledDecodes(enc: Base64, t: string, bs: Bytes)
    requires Spells(enc, t, bs)
    ensures DecodeQuanta(enc, t) == Some(bs)
  {
    if bs == [] {
    } else if |bs| == 1 {
      var x :| 0 <= x < 16 && t == OneSpelled(enc, bs[0], x);
      OneDecodes(enc, bs[0], x);
      assert bs == [bs[0]];
    } else if |bs| == 2 {
      var x :| 0 <= x < 4 && t == TwoSpelled(enc, bs[0], bs[1], x);
      TwoDecode(enc, bs[0], bs[1], x);
      assert bs == [bs[0], bs[1]];
    } else {
      SpelledDecodes(enc, t[4..], bs[3..]);
      QuantumDecodes(enc, t, bs);
    }
  }

  lemma QuantumDecodes(enc: Base64, t: string, bs: Bytes)
    requires |bs| >= 3 && |t| >= 4 && t[..4] == ThreeSpelled(enc, bs[0], bs[1], bs[2])
    requires DecodeQuanta(enc, t[4..]) == Some(bs[3..])
    ensures DecodeQuanta(enc, t) == Some(bs)
  {
    ThreeDecode(enc, bs[0], bs[1], bs[2], t[4..]);
    assert t == t[..4] + t[4..];
    assert bs == [bs[0], bs[1], bs[2]] + bs[3..];
  }

  lemma Sextets(a: int, b: int, c: int, d: int)
    requires 0 <= a < 64 && 0 <= b < 64 && 0 <= c < 64 && 0 <= d < 64
    ensures FirstByte(a, b) / 4 == a && FirstByte(a, b) % 4 == b / 16
    ensures SecondByte(b, c) / 16 == b % 16 && SecondByte(b, c) % 16 == c / 4
    ensures ThirdByte(c, d) / 64 == c % 4 && ThirdByte(c, d) % 64 == d
  {
  }

  lemma OneFound(enc: Base64, t: string, a: int, b: int)
    requires |t| >= 2 && SymbolValue(enc, t[0]) == Some(a) && SymbolValue(enc, t[1]) == Some(b)
    requires t[2..] == Padding(enc, 1)
    ensures Spells(enc, t, [FirstByte(a, b)])
  {
    SymbolExactly(enc, t[0], a);
    SymbolExactly(enc, t[1], b);
    assert t == [Symbol(enc, a), Symbol(enc, b)] + Padding(enc, 1);
    Sextets(a, b, 0, 0);
    var bs := [FirstByte(a, b)];
    OneShape(enc, bs[0], b % 16, a, b);
    assert t == OneSpelled(enc, bs[0], b % 16);
  }

  lemma OneShape(enc: Base64, v: byte, x: int, a: int, b: int)
    requires 0 <= x < 16 && v / 4 == a && v % 4 * 16 + x == b
    ensures OneSpelled(enc, v, x) == [Symbol(enc, a), Symbol(enc, b)] + Padding(enc, 1)
  {
  }

  lemma TwoShape(enc: Base64, v: byte, w: byte, x: int, a: int, b: int, c: int)
    requires 0 <= x < 4 && v / 4 == a && v % 4 * 16 + w / 16 == b && w % 16 * 4 + x == c
    ensures TwoSpelled(enc, v, w, x) == [Symbol(enc, a), Symbol(enc, b), Symbol(enc, c)] + Padding(enc, 2)
  {
  }

  lemma TwoFound(enc: Base64, t: string, a: int, b: int, c: int)
    requires |t| >= 3 && SymbolValue(enc, t[0]) == Some(a) && SymbolValue(enc, t[1]) == Some(b) && SymbolValue(enc, t[2]) == Some(c)
    requires t[3..] == Padding(enc, 2)
    ensures Spells(enc, t, [FirstByte(a, b), SecondByte(b, c)])
  {
    SymbolExactly(enc, t[0], a);
    SymbolExactly(enc, t[1], b);
    SymbolExactly(enc, t[2], c);
    assert t == [Symbol(enc, a), Symbol(enc, b), Symbol(enc, c)] + Padding(enc, 2);
    Sextets(a, b, c, 0);
    var bs := [FirstByte(a, b), SecondByte(b, c)];
    TwoShape(enc, bs[0], bs[1], c % 4, a, b, c);
    assert t == TwoSpelled(enc, bs[0], bs[1], c % 4);
  }

  lemma ThreeFound(enc: Base64, t: string, a: int, b: int, c: int, d: int)
    requires |t| >= 4 && SymbolValue(enc, t[0]) == Some(a) && SymbolValue(enc, t[1]) == Some(b)
    requires SymbolValue(enc, t[2]) == Some(c) && SymbolValue(enc, t[3]) == Some(d)
    ensures t[..4] == ThreeSpelled(enc, FirstByte(a, b), SecondByte(b, c), ThirdByte(c, d))
  {
    SymbolExactly(enc, t[0], a);
    SymbolExactly(enc, t[1], b);
    SymbolExactly(enc, t[2], c);
    SymbolExactly(enc, t[3], d);
    Sextets(a, b, c, d);
    assert t[..4] == [t[0], t[1], t[2], t[3]];
  }

  /** What decodes is spelled. */
  lemma {:induction false} DecodedIsSpelled(enc: Base64, t: string)
    requires DecodeQuanta(enc, t).Some?
    ensures Spells(enc, t, DecodeQuanta(enc, t).value)
  {
    if t != "" {
      var a, b := SymbolValue(enc, t[0]).value, SymbolValue(enc, t[1]).value;
      if t[2..] == Padding(enc, 1) {
        OneFound(enc, t, a, b);
      } else {
        var c := SymbolValue(enc, t[2]).value;
        if t[3..] == Padding(enc, 2) {
          TwoFound(enc, t, a, b, c);
        } else {
          ThreeFound(enc, t, a, b, c, SymbolValue(enc, t[3]).value);
          DecodedIsSpelled(enc, t[4..]);
          assert DecodeQuanta(enc, t).value[3..] == DecodeQuanta(enc, t[4..]).value;
        }
      }
    }
  }

  /** Exactly the texts that decode to `bs`: line ends apart, its encoding up to the
      unused low bits of the last symbol. */
  lemma DecodeExactly(enc: Base64, s: string, bs: Bytes)
    ensures Decode(enc, s) == Some(bs) <==> Spells(enc, WithoutLineEnds(s), bs)
  {
    var t := WithoutLineEnds(s);
    if Spells(enc, t, bs) {
      SpelledDecodes(enc, t, bs);
    }
    if DecodeQuanta(enc, t).Some? {
      DecodedIsSpelled(enc, t);
    }
  }

  /** The encoding itself leaves the unused bits zero. */
  lemma {:induction false} EncodeSpells(enc: Base64, bs: Bytes)
    ensures Spells(enc, Encode(enc, bs), bs)
  {
    if bs == [] {
    } else if |bs| == 1 {
      assert Encode(enc, bs) == OneSpelled(enc, bs[0], 0);
    } else if |bs| == 2 {
      assert Encode(enc, bs) == TwoSpelled(enc, bs[0], bs[1], 0);
    } else {
      EncodeSpells(enc, bs[3..]);
      var s := ThreeSpelled(enc, bs[0], bs[1], bs[2]) + Encode(enc, bs[3..]);
      assert Encode(enc, bs) == s && s[4..] == Encode(enc, bs[3..]);
    }
  }

  /** Every byte string survives printing and reading, in all four encodings. */
  lemma Base64RoundTrip(enc: Base64, bs: Bytes)
    ensures Decode(enc, Encode(enc, bs)) == Some(bs)
  {
    EncodeSpells(enc, bs);
    LineEndsAbsent(Encode(enc, bs));
    DecodeExactly(enc, Encode(enc, bs), bs);
  }

  // ------------------------------------------------------ What is accepted

  predicate IsLineEnd(c: char) {
    c == '\n' || c == '\r'
  }

  /** A symbol of the alphabet is printable. */
  lemma SymbolPrintable(enc: Base64, c: char)
    requires SymbolValue(enc, c).Some?
    ensures Printable(enc, c)
  {
  }

  lemma PaddingPrintable(enc: Base64, s: string, n: nat, pad: string)
    requires n <= |s| && s[n..] == (if enc.padded then pad else "") && (pad == "=" || pad == "==")
    ensures forall i :: n <= i < |s| ==> Printable(enc, s[i])
  {
    forall i | n <= i < |s|
      ensures Printable(enc, s[i])
    {
      assert s[i] == s[n..][i - n];
    }
  }

  /** Only printable characters make up quanta, and no byte comes from nothing. */
  lemma {:induction false} QuantaPrintable(enc: Base64, s: string)
    requires DecodeQuanta(enc, s).Some?
    ensures forall i :: 0 <= i < |s| ==> Printable(enc, s[i])
    ensures |DecodeQuanta(enc, s).value| <= |s|
  {
    if s != "" {
      SymbolPrintable(enc, s[0]);
      SymbolPrintable(enc, s[1]);
      if s[2..] == (if enc.padded then "==" else "") {
        PaddingPrintable(enc, s, 2, "==");
      } else {
        SymbolPrintable(enc, s[2]);
        if s[3..] == (if enc.padded then "=" else "") {
          PaddingPrintable(enc, s, 3, "=");
        } else {
          SymbolPrintable(enc, s[3]);
          QuantaPrintable(enc, s[4..]);
          assert forall i :: 4 <= i < |s| ==> s[i] == s[4..][i - 4];
        }
      }
    }
  }

  lemma {:induction false} LineEndsDropped(s: string)
    ensures |WithoutLineEnds(s)| <= |s|
    ensures forall i :: 0 <= i < |s| ==> IsLineEnd(s[i]) || s[i] in WithoutLineEnds(s)
    ensures Text.NoneOf(WithoutLineEnds(s), IsLineEnd)
  {
    if s != "" {
      LineEndsDropped(s[1..]);
      assert forall i :: 1 <= i < |s| ==> s[i] == s[1..][i - 1];
    }
  }

  /** A decodable text consists of printable characters and line ends, and is at
      least as long as what it decodes to. */
  lemma DecodableChars(enc: Base64, s: string)
    requires Decode(enc, s).Some?
    ensures forall i :: 0 <= i < |s| ==> IsLineEnd(s[i]) || Printable(enc, s[i])
    ensures |Decode(enc, s).value| <= |s|
  {
    LineEndsDropped(s);
    QuantaPrintable(enc, WithoutLineEnds(s));
  }

  lemma {:induction false} LineEndsConcat(a: string, b: string)
    ensures WithoutLineEnds(a + b) == WithoutLineEnds(a) + WithoutLineEnds(b)
  {
    if a == "" {
      assert a + b == b;
    } else {
      assert (a + b)[1..] == a[1..] + b;
      LineEndsConcat(a[1..], b);
    }
  }

  /** A line end anywhere changes nothing. */
  lemma WrappedDecodes(enc: Base64, a: string, b: string)
    ensures Decode(enc, a + "\n" + b) == Decode(enc, a + b)
  {
    LineEndsConcat(a + "\n", b);
    LineEndsConcat(a, "\n");
    LineEndsConcat(a, b);
    var end := "\n";
    assert end[0] == '\n' && end[1..] == "";
    assert WithoutLineEnds(end) == "";
    assert WithoutLineEnds(a + end + b) == WithoutLineEnds(a + b);
  }

  // ---------------------------------- Standard texts under the raw URL reader

  lemma SymbolsAgree(c: char, v: int)
    requires 0 <= v < 64 && c == Symbol(StdEncoding, v)
    ensures SymbolValue(RawURLEncoding, c).Some? ==> SymbolValue(RawURLEncoding, c) == Some(v)
  {
  }

  lemma QuantumAgrees(b: byte, c: byte, d: byte, rest: string)
    ensures var s := ThreeSpelled(StdEncoding, b, c, d) + rest;
            DecodeQuanta(RawURLEncoding, s).Some? ==>
              DecodeQuanta(RawURLEncoding, rest).Some?
              && DecodeQuanta(RawURLEncoding, s).value == [b, c, d] + DecodeQuanta(RawURLEncoding, rest).value
  {
    var q := ThreeSpelled(StdEncoding, b, c, d);
    SymbolsAgree(q[0], b / 4);
    SymbolsAgree(q[1], b % 4 * 16 + c / 16);
    SymbolsAgree(q[2], c % 16 * 4 + d / 64);
    SymbolsAgree(q[3], d % 64);
    ThreeBytesBack(b, c, d);
    FullQuantum(RawURLEncoding, q, rest);
  }

  lemma PaddedIsNoUrl(bs: Bytes)
    requires |bs| == 1 || |bs| == 2
    ensures DecodeQuanta(RawURLEncoding, Encode(StdEncoding, bs)).None?
  {
    var t := Encode(StdEncoding, bs);
    assert |t| == 4 && t[3] == '=' && |t[2..]| == 2 && |t[3..]| == 1;
  }

  /** Read as raw URL base64, a padded standard text gives its own bytes or none. */
  lemma {:induction false} StandardAsUrl(bs: Bytes)
    ensures var r := DecodeQuanta(RawURLEncoding, Encode(StdEncoding, bs)); r.None? || r == Some(bs)
  {
    var t := Encode(StdEncoding, bs);
    if bs == [] {
    } else if |bs| <= 2 {
      PaddedIsNoUrl(bs);
    } else {
      StandardAsUrl(bs[3..]);
      QuantumAgrees(bs[0], bs[1], bs[2], Encode(StdEncoding, bs[3..]));
      assert t == ThreeSpelled(StdEncoding, bs[0], bs[1], bs[2]) + Encode(StdEncoding, bs[3..]);
      assert bs == [bs[0], bs[1], bs[2]] + bs[3..];
    }
  }

  // ----------------------------------------------------------- The alphabets

  lemma HexAlphabet(d: nat)
    requires d < 16
    ensures HexDigit(d) == "0123456789abcdef"[d]
  {
  }

  /** Section 4 of RFC 4648, and section 5 where it differs. */
  lemma Base64Alphabet(enc: Base64, v: nat)
    requires v < 64
    ensures v < 26 ==> Symbol(enc, v) == "ABCDEFGHIJKLMNOPQRSTUVWXYZ"[v]
    ensures 26 <= v < 52 ==> Symbol(enc, v) == "abcdefghijklmnopqrstuvwxyz"[v - 26]
    ensures 52 <= v < 62 ==> Symbol(enc, v) == "0123456789"[v - 52]
    ensures v >= 62 ==> Symbol(enc, v) == (if enc.url then "-_" else "+/")[v - 62]
  {
  }
}
