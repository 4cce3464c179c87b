/** How far the unknown-schema guard sees: which values the cipher reads are
    recognised in a column outside the families, and which are not. */
module GuardReach {
  import opened Wrappers
  import opened Encoding
  import opened Primitives
  import opened AtRestCipher
  import opened RotationTool
  import Text

  predicate HasLineEnd(s: string) {
    exists i :: 0 <= i < |s| && IsLineEnd(s[i])
  }

  /** The cipher reads `v` with some key of the ring. */
  predicate Reads(p: Crypto, ring: Keyring, order: seq<string>, v: string)
    requires Enumerates(order, ring.previous.Keys)
  {
    DecryptIn(p, ring, v, order).Ok?
  }

  // ------------------------------------------------------- Version by version

  lemma V2Pieces(body: string, sep: nat)
    requires sep < |body| && body[sep] == ':'
    ensures "v2:" + body == "v2:" + body[..sep] + ":" + body[sep + 1..]
  {
    assert body == body[..sep] + ":" + body[sep + 1..];
  }

  /** A readable v2 body names a key id of the ring. */
  lemma ReadableV2(p: Crypto, ring: Keyring, body: string)
    requires WellFormed(p, ring) && DecryptV2(p, ring, body).Ok?
    ensures V2Shaped("v2:" + body)
  {
    var sep := Text.IndexOf(body, ':');
    assert Lookup(ring, body[..sep]).Some? && IsKeyId(body[..sep]);
    SealedShape(body[..sep], body[sep + 1..]);
    V2Pieces(body, sep);
  }

  lemma UnkeyedNeedsNonce(p: Crypto, ring: Keyring, raw: string, order: seq<string>)
    requires Enumerates(order, ring.previous.Keys) && DecryptUnkeyedIn(p, ring, raw, order).Ok?
    ensures DecodeUnkeyed(raw).Some? && |DecodeUnkeyed(raw).value| >= NonceSize
  {
    TryKeysMeans(p, Candidates(ring, order), DecodeUnkeyed(raw).value);
  }

  /** What an id-less readable text is made of. */
  lemma ReadableUnkeyed(p: Crypto, ring: Keyring, raw: string, order: seq<string>)
    requires Enumerates(order, ring.previous.Keys) && DecryptUnkeyedIn(p, ring, raw, order).Ok?
    ensures |raw| >= NonceSize
    ensures forall i :: 0 <= i < |raw| ==> IsLineEnd(raw[i]) || V1BodyChar(raw[i])
  {
    UnkeyedNeedsNonce(p, ring, raw, order);
    if Decode(RawURLEncoding, raw).Some? {
      DecodableChars(RawURLEncoding, raw);
    } else {
      DecodableChars(StdEncoding, raw);
    }
  }

  /** The v1 pattern on a body without foreign characters. */
  lemma V1PatternExactly(body: string)
    requires body != "" && forall i :: 0 <= i < |body| ==> IsLineEnd(body[i]) || V1BodyChar(body[i])
    ensures V1Shaped("v1:" + body) <==> !HasLineEnd(body)
  {
    var v := "v1:" + body;
    assert v[..3] == "v1:";
    assert forall i :: 0 <= i < |body| ==> v[i + 3] == body[i];
    assert forall i :: 3 <= i < |v| ==> v[i] == body[i - 3];
  }

  // ---------------------------------------------------------- Text columns

  /** A version-2 text, or a version-1 text on one line. */
  predicate Recognisable(v: string) {
    "v2:" <= v || ("v1:" <= v && !HasLineEnd(v))
  }

  lemma PrefixSplit(v: string, head: string)
    requires head <= v
    ensures v == head + v[|head|..]
  {
  }

  lemma NoLineEndInHead(body: string)
    ensures HasLineEnd("v1:" + body) <==> HasLineEnd(body)
  {
    var v := "v1:" + body;
    assert forall i :: 3 <= i < |v| ==> v[i] == body[i - 3];
    assert forall i :: 0 <= i < |body| ==> v[i + 3] == body[i];
  }

  /** In a text column a value the cipher reads is recognised if and only if it is
      a version-2 text or a version-1 text without a line end. */
  lemma TextReachExactly(p: Crypto, ring: Keyring, order: seq<string>, c: Column, v: string)
    requires WellFormed(p, ring) && Enumerates(order, ring.previous.Keys)
    requires !c.json && Reads(p, ring, order, v)
    ensures LooksSealed(c, v) <==> Recognisable(v)
  {
    if "v2:" <= v {
      PrefixSplit(v, "v2:");
      ReadableV2(p, ring, v[3..]);
    } else if "v1:" <= v {
      PrefixSplit(v, "v1:");
      ReadableUnkeyed(p, ring, v[3..], order);
      V1PatternExactly(v[3..]);
      NoLineEndInHead(v[3..]);
    }
  }

  // ---------------------------------------------------------- JSON columns

  /** In a document the guard's pattern matches at the opening quote of a readable
      text if and only if it is a version-2 text. */
  lemma JsonReachExactly(p: Crypto, ring: Keyring, order: seq<string>, v: string, rest: string)
    requires WellFormed(p, ring) && Enumerates(order, ring.previous.Keys) && Reads(p, ring, order, v)
    ensures V2Shaped(v + rest) <==> "v2:" <= v
  {
    if "v2:" <= v {
      PrefixSplit(v, "v2:");
      ReadableV2(p, ring, v[3..]);
      assert v[..3] == (v + rest)[..3] && v[3..19] == (v + rest)[3..19] && v[19] == (v + rest)[19];
    } else {
      if "v1:" <= v {
        ReadableUnkeyed(p, ring, v[3..], order);
      } else {
        ReadableUnkeyed(p, ring, v, order);
      }
      assert (v + rest)[..3] == v[..3];
    }
  }

  // ------------------------------------------------------------- What is missed

  /** The base64 of a sealed text, as the id-less formats carry it. */
  function Body(p: Crypto, key: Bytes, nonce: Nonce, plain: string): (s: string)
    ensures s != "" && forall i :: 0 <= i < |s| ==> Printable(RawURLEncoding, s[i])
  {
    Encode(RawURLEncoding, nonce + p.seal(key, nonce, plain))
  }

  lemma BodyReads(p: Crypto, key: Bytes, nonce: Nonce, plain: string, raw: string)
    requires Decode(RawURLEncoding, raw) == Some(nonce + p.seal(key, nonce, plain))
    ensures DecryptUnkeyedIn(p, Alone(p, key), raw, []) == Ok(plain)
  {
    OpenSealed(p, key, nonce, plain);
    assert Candidates(Alone(p, key), []) == [key];
  }

  /** A value without a version prefix: the cipher reads it, the guard misses it. */
  lemma BareValueMissed(p: Crypto, key: Bytes, nonce: Nonce, plain: string, c: Column)
    requires !c.json
    ensures var v := Body(p, key, nonce, plain);
            DecryptIn(p, Alone(p, key), v, []) == Ok(plain) && !LooksSealed(c, v)
  {
    var v := Body(p, key, nonce, plain);
    Base64RoundTrip(RawURLEncoding, nonce + p.seal(key, nonce, plain));
    BodyReads(p, key, nonce, plain, v);
    assert !("v1:" <= v) && !("v2:" <= v) by {
      assert |v| >= 3 ==> v[2] != ':';
    }
    TextReachExactly(p, Alone(p, key), [], c, v);
  }

  lemma RouteV1(p: Crypto, key: Bytes, raw: string)
    ensures DecryptIn(p, Alone(p, key), "v1:" + raw, []) == DecryptUnkeyedIn(p, Alone(p, key), raw, [])
  {
    var v := "v1:" + raw;
    assert v[1] == '1' && v[3..] == raw;
  }

  /** The body, wrapped by a line feed at any place. */
  function Wrapped(s: string, at: nat): (raw: string)
    requires at <= |s|
    ensures HasLineEnd(raw)
  {
    var raw := s[..at] + "\n" + s[at..];
    assert raw[at] == '\n';
    raw
  }

  lemma WrappedReads(p: Crypto, key: Bytes, nonce: Nonce, plain: string, at: nat)
    requires at <= |Body(p, key, nonce, plain)|
    ensures DecryptIn(p, Alone(p, key), "v1:" + Wrapped(Body(p, key, nonce, plain), at), []) == Ok(plain)
  {
    var s := Body(p, key, nonce, plain);
    Base64RoundTrip(RawURLEncoding, nonce + p.seal(key, nonce, plain));
    WrappedDecodes(RawURLEncoding, s[..at], s[at..]);
    assert s[..at] + s[at..] == s;
    BodyReads(p, key, nonce, plain, Wrapped(s, at));
    RouteV1(p, key, Wrapped(s, at));
  }

  /** So is a version-1 value wrapped at any place. */
  lemma WrappedV1Missed(p: Crypto, key: Bytes, nonce: Nonce, plain: string, at: nat, c: Column)
    requires !c.json && at <= |Body(p, key, nonce, plain)|
    ensures var v := "v1:" + Wrapped(Body(p, key, nonce, plain), at);
            DecryptIn(p, Alone(p, key), v, []) == Ok(plain) && !LooksSealed(c, v)
  {
    var raw := Wrapped(Body(p, key, nonce, plain), at);
    WrappedReads(p, key, nonce, plain, at);
    NoLineEndInHead(raw);
    TextReachExactly(p, Alone(p, key), [], c, "v1:" + raw);
  }

  /** And any version-1 value inside a document. */
  lemma EmbeddedV1Missed(p: Crypto, key: Bytes, nonce: Nonce, plain: string)
    ensures var v := "v1:" + Body(p, key, nonce, plain);
            && DecryptIn(p, Alone(p, key), v, []) == Ok(plain)
            && !EmbedsV2("{\"s\":\"" + v + "\"}")
  {
    var s := Body(p, key, nonce, plain);
    Base64RoundTrip(RawURLEncoding, nonce + p.seal(key, nonce, plain));
    BodyReads(p, key, nonce, plain, s);
    RouteV1(p, key, s);
    QuotesElsewhere(s);
  }

  lemma QuotesElsewhere(s: string)
    requires forall i :: 0 <= i < |s| ==> Printable(RawURLEncoding, s[i])
    ensures !EmbedsV2("{\"s\":\"" + ("v1:" + s) + "\"}")
  {
    var text := "{\"s\":\"" + ("v1:" + s) + "\"}";
    assert forall k :: 0 <= k < |s| ==> text[k + 9] == s[k] != '"';
    assert forall i :: 9 <= i < 9 + |s| ==> text[i] == s[i - 9];
    forall i | 0 <= i < |text| && text[i] == '"'
      ensures !V2Shaped(text[i + 1..])
    {
      var rest := text[i + 1..];
      assert i + 2 < |text| ==> rest[0] == text[i + 1] && rest[1] == text[i + 2];
    }
  }
}
