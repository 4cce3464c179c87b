/** What the cipher reads, format by format, said without its own functions. */
module CipherFormats {
  import opened Wrappers
  import opened Encoding
  import opened Primitives
  import opened AtRestCipher
  import Text

  // ----------------------------------------------------------- One key

  /** AES-GCM opens `data` to `t`: twelve bytes of nonce, then the sealed text. */
  predicate Opened(p: Crypto, key: Bytes, data: Bytes, t: string) {
    |data| >= 12 && p.open(key, data[..12], data[12..]) == Some(t)
  }

  lemma GcmOpenExactly(p: Crypto, key: Bytes, data: Bytes, t: string)
    ensures GcmOpen(p, key, data) == Ok(t) <==> Opened(p, key, data, t)
    ensures GcmOpen(p, key, data) == Err(TooShort) <==> |data| < 12
  {
  }

  // ---------------------------------------------------------- Version 2

  /** A version-2 text opens to `t` exactly when the key filed under its id, the
      active one first, opens its base64 to `t`. */
  lemma V2Exactly(p: Crypto, ring: Keyring, order: seq<string>, id: string, raw: string, t: string)
    requires Enumerates(order, ring.previous.Keys) && ':' !in id
    ensures DecryptIn(p, ring, "v2:" + id + ":" + raw, order) == Ok(t)
       <==> var data := Decode(RawURLEncoding, raw);
            && id != "" && raw != "" && data.Some?
            && if id == ring.active.id then Opened(p, ring.active.material, data.value, t)
               else id in ring.previous && Opened(p, ring.previous[id].material, data.value, t)
  {
    var body := id + ":" + raw;
    assert "v2:" + id + ":" + raw == "v2:" + body;
    RouteV2(p, ring, body, order);
    BodyExactly(p, ring, id, raw, t);
  }

  lemma BodyExactly(p: Crypto, ring: Keyring, id: string, raw: string, t: string)
    requires ':' !in id
    ensures DecryptV2(p, ring, id + ":" + raw) == Ok(t)
       <==> var data := Decode(RawURLEncoding, raw);
            && id != "" && raw != "" && data.Some?
            && if id == ring.active.id then Opened(p, ring.active.material, data.value, t)
               else id in ring.previous && Opened(p, ring.previous[id].material, data.value, t)
  {
    var body := id + ":" + raw;
    Text.IndexOfFirst(id, raw, ':');
    assert body[..|id|] == id && body[|id| + 1..] == raw;
    if Decode(RawURLEncoding, raw).Some? && Lookup(ring, id).Some? {
      GcmOpenExactly(p, Lookup(ring, id).value, Decode(RawURLEncoding, raw).value, t);
    }
  }

  // ------------------------------------------------------ Without a key id

  /** The two formats without a key id, `v1:` and bare, in either base64. */
  function Legacy(v1: bool, std: bool, data: Bytes): string {
    (if v1 then "v1:" else "") + Encode(if std then StdEncoding else RawURLEncoding, data)
  }

  /** The ring has the key, active or in the pool. */
  predicate InRing(ring: Keyring, key: Bytes) {
    key == ring.active.material || exists id :: id in ring.previous && ring.previous[id].material == key
  }

  /** No key of the ring opens `data` to anything but `t`. */
  ghost predicate OpensOnlyTo(p: Crypto, ring: Keyring, data: Bytes, t: string) {
    forall key :: InRing(ring, key) && Opens(p, key, data) ==> GcmOpen(p, key, data) == Ok(t)
  }

  lemma LegacyDecodes(std: bool, data: Bytes)
    ensures DecodeUnkeyed(Encode(if std then StdEncoding else RawURLEncoding, data)) == Some(data)
  {
    Base64RoundTrip(RawURLEncoding, data);
    if std {
      Base64RoundTrip(StdEncoding, data);
      LineEndsAbsent(Encode(StdEncoding, data));
      StandardAsUrl(data);
    }
  }

  lemma LegacyRoute(p: Crypto, ring: Keyring, order: seq<string>, v1: bool, std: bool, data: Bytes)
    requires Enumerates(order, ring.previous.Keys)
    ensures DecryptIn(p, ring, Legacy(v1, std, data), order) == TryKeys(p, Candidates(ring, order), data)
  {
    var raw := Encode(if std then StdEncoding else RawURLEncoding, data);
    LegacyDecodes(std, data);
    var text := Legacy(v1, std, data);
    if v1 {
      assert text == "v1:" + raw && text[3..] == raw && text[1] == '1';
    } else {
      assert text == raw;
      assert |raw| >= 3 ==> raw[2] != ':';
    }
  }

  /** A text sealed under any key of the ring, active or retired, is read in both
      formats and both base64 alphabets, whatever the order of the pool, unless
      another key of the ring opens it to something else. */
  lemma LegacyReads(p: Crypto, ring: Keyring, order: seq<string>, key: Bytes, nonce: Nonce, plain: string, v1: bool, std: bool)
    requires Enumerates(order, ring.previous.Keys) && InRing(ring, key)
    requires OpensOnlyTo(p, ring, nonce + p.seal(key, nonce, plain), plain)
    ensures DecryptIn(p, ring, Legacy(v1, std, nonce + p.seal(key, nonce, plain)), order) == Ok(plain)
  {
    var data := nonce + p.seal(key, nonce, plain);
    LegacyRoute(p, ring, order, v1, std, data);
    OpenSealed(p, key, nonce, plain);
    TryPool(p, ring, data, order);
    assert Opens(p, key, data);
  }

  /** In particular by a service with that key alone. */
  lemma LegacyReadsAlone(p: Crypto, key: Bytes, nonce: Nonce, plain: string, v1: bool, std: bool)
    ensures DecryptIn(p, Alone(p, key), Legacy(v1, std, nonce + p.seal(key, nonce, plain)), []) == Ok(plain)
  {
    OpenSealed(p, key, nonce, plain);
    LegacyReads(p, Alone(p, key), [], key, nonce, plain, v1, std);
  }
}
