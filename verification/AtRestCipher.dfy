/** `CryptoService`: one active key, a pool of previous keys, three ciphertext
    formats. */
module AtRestCipher {
  import opened Wrappers
  import opened Encoding
  import opened Primitives
  import Text

  const NonceSize := 12

  type Nonce = n: Bytes | |n| == NonceSize witness seq(NonceSize, i => 0)

  datatype CipherError =
    | InvalidHexKey
    | WrongKeyLength
    | MissingSeparator
    | BadEncoding
    | UnknownKeyId
    | TooShort
    | NotAuthentic

  /** `id` is derived from `material`, so processes agree on it without talking. */
  datatype KeyEntry = KeyEntry(id: string, material: Bytes)

  /** The state a service holds. */
  datatype Keyring = Keyring(active: KeyEntry, previous: map<string, KeyEntry>)

  // ------------------------------------------------------------------ Keys

  predicate IsKeyId(s: string) {
    |s| == 16 && forall i :: 0 <= i < |s| ==> IsLowerHex(s[i])
  }

  function KeyId(p: Crypto, material: Bytes): (id: string)
    ensures IsKeyId(id) && ':' !in id
    ensures HexDecode(id) == Some(p.sha256(material)[..8])
  {
    HexRoundTrip(p.sha256(material)[..8]);
    HexEncode(p.sha256(material)[..8])
  }

  function Entry(p: Crypto, material: Bytes): KeyEntry {
    KeyEntry(KeyId(p, material), material)
  }

  function ParseKey(p: Crypto, hexKey: string): (r: Result<KeyEntry, CipherError>)
    ensures r.Ok? ==> |hexKey| == 64 && r.value == Entry(p, r.value.material)
  {
    match HexDecode(hexKey)
    case None => Err(InvalidHexKey)
    case Some(key) => if |key| != 32 then Err(WrongKeyLength) else Ok(Entry(p, key))
  }

  /** The texts that are keys: 64 hexadecimal digits in either letter case. */
  predicate IsKeyText(hexKey: string) {
    |hexKey| == 64 && Text.AllOf(hexKey, IsHex)
  }

  /** Which texts parse, to what, and how the others are refused. */
  lemma ParseKeyExactly(p: Crypto, hexKey: string)
    ensures ParseKey(p, hexKey).Ok? <==> IsKeyText(hexKey)
    ensures ParseKey(p, hexKey).Ok? ==> HexDecode(hexKey) == Some(ParseKey(p, hexKey).value.material)
    ensures ParseKey(p, hexKey) == Err(InvalidHexKey) <==> |hexKey| % 2 != 0 || !Text.AllOf(hexKey, IsHex)
  {
    HexDecodable(hexKey);
  }

  /** A service with one key and nothing before it. */
  function Alone(p: Crypto, key: Bytes): Keyring {
    Keyring(Entry(p, key), map[])
  }

  // ------------------------------------------------- Sealing and unsealing

  /** The one format that is written: `v2:<key id>:<base64>`. */
  function SealV2(p: Crypto, key: Bytes, nonce: Nonce, plaintext: string): (c: string)
    ensures "v2:" + KeyId(p, key) + ":" <= c
  {
    "v2:" + KeyId(p, key) + ":" + Encode(RawURLEncoding, nonce + p.seal(key, nonce, plaintext))
  }

  function GcmOpen(p: Crypto, key: Bytes, data: Bytes): Result<string, CipherError> {
    if |data| < NonceSize then Err(TooShort)
    else
      match p.open(key, data[..NonceSize], data[NonceSize..])
      case None => Err(NotAuthentic)
      case Some(t) => Ok(t)
  }

  /** The key a v2 ciphertext naming `id` is opened with. */
  function Lookup(ring: Keyring, id: string): Option<Bytes> {
    if id == ring.active.id then Some(ring.active.material)
    else if id in ring.previous then Some(ring.previous[id].material)
    else None
  }

  function DecryptV2(p: Crypto, ring: Keyring, body: string): Result<string, CipherError> {
    var sep := Text.IndexOf(body, ':');
    if sep <= 0 || sep == |body| - 1 then Err(MissingSeparator)
    else
      match Decode(RawURLEncoding, body[sep + 1..])
      case None => Err(BadEncoding)
      case Some(data) =>
        match Lookup(ring, body[..sep])
        case None => Err(UnknownKeyId)
        case Some(key) => GcmOpen(p, key, data)
  }

  /** `order` lists the pool once each, in whatever order the map is walked. */
  predicate Enumerates(order: seq<string>, ids: set<string>) {
    && (forall i :: 0 <= i < |order| ==> order[i] in ids)
    && (forall id :: id in ids ==> id in order)
    && (forall i, j :: 0 <= i < j < |order| ==> order[i] != order[j])
  }

  function Candidates(ring: Keyring, order: seq<string>): (ks: seq<Bytes>)
    requires forall i :: 0 <= i < |order| ==> order[i] in ring.previous
  {
    [ring.active.material] + seq(|order|, i requires 0 <= i < |order| => ring.previous[order[i]].material)
  }

  /** The first candidate that opens wins; otherwise the last failure stands. */
  function TryKeys(p: Crypto, keys: seq<Bytes>, data: Bytes): (r: Result<string, CipherError>)
    requires keys != []
  {
    var first := GcmOpen(p, keys[0], data);
    if first.Ok? || |keys| == 1 then first else TryKeys(p, keys[1..], data)
  }

  /** Raw URL-safe base64, then standard base64. */
  function DecodeUnkeyed(raw: string): Option<Bytes> {
    match Decode(RawURLEncoding, raw)
    case Some(data) => Some(data)
    case None => Decode(StdEncoding, raw)
  }

  function DecryptUnkeyedIn(p: Crypto, ring: Keyring, raw: string, order: seq<string>): Result<string, CipherError>
    requires Enumerates(order, ring.previous.Keys)
  {
    match DecodeUnkeyed(raw)
    case None => Err(BadEncoding)
    case Some(data) => TryKeys(p, Candidates(ring, order), data)
  }

  /** `Decrypt` as a function, given the order in which the pool of previous keys is walked. */
  function DecryptIn(p: Crypto, ring: Keyring, text: string, order: seq<string>): Result<string, CipherError>
    requires Enumerates(order, ring.previous.Keys)
  {
    if "v2:" <= text then DecryptV2(p, ring, text[3..])
    else if "v1:" <= text then DecryptUnkeyedIn(p, ring, text[3..], order)
    else DecryptUnkeyedIn(p, ring, text, order)
  }

  // -------------------------------------------------------- Opening what was sealed

  /** A v2 body is opened by whatever key its id is looked up to. */
  lemma DecryptBody(p: Crypto, ring: Keyring, id: string, data: Bytes)
    requires id != "" && ':' !in id && data != []
    ensures DecryptV2(p, ring, id + ":" + Encode(RawURLEncoding, data))
         == match Lookup(ring, id)
            case None => Err(UnknownKeyId)
            case Some(k) => GcmOpen(p, k, data)
  {
    var raw := Encode(RawURLEncoding, data);
    var body := id + ":" + raw;
    Text.IndexOfFirst(id, raw, ':');
    assert body[..|id|] == id && body[|id| + 1..] == raw;
    Base64RoundTrip(RawURLEncoding, data);
  }

  lemma DecryptSealed(p: Crypto, ring: Keyring, key: Bytes, nonce: Nonce, plaintext: string, order: seq<string>)
    requires Enumerates(order, ring.previous.Keys)
    ensures DecryptIn(p, ring, SealV2(p, key, nonce, plaintext), order)
         == match Lookup(ring, KeyId(p, key))
            case None => Err(UnknownKeyId)
            case Some(k) => GcmOpen(p, k, nonce + p.seal(key, nonce, plaintext))
  {
    var data := nonce + p.seal(key, nonce, plaintext);
    var body := KeyId(p, key) + ":" + Encode(RawURLEncoding, data);
    assert SealV2(p, key, nonce, plaintext) == "v2:" + body;
    RouteV2(p, ring, body, order);
    DecryptBody(p, ring, KeyId(p, key), data);
  }

  lemma RouteV2(p: Crypto, ring: Keyring, body: string, order: seq<string>)
    requires Enumerates(order, ring.previous.Keys)
    ensures DecryptIn(p, ring, "v2:" + body, order) == DecryptV2(p, ring, body)
  {
  }

  lemma OpenSealed(p: Crypto, key: Bytes, nonce: Nonce, plaintext: string)
    ensures GcmOpen(p, key, nonce + p.seal(key, nonce, plaintext)) == Ok(plaintext)
  {
  }

  // ----------------------------------------------- Order of the previous keys

  predicate Opens(p: Crypto, key: Bytes, data: Bytes) {
    GcmOpen(p, key, data).Ok?
  }

  /** Trying keys succeeds with an opener if there is one, and otherwise fails
      with an error the order has no influence on. */
  lemma {:induction false} TryKeysMeans(p: Crypto, keys: seq<Bytes>, data: Bytes)
    requires keys != []
    ensures TryKeys(p, keys, data).Ok? ==>
              exists i :: 0 <= i < |keys| && GcmOpen(p, keys[i], data) == TryKeys(p, keys, data)
    ensures TryKeys(p, keys, data).Err? ==>
              && (forall i :: 0 <= i < |keys| ==> !Opens(p, keys[i], data))
              && TryKeys(p, keys, data).error == if |data| < NonceSize then TooShort else NotAuthentic
  {
    if !Opens(p, keys[0], data) && |keys| > 1 {
      TryKeysMeans(p, keys[1..], data);
      if TryKeys(p, keys[1..], data).Ok? {
        var i :| 0 <= i < |keys[1..]| && GcmOpen(p, keys[1..][i], data) == TryKeys(p, keys[1..], data);
        assert keys[i + 1] == keys[1..][i];
      } else {
        assert forall i :: 1 <= i < |keys| ==> keys[i] == keys[1..][i - 1];
      }
    }
  }

  /** All the pool's openers of `data` agree. */
  ghost predicate OpenersAgree(p: Crypto, ring: Keyring, data: Bytes) {
    forall a, b :: a in ring.previous && b in ring.previous
                   && Opens(p, ring.previous[a].material, data) && Opens(p, ring.previous[b].material, data)
      ==> GcmOpen(p, ring.previous[a].material, data) == GcmOpen(p, ring.previous[b].material, data)
  }

  /** The result of walking the pool in one order, in terms of some opener in it. */
  lemma TryPool(p: Crypto, ring: Keyring, data: Bytes, order: seq<string>)
    requires Enumerates(order, ring.previous.Keys)
    ensures var r := TryKeys(p, Candidates(ring, order), data);
            && (Opens(p, ring.active.material, data) ==> r == GcmOpen(p, ring.active.material, data))
            && (!Opens(p, ring.active.material, data) && r.Ok? ==>
                  exists id :: id in ring.previous && GcmOpen(p, ring.previous[id].material, data) == r)
            && (r.Err? ==>
                  && (forall id :: id in ring.previous ==> !Opens(p, ring.previous[id].material, data))
                  && r.error == if |data| < NonceSize then TooShort else NotAuthentic)
  {
    var keys := Candidates(ring, order);
    var r := TryKeys(p, keys, data);
    TryKeysMeans(p, keys, data);
    if !Opens(p, ring.active.material, data) && r.Ok? {
      var i :| 0 <= i < |keys| && GcmOpen(p, keys[i], data) == r;
      assert keys[i] == ring.previous[order[i - 1]].material;
    }
    if r.Err? {
      forall id | id in ring.previous
        ensures !Opens(p, ring.previous[id].material, data)
      {
        var i :| 0 <= i < |order| && order[i] == id;
        assert keys[i + 1] == ring.previous[id].material;
      }
    }
  }

  /** If the active key opens the data or the pool's openers agree, the order of
      the walk is immaterial. */
  lemma AgreementFixesResult(p: Crypto, ring: Keyring, data: Bytes, o1: seq<string>, o2: seq<string>)
    requires Enumerates(o1, ring.previous.Keys) && Enumerates(o2, ring.previous.Keys)
    requires Opens(p, ring.active.material, data) || OpenersAgree(p, ring, data)
    ensures TryKeys(p, Candidates(ring, o1), data) == TryKeys(p, Candidates(ring, o2), data)
  {
    TryPool(p, ring, data, o1);
    TryPool(p, ring, data, o2);
  }

  /** Some walk of a finite pool starts with any given member. */
  lemma {:induction false} WalkFrom(ids: set<string>, first: string) returns (order: seq<string>)
    requires first in ids
    ensures Enumerates(order, ids) && order != [] && order[0] == first
  {
    var rest := ids - {first};
    if rest == {} {
      order := [first];
      assert ids == {first};
    } else {
      var next :| next in rest;
      var tail := WalkFrom(rest, next);
      order := [first] + tail;
      forall id | id in ids
        ensures id in order
      {
        assert id != first ==> id in rest;
      }
    }
  }

  /** Every finite pool can be walked. */
  lemma WalkExists(ids: set<string>) returns (order: seq<string>)
    ensures Enumerates(order, ids)
  {
    if ids == {} {
      order := [];
    } else {
      var first :| first in ids;
      order := WalkFrom(ids, first);
    }
  }

  /** Exactly when a result for an id-less ciphertext is independent of map order. */
  lemma OrderIrrelevantExactly(p: Crypto, ring: Keyring, data: Bytes)
    ensures (forall o1, o2 :: Enumerates(o1, ring.previous.Keys) && Enumerates(o2, ring.previous.Keys)
               ==> TryKeys(p, Candidates(ring, o1), data) == TryKeys(p, Candidates(ring, o2), data))
       <==> Opens(p, ring.active.material, data) || OpenersAgree(p, ring, data)
  {
    if Opens(p, ring.active.material, data) || OpenersAgree(p, ring, data) {
      forall o1, o2 | Enumerates(o1, ring.previous.Keys) && Enumerates(o2, ring.previous.Keys)
        ensures TryKeys(p, Candidates(ring, o1), data) == TryKeys(p, Candidates(ring, o2), data)
      {
        AgreementFixesResult(p, ring, data, o1, o2);
      }
    } else {
      var a, b :| a in ring.previous && b in ring.previous
                  && Opens(p, ring.previous[a].material, data) && Opens(p, ring.previous[b].material, data)
                  && GcmOpen(p, ring.previous[a].material, data) != GcmOpen(p, ring.previous[b].material, data);
      var o1 := WalkFrom(ring.previous.Keys, a);
      var o2 := WalkFrom(ring.previous.Keys, b);
      FirstPrevious(p, ring, data, o1);
      FirstPrevious(p, ring, data, o2);
    }
  }

  lemma FirstPrevious(p: Crypto, ring: Keyring, data: Bytes, order: seq<string>)
    requires Enumerates(order, ring.previous.Keys) && order != []
    requires !Opens(p, ring.active.material, data) && Opens(p, ring.previous[order[0]].material, data)
    ensures TryKeys(p, Candidates(ring, order), data) == GcmOpen(p, ring.previous[order[0]].material, data)
  {
  }

  // ------------------------------------------------------------ Whole runs

  /** What a client of the service may do to it. Nonces come from outside. */
  datatype Event = Swap(hexKey: string) | Seal(plaintext: string, nonce: Nonce)

  /** A ring together with every (ciphertext, plaintext) it has handed out. */
  datatype History = History(ring: Keyring, issued: seq<(string, string)>)

  /** `SwapActive` as a function on the state: a bad key and the current key change nothing. */
  function SwapRing(p: Crypto, ring: Keyring, hexKey: string): Keyring {
    match ParseKey(p, hexKey)
    case Err(_) => ring
    case Ok(entry) =>
      if entry.id == ring.active.id then ring
      else Keyring(entry, ring.previous[ring.active.id := ring.active])
  }

  function Step(p: Crypto, h: History, e: Event): History {
    match e
    case Swap(hexKey) => h.(ring := SwapRing(p, h.ring, hexKey))
    case Seal(t, nonce) => h.(issued := h.issued + [(SealV2(p, h.ring.active.material, nonce, t), t)])
  }

  function Run(p: Crypto, h: History, es: seq<Event>): History
    decreases |es|
  {
    if es == [] then h else Run(p, Step(p, h, es[0]), es[1..])
  }

  /** Every slot is filed under the id of its own material. */
  predicate WellFormed(p: Crypto, ring: Keyring) {
    && ring.active == Entry(p, ring.active.material)
    && forall id :: id in ring.previous ==> ring.previous[id] == Entry(p, ring.previous[id].material)
                                            && ring.previous[id].id == id
  }

  predicate Holds(p: Crypto, ring: Keyring, key: Bytes) {
    Lookup(ring, KeyId(p, key)) == Some(key)
  }

  /** A swap keeps a held key exactly when the incoming key is not a stranger
      that shares its id and displaces it. */
  lemma SwapKeepsExactly(p: Crypto, ring: Keyring, hexKey: string, key: Bytes)
    requires WellFormed(p, ring) && Holds(p, ring, key)
    ensures WellFormed(p, SwapRing(p, ring, hexKey))
    ensures Holds(p, SwapRing(p, ring, hexKey), key)
       <==> var r := ParseKey(p, hexKey);
            !(r.Ok? && r.value.id != ring.active.id && r.value.id == KeyId(p, key) && r.value.material != key)
  {
  }

  /** Distinct keys among `keys` have distinct ids. */
  ghost predicate IdsDistinct(p: Crypto, keys: set<Bytes>) {
    forall a, b :: a in keys && b in keys && KeyId(p, a) == KeyId(p, b) ==> a == b
  }

  function KeysSwappedIn(p: Crypto, es: seq<Event>): set<Bytes> {
    if es == [] then {}
    else
      var rest := KeysSwappedIn(p, es[1..]);
      match es[0]
      case Swap(hexKey) =>
        var r := ParseKey(p, hexKey);
        if r.Ok? then {r.value.material} + rest else rest
      case Seal(_, _) => rest
  }

  /** Each issued ciphertext was sealed with a key from `keys` the ring still holds. */
  ghost predicate Traceable(p: Crypto, h: History, keys: set<Bytes>) {
    && WellFormed(p, h.ring)
    && h.ring.active.material in keys
    && forall i :: 0 <= i < |h.issued| ==> SealedByHeldKey(p, h.ring, keys, h.issued[i].0, h.issued[i].1)
  }

  ghost predicate SealedByHeldKey(p: Crypto, ring: Keyring, keys: set<Bytes>, c: string, t: string) {
    exists k: Bytes, nonce: Nonce :: k in keys && Holds(p, ring, k) && c == SealV2(p, k, nonce, t)
  }

  lemma StepTraceable(p: Crypto, h: History, e: Event, keys: set<Bytes>)
    requires Traceable(p, h, keys) && IdsDistinct(p, keys)
    requires e.Swap? && ParseKey(p, e.hexKey).Ok? ==> ParseKey(p, e.hexKey).value.material in keys
    ensures Traceable(p, Step(p, h, e), keys)
  {
    var h' := Step(p, h, e);
    forall i | 0 <= i < |h'.issued|
      ensures SealedByHeldKey(p, h'.ring, keys, h'.issued[i].0, h'.issued[i].1)
    {
      if i < |h.issued| {
        assert SealedByHeldKey(p, h.ring, keys, h.issued[i].0, h.issued[i].1);
        var k: Bytes, nonce: Nonce :| k in keys && Holds(p, h.ring, k) && h.issued[i].0 == SealV2(p, k, nonce, h.issued[i].1);
        if e.Swap? {
          SwapKeepsExactly(p, h.ring, e.hexKey, k);
        }
      } else {
        assert Holds(p, h.ring, h.ring.active.material);
      }
    }
    if e.Swap? {
      SwapKeepsExactly(p, h.ring, e.hexKey, h.ring.active.material);
    }
  }

  lemma {:induction false} RunTraceable(p: Crypto, h: History, es: seq<Event>, keys: set<Bytes>)
    requires Traceable(p, h, keys) && IdsDistinct(p, keys)
    requires KeysSwappedIn(p, es) <= keys
    ensures Traceable(p, Run(p, h, es), keys)
    decreases |es|
  {
    if es != [] {
      StepTraceable(p, h, es[0], keys);
      RunTraceable(p, Step(p, h, es[0]), es[1..], keys);
    }
  }

  /** Over every run of swaps (failed ones, repeated ones and swaps back
      included) and encryptions, every ciphertext ever issued still decrypts to
      its plaintext, in whatever order the pool is walked. */
  lemma IssuedStaysReadable(p: Crypto, start: Bytes, es: seq<Event>, order: seq<string>, i: nat)
    requires IdsDistinct(p, {start} + KeysSwappedIn(p, es))
    requires Enumerates(order, Run(p, History(Alone(p, start), []), es).ring.previous.Keys)
    requires i < |Run(p, History(Alone(p, start), []), es).issued|
    ensures var h := Run(p, History(Alone(p, start), []), es);
            DecryptIn(p, h.ring, h.issued[i].0, order) == Ok(h.issued[i].1)
  {
    var h0 := History(Alone(p, start), []);
    var keys := {start} + KeysSwappedIn(p, es);
    RunTraceable(p, h0, es, keys);
    var h := Run(p, h0, es);
    assert SealedByHeldKey(p, h.ring, keys, h.issued[i].0, h.issued[i].1);
    var k: Bytes, nonce: Nonce :| k in keys && Holds(p, h.ring, k) && h.issued[i].0 == SealV2(p, k, nonce, h.issued[i].1);
    DecryptSealed(p, h.ring, k, nonce, h.issued[i].1, order);
    OpenSealed(p, k, nonce, h.issued[i].1);
  }

  // ------------------------------------------------------------ The service

  class CryptoService {
    const prims: Crypto
    var active: KeyEntry
    var previous: map<string, KeyEntry>

    function Ring(): Keyring
      reads this
    {
      Keyring(active, previous)
    }

    ghost predicate Valid()
      reads this
    {
      WellFormed(prims, Ring())
    }

    constructor (prims: Crypto, entry: KeyEntry)
      requires entry == Entry(prims, entry.material)
      ensures Valid() && this.prims == prims && Ring() == Keyring(entry, map[])
    {
      this.prims, active, previous := prims, entry, map[];
    }

    /** `NewCryptoService`. */
    static method New(prims: Crypto, hexKey: string) returns (r: Result<CryptoService, CipherError>)
      ensures r.Ok? <==> IsKeyText(hexKey)
      ensures r.Ok? <==> ParseKey(prims, hexKey).Ok?
      ensures r.Ok? ==> fresh(r.value) && r.value.Valid() && r.value.prims == prims
                        && r.value.Ring() == Keyring(ParseKey(prims, hexKey).value, map[])
      ensures r.Err? ==> r.error == ParseKey(prims, hexKey).error
    {
      ParseKeyExactly(prims, hexKey);
      match ParseKey(prims, hexKey)
      case Err(e) => r := Err(e);
      case Ok(entry) =>
        var s := new CryptoService(prims, entry);
        r := Ok(s);
    }

    method SwapActive(hexKey: string) returns (r: Result<(string, string, bool), CipherError>)
      requires Valid()
      modifies this
      ensures Valid() && Ring() == SwapRing(prims, old(Ring()), hexKey)
      ensures r.Err? <==> ParseKey(prims, hexKey).Err?
      ensures r.Err? ==> r.error == ParseKey(prims, hexKey).error
      ensures r.Ok? ==> r.value == (old(active.id), active.id, Ring() != old(Ring()))
    {
      match ParseKey(prims, hexKey)
      case Err(e) => r := Err(e);
      case Ok(entry) =>
        if entry.id == active.id {
          return Ok((active.id, active.id, false));
        }
        var oldEntry := active;
        active := entry;
        previous := previous[oldEntry.id := oldEntry];
        r := Ok((oldEntry.id, entry.id, true));
    }

    method Encrypt(plaintext: string, nonce: Nonce) returns (c: string)
      requires Valid()
      ensures c == SealV2(prims, active.material, nonce, plaintext)
      ensures "v2:" + active.id + ":" <= c
    {
      var ciphertext := nonce + prims.seal(active.material, nonce, plaintext);
      c := "v2:" + active.id + ":" + Encode(RawURLEncoding, ciphertext);
    }

    /** The walk over a Go map visits the pool in an order of its own choosing. */
    method DecryptUnkeyed(raw: string) returns (r: Result<string, CipherError>)
      ensures exists order :: Enumerates(order, previous.Keys) && r == DecryptUnkeyedIn(prims, Ring(), raw, order)
    {
      var ids := WalkMap(previous.Keys);
      match DecodeUnkeyed(raw)
      case None => r := Err(BadEncoding);
      case Some(data) =>
        var keys := Candidates(Ring(), ids);
        var i := 0;
        var lastErr := NotAuthentic;
        while i < |keys|
          invariant 0 <= i <= |keys|
          invariant i < |keys| ==> TryKeys(prims, keys, data) == TryKeys(prims, keys[i..], data)
          invariant i == |keys| ==> TryKeys(prims, keys, data) == Err(lastErr)
        {
          match GcmOpen(prims, keys[i], data)
          case Ok(t) => return Ok(t);
          case Err(e) => lastErr := e;
          assert keys[i..][1..] == keys[i + 1..];
          i := i + 1;
        }
        r := Err(lastErr);
    }

    method Decrypt(text: string) returns (r: Result<string, CipherError>)
      ensures exists order :: Enumerates(order, previous.Keys) && r == DecryptIn(prims, Ring(), text, order)
    {
      if "v2:" <= text {
        r := DecryptV2(prims, Ring(), text[3..]);
        ghost var order := WalkExists(previous.Keys);
      } else if "v1:" <= text {
        r := DecryptUnkeyed(text[3..]);
      } else {
        r := DecryptUnkeyed(text);
      }
    }
  }

  /** Ranging over a map: every key once, in an arbitrary order. */
  method WalkMap(ids: set<string>) returns (order: seq<string>)
    ensures Enumerates(order, ids)
  {
    order := [];
    var todo := ids;
    while todo != {}
      invariant todo <= ids
      invariant Enumerates(order, ids - todo)
      decreases todo
    {
      var id :| id in todo;
      todo := todo - {id};
      order := order + [id];
    }
    assert ids - todo == ids;
  }
}
