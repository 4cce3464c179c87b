/** What `rotate-encryption-key` does to one sealed value, and what that means
    for whoever reads the value afterwards. */
module Rotation {
  import opened Wrappers
  import opened Encoding
  import opened Primitives
  import opened AtRestCipher
  import opened JsonNumber
  import opened NumeralDigits
  import opened NumeralExamples
  import opened JsonDocument
  import Text

  const PemHeader := "-----BEGIN"

  datatype RotateError = Undecryptable | NotJson | ReadFailed | WriteFailed

  // ------------------------------------------------------------ One value

  /** A rotation: the key being retired and the key that replaces it. */
  datatype Rotor = Rotor(prims: Crypto, oldKey: Bytes, newKey: Bytes) {

    function OldId(): string { KeyId(prims, oldKey) }

    function NewId(): string { KeyId(prims, newKey) }

    /** The service the tool runs with: new key active, old key in the pool. */
    function Both(): Keyring {
      Keyring(Entry(prims, newKey), map[OldId() := Entry(prims, oldKey)])
    }

    function Read(val: string): Result<string, CipherError> {
      DecryptIn(prims, Both(), val, [OldId()])
    }

    /** As the service that boots afterwards reads: with the new key and nothing else. */
    function ReadAlone(val: string): Result<string, CipherError> {
      DecryptIn(prims, Alone(prims, newKey), val, [])
    }

    /** The value already names the new key. */
    predicate Current(val: string) {
      "v2:" + NewId() + ":" <= val
    }

    /** The value has to be rewritten. */
    predicate Stale(val: string) {
      val != "" && !Current(val)
    }

    predicate Rotatable(val: string, pemOK: bool) {
      Stale(val) ==> (pemOK && PemHeader <= val) || Read(val).Ok?
    }

    /** `rotateCiphertext`: the next value and whether it differs. */
    function RotateCiphertext(val: string, pemOK: bool, nonce: Nonce): (r: Result<(string, bool), RotateError>)
      ensures r.Ok? <==> Rotatable(val, pemOK)
      ensures r.Ok? ==> r.value.1 == Stale(val) && (!r.value.1 ==> r.value.0 == val)
    {
      if val == "" then Ok((val, false))
      else if "v2:" + NewId() + ":" <= val then Ok((val, false))
      else if pemOK && PemHeader <= val then Ok((SealV2(prims, newKey, nonce, val), true))
      else
        match Read(val)
        case Err(_) => Err(Undecryptable)
        case Ok(plain) => Ok((SealV2(prims, newKey, nonce, plain), true))
    }

    /** `next` is what rotating the stale `val` may produce. */
    ghost predicate Replaces(val: string, pemOK: bool, next: string) {
      exists nonce :: RotateCiphertext(val, pemOK, nonce) == Ok((next, true))
    }
  }

  /** How a stored value is read back. A signing key stored as plaintext PEM is
      itself; anything else goes through the cipher. */
  function Meaning(read: string -> Result<string, CipherError>, val: string, pemOK: bool): Result<string, CipherError> {
    if pemOK && PemHeader <= val then Ok(val) else read(val)
  }

  lemma SealedIsCurrent(rot: Rotor, nonce: Nonce, plain: string)
    ensures var c := SealV2(rot.prims, rot.newKey, nonce, plain);
            rot.Current(c) && c != "" && !(PemHeader <= c) && rot.ReadAlone(c) == Ok(plain)
  {
    var c := SealV2(rot.prims, rot.newKey, nonce, plain);
    assert c[0] == 'v' && PemHeader[0] == '-';
    DecryptSealed(rot.prims, Alone(rot.prims, rot.newKey), rot.newKey, nonce, plain, []);
    OpenSealed(rot.prims, rot.newKey, nonce, plain);
  }

  /** The tool's pool has one key, so there is one order to walk it in. */
  lemma OneWalk(rot: Rotor, order: seq<string>)
    requires Enumerates(order, rot.Both().previous.Keys)
    ensures order == [rot.OldId()]
  {
    assert rot.OldId() in order;
    assert order[0] == order[|order| - 1] == rot.OldId();
  }

  lemma CurrentPieces(rot: Rotor, v: string)
    requires rot.Current(v)
    ensures |v| >= 20 && v == "v2:" + (rot.NewId() + ":" + v[20..])
  {
    var head := "v2:" + rot.NewId() + ":";
    assert v == head + v[20..];
  }

  /** A value naming the new key reads the same with and without the old one,
      whether it opens or not. */
  lemma CurrentReadsAlike(rot: Rotor, val: string)
    requires rot.Current(val)
    ensures rot.ReadAlone(val) == rot.Read(val)
  {
    CurrentPieces(rot, val);
    var body := rot.NewId() + ":" + val[20..];
    Text.IndexOfFirst(rot.NewId(), val[20..], ':');
    assert body[..16] == rot.NewId();
    RouteV2(rot.prims, Alone(rot.prims, rot.newKey), body, []);
    RouteV2(rot.prims, rot.Both(), body, [rot.OldId()]);
  }

  /** Rotating a value keeps what it means, and the new key alone suffices. */
  lemma RotationKeepsMeaning(rot: Rotor, val: string, pemOK: bool, nonce: Nonce)
    requires val != "" && rot.Rotatable(val, pemOK)
    ensures var next := rot.RotateCiphertext(val, pemOK, nonce).value.0;
            && rot.Current(next)
            && Meaning(rot.ReadAlone, next, pemOK) == Meaning(rot.Read, val, pemOK)
            && (rot.Stale(val) ==> Meaning(rot.ReadAlone, next, pemOK).Ok?)
  {
    if rot.Current(val) {
      CurrentReadsAlike(rot, val);
      assert val[0] == ("v2:" + rot.NewId() + ":")[0];
      assert !(PemHeader <= val);
    } else if pemOK && PemHeader <= val {
      SealedIsCurrent(rot, nonce, val);
    } else {
      SealedIsCurrent(rot, nonce, rot.Read(val).value);
    }
  }

  // ------------------------------------------------------- Provider documents

  const SealedFields := ["client_secret_encrypted", "bind_password_encrypted"]

  predicate Sealed(doc: Document, field: string) {
    field in doc && doc[field].Str? && doc[field].text != ""
  }

  predicate FieldStale(rot: Rotor, doc: Document, field: string) {
    Sealed(doc, field) && rot.Stale(doc[field].text)
  }

  predicate DocRotatable(rot: Rotor, doc: Document) {
    forall f :: f in SealedFields && Sealed(doc, f) ==> rot.Rotatable(doc[f].text, false)
  }

  predicate DocStale(rot: Rotor, doc: Document) {
    exists f :: f in SealedFields && FieldStale(rot, doc, f)
  }

  /** `next` is `doc` with exactly the stale sealed fields in `fields` re-sealed. */
  ghost predicate DocReplaces(rot: Rotor, doc: Document, next: Document, fields: seq<string>) {
    && next.Keys == doc.Keys
    && forall k :: k in doc ==> MemberReplaces(rot, doc, k, next[k], k in fields)
  }

  /** The member `k` afterwards: re-sealed if it was due, and otherwise the same. */
  ghost predicate MemberReplaces(rot: Rotor, doc: Document, k: string, next: Json, visited: bool)
    requires k in doc
  {
    if visited && FieldStale(rot, doc, k)
    then next.Str? && rot.Replaces(doc[k].text, false, next.text)
    else next == doc[k]
  }

  /** Re-sealing one more field, or passing over it, extends the replacement. */
  lemma ResealField(rot: Rotor, before: Document, doc: Document, done: seq<string>, field: string, next: string)
    requires DocReplaces(rot, before, doc, done) && FieldStale(rot, before, field)
    requires rot.Replaces(before[field].text, false, next)
    ensures DocReplaces(rot, before, doc[field := Str(next)], done + [field])
  {
    var after := doc[field := Str(next)];
    forall k | k in before
      ensures MemberReplaces(rot, before, k, after[k], k in done + [field])
    {
      assert MemberReplaces(rot, before, k, doc[k], k in done);
      assert k in done + [field] <==> k in done || k == field;
    }
  }

  lemma PassField(rot: Rotor, before: Document, doc: Document, done: seq<string>, field: string)
    requires DocReplaces(rot, before, doc, done) && !FieldStale(rot, before, field)
    ensures DocReplaces(rot, before, doc, done + [field])
  {
    forall k | k in before
      ensures MemberReplaces(rot, before, k, doc[k], k in done + [field])
    {
      assert MemberReplaces(rot, before, k, doc[k], k in done);
      assert k in done + [field] <==> k in done || k == field;
    }
  }

  lemma FieldUntouched(rot: Rotor, before: Document, doc: Document, i: nat)
    requires i < |SealedFields| && DocReplaces(rot, before, doc, SealedFields[..i])
    ensures SealedFields[i] in doc <==> SealedFields[i] in before
    ensures SealedFields[i] in doc ==> doc[SealedFields[i]] == before[SealedFields[i]]
  {
  }

  /** `next` is what rotating the text `raw` may store: the text itself when nothing
      is stale, and otherwise the re-encoding of the re-sealed document. */
  ghost predicate ConfigRotated(rot: Rotor, codec: JsonCodec, raw: string, next: string) {
    && codec.Decode(raw).Some?
    && if DocStale(rot, codec.Decode(raw).value)
       then exists d :: DocReplaces(rot, codec.Decode(raw).value, d, SealedFields) && next == codec.Encode(d)
       else next == raw
  }

  /** The loop's body: one field of the document. */
  method RotateField(rot: Rotor, doc: Document, field: string, nonce: Nonce) returns (r: Result<(Document, bool), RotateError>)
    ensures r.Ok? <==> (Sealed(doc, field) ==> rot.Rotatable(doc[field].text, false))
    ensures r.Ok? ==> r.value.1 == FieldStale(rot, doc, field)
    ensures r.Ok? && !r.value.1 ==> r.value.0 == doc
    ensures r.Ok? && r.value.1 ==>
              exists next :: rot.Replaces(doc[field].text, false, next) && r.value.0 == doc[field := Str(next)]
  {
    if field !in doc || !doc[field].Str? || doc[field].text == "" {
      return Ok((doc, false));
    }
    match rot.RotateCiphertext(doc[field].text, false, nonce)
    case Err(e) => r := Err(e);
    case Ok((next, changed)) =>
      r := Ok((if changed then doc[field := Str(next)] else doc, changed));
  }

  /** After `i` fields: what they required, and whether one of them changed. */
  ghost predicate FieldsDone(rot: Rotor, before: Document, doc: Document, i: nat, changed: bool)
    requires i <= |SealedFields|
  {
    && DocReplaces(rot, before, doc, SealedFields[..i])
    && (forall j :: 0 <= j < i && Sealed(before, SealedFields[j]) ==> rot.Rotatable(before[SealedFields[j]].text, false))
    && (changed <==> exists j :: 0 <= j < i && FieldStale(rot, before, SealedFields[j]))
  }

  lemma FieldDone(rot: Rotor, before: Document, doc: Document, i: nat, changed: bool, after: Document)
    requires i < |SealedFields| && FieldsDone(rot, before, doc, i, changed)
    requires Sealed(before, SealedFields[i]) ==> rot.Rotatable(before[SealedFields[i]].text, false)
    requires if FieldStale(rot, before, SealedFields[i])
             then exists next :: rot.Replaces(before[SealedFields[i]].text, false, next) && after == doc[SealedFields[i] := Str(next)]
             else after == doc
    ensures FieldsDone(rot, before, after, i + 1, changed || FieldStale(rot, before, SealedFields[i]))
  {
    var field := SealedFields[i];
    assert SealedFields[..i + 1] == SealedFields[..i] + [field];
    if FieldStale(rot, before, field) {
      var next :| rot.Replaces(before[field].text, false, next) && after == doc[field := Str(next)];
      ResealField(rot, before, doc, SealedFields[..i], field, next);
    } else {
      PassField(rot, before, doc, SealedFields[..i], field);
    }
  }

  /** `rotateProviderConfigJSON`. */
  method RotateProviderConfig(rot: Rotor, codec: JsonCodec, raw: string, nonces: seq<Nonce>)
    returns (r: Result<(string, bool), RotateError>)
    requires |nonces| == 2
    ensures r.Ok? <==> codec.Decode(raw).Some? && DocRotatable(rot, codec.Decode(raw).value)
    ensures r.Ok? ==> r.value.1 == DocStale(rot, codec.Decode(raw).value)
    ensures r.Ok? ==> ConfigRotated(rot, codec, raw, r.value.0)
  {
    var parsed := codec.Decode(raw);
    if parsed.None? {
      return Err(NotJson);
    }
    var doc := parsed.value;
    ghost var before := doc;
    var changed := false;
    for i := 0 to |SealedFields|
      invariant FieldsDone(rot, before, doc, i, changed)
    {
      FieldUntouched(rot, before, doc, i);
      var next := RotateField(rot, doc, SealedFields[i], nonces[i]);
      if next.Err? {
        return Err(next.error);
      }
      FieldDone(rot, before, doc, i, changed, next.value.0);
      doc, changed := next.value.0, changed || next.value.1;
    }
    assert SealedFields[..|SealedFields|] == SealedFields;
    r := if changed then Ok((codec.Encode(doc), true)) else Ok((raw, false));
  }

  /** A document as its readers see it: sealed fields opened, the rest as is. */
  function OpenDocument(read: string -> Result<string, CipherError>, doc: Document): map<string, Result<Json, CipherError>> {
    map k | k in doc ::
      if k in SealedFields && Sealed(doc, k) then
        (match read(doc[k].text) case Ok(t) => Ok(Str(t)) case Err(e) => Err(e))
      else Ok(doc[k])
  }

  lemma DocMember(rot: Rotor, doc: Document, next: Document, k: string)
    requires DocReplaces(rot, doc, next, SealedFields) && k in doc
    ensures Sealed(next, k) <==> Sealed(doc, k)
    ensures k in SealedFields && Sealed(doc, k) ==>
              rot.Current(next[k].text) && rot.ReadAlone(next[k].text) == rot.Read(doc[k].text)
    ensures !(k in SealedFields && Sealed(doc, k)) ==> next[k] == doc[k]
  {
    if k in SealedFields && Sealed(doc, k) {
      var val := doc[k].text;
      if rot.Stale(val) {
        var nonce :| rot.RotateCiphertext(val, false, nonce) == Ok((next[k].text, true));
        RotationKeepsMeaning(rot, val, false, nonce);
      } else {
        CurrentReadsAlike(rot, val);
      }
    }
  }

  /** Re-sealing a document preserves every member its readers see, leaves no
      stale field, and so is not repeated. */
  lemma DocKeepsMeaning(rot: Rotor, doc: Document, next: Document)
    requires DocReplaces(rot, doc, next, SealedFields)
    ensures OpenDocument(rot.ReadAlone, next) == OpenDocument(rot.Read, doc)
    ensures !DocStale(rot, next) && DocRotatable(rot, next)
  {
    forall k | k in doc
      ensures OpenDocument(rot.ReadAlone, next)[k] == OpenDocument(rot.Read, doc)[k]
      ensures k in SealedFields && Sealed(next, k) ==> rot.Current(next[k].text)
    {
      DocMember(rot, doc, next, k);
    }
  }

  // ------------------------------------------------- Against the stored document

  /** Re-sealed or not, a decoded document holds float64 values only. */
  lemma ReplacedFits(rot: Rotor, sc: Scale, doc: Document, next: Document)
    requires DocReplaces(rot, doc, next, SealedFields) && AllInDoc(doc, sc.Fits)
    ensures AllInDoc(next, sc.Fits)
  {
    forall k | k in next
      ensures AllNumbers(next[k], sc.Fits)
    {
      assert MemberReplaces(rot, doc, k, next[k], k in SealedFields);
    }
  }

  /** Decoding leaves texts alone, so the same fields are stale. */
  lemma StaleAsStored(rot: Rotor, sc: Scale, stored: Document, k: string)
    ensures FieldStale(rot, MapDoc(stored, sc.Decoded), k) <==> FieldStale(rot, stored, k)
  {
  }

  /** The members the rotation has to rewrite. */
  predicate Due(rot: Rotor, doc: Document, k: string) {
    k in SealedFields && FieldStale(rot, doc, k)
  }

  /** A member that was not due, after a re-encoding: its numbers have been through
      a float64, and nothing else has happened to it. */
  lemma RewrittenMember(rot: Rotor, sc: Scale, stored: Document, d: Document, k: string)
    requires DocReplaces(rot, MapDoc(stored, sc.Decoded), d, SealedFields) && k in stored && !Due(rot, stored, k)
    ensures k in d && MapDoc(d, sc.Encoded)[k] == MapNumbers(stored[k], sc.Reread)
  {
    var doc := MapDoc(stored, sc.Decoded);
    StaleAsStored(rot, sc, stored, k);
    assert MemberReplaces(rot, doc, k, d[k], k in SealedFields);
    MemberReread(sc, stored[k]);
  }

  /** Every member of the stored document that was not due is unchanged. */
  predicate OthersUnchanged(rot: Rotor, stored: Document, after: Document) {
    && after.Keys == stored.Keys
    && forall k :: k in stored && !Due(rot, stored, k) ==> after[k] == stored[k]
  }

  /** A rotation leaves every member of the stored document that was not due
      unchanged if and only if nothing in it was stale or each of its numbers
      survives a float64. */
  lemma StoredMembersKeptExactly(rot: Rotor, codec: JsonCodec, raw: string, next: string)
    requires Faithful(codec) && ConfigRotated(rot, codec, raw, next)
    ensures codec.parse(raw).Some? && codec.parse(next).Some?
    ensures OthersUnchanged(rot, codec.parse(raw).value, codec.parse(next).value)
       <==> !DocStale(rot, codec.parse(raw).value) || AllInDoc(codec.parse(raw).value, codec.scale.Survives)
  {
    var stored, sc := codec.parse(raw).value, codec.scale;
    var doc := MapDoc(stored, sc.Decoded);
    StaleInDoc(rot, sc, stored);
    if DocStale(rot, doc) {
      var d :| DocReplaces(rot, doc, d, SealedFields) && next == codec.Encode(d);
      ReencodedExactly(rot, sc, stored, d);
    }
  }

  lemma StaleInDoc(rot: Rotor, sc: Scale, stored: Document)
    ensures DocStale(rot, MapDoc(stored, sc.Decoded)) <==> DocStale(rot, stored)
  {
    forall k
      ensures FieldStale(rot, MapDoc(stored, sc.Decoded), k) <==> FieldStale(rot, stored, k)
    {
      StaleAsStored(rot, sc, stored, k);
    }
  }

  lemma ReencodedExactly(rot: Rotor, sc: Scale, stored: Document, d: Document)
    requires DocReplaces(rot, MapDoc(stored, sc.Decoded), d, SealedFields)
    ensures OthersUnchanged(rot, stored, MapDoc(d, sc.Encoded)) <==> AllInDoc(stored, sc.Survives)
  {
    var after := MapDoc(d, sc.Encoded);
    assert after.Keys == stored.Keys;
    forall k | k in stored
      ensures AllNumbers(stored[k], sc.Survives) <==> (Due(rot, stored, k) || after[k] == stored[k])
    {
      if !Due(rot, stored, k) {
        RewrittenMember(rot, sc, stored, d, k);
        MemberReread(sc, stored[k]);
      }
    }
  }

  lemma LimitIsNoSealedField()
    ensures "limit" !in SealedFields
  {
    assert |"limit"| == 5 && |SealedFields[0]| == 23 && |SealedFields[1]| == 23;
  }

  /** A number in a stale document comes back through a float64. */
  lemma NumberRereads(rot: Rotor, codec: JsonCodec, raw: string, next: string, k: string)
    requires Faithful(codec) && ConfigRotated(rot, codec, raw, next) && k !in SealedFields
    requires codec.parse(raw).Some? && DocStale(rot, codec.parse(raw).value)
    requires k in codec.parse(raw).value && codec.parse(raw).value[k].Num?
    ensures codec.parse(next).Some? && k in codec.parse(next).value
    ensures codec.parse(next).value[k] == Num(codec.scale.Reread(codec.parse(raw).value[k].n))
  {
    var stored, sc := codec.parse(raw).value, codec.scale;
    StaleInDoc(rot, sc, stored);
    var d :| DocReplaces(rot, MapDoc(stored, sc.Decoded), d, SealedFields) && next == codec.Encode(d);
    RewrittenMember(rot, sc, stored, d, k);
  }

  /** It does fail: beside a stale secret, 2^53 + 1 comes back as 2^53. */
  lemma LargeNumberChanges(rot: Rotor, codec: JsonCodec, raw: string, next: string, secret: string)
    requires Faithful(codec) && rot.Stale(secret)
    requires codec.parse(raw) == Some(map[SealedFields[0] := Str(secret), "limit" := Num(9007199254740993 * One(codec.scale))])
    requires ConfigRotated(rot, codec, raw, next)
    ensures codec.parse(next).Some? && "limit" in codec.parse(next).value
    ensures codec.parse(next).value["limit"] == Num(9007199254740992 * One(codec.scale))
  {
    LimitIsNoSealedField();
    assert FieldStale(rot, codec.parse(raw).value, SealedFields[0]);
    NumberRereads(rot, codec, raw, next, "limit");
    FirstLossComesBackAs(codec.scale);
  }
}
