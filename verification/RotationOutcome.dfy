/** What exit code 0 means for the rows of the database, in terms of the two
    environment variables and of what was sealed under their keys. */
module RotationOutcome {
  import opened Wrappers
  import opened Encoding
  import opened Primitives
  import opened AtRestCipher
  import opened CipherFormats
  import opened JsonDocument
  import opened Rotation
  import opened RotationTool
  import opened RotationProofs

  // -------------------------------------------------------- The five families

  /** Only signing keys may be stored as plaintext PEM, only provider rows hold a
      document, and a provider document seals these two fields. */
  lemma FamilyFlags(f: nat)
    requires f < |SealedFamilies|
    ensures SealedFamilies[f].pemOK <==> SealedFamilies[f].table == "signing_keys"
    ensures SealedFamilies[f].json <==> SealedFamilies[f].table == "identity_providers"
  {
    assert |"signing_keys"| == 12 && |"users"| == 5 && |"mfa_pending_login_sessions"| == 26
        && |"oidc_states"| == 11 && |"identity_providers"| == 18;
  }

  lemma SealedFieldNames(field: string)
    ensures field in SealedFields <==> field == "client_secret_encrypted" || field == "bind_password_encrypted"
  {
  }

  /** Both are re-sealed where they are due, to the same text. */
  lemma BothFieldsResealed(rot: Rotor, doc: Document, next: Document, field: string)
    requires DocReplaces(rot, doc, next, SealedFields)
    requires field == "client_secret_encrypted" || field == "bind_password_encrypted"
    requires field in doc && doc[field].Str? && doc[field].text != ""
    ensures field in next && next[field].Str? && "v2:" + rot.NewId() + ":" <= next[field].text
    ensures rot.ReadAlone(next[field].text) == rot.Read(doc[field].text)
  {
    SealedFieldNames(field);
    DocMember(rot, doc, next, field);
  }

  // ---------------------------------------------------- What can be rotated

  /** The two-key service reads what either key alone sealed, in every format. */
  lemma TwoKeysRead(rot: Rotor, key: Bytes, nonce: Nonce, plain: string)
    requires (key == rot.oldKey || key == rot.newKey) && rot.NewId() != rot.OldId()
    ensures rot.Read(SealV2(rot.prims, key, nonce, plain)) == Ok(plain)
  {
    DecryptSealed(rot.prims, rot.Both(), key, nonce, plain, [rot.OldId()]);
    OpenSealed(rot.prims, key, nonce, plain);
  }

  lemma TwoKeysReadLegacy(rot: Rotor, key: Bytes, nonce: Nonce, plain: string, v1: bool, std: bool)
    requires key == rot.oldKey || key == rot.newKey
    requires OpensOnlyTo(rot.prims, rot.Both(), nonce + rot.prims.seal(key, nonce, plain), plain)
    ensures rot.Read(Legacy(v1, std, nonce + rot.prims.seal(key, nonce, plain))) == Ok(plain)
  {
    assert rot.Both().previous[rot.OldId()].material == rot.oldKey;
    LegacyReads(rot.prims, rot.Both(), [rot.OldId()], key, nonce, plain, v1, std);
  }

  /** So every value sealed under the old key is rotated, in every format. */
  lemma OldSealRotates(rot: Rotor, nonce: Nonce, plain: string, pemOK: bool, again: Nonce)
    requires rot.NewId() != rot.OldId()
    ensures var v := SealV2(rot.prims, rot.oldKey, nonce, plain);
            var r := rot.RotateCiphertext(v, pemOK, again);
            r.Ok? && r.value.1 && rot.ReadAlone(r.value.0) == Ok(plain)
  {
    var v := SealV2(rot.prims, rot.oldKey, nonce, plain);
    TwoKeysRead(rot, rot.oldKey, nonce, plain);
    NamesItsKey(rot, nonce, plain);
    RotationKeepsMeaning(rot, v, pemOK, again);
    assert v[0] == 'v' && PemHeader[0] == '-';
    SealedIsCurrent(rot, again, plain);
  }

  lemma NamesItsKey(rot: Rotor, nonce: Nonce, plain: string)
    requires rot.NewId() != rot.OldId()
    ensures rot.Stale(SealV2(rot.prims, rot.oldKey, nonce, plain))
  {
    SealNames(rot.prims, rot.oldKey, nonce, plain);
    CurrentNames(rot, SealV2(rot.prims, rot.oldKey, nonce, plain));
  }

  lemma SealNames(p: Crypto, key: Bytes, nonce: Nonce, plain: string)
    ensures var v := SealV2(p, key, nonce, plain); |v| >= 20 && v[0] == 'v' && v[3..19] == KeyId(p, key)
  {
    var head := "v2:" + KeyId(p, key) + ":";
    assert head <= SealV2(p, key, nonce, plain) && head[3..19] == KeyId(p, key) && head[0] == 'v';
  }

  lemma CurrentNames(rot: Rotor, v: string)
    ensures rot.Current(v) ==> |v| >= 20 && v[3..19] == rot.NewId()
  {
    var head := "v2:" + rot.NewId() + ":";
    assert head[3..19] == rot.NewId();
    if head <= v {
      assert v[3..19] == head[3..19];
    }
  }

  /** A value naming a key that is neither of the two stops the run. */
  lemma ForeignSealStops(rot: Rotor, key: Bytes, nonce: Nonce, plain: string, pemOK: bool)
    requires KeyId(rot.prims, key) != rot.NewId() && KeyId(rot.prims, key) != rot.OldId()
    ensures !rot.Rotatable(SealV2(rot.prims, key, nonce, plain), pemOK)
  {
    SealNames(rot.prims, key, nonce, plain);
    CurrentNames(rot, SealV2(rot.prims, key, nonce, plain));
    assert PemHeader[0] == '-';
    DecryptSealed(rot.prims, rot.Both(), key, nonce, plain, [rot.OldId()]);
  }

  /** A plaintext PEM is rotated where it is allowed, to itself, and stops the run
      everywhere else. */
  lemma PemRotatesExactly(rot: Rotor, rest: string, pemOK: bool, again: Nonce)
    ensures var v := "-----BEGIN " + rest;
            && (rot.Rotatable(v, pemOK) <==> pemOK)
            && (pemOK ==> rot.ReadAlone(rot.RotateCiphertext(v, pemOK, again).value.0) == Ok(v))
  {
    var v := "-----BEGIN " + rest;
    assert v[..10] == PemHeader && v[10] == ' ' && v[0] == '-';
    PemIsNoBase64(RawURLEncoding, v);
    PemIsNoBase64(StdEncoding, v);
    SealedIsCurrent(rot, again, v);
  }

  lemma PemIsNoBase64(enc: Base64, v: string)
    requires |v| > 10 && v[10] == ' '
    ensures Decode(enc, v).None?
  {
    if Decode(enc, v).Some? {
      DecodableChars(enc, v);
    }
  }

  // ------------------------------------------------------------ Exit code 0

  /** What the command promises when it exits with 0. */
  ghost predicate Exited(prims: Crypto, newEnv: string, oldEnv: string, newKey: Bytes, oldKey: Bytes, job: Job,
                         before: Store, after: Store, schema: seq<Column>, faults: Faults)
    requires |before| == |SealedFamilies|
  {
    && job.rot.prims == prims && job.rot.NewId() != job.rot.OldId()
    && HoldsKey(prims, newEnv, job.rot.newKey) && HoldsKey(prims, oldEnv, job.rot.oldKey)
    && HoldsKey(prims, newEnv, newKey) && HoldsKey(prims, oldEnv, oldKey)
    && Unobstructed(job, before, schema, faults) && StoreRotated(job, before, after)
  }

  /** Every text value afterwards: the key of the new variable opens it to what the
      two keys together read before (a plaintext PEM to itself), and the key of the
      old variable does not open it at all. */
  lemma TextRowAfterExit(prims: Crypto, newEnv: string, oldEnv: string, newKey: Bytes, oldKey: Bytes, job: Job,
                         before: Store, after: Store, schema: seq<Column>, faults: Faults, f: nat, k: string)
    requires |before| == |SealedFamilies| && Faithful(job.codec)
    requires Exited(prims, newEnv, oldEnv, newKey, oldKey, job, before, after, schema, faults)
    requires f < |before| && SealedFamilies[f].table != "identity_providers"
    requires k in before[f] && before[f][k].Some? && before[f][k].value != ""
    ensures k in after[f] && after[f][k].Some?
    ensures var v, w := before[f][k].value, after[f][k].value;
            && DecryptIn(prims, Alone(prims, newKey), w, [])
               == (if SealedFamilies[f].table == "signing_keys" && "-----BEGIN" <= v then Ok(v)
                   else DecryptIn(prims, Keyring(Entry(prims, newKey), map[KeyId(prims, oldKey) := Entry(prims, oldKey)]),
                                  v, [KeyId(prims, oldKey)]))
            && DecryptIn(prims, Alone(prims, oldKey), w, []).Err?
  {
    FamilyFlags(f);
    RotationRetiresOldKey(job, before, after, faults, f, k);
    RetiredKeyOpensNoFamilyValue(job, before, after, faults, f, k);
    NotPem(job.rot, after[f][k].value);
  }

  lemma NotPem(rot: Rotor, v: string)
    requires rot.Current(v)
    ensures !(PemHeader <= v)
  {
    assert v[0] == ("v2:" + rot.NewId() + ":")[0] == 'v' && PemHeader[0] == '-';
  }

  /** So a secret sealed under the old variable's key, in the current format, opens
      under the new one's to the same text and no longer under the old one's. */
  lemma SealedRowAfterExit(prims: Crypto, newEnv: string, oldEnv: string, newKey: Bytes, oldKey: Bytes, job: Job,
                           before: Store, after: Store, schema: seq<Column>, faults: Faults, f: nat, k: string,
                           nonce: Nonce, plain: string)
    requires |before| == |SealedFamilies| && Faithful(job.codec)
    requires Exited(prims, newEnv, oldEnv, newKey, oldKey, job, before, after, schema, faults)
    requires f < |before| && SealedFamilies[f].table != "identity_providers"
    requires k in before[f] && before[f][k] == Some(SealV2(prims, oldKey, nonce, plain))
    ensures k in after[f] && after[f][k].Some?
    ensures DecryptIn(prims, Alone(prims, newKey), after[f][k].value, []) == Ok(plain)
    ensures DecryptIn(prims, Alone(prims, oldKey), after[f][k].value, []).Err?
  {
    var v := SealV2(prims, oldKey, nonce, plain);
    assert v[0] == 'v' && "-----BEGIN"[0] == '-';
    TextRowAfterExit(prims, newEnv, oldEnv, newKey, oldKey, job, before, after, schema, faults, f, k);
    TwoKeysRead(job.rot, oldKey, nonce, plain);
  }
}
