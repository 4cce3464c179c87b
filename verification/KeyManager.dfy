/** The signing-key manager: primary selection, atomic reload, and signatures
    that outlive rotations. */
module KeyManager {
  import opened Wrappers
  import opened Encoding

  datatype Algorithm = EdDSA | ES256 | RS256 | Unsupported(name: string)

  datatype KeyState = Active | Rotating | Deprecated

  /** A row of `signing_keys`. */
  datatype SigningKey = SigningKey(kid: string, alg: Algorithm, state: KeyState, privatePem: string, publicPem: string)

  /** PEM parsing and the signature schemes. Signing consumes randomness. */
  datatype Scheme = Scheme(
    parsePrivate: (Algorithm, string) -> Option<Bytes>,
    parseRsaPublic: string -> Option<Bytes>,
    publicOf: (Algorithm, Bytes) -> Bytes,
    sign: (Algorithm, Bytes, Bytes, Bytes) -> Bytes,
    verify: (Algorithm, Bytes, Bytes, Bytes) -> bool)

  predicate Signs(alg: Algorithm) {
    alg.EdDSA? || alg.ES256?
  }

  /** A signature verifies under the public half of the key that made it. */
  ghost predicate Lawful(s: Scheme) {
    forall alg, priv, payload, rnd :: Signs(alg) ==>
      s.verify(alg, s.publicOf(alg, priv), payload, s.sign(alg, priv, payload, rnd))
  }

  type Signing = s: Scheme | Lawful(s) ghost witness
    Scheme((a, p) => None, p => None, (a, k) => k, (a, k, m, r) => m, (a, k, m, g) => g == m)

  datatype ParsedKey = ParsedKey(kid: string, alg: Algorithm, private: Option<Bytes>, public: Bytes, state: KeyState)

  datatype KeyError = NoActiveKey | NoPrivateKey | UnknownKid | UnsupportedAlgorithm | BadSignature

  /** `parseKey`: an RS256 row gives its public half only. */
  function ParseKey(s: Signing, row: SigningKey): Option<ParsedKey> {
    if row.alg.RS256? then
      match s.parseRsaPublic(row.publicPem)
      case None => None
      case Some(pub) => Some(ParsedKey(row.kid, row.alg, None, pub, row.state))
    else if !Signs(row.alg) then None
    else
      match s.parsePrivate(row.alg, row.privatePem)
      case None => None
      case Some(priv) => Some(ParsedKey(row.kid, row.alg, Some(priv), s.publicOf(row.alg, priv), row.state))
  }

  /** Which rows parse, and to what: signing keys need their private half and carry
      its public half; RS256 needs the public half only; nothing else parses. */
  lemma ParsedKeyMeans(s: Signing, row: SigningKey)
    ensures row.alg == EdDSA || row.alg == ES256 ==>
              match s.parsePrivate(row.alg, row.privatePem)
              case None => ParseKey(s, row).None?
              case Some(priv) => ParseKey(s, row) == Some(ParsedKey(row.kid, row.alg, Some(priv), s.publicOf(row.alg, priv), row.state))
    ensures row.alg == RS256 ==>
              match s.parseRsaPublic(row.publicPem)
              case None => ParseKey(s, row).None?
              case Some(pub) => ParseKey(s, row) == Some(ParsedKey(row.kid, RS256, None, pub, row.state))
    ensures row.alg !in [EdDSA, ES256, RS256] ==> ParseKey(s, row).None?
  {
  }

  // --------------------------------------------------------------- Loading

  datatype Loaded = Loaded(keys: map<string, ParsedKey>, primary: ParsedKey)

  function KeysOf(s: Signing, rows: seq<SigningKey>): map<string, ParsedKey> {
    if rows == [] then map[]
    else
      var n := |rows| - 1;
      var parsed := ParseKey(s, rows[n]);
      if parsed.None? then KeysOf(s, rows[..n]) else KeysOf(s, rows[..n])[rows[n].kid := parsed.value]
  }

  /** A row that may become the primary of its algorithm. */
  predicate Eligible(s: Signing, row: SigningKey, alg: Algorithm) {
    row.state.Active? && row.alg == alg && ParseKey(s, row).Some?
  }

  /** The last eligible row wins. */
  function LastActive(s: Signing, rows: seq<SigningKey>, alg: Algorithm): Option<ParsedKey> {
    if rows == [] then None
    else
      var n := |rows| - 1;
      if Eligible(s, rows[n], alg) then ParseKey(s, rows[n]) else LastActive(s, rows[..n], alg)
  }

  function Load(s: Signing, rows: seq<SigningKey>): Option<Loaded> {
    var ed, es := LastActive(s, rows, EdDSA), LastActive(s, rows, ES256);
    if ed.Some? then Some(Loaded(KeysOf(s, rows), ed.value))
    else if es.Some? then Some(Loaded(KeysOf(s, rows), es.value))
    else None
  }

  predicate DistinctKids(rows: seq<SigningKey>) {
    forall i, j :: 0 <= i < j < |rows| ==> rows[i].kid != rows[j].kid
  }

  lemma {:induction false} KeysOfExactly(s: Signing, rows: seq<SigningKey>)
    requires DistinctKids(rows)
    ensures forall i :: 0 <= i < |rows| && ParseKey(s, rows[i]).Some? ==>
              rows[i].kid in KeysOf(s, rows) && KeysOf(s, rows)[rows[i].kid] == ParseKey(s, rows[i]).value
    ensures forall kid :: kid in KeysOf(s, rows) ==>
              exists i :: 0 <= i < |rows| && rows[i].kid == kid && ParseKey(s, rows[i]) == Some(KeysOf(s, rows)[kid])
  {
    if rows != [] {
      var n := |rows| - 1;
      KeysOfExactly(s, rows[..n]);
      forall kid | kid in KeysOf(s, rows)
        ensures exists i :: 0 <= i < |rows| && rows[i].kid == kid && ParseKey(s, rows[i]) == Some(KeysOf(s, rows)[kid])
      {
        if ParseKey(s, rows[n]).Some? && kid == rows[n].kid {
        } else {
          var init := rows[..n];
          assert kid in KeysOf(s, init);
          var i :| 0 <= i < |init| && init[i].kid == kid && ParseKey(s, init[i]) == Some(KeysOf(s, init)[kid]);
          assert rows[i] == init[i];
        }
      }
      forall i | 0 <= i < |rows| && ParseKey(s, rows[i]).Some?
        ensures rows[i].kid in KeysOf(s, rows) && KeysOf(s, rows)[rows[i].kid] == ParseKey(s, rows[i]).value
      {
        if i < n {
          assert rows[..n][i] == rows[i];
        }
      }
    }
  }

  /** Row `i` is the last eligible one. */
  predicate LastEligible(s: Signing, rows: seq<SigningKey>, alg: Algorithm, i: nat) {
    i < |rows| && Eligible(s, rows[i], alg) && forall j :: i < j < |rows| ==> !Eligible(s, rows[j], alg)
  }

  lemma LastEligibleNext(s: Signing, rows: seq<SigningKey>, alg: Algorithm, i: nat)
    requires rows != [] && !Eligible(s, rows[|rows| - 1], alg) && LastEligible(s, rows[..|rows| - 1], alg, i)
    ensures LastEligible(s, rows, alg, i)
  {
    var front := rows[..|rows| - 1];
    assert forall j :: 0 <= j < |front| ==> front[j] == rows[j];
  }

  lemma {:induction false} LastActiveMeans(s: Signing, rows: seq<SigningKey>, alg: Algorithm)
    ensures LastActive(s, rows, alg).None? <==> forall i :: 0 <= i < |rows| ==> !Eligible(s, rows[i], alg)
    ensures LastActive(s, rows, alg).Some? ==>
              exists i: nat :: LastEligible(s, rows, alg, i) && ParseKey(s, rows[i]) == LastActive(s, rows, alg)
  {
    if rows != [] {
      var n := |rows| - 1;
      if Eligible(s, rows[n], alg) {
        assert LastEligible(s, rows, alg, n);
      } else {
        var front := rows[..n];
        assert forall i :: 0 <= i < n ==> front[i] == rows[i];
        LastActiveMeans(s, front, alg);
        if LastActive(s, front, alg).Some? {
          var i: nat :| LastEligible(s, front, alg, i) && ParseKey(s, front[i]) == LastActive(s, front, alg);
          LastEligibleNext(s, rows, alg, i);
        }
      }
    }
  }

  /** A primary that can sign and whose signatures its own kid verifies. */
  predicate Sound(s: Signing, m: Loaded) {
    && m.primary.state.Active? && Signs(m.primary.alg)
    && m.primary.private.Some? && m.primary.public == s.publicOf(m.primary.alg, m.primary.private.value)
    && m.primary.kid in m.keys && m.keys[m.primary.kid] == m.primary
  }

  /** Loading succeeds exactly when some active row can sign; the primary is such
      a row, an EdDSA one whenever there is one, filed under its own kid. */
  lemma LoadMeans(s: Signing, rows: seq<SigningKey>)
    requires DistinctKids(rows)
    ensures Load(s, rows).Some? <==> exists i :: 0 <= i < |rows| && (Eligible(s, rows[i], EdDSA) || Eligible(s, rows[i], ES256))
    ensures Load(s, rows).Some? ==>
              && Sound(s, Load(s, rows).value)
              && (Load(s, rows).value.primary.alg.EdDSA? <==> exists i :: 0 <= i < |rows| && Eligible(s, rows[i], EdDSA))
  {
    KeysOfExactly(s, rows);
    LastActiveMeans(s, rows, EdDSA);
    LastActiveMeans(s, rows, ES256);
    if Load(s, rows).Some? {
      var alg := if LastActive(s, rows, EdDSA).Some? then EdDSA else ES256;
      var i: nat :| LastEligible(s, rows, alg, i) && ParseKey(s, rows[i]) == LastActive(s, rows, alg);
      assert Load(s, rows).value.primary == ParseKey(s, rows[i]).value;
    }
  }

  // --------------------------------------------------- Signing and verifying

  function Sign(s: Signing, m: Loaded, payload: Bytes, rnd: Bytes): Result<(Bytes, string), KeyError> {
    if !Signs(m.primary.alg) then Err(UnsupportedAlgorithm)
    else if m.primary.private.None? then Err(NoPrivateKey)
    else Ok((s.sign(m.primary.alg, m.primary.private.value, payload, rnd), m.primary.kid))
  }

  function Verify(s: Signing, keys: map<string, ParsedKey>, payload: Bytes, signature: Bytes, kid: string): Result<(), KeyError> {
    if kid !in keys then Err(UnknownKid)
    else if !Signs(keys[kid].alg) then Err(UnsupportedAlgorithm)
    else if !s.verify(keys[kid].alg, keys[kid].public, payload, signature) then Err(BadSignature)
    else Ok(())
  }

  /** `signature` was made over `payload` by the private half of `key`. */
  predicate SignedBy(s: Signing, key: ParsedKey, payload: Bytes, signature: Bytes, priv: Bytes, rnd: Bytes) {
    key.public == s.publicOf(key.alg, priv) && signature == s.sign(key.alg, priv, payload, rnd)
  }

  // ------------------------------------------------------------ Whole runs

  datatype Event = Reload(rows: seq<SigningKey>) | SignBytes(payload: Bytes, rnd: Bytes)

  /** A signature handed out, and the key that made it. */
  datatype Issued = Issued(payload: Bytes, signature: Bytes, kid: string, key: ParsedKey)

  datatype History = History(m: Loaded, issued: seq<Issued>)

  function Step(s: Signing, h: History, e: Event): History {
    match e
    case Reload(rows) =>
      var loaded := Load(s, rows);
      if loaded.None? then h else h.(m := loaded.value)
    case SignBytes(payload, rnd) =>
      match Sign(s, h.m, payload, rnd)
      case Err(_) => h
      case Ok((signature, kid)) => h.(issued := h.issued + [Issued(payload, signature, kid, h.m.primary)])
  }

  function Run(s: Signing, h: History, es: seq<Event>): History {
    if es == [] then h else Step(s, Run(s, h, es[..|es| - 1]), es[|es| - 1])
  }

  /** The list still carries the key, in whatever state: same kid, algorithm and
      public half. */
  predicate Keeps(s: Signing, rows: seq<SigningKey>, key: ParsedKey) {
    exists i :: 0 <= i < |rows| && rows[i].kid == key.kid && ParseKey(s, rows[i]).Some?
                && ParseKey(s, rows[i]).value.alg == key.alg && ParseKey(s, rows[i]).value.public == key.public
  }

  predicate KidsDistinct(es: seq<Event>) {
    forall i :: 0 <= i < |es| && es[i].Reload? ==> DistinctKids(es[i].rows)
  }

  /** The event replaces the loaded keys. */
  predicate Loads(s: Signing, e: Event) {
    e.Reload? && Load(s, e.rows).Some?
  }

  predicate Verifies(s: Signing, m: Loaded, sig: Issued) {
    && sig.kid in m.keys && m.keys[sig.kid].alg == sig.key.alg && m.keys[sig.kid].public == sig.key.public
    && Verify(s, m.keys, sig.payload, sig.signature, sig.kid).Ok?
  }

  /** Over every run of reloads, failed ones included, and signings: the primary
      stays sound. */
  lemma {:induction false} PrimaryStaysSound(s: Signing, h: History, es: seq<Event>)
    requires Sound(s, h.m) && KidsDistinct(es)
    ensures Sound(s, Run(s, h, es).m)
  {
    if es != [] {
      var n := |es| - 1;
      PrimaryStaysSound(s, h, es[..n]);
      if es[n].Reload? {
        LoadMeans(s, es[n].rows);
      }
    }
  }

  /** The key named in the record made the signature. */
  predicate Genuine(s: Signing, sig: Issued) {
    && sig.key.kid == sig.kid && Signs(sig.key.alg)
    && s.verify(sig.key.alg, sig.key.public, sig.payload, sig.signature)
  }

  /** Records are only ever added. */
  lemma {:induction false} IssuedStays(s: Signing, h: History, es: seq<Event>, n: nat, k: nat)
    requires n <= |es| && k < |Run(s, h, es[..n]).issued|
    ensures k < |Run(s, h, es).issued| && Run(s, h, es).issued[k] == Run(s, h, es[..n]).issued[k]
    decreases |es|
  {
    if n == |es| {
      assert es[..n] == es;
    } else {
      var front := es[..|es| - 1];
      assert front[..n] == es[..n];
      IssuedStays(s, h, front, n, k);
    }
  }

  lemma {:induction false} IssuedIsGenuine(s: Signing, h: History, es: seq<Event>, k: nat)
    requires Sound(s, h.m) && h.issued == [] && KidsDistinct(es) && k < |Run(s, h, es).issued|
    ensures Genuine(s, Run(s, h, es).issued[k])
  {
    var n := |es| - 1;
    PrimaryStaysSound(s, h, es[..n]);
    if k < |Run(s, h, es[..n]).issued| {
      IssuedIsGenuine(s, h, es[..n], k);
    }
  }

  /** A freshly loaded list accepts a signature exactly when it carries its key. */
  lemma LoadedExactly(s: Signing, rows: seq<SigningKey>, sig: Issued)
    requires DistinctKids(rows) && Load(s, rows).Some? && Genuine(s, sig)
    ensures Verifies(s, Load(s, rows).value, sig) <==> Keeps(s, rows, sig.key)
  {
    KeysOfExactly(s, rows);
  }

  /** Of the lists loaded after signature `k` was issued, the last one keeps its
      key; nothing is asked if there was none. */
  predicate LastLoadKeeps(s: Signing, h: History, es: seq<Event>, k: nat)
    requires k < |Run(s, h, es).issued|
  {
    forall i :: 0 <= i < |es| && Loads(s, es[i]) && k < |Run(s, h, es[..i]).issued| && NoLoadAfter(s, es, i)
      ==> Keeps(s, es[i].rows, Run(s, h, es).issued[k].key)
  }

  predicate NoLoadAfter(s: Signing, es: seq<Event>, i: nat) {
    forall j :: i < j < |es| ==> !Loads(s, es[j])
  }

  lemma LoadLast(s: Signing, h: History, es: seq<Event>, k: nat)
    requires es != [] && Loads(s, es[|es| - 1]) && k < |Run(s, h, es).issued|
    ensures LastLoadKeeps(s, h, es, k) <==> Keeps(s, es[|es| - 1].rows, Run(s, h, es).issued[k].key)
  {
    var n := |es| - 1;
    assert NoLoadAfter(s, es, n);
    assert forall i :: 0 <= i < n ==> !NoLoadAfter(s, es, i);
  }

  lemma LoadEarlier(s: Signing, h: History, es: seq<Event>, k: nat)
    requires es != [] && !Loads(s, es[|es| - 1]) && k < |Run(s, h, es[..|es| - 1]).issued|
    ensures k < |Run(s, h, es).issued|
    ensures LastLoadKeeps(s, h, es, k) <==> LastLoadKeeps(s, h, es[..|es| - 1], k)
  {
    var n := |es| - 1;
    var front := es[..n];
    IssuedStays(s, h, es, n, k);
    forall i | 0 <= i < n
      ensures front[i] == es[i] && front[..i] == es[..i]
      ensures NoLoadAfter(s, es, i) <==> NoLoadAfter(s, front, i)
    {
      EarlierIndex(s, es, i);
    }
  }

  lemma EarlierIndex(s: Signing, es: seq<Event>, i: nat)
    requires i < |es| - 1 && !Loads(s, es[|es| - 1])
    ensures var front := es[..|es| - 1];
            front[i] == es[i] && front[..i] == es[..i] && (NoLoadAfter(s, es, i) <==> NoLoadAfter(s, front, i))
  {
    var front := es[..|es| - 1];
    assert forall j :: i < j < |front| ==> front[j] == es[j];
  }

  /** Over every run of reloads, failed ones included, and signings: a signature
      verifies at the end if and only if the last list loaded since it was issued
      keeps its key, whatever became of other keys. */
  lemma {:induction false} SignatureVerifiesExactly(s: Signing, h: History, es: seq<Event>, k: nat)
    requires Sound(s, h.m) && h.issued == [] && KidsDistinct(es) && k < |Run(s, h, es).issued|
    ensures Verifies(s, Run(s, h, es).m, Run(s, h, es).issued[k]) <==> LastLoadKeeps(s, h, es, k)
  {
    var n := |es| - 1;
    var before, after := Run(s, h, es[..n]), Run(s, h, es);
    IssuedIsGenuine(s, h, es, k);
    if Loads(s, es[n]) {
      LoadedExactly(s, es[n].rows, after.issued[k]);
      LoadLast(s, h, es, k);
    } else if k < |before.issued| {
      SignatureVerifiesExactly(s, h, es[..n], k);
      IssuedStays(s, h, es, n, k);
      LoadEarlier(s, h, es, k);
    } else {
      PrimaryStaysSound(s, h, es[..n]);
      NothingSince(s, h, es, k);
    }
  }

  /** A signature issued by the last event has seen no load. */
  lemma NothingSince(s: Signing, h: History, es: seq<Event>, k: nat)
    requires es != [] && |Run(s, h, es[..|es| - 1]).issued| <= k < |Run(s, h, es).issued|
    ensures LastLoadKeeps(s, h, es, k)
  {
    var n := |es| - 1;
    forall i | 0 <= i < |es|
      ensures k >= |Run(s, h, es[..i]).issued|
    {
      if k < |Run(s, h, es[..i]).issued| {
        assert es[..n][..i] == es[..i];
        IssuedStays(s, h, es[..n], i, k);
      }
    }
  }

  /** In particular it verifies while every list loaded since keeps its own key. */
  lemma SignaturesOutliveReloads(s: Signing, h: History, es: seq<Event>, k: nat)
    requires Sound(s, h.m) && h.issued == [] && KidsDistinct(es) && k < |Run(s, h, es).issued|
    requires forall i :: 0 <= i < |es| && Loads(s, es[i]) && k < |Run(s, h, es[..i]).issued|
               ==> Keeps(s, es[i].rows, Run(s, h, es[..i]).issued[k].key)
    ensures Run(s, h, es).issued[k].key.kid == Run(s, h, es).issued[k].kid
    ensures Verifies(s, Run(s, h, es).m, Run(s, h, es).issued[k])
  {
    IssuedIsGenuine(s, h, es, k);
    forall i | 0 <= i < |es| && k < |Run(s, h, es[..i]).issued|
      ensures Run(s, h, es[..i]).issued[k] == Run(s, h, es).issued[k]
    {
      IssuedStays(s, h, es, i, k);
    }
    SignatureVerifiesExactly(s, h, es, k);
  }

  // -------------------------------------------------------------- The manager

  class Manager {
    const scheme: Signing
    var keys: map<string, ParsedKey>
    var primaryKey: ParsedKey

    function View(): Loaded
      reads this
    {
      Loaded(keys, primaryKey)
    }

    constructor (scheme: Signing, keys: map<string, ParsedKey>, primaryKey: ParsedKey)
      ensures this.scheme == scheme && View() == Loaded(keys, primaryKey)
    {
      this.scheme, this.keys, this.primaryKey := scheme, keys, primaryKey;
    }

    /** `NewKeyManager`. */
    static method New(scheme: Signing, rows: seq<SigningKey>) returns (r: Result<Manager, KeyError>)
      ensures r.Ok? <==> Load(scheme, rows).Some?
      ensures r.Ok? ==> fresh(r.value) && r.value.scheme == scheme && r.value.View() == Load(scheme, rows).value
    {
      var keys: map<string, ParsedKey> := map[];
      var activeEdDSA: Option<ParsedKey>, activeES256: Option<ParsedKey> := None, None;
      for i := 0 to |rows|
        invariant keys == KeysOf(scheme, rows[..i])
        invariant activeEdDSA == LastActive(scheme, rows[..i], EdDSA)
        invariant activeES256 == LastActive(scheme, rows[..i], ES256)
      {
        var row := rows[i];
        assert rows[..i + 1][..i] == rows[..i];
        var parsed := ParseKey(scheme, row);
        if parsed.None? {
          continue;
        }
        keys := keys[row.kid := parsed.value];
        if row.state.Active? {
          match row.alg
          case EdDSA => activeEdDSA := parsed;
          case ES256 => activeES256 := parsed;
          case _ =>
        }
      }
      assert rows[..|rows|] == rows;
      if activeEdDSA.None? && activeES256.None? {
        return Err(NoActiveKey);
      }
      var primary := if activeEdDSA.Some? then activeEdDSA.value else activeES256.value;
      var km := new Manager(scheme, keys, primary);
      r := Ok(km);
    }

    /** `Reload`: all or nothing. */
    method Reload(rows: seq<SigningKey>) returns (r: Result<(), KeyError>)
      modifies this
      ensures r.Ok? <==> Load(scheme, rows).Some?
      ensures View() == if r.Ok? then Load(scheme, rows).value else old(View())
    {
      var next := New(scheme, rows);
      if next.Err? {
        return Err(next.error);
      }
      keys := next.value.keys;
      primaryKey := next.value.primaryKey;
      r := Ok(());
    }

    method SignBytes(payload: Bytes, rnd: Bytes) returns (r: Result<(Bytes, string), KeyError>)
      ensures r == Sign(scheme, View(), payload, rnd)
      ensures Sound(scheme, View()) ==> r.Ok? && Verify(scheme, keys, payload, r.value.0, r.value.1).Ok?
    {
      match primaryKey.alg
      case EdDSA =>
        if primaryKey.private.None? {
          return Err(NoPrivateKey);
        }
        r := Ok((scheme.sign(EdDSA, primaryKey.private.value, payload, rnd), primaryKey.kid));
      case ES256 =>
        if primaryKey.private.None? {
          return Err(NoPrivateKey);
        }
        r := Ok((scheme.sign(ES256, primaryKey.private.value, payload, rnd), primaryKey.kid));
      case _ => r := Err(UnsupportedAlgorithm);
    }

    /** `VerifyBytes`: any loaded signing key accepts its own signatures under its
        kid, active or not; the three refusals are told apart. */
    method VerifyBytes(payload: Bytes, signature: Bytes, kid: string) returns (r: Result<(), KeyError>)
      ensures r == Verify(scheme, keys, payload, signature, kid)
      ensures kid in keys && Signs(keys[kid].alg) ==>
                forall priv, rnd :: SignedBy(scheme, keys[kid], payload, signature, priv, rnd) ==> r == Ok(())
      ensures r == Ok(()) <==>
                kid in keys && Signs(keys[kid].alg) && scheme.verify(keys[kid].alg, keys[kid].public, payload, signature)
      ensures r == Err(BadSignature) <==>
                kid in keys && Signs(keys[kid].alg) && !scheme.verify(keys[kid].alg, keys[kid].public, payload, signature)
      ensures r == Err(UnknownKid) <==> kid !in keys
      ensures r == Err(UnsupportedAlgorithm) <==> kid in keys && !Signs(keys[kid].alg)
    {
      if kid !in keys {
        return Err(UnknownKid);
      }
      var key := keys[kid];
      match key.alg
      case EdDSA =>
        if !scheme.verify(EdDSA, key.public, payload, signature) {
          return Err(BadSignature);
        }
        r := Ok(());
      case ES256 =>
        if !scheme.verify(ES256, key.public, payload, signature) {
          return Err(BadSignature);
        }
        r := Ok(());
      case _ => r := Err(UnsupportedAlgorithm);
    }
  }
}
