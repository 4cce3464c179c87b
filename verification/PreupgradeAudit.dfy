/** The audit before an upgrade: its findings, and the sweep over client rows
    against the validator it stands in for. */
module PreupgradeAudit {
  import opened Wrappers
  import opened Client

  // --------------------------------------------------------------- Findings

  datatype Shape =
    | BlankName | EmptyRedirects | ConfidentialOnNone | PublicSecret | PublicServiceAccount
    | KeyUriNotHttps | OtherViolation | SharedAddress

  datatype Finding = Finding(shape: Shape, count: nat)

  function Positive(all: seq<Finding>): (out: seq<Finding>)
    ensures forall f :: f in out <==> f in all && f.count > 0
  {
    if all == [] then []
    else
      var front := Positive(all[..|all| - 1]);
      var last := all[|all| - 1];
      assert all == all[..|all| - 1] + [last];
      if last.count > 0 then front + [last] else front
  }

  /** `nonzero`. */
  method NonZero(all: seq<Finding>) returns (out: seq<Finding>)
    ensures out == Positive(all)
  {
    out := [];
    for i := 0 to |all|
      invariant out == Positive(all[..i])
    {
      assert all[..i + 1][..i] == all[..i];
      if all[i].count > 0 {
        out := out + [all[i]];
      }
    }
    assert all[..|all|] == all;
  }

  // ------------------------------------------------------------ Client rows

  datatype ClientRow = ClientRow(
    clientID: string, name: string, scope: string, secretHash: string, authMethod: string, alg: string,
    jwksUri: string, jwks: string, redirectURIs: seq<string>, isPublic: bool, hasSA: bool)

  /** The document the audit rebuilds: columns it does not select keep their zero value. */
  function Rebuild(r: ClientRow): Document {
    Document(r.clientID, r.name, r.redirectURIs, r.scope, r.isPublic, r.secretHash, r.hasSA,
             false, false, false, r.authMethod, r.alg, "", r.jwksUri, r.jwks)
  }

  predicate KeyUriRefused(lib: Library, r: ClientRow) {
    && EffectiveAuthMethod(Rebuild(r)) == PrivateKeyJwt
    && lib.trim(r.jwksUri) != ""
    && lib.scheme(lib.trim(r.jwksUri)) != Some("https")
  }

  /** The shapes with a name of their own. */
  predicate HasShape(lib: Library, r: ClientRow, shape: Shape) {
    match shape
    case BlankName => lib.trim(r.name) == ""
    case EmptyRedirects => r.redirectURIs == []
    case ConfidentialOnNone => !r.isPublic && r.authMethod == NoAuth
    case PublicSecret => r.isPublic && r.secretHash != ""
    case PublicServiceAccount => r.isPublic && r.hasSA
    case KeyUriNotHttps => KeyUriRefused(lib, r)
    case OtherViolation => Validate(lib, Rebuild(r)).Some? && !Named(lib, r)
    case SharedAddress => false
  }

  predicate Named(lib: Library, r: ClientRow) {
    || lib.trim(r.name) == ""
    || r.redirectURIs == []
    || (!r.isPublic && r.authMethod == NoAuth)
    || (r.isPublic && (r.secretHash != "" || r.hasSA))
    || KeyUriRefused(lib, r)
  }

  function Count(lib: Library, rows: seq<ClientRow>, shape: Shape): nat {
    if rows == [] then 0
    else Count(lib, rows[..|rows| - 1], shape) + Hit(HasShape(lib, rows[|rows| - 1], shape))
  }

  lemma {:induction false} CountZero(lib: Library, rows: seq<ClientRow>, shape: Shape)
    ensures Count(lib, rows, shape) == 0 <==> forall r :: r in rows ==> !HasShape(lib, r, shape)
  {
    if rows != [] {
      var front, last := rows[..|rows| - 1], rows[|rows| - 1];
      CountZero(lib, front, shape);
      assert rows == front + [last];
    }
  }

  const ClientShapes := [BlankName, EmptyRedirects, ConfidentialOnNone, PublicSecret,
                         PublicServiceAccount, KeyUriNotHttps, OtherViolation]

  function Counted(lib: Library, rows: seq<ClientRow>): seq<Finding> {
    [Finding(BlankName, Count(lib, rows, BlankName)),
     Finding(EmptyRedirects, Count(lib, rows, EmptyRedirects)),
     Finding(ConfidentialOnNone, Count(lib, rows, ConfidentialOnNone)),
     Finding(PublicSecret, Count(lib, rows, PublicSecret)),
     Finding(PublicServiceAccount, Count(lib, rows, PublicServiceAccount)),
     Finding(KeyUriNotHttps, Count(lib, rows, KeyUriNotHttps)),
     Finding(OtherViolation, Count(lib, rows, OtherViolation))]
  }

  function ClientFindings(lib: Library, rows: seq<ClientRow>): seq<Finding> {
    Positive(Counted(lib, rows))
  }

  function Hit(b: bool): nat {
    if b then 1 else 0
  }

  /** The seven counters of the sweep. */
  datatype Tally = Tally(blankName: nat, emptyRedirects: nat, confNone: nat, pubSecret: nat,
                         pubSA: nat, keyUri: nat, other: nat)

  function TallyOf(lib: Library, rows: seq<ClientRow>): Tally {
    Tally(Count(lib, rows, BlankName), Count(lib, rows, EmptyRedirects), Count(lib, rows, ConfidentialOnNone),
          Count(lib, rows, PublicSecret), Count(lib, rows, PublicServiceAccount),
          Count(lib, rows, KeyUriNotHttps), Count(lib, rows, OtherViolation))
  }

  lemma CountNext(lib: Library, rows: seq<ClientRow>, i: nat, shape: Shape)
    requires i < |rows|
    ensures Count(lib, rows[..i + 1], shape) == Count(lib, rows[..i], shape) + Hit(HasShape(lib, rows[i], shape))
  {
    assert rows[..i + 1][..i] == rows[..i];
  }

  /** One row's part of each counter. */
  method TickNamed(lib: Library, r: ClientRow, t: Tally) returns (next: Tally, named: bool)
    ensures next == Tally(t.blankName + Hit(HasShape(lib, r, BlankName)),
                          t.emptyRedirects + Hit(HasShape(lib, r, EmptyRedirects)),
                          t.confNone + Hit(HasShape(lib, r, ConfidentialOnNone)),
                          t.pubSecret + Hit(HasShape(lib, r, PublicSecret)),
                          t.pubSA + Hit(HasShape(lib, r, PublicServiceAccount)),
                          t.keyUri + Hit(HasShape(lib, r, KeyUriNotHttps)),
                          t.other)
    ensures named == Named(lib, r)
  {
    next, named := t, false;
    if lib.trim(r.name) == "" {
      next := next.(blankName := next.blankName + 1);
      named := true;
    }
    if |r.redirectURIs| == 0 {
      next := next.(emptyRedirects := next.emptyRedirects + 1);
      named := true;
    }
    if !r.isPublic && r.authMethod == NoAuth {
      next := next.(confNone := next.confNone + 1);
      named := true;
    }
    if r.isPublic && r.secretHash != "" {
      next := next.(pubSecret := next.pubSecret + 1);
      named := true;
    }
    if r.isPublic && r.hasSA {
      next := next.(pubSA := next.pubSA + 1);
      named := true;
    }
    if EffectiveAuthMethod(Rebuild(r)) == PrivateKeyJwt {
      var u := lib.trim(r.jwksUri);
      if u != "" {
        var parsed := lib.scheme(u);
        if parsed.None? || parsed.value != "https" {
          next := next.(keyUri := next.keyUri + 1);
          named := true;
        }
      }
    }
  }

  /** `evaluateAuditClients`. */
  method EvaluateClients(lib: Library, rows: seq<ClientRow>) returns (findings: seq<Finding>)
    ensures findings == ClientFindings(lib, rows)
  {
    var t := Tally(0, 0, 0, 0, 0, 0, 0);
    for i := 0 to |rows|
      invariant t == TallyOf(lib, rows[..i])
    {
      ghost var before := t;
      var named;
      t, named := TickNamed(lib, rows[i], t);
      var refusal := Validate(lib, Rebuild(rows[i]));
      if refusal.Some? && !named {
        t := t.(other := t.other + 1);
      }
      TallyNext(lib, rows, i, before, t);
    }
    assert rows[..|rows|] == rows;
    findings := NonZero([Finding(BlankName, t.blankName), Finding(EmptyRedirects, t.emptyRedirects),
                         Finding(ConfidentialOnNone, t.confNone), Finding(PublicSecret, t.pubSecret),
                         Finding(PublicServiceAccount, t.pubSA), Finding(KeyUriNotHttps, t.keyUri),
                         Finding(OtherViolation, t.other)]);
  }

  lemma TallyNext(lib: Library, rows: seq<ClientRow>, i: nat, t: Tally, next: Tally)
    requires i < |rows| && t == TallyOf(lib, rows[..i])
    requires next == Tally(t.blankName + Hit(HasShape(lib, rows[i], BlankName)),
                           t.emptyRedirects + Hit(HasShape(lib, rows[i], EmptyRedirects)),
                           t.confNone + Hit(HasShape(lib, rows[i], ConfidentialOnNone)),
                           t.pubSecret + Hit(HasShape(lib, rows[i], PublicSecret)),
                           t.pubSA + Hit(HasShape(lib, rows[i], PublicServiceAccount)),
                           t.keyUri + Hit(HasShape(lib, rows[i], KeyUriNotHttps)),
                           t.other + Hit(HasShape(lib, rows[i], OtherViolation)))
    ensures next == TallyOf(lib, rows[..i + 1])
  {
    CountNext(lib, rows, i, BlankName);
    CountNext(lib, rows, i, EmptyRedirects);
    CountNext(lib, rows, i, ConfidentialOnNone);
    CountNext(lib, rows, i, PublicSecret);
    CountNext(lib, rows, i, PublicServiceAccount);
    CountNext(lib, rows, i, KeyUriNotHttps);
    CountNext(lib, rows, i, OtherViolation);
  }

  /** Every refused row shows under some shape, so none goes unreported. */
  lemma RefusedRowHasShape(lib: Library, r: ClientRow)
    requires Validate(lib, Rebuild(r)).Some?
    ensures exists k :: 0 <= k < |ClientShapes| && HasShape(lib, r, ClientShapes[k])
  {
    if !Named(lib, r) {
      assert HasShape(lib, r, ClientShapes[6]);
    } else if lib.trim(r.name) == "" {
      assert HasShape(lib, r, ClientShapes[0]);
    } else if r.redirectURIs == [] {
      assert HasShape(lib, r, ClientShapes[1]);
    } else if !r.isPublic && r.authMethod == NoAuth {
      assert HasShape(lib, r, ClientShapes[2]);
    } else if r.isPublic && r.secretHash != "" {
      assert HasShape(lib, r, ClientShapes[3]);
    } else if r.isPublic && r.hasSA {
      assert HasShape(lib, r, ClientShapes[4]);
    } else {
      assert HasShape(lib, r, ClientShapes[5]);
    }
  }

  lemma CountedAt(lib: Library, rows: seq<ClientRow>, k: nat)
    requires k < |ClientShapes|
    ensures |Counted(lib, rows)| == |ClientShapes|
    ensures Counted(lib, rows)[k] == Finding(ClientShapes[k], Count(lib, rows, ClientShapes[k]))
  {
  }

  /** Nothing positive is left exactly when everything is zero. */
  lemma PositiveEmpty(all: seq<Finding>)
    ensures Positive(all) == [] <==> forall k :: 0 <= k < |all| ==> all[k].count == 0
  {
  }

  lemma SilentExactly(lib: Library, rows: seq<ClientRow>)
    ensures ClientFindings(lib, rows) == []
       <==> forall k :: 0 <= k < |ClientShapes| ==> Count(lib, rows, ClientShapes[k]) == 0
  {
    PositiveEmpty(Counted(lib, rows));
    forall k | 0 <= k < |ClientShapes|
      ensures |Counted(lib, rows)| == |ClientShapes|
      ensures Counted(lib, rows)[k].count == Count(lib, rows, ClientShapes[k])
    {
      CountedAt(lib, rows, k);
    }
    CountedAt(lib, rows, 0);
  }

  /** Rows that only the audit objects to: a key address that is well formed as
      stored and not as trimmed. */
  predicate Overstrict(lib: Library, r: ClientRow) {
    KeyUriRefused(lib, r) && Validate(lib, Rebuild(r)).None?
  }

  /** A named shape is a refusal, except for those rows. */
  lemma NamedIsRefused(lib: Library, r: ClientRow)
    requires Named(lib, r) && !Overstrict(lib, r)
    ensures Validate(lib, Rebuild(r)).Some?
  {
  }

  /** No shape of the audit's fits this row. */
  predicate Shapeless(lib: Library, r: ClientRow) {
    forall k :: 0 <= k < |ClientShapes| ==> !HasShape(lib, r, ClientShapes[k])
  }

  lemma AllShapeless(lib: Library, rows: seq<ClientRow>)
    ensures (forall k :: 0 <= k < |ClientShapes| ==> Count(lib, rows, ClientShapes[k]) == 0)
       <==> forall r :: r in rows ==> Shapeless(lib, r)
  {
    forall k | 0 <= k < |ClientShapes|
      ensures Count(lib, rows, ClientShapes[k]) == 0 <==> forall r :: r in rows ==> !HasShape(lib, r, ClientShapes[k])
    {
      CountZero(lib, rows, ClientShapes[k]);
    }
  }

  /** The audit is silent exactly when every rebuilt document passes the validator
      and every key address is `https` after trimming too. */
  lemma AuditCannotUnderReport(lib: Library, rows: seq<ClientRow>)
    ensures ClientFindings(lib, rows) == []
       <==> forall r :: r in rows ==> Validate(lib, Rebuild(r)).None? && !KeyUriRefused(lib, r)
  {
    SilentExactly(lib, rows);
    AllShapeless(lib, rows);
    forall r | r in rows
      ensures Shapeless(lib, r) <==> Validate(lib, Rebuild(r)).None? && !KeyUriRefused(lib, r)
    {
      RowSilentExactly(lib, r);
    }
  }

  lemma RowSilentExactly(lib: Library, r: ClientRow)
    ensures Shapeless(lib, r) <==> Validate(lib, Rebuild(r)).None? && !KeyUriRefused(lib, r)
  {
    if Validate(lib, Rebuild(r)).Some? {
      RefusedRowHasShape(lib, r);
    } else if KeyUriRefused(lib, r) {
      assert HasShape(lib, r, ClientShapes[5]);
    } else if Named(lib, r) {
      NamedIsRefused(lib, r);
    } else {
      forall k | 0 <= k < |ClientShapes|
        ensures !HasShape(lib, r, ClientShapes[k])
      {
      }
    }
  }

  /** The parser finds `https` in the trimmed text whenever it does in the text itself. */
  ghost predicate TrimKeepsHttps(lib: Library) {
    forall u :: lib.scheme(u) == Some("https") ==> lib.scheme(lib.trim(u)) == Some("https")
  }

  lemma ValidKeyUri(lib: Library, r: ClientRow)
    requires TrimKeepsHttps(lib) && Validate(lib, Rebuild(r)).None?
    ensures !KeyUriRefused(lib, r)
  {
  }

  /** With such a parser, silence is exactly validity. */
  lemma SilenceIsValidity(lib: Library, rows: seq<ClientRow>)
    requires TrimKeepsHttps(lib)
    ensures ClientFindings(lib, rows) == [] <==> forall r :: r in rows ==> Validate(lib, Rebuild(r)).None?
  {
    AuditCannotUnderReport(lib, rows);
    forall r | r in rows && Validate(lib, Rebuild(r)).None?
      ensures !KeyUriRefused(lib, r)
    {
      ValidKeyUri(lib, r);
    }
  }

  // ------------------------------------------- Against the stored documents

  /** The columns the audit selects. */
  function RowOf(c: Document): ClientRow {
    ClientRow(c.clientID, c.name, c.scope, c.secretHash, c.authMethod, c.signingAlg,
              c.jwksUri, c.jwks, c.redirectURIs, c.isPublic, c.hasServiceAccount)
  }

  /** What the unselected columns must satisfy on their own. */
  predicate UnseenColumnsFit(c: Document) {
    FlagsFit(c) && (c.idTokenAlg == "" || KnownIDTokenAlg(c.idTokenAlg))
  }

  lemma StoredAgainstRebuilt(lib: Library, c: Document)
    ensures Validate(lib, c).None? <==> Validate(lib, Rebuild(RowOf(c))).None? && UnseenColumnsFit(c)
  {
  }

  /** A silent audit leaves an update able to fail exactly on the columns the
      audit does not select. */
  lemma SilentAuditOfStored(lib: Library, table: seq<Document>)
    requires ClientFindings(lib, seq(|table|, i requires 0 <= i < |table| => RowOf(table[i]))) == []
    ensures forall c :: c in table ==> (Validate(lib, c).None? <==> UnseenColumnsFit(c))
  {
    var rows := seq(|table|, i requires 0 <= i < |table| => RowOf(table[i]));
    AuditCannotUnderReport(lib, rows);
    forall c | c in table
      ensures Validate(lib, c).None? <==> UnseenColumnsFit(c)
    {
      var i :| 0 <= i < |table| && table[i] == c;
      assert rows[i] == RowOf(c) && rows[i] in rows;
      StoredAgainstRebuilt(lib, c);
    }
  }

  /** Such a document exists: a public client that skips consent. */
  lemma UnderReportsSkipConsent(lib: Library)
    requires lib.trim("App") != ""
    ensures exists c: Document :: ClientFindings(lib, [RowOf(c)]) == [] && Validate(lib, c) == Some(SkipConsentPublic)
  {
    var c := Document("app", "App", ["https://app.example/cb"], "openid", true, "", false,
                      true, false, false, "", "", "", "", "");
    MethodNamesDiffer();
    AuditCannotUnderReport(lib, [RowOf(c)]);
    ValidExactly(lib, Rebuild(RowOf(c)));
    assert Validate(lib, c) == Some(SkipConsentPublic);
  }

  /** The named shapes are the refusals they are named after. */
  lemma ShapeOfRefusal(lib: Library, r: ClientRow)
    ensures var refusal := Validate(lib, Rebuild(r));
            && (refusal == Some(NoName) ==> HasShape(lib, r, BlankName))
            && (refusal == Some(NoRedirectURI) ==> HasShape(lib, r, EmptyRedirects))
            && (refusal == Some(PublicWithSecret) ==> HasShape(lib, r, PublicSecret))
            && (refusal == Some(PublicWithServiceAccount) ==> HasShape(lib, r, PublicServiceAccount))
            && (refusal == Some(NoneForConfidential) ==> HasShape(lib, r, ConfidentialOnNone))
  {
    MethodNamesDiffer();
  }

  /** What each of them asks of a row. */
  lemma ShapesApart(lib: Library, r: ClientRow)
    ensures HasShape(lib, r, BlankName) <==> lib.trim(r.name) == ""
    ensures HasShape(lib, r, EmptyRedirects) <==> |r.redirectURIs| == 0
    ensures HasShape(lib, r, PublicSecret) <==> r.isPublic && r.secretHash != ""
    ensures HasShape(lib, r, PublicServiceAccount) <==> r.isPublic && r.hasSA
    ensures HasShape(lib, r, ConfidentialOnNone) <==> !r.isPublic && r.authMethod == "none"
  {
  }
}
