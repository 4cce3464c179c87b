/** The OAuth client document and its validator. */
module Client {
  import opened Wrappers

  /** `strings.TrimSpace` and the scheme `url.Parse` finds, or `None` when it
      fails: any functions will do. */
  datatype Library = Library(trim: string -> string, scheme: string -> Option<string>)

  datatype Document = Document(
    clientID: string,
    name: string,
    redirectURIs: seq<string>,
    scope: string,
    isPublic: bool,
    secretHash: string,
    hasServiceAccount: bool,
    skipConsent: bool,
    dynamicallyRegistered: bool,
    pkceOptOut: bool,
    authMethod: string,
    signingAlg: string,
    idTokenAlg: string,
    jwksUri: string,
    jwks: string)

  datatype Refusal =
    | NoClientID | NoName | NoRedirectURI | PublicWithSecret | PublicWithServiceAccount
    | SkipConsentPublic | SkipConsentDynamic | PkceOptOutConfidential | PkceOptOutDynamic
    | UnknownAuthMethod | NoneForConfidential | SecretForPublic | KeyForPublic
    | NoKeySource | TwoKeySources | KeySourceNotHttps | KeySourceUnused
    | UnknownSigningAlg | UnknownIDTokenAlg

  const NoAuth := "none"
  const SecretBasic := "client_secret_basic"
  const SecretPost := "client_secret_post"
  const PrivateKeyJwt := "private_key_jwt"

  predicate KnownAuthMethod(m: string) {
    m == SecretBasic || m == SecretPost || m == NoAuth || m == PrivateKeyJwt
  }

  predicate KnownSigningAlg(a: string) {
    a in ["EdDSA", "ES256", "ES384", "RS256", "RS384", "RS512", "PS256", "PS384", "PS512"]
  }

  predicate KnownIDTokenAlg(a: string) {
    a in ["EdDSA", "ES256", "RS256"]
  }

  /** The stored method, or the default for the kind of client. */
  function EffectiveAuthMethod(c: Document): string {
    if c.authMethod != "" then c.authMethod
    else if c.isPublic then NoAuth
    else SecretBasic
  }

  /** The rules before the authentication method. */
  function CheckIdentity(lib: Library, c: Document): Option<Refusal> {
    if c.clientID == "" then Some(NoClientID)
    else if lib.trim(c.name) == "" then Some(NoName)
    else if |c.redirectURIs| == 0 then Some(NoRedirectURI)
    else if c.isPublic && c.secretHash != "" then Some(PublicWithSecret)
    else if c.isPublic && c.hasServiceAccount then Some(PublicWithServiceAccount)
    else if c.isPublic && c.skipConsent then Some(SkipConsentPublic)
    else if c.dynamicallyRegistered && c.skipConsent then Some(SkipConsentDynamic)
    else if c.pkceOptOut && !c.isPublic then Some(PkceOptOutConfidential)
    else if c.pkceOptOut && c.dynamicallyRegistered then Some(PkceOptOutDynamic)
    else None
  }

  /** A `private_key_jwt` client's key sources. */
  function CheckKeySource(lib: Library, c: Document): Option<Refusal> {
    var hasURI := lib.trim(c.jwksUri) != "";
    var hasInline := lib.trim(c.jwks) != "";
    if c.isPublic then Some(KeyForPublic)
    else if !hasURI && !hasInline then Some(NoKeySource)
    else if hasURI && hasInline then Some(TwoKeySources)
    else if hasURI && lib.scheme(c.jwksUri) != Some("https") then Some(KeySourceNotHttps)
    else None
  }

  function CheckMethod(lib: Library, c: Document): Option<Refusal> {
    var m := EffectiveAuthMethod(c);
    if c.authMethod != "" && !KnownAuthMethod(c.authMethod) then Some(UnknownAuthMethod)
    else if m == NoAuth && !c.isPublic then Some(NoneForConfidential)
    else if (m == SecretBasic || m == SecretPost) && c.isPublic then Some(SecretForPublic)
    else if m == PrivateKeyJwt then CheckKeySource(lib, c)
    else if c.jwksUri != "" || c.jwks != "" then Some(KeySourceUnused)
    else None
  }

  function CheckAlgs(c: Document): Option<Refusal> {
    if c.signingAlg != "" && !KnownSigningAlg(c.signingAlg) then Some(UnknownSigningAlg)
    else if c.idTokenAlg != "" && !KnownIDTokenAlg(c.idTokenAlg) then Some(UnknownIDTokenAlg)
    else None
  }

  /** `Client.Validate`: the first rule broken, or `None`. */
  function Validate(lib: Library, c: Document): Option<Refusal> {
    var identity := CheckIdentity(lib, c);
    if identity.Some? then identity
    else
      var byMethod := CheckMethod(lib, c);
      if byMethod.Some? then byMethod else CheckAlgs(c)
  }

  // --------------------------------------------------- What validity amounts to

  /** Consent may be skipped, and PKCE opted out of, only where the client's
      registration vouches for it. */
  predicate FlagsFit(c: Document) {
    && (c.skipConsent ==> !c.isPublic && !c.dynamicallyRegistered)
    && (c.pkceOptOut ==> c.isPublic && !c.dynamicallyRegistered)
  }

  predicate NoKeys(c: Document) {
    c.jwksUri == "" && c.jwks == ""
  }

  predicate OneKeySource(lib: Library, c: Document) {
    (lib.trim(c.jwksUri) == "") != (lib.trim(c.jwks) == "")
    && (lib.trim(c.jwksUri) != "" ==> lib.scheme(c.jwksUri) == Some("https"))
  }

  /** A public client proves nothing and holds nothing to prove it with. */
  predicate PublicShape(c: Document) {
    c.secretHash == "" && !c.hasServiceAccount && c.authMethod in ["", NoAuth] && NoKeys(c)
  }

  /** A confidential one authenticates by its secret or by exactly one key source. */
  predicate ConfidentialShape(lib: Library, c: Document) {
    || (c.authMethod in ["", SecretBasic, SecretPost] && NoKeys(c))
    || (c.authMethod == PrivateKeyJwt && OneKeySource(lib, c))
  }

  predicate AlgsKnown(c: Document) {
    && c.signingAlg in ["", "EdDSA", "ES256", "ES384", "RS256", "RS384", "RS512", "PS256", "PS384", "PS512"]
    && c.idTokenAlg in ["", "EdDSA", "ES256", "RS256"]
  }

  predicate WellFormed(lib: Library, c: Document) {
    && c.clientID != "" && lib.trim(c.name) != "" && c.redirectURIs != []
    && FlagsFit(c)
    && (if c.isPublic then PublicShape(c) else ConfidentialShape(lib, c))
    && AlgsKnown(c)
  }

  lemma MethodNamesDiffer()
    ensures |NoAuth| == 4 && |SecretBasic| == 19 && |SecretPost| == 18 && |PrivateKeyJwt| == 15
  {
  }

  lemma MethodExactly(lib: Library, c: Document)
    requires c.isPublic ==> c.secretHash == "" && !c.hasServiceAccount
    ensures CheckMethod(lib, c).None? <==> if c.isPublic then PublicShape(c) else ConfidentialShape(lib, c)
  {
    MethodNamesDiffer();
  }

  /** The validator accepts exactly the well-formed documents. */
  lemma ValidExactly(lib: Library, c: Document)
    ensures Validate(lib, c).None? <==> WellFormed(lib, c)
  {
    if c.isPublic ==> c.secretHash == "" && !c.hasServiceAccount {
      MethodExactly(lib, c);
    }
  }
}
