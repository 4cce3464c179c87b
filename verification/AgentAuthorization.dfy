/** The aggregate an owner creates to let two agents talk, and its validator. */
module AgentAuthorization {
  import opened Wrappers
  import opened Encoding
  import opened StringOrder
  import opened AgentPolicy
  import RefreshToken

  const Initiator := "initiator"
  const Responder := "responder"
  const PolicyVersion := "v1"
  const ReasonMaxLen := 256

  function Version(u: Uuid): int {
    u[6] / 16
  }

  predicate IsNil(u: Uuid) {
    forall i :: 0 <= i < 16 ==> u[i] == 0
  }

  predicate IsV7(u: Uuid) {
    !IsNil(u) && Version(u) == 7
  }

  datatype Participant = Participant(
    id: Uuid, authorizationId: Uuid, aci: Uuid, serviceAccount: Uuid, client: Uuid,
    role: string, thumbprint: string, capabilities: seq<string>)

  datatype Authorization = Authorization(
    id: Uuid, organization: Uuid, owner: Uuid, session: Uuid, relayAudience: string,
    maxMessages: int, maxMessageSize: int, expiresAt: int, revocation: Option<Option<string>>,
    policyVersion: string, policyDigest: string, participants: seq<Participant>)

  /** URL normalisation of the audience and hashing of a serialised policy. */
  datatype Environment = Environment(normalizeAudience: string -> Option<string>, digest: Policy -> string)

  /** `Policy()`. */
  function PolicyOf(a: Authorization): Policy {
    Policy(a.policyVersion, a.maxMessages, a.maxMessageSize,
           seq(|a.participants|, i requires 0 <= i < |a.participants| =>
             Grant(a.participants[i].role, a.participants[i].capabilities)))
  }

  /** `ComputePolicyDigest`. */
  function Digest(env: Environment, a: Authorization): string {
    env.digest(CanonicalForm(PolicyOf(a)))
  }

  predicate ThumbprintChar(c: char) {
    'A' <= c <= 'Z' || 'a' <= c <= 'z' || '0' <= c <= '9' || c == '-' || c == '_'
  }

  predicate ThumbprintOk(s: string) {
    0 < |s| <= 128 && forall i :: 0 <= i < |s| ==> ThumbprintChar(s[i])
  }

  /** A role of the closed set and a canonical list over the closed vocabulary. */
  predicate ParticipantOk(a: Authorization, p: Participant) {
    && IsV7(p.id) && IsV7(p.aci)
    && p.authorizationId == a.id
    && !IsNil(p.serviceAccount) && !IsNil(p.client)
    && (p.role == Initiator || p.role == Responder)
    && ThumbprintOk(p.thumbprint)
    && Listed(p.capabilities)
    && StrictlySorted(p.capabilities)
  }

  predicate Apart(p: Participant, q: Participant) {
    p.id != q.id && p.aci != q.aci && p.serviceAccount != q.serviceAccount && p.client != q.client && p.role != q.role
  }

  predicate HeaderOk(env: Environment, a: Authorization, now: int) {
    && IsV7(a.id) && IsV7(a.session) && !IsNil(a.organization) && !IsNil(a.owner)
    && env.normalizeAudience(a.relayAudience) == Some(a.relayAudience)
    && a.maxMessages > 0 && a.maxMessageSize > 0
    && a.expiresAt > now
    && a.policyVersion == PolicyVersion
    && |a.participants| == 2
    && (a.revocation.Some? && a.revocation.value.Some? ==> |a.revocation.value.value| <= ReasonMaxLen)
  }

  /** Every structural invariant of the aggregate. */
  ghost predicate WellFormed(env: Environment, a: Authorization, now: int) {
    && HeaderOk(env, a, now)
    && ParticipantsOk(a)
    && Digest(env, a) == a.policyDigest
  }

  datatype Refusal = BadHeader | BadParticipant | UnknownCapability | NotCanonical | Duplicate | DigestMismatch

  lemma SortedIsCanonical(caps: seq<string>)
    ensures Canonical(caps) == caps <==> StrictlySorted(caps)
  {
    CanonicalMeans(caps);
    if StrictlySorted(caps) {
      CanonicalUnique(caps, caps);
    }
  }

  /** The stored list is its own canonical form, element by element. */
  method CheckCapabilities(caps: seq<string>) returns (r: Result<(), Refusal>)
    ensures r.Ok? <==> Listed(caps) && StrictlySorted(caps)
  {
    var canonical := CanonicalizeCapabilities(caps);
    if canonical.Err? {
      return Err(UnknownCapability);
    }
    SortedIsCanonical(caps);
    var same := SameList(canonical.value, caps);
    r := if same then Ok(()) else Err(NotCanonical);
  }

  method SameList(canonical: seq<string>, caps: seq<string>) returns (same: bool)
    ensures same <==> canonical == caps
  {
    if |canonical| != |caps| {
      return false;
    }
    for j := 0 to |caps|
      invariant forall k :: 0 <= k < j ==> canonical[k] == caps[k]
    {
      if canonical[j] != caps[j] {
        return false;
      }
    }
    assert canonical == caps;
    return true;
  }

  /** `ValidateAgentCommunicationProofKeyThumbprint`. */
  method CheckThumbprint(s: string) returns (ok: bool)
    ensures ok <==> ThumbprintOk(s)
  {
    if s == "" || |s| > 128 {
      return false;
    }
    for i := 0 to |s|
      invariant forall k :: 0 <= k < i ==> ThumbprintChar(s[k])
    {
      var c := s[i];
      if !('A' <= c <= 'Z' || 'a' <= c <= 'z' || '0' <= c <= '9' || c == '-' || c == '_') {
        return false;
      }
    }
    return true;
  }

  /** The checks on one participant that need no other. */
  method CheckParticipant(a: Authorization, p: Participant) returns (r: Result<(), Refusal>)
    ensures r.Ok? <==> ParticipantOk(a, p)
  {
    if !IsV7(p.id) || !IsV7(p.aci) || p.authorizationId != a.id || IsNil(p.serviceAccount) || IsNil(p.client) {
      return Err(BadParticipant);
    }
    if p.role != Initiator && p.role != Responder {
      return Err(BadParticipant);
    }
    var thumbprint := CheckThumbprint(p.thumbprint);
    if !thumbprint {
      return Err(BadParticipant);
    }
    r := CheckCapabilities(p.capabilities);
  }

  /** The five sets `Validate` fills as it goes. */
  datatype Seen = Seen(ids: set<Uuid>, acis: set<Uuid>, accounts: set<Uuid>, clients: set<Uuid>, roles: set<string>) {

    predicate Met(p: Participant) {
      p.id in ids || p.aci in acis || p.serviceAccount in accounts || p.client in clients || p.role in roles
    }

    function With(p: Participant): Seen {
      Seen(ids + {p.id}, acis + {p.aci}, accounts + {p.serviceAccount}, clients + {p.client}, roles + {p.role})
    }
  }

  /** The sets hold what the first `n` participants contributed. */
  ghost predicate Recorded(ps: seq<Participant>, n: nat, seen: Seen)
    requires n <= |ps|
  {
    && (forall x :: x in seen.ids <==> exists k :: 0 <= k < n && ps[k].id == x)
    && (forall x :: x in seen.acis <==> exists k :: 0 <= k < n && ps[k].aci == x)
    && (forall x :: x in seen.accounts <==> exists k :: 0 <= k < n && ps[k].serviceAccount == x)
    && (forall x :: x in seen.clients <==> exists k :: 0 <= k < n && ps[k].client == x)
    && (forall x :: x in seen.roles <==> exists k :: 0 <= k < n && ps[k].role == x)
  }

  lemma MetExactly(ps: seq<Participant>, n: nat, seen: Seen)
    requires n < |ps| && Recorded(ps, n, seen)
    ensures seen.Met(ps[n]) <==> exists k :: 0 <= k < n && !Apart(ps[k], ps[n])
  {
  }

  lemma RecordOne(ps: seq<Participant>, n: nat, seen: Seen)
    requires n < |ps| && Recorded(ps, n, seen)
    ensures Recorded(ps, n + 1, seen.With(ps[n]))
  {
  }

  ghost predicate ParticipantsOk(a: Authorization) {
    Passed(a, |a.participants|)
  }

  /** The loop of `Validate`. */
  method CheckParticipants(a: Authorization) returns (r: Result<(), Refusal>)
    ensures r.Ok? <==> ParticipantsOk(a)
  {
    var seen := Seen({}, {}, {}, {}, {});
    for i := 0 to |a.participants|
      invariant Passed(a, i) && Recorded(a.participants, i, seen)
    {
      var p := a.participants[i];
      var checked := CheckParticipant(a, p);
      if checked.Err? {
        return Err(checked.error);
      }
      MetExactly(a.participants, i, seen);
      if seen.Met(p) {
        return Err(Duplicate);
      }
      PassOne(a, i);
      RecordOne(a.participants, i, seen);
      seen := seen.With(p);
    }
    r := Ok(());
  }

  /** The first `n` participants are fine and pairwise apart. */
  ghost predicate Passed(a: Authorization, n: nat)
    requires n <= |a.participants|
  {
    && (forall i :: 0 <= i < n ==> ParticipantOk(a, a.participants[i]))
    && (forall i, j :: 0 <= i < j < n ==> Apart(a.participants[i], a.participants[j]))
  }

  lemma PassOne(a: Authorization, n: nat)
    requires n < |a.participants| && Passed(a, n) && ParticipantOk(a, a.participants[n])
    requires forall k :: 0 <= k < n ==> Apart(a.participants[k], a.participants[n])
    ensures Passed(a, n + 1)
  {
  }

  /** The checks before the participants. */
  method CheckHeader(env: Environment, a: Authorization, now: int) returns (ok: bool)
    ensures ok <==> HeaderOk(env, a, now)
  {
    if !IsV7(a.id) || !IsV7(a.session) {
      return false;
    }
    if IsNil(a.organization) || IsNil(a.owner) {
      return false;
    }
    var normalized := env.normalizeAudience(a.relayAudience);
    if normalized.None? || normalized.value != a.relayAudience {
      return false;
    }
    if a.maxMessages <= 0 || a.maxMessageSize <= 0 {
      return false;
    }
    if a.expiresAt <= now {
      return false;
    }
    if a.policyVersion != "v1" || |a.participants| != 2 {
      return false;
    }
    if a.revocation.Some? && a.revocation.value.Some? && |a.revocation.value.value| > 256 {
      return false;
    }
    return true;
  }

  /** `Validate`: one pass filling five sets accepts exactly the well-formed
      aggregates. */
  method Validate(env: Environment, a: Authorization, now: int) returns (r: Result<(), Refusal>)
    ensures r.Ok? <==> WellFormed(env, a, now)
  {
    var header := CheckHeader(env, a, now);
    if !header {
      return Err(BadHeader);
    }
    var participants := CheckParticipants(a);
    if participants.Err? {
      return Err(participants.error);
    }
    if Digest(env, a) != a.policyDigest {
      return Err(DigestMismatch);
    }
    r := Ok(());
  }

  /** `Participant(role)`: the first participant holding the role. */
  method FindParticipant(a: Authorization, role: string) returns (r: Option<Participant>)
    ensures r.Some? ==> exists i :: 0 <= i < |a.participants| && r.value == a.participants[i] && r.value.role == role
                                    && forall k :: 0 <= k < i ==> a.participants[k].role != role
    ensures r.None? <==> forall i :: 0 <= i < |a.participants| ==> a.participants[i].role != role
  {
    for i := 0 to |a.participants|
      invariant forall k :: 0 <= k < i ==> a.participants[k].role != role
    {
      if a.participants[i].role == role {
        return Some(a.participants[i]);
      }
    }
    r := None;
  }

  function CountRole(ps: seq<Participant>, role: string): nat {
    if ps == [] then 0 else (if ps[0].role == role then 1 else 0) + CountRole(ps[1..], role)
  }

  /** Two participants, two roles, no repetition: exactly one initiator and
      exactly one responder, so both lookups succeed and nobody else is there. */
  lemma TwoSides(env: Environment, a: Authorization, now: int)
    requires WellFormed(env, a, now)
    ensures CountRole(a.participants, Initiator) == 1 && CountRole(a.participants, Responder) == 1
    ensures exists p: Participant, q: Participant :: p.role == Initiator && q.role == Responder
                           && (a.participants == [p, q] || a.participants == [q, p])
  {
    var x, y := a.participants[0], a.participants[1];
    assert Apart(x, y) && ParticipantOk(a, x) && ParticipantOk(a, y);
    PairCount(a.participants, Initiator);
    PairCount(a.participants, Responder);
    assert Initiator[0] != Responder[0];
    assert a.participants == [x, y];
  }

  lemma PairCount(ps: seq<Participant>, role: string)
    requires |ps| == 2
    ensures CountRole(ps, role) == (if ps[0].role == role then 1 else 0) + (if ps[1].role == role then 1 else 0)
  {
    assert CountRole(ps[1..][1..], role) == 0;
    assert CountRole(ps[1..], role) == if ps[1].role == role then 1 else 0;
  }

  function Swapped(a: Authorization): Authorization
    requires |a.participants| == 2
  {
    a.(participants := [a.participants[1], a.participants[0]])
  }

  /** The order in which the store returns the two rows never changes the verdict,
      and leaves the canonical policy alone exactly when the roles differ or grant
      the same set. */
  lemma RowOrderIrrelevant(env: Environment, a: Authorization, now: int)
    requires |a.participants| == 2
    ensures WellFormed(env, Swapped(a), now) <==> WellFormed(env, a, now)
    ensures CanonicalForm(PolicyOf(Swapped(a))) == CanonicalForm(PolicyOf(a))
       <==> a.participants[0].role != a.participants[1].role
            || Elements(a.participants[0].capabilities) == Elements(a.participants[1].capabilities)
  {
    SwapKeepsForm(a);
    SwapKeepsParticipants(a);
  }

  lemma SwapKeepsForm(a: Authorization)
    requires |a.participants| == 2
    ensures CanonicalForm(PolicyOf(Swapped(a))) == CanonicalForm(PolicyOf(a))
       <==> a.participants[0].role != a.participants[1].role
            || Elements(a.participants[0].capabilities) == Elements(a.participants[1].capabilities)
  {
    var p := PolicyOf(a);
    assert PolicyOf(Swapped(a)).participants == Exchange(p.participants, 0, 1);
    PairExchange(p);
  }

  lemma SwapKeepsParticipants(a: Authorization)
    requires |a.participants| == 2
    ensures ParticipantsOk(Swapped(a)) <==> ParticipantsOk(a)
  {
    var b := Swapped(a);
    assert ParticipantOk(b, b.participants[0]) <==> ParticipantOk(a, a.participants[1]);
    assert ParticipantOk(b, b.participants[1]) <==> ParticipantOk(a, a.participants[0]);
  }

  // ------------------------------------------------- What the digest is taken of

  /** Some participant of the authorization holds the role with that set. */
  predicate HoldsSet(a: Authorization, role: string, caps: set<string>) {
    exists i :: 0 <= i < |a.participants| && a.participants[i].role == role && Elements(a.participants[i].capabilities) == caps
  }

  lemma PolicyGrants(a: Authorization, role: string, caps: set<string>)
    ensures Grants(PolicyOf(a).participants, role, caps) <==> HoldsSet(a, role, caps)
  {
    var gs := PolicyOf(a).participants;
    assert forall i :: 0 <= i < |gs| ==> gs[i] == Grant(a.participants[i].role, a.participants[i].capabilities);
  }

  /** The serialised policy carries the authorization's version and limits, and for
      each role exactly the sets its participants hold. */
  lemma DigestMeans(env: Environment, a: Authorization)
    ensures exists f: Policy ::
              && Digest(env, a) == env.digest(f)
              && f.version == a.policyVersion && f.maxMessages == a.maxMessages && f.maxMessageSize == a.maxMessageSize
              && RolesSorted(f.participants)
              && forall role, caps :: Grants(f.participants, role, caps) <==> HoldsSet(a, role, caps)
  {
    var f := CanonicalForm(PolicyOf(a));
    CanonicalFormMeans(PolicyOf(a));
    forall role, caps
      ensures Grants(f.participants, role, caps) <==> HoldsSet(a, role, caps)
    {
      PolicyGrants(a, role, caps);
    }
  }

  predicate RolesDistinct(a: Authorization) {
    forall i, j :: 0 <= i < j < |a.participants| ==> a.participants[i].role != a.participants[j].role
  }

  /** Two authorizations have one such policy, so one digest under any digest that
      tells policies apart, if and only if version, limits and each role's set agree. */
  lemma SamePolicyExactly(a: Authorization, b: Authorization)
    requires RolesDistinct(a) && RolesDistinct(b)
    ensures CanonicalForm(PolicyOf(a)) == CanonicalForm(PolicyOf(b))
       <==> && a.policyVersion == b.policyVersion
            && a.maxMessages == b.maxMessages && a.maxMessageSize == b.maxMessageSize
            && forall role, caps :: HoldsSet(a, role, caps) <==> HoldsSet(b, role, caps)
  {
    CanonicalFormIdentifies(PolicyOf(a), PolicyOf(b));
    forall role, caps
      ensures Grants(PolicyOf(a).participants, role, caps) <==> HoldsSet(a, role, caps)
      ensures Grants(PolicyOf(b).participants, role, caps) <==> HoldsSet(b, role, caps)
    {
      PolicyGrants(a, role, caps);
      PolicyGrants(b, role, caps);
    }
  }

  /** Version 7 is the thirteenth hexadecimal digit of the printed identifier. */
  lemma V7Exactly(u: Uuid)
    ensures IsV7(u) <==> RefreshToken.UuidString(u)[14] == '7'
  {
    var group := HexEncode(u[6..8]);
    assert RefreshToken.UuidString(u)[14] == group[0] == HexDigit(u[6] / 16);
  }

  // ------------------------------------------ What is accepted, field by field

  lemma HeaderFields(env: Environment, a: Authorization, now: int)
    ensures HeaderOk(env, a, now) <==>
              && IsV7(a.id) && IsV7(a.session) && !IsNil(a.organization) && !IsNil(a.owner)
              && env.normalizeAudience(a.relayAudience) == Some(a.relayAudience)
              && a.maxMessages >= 1 && a.maxMessageSize >= 1 && now < a.expiresAt && a.policyVersion == "v1"
              && (a.revocation.Some? && a.revocation.value.Some? ==> |a.revocation.value.value| <= 256)
              && |a.participants| == 2
  {
  }

  lemma ParticipantFields(a: Authorization, p: Participant)
    ensures ParticipantOk(a, p) <==>
              && IsV7(p.id) && IsV7(p.aci) && p.authorizationId == a.id
              && !IsNil(p.serviceAccount) && !IsNil(p.client)
              && p.role in ["initiator", "responder"]
              && 1 <= |p.thumbprint| <= 128 && (forall k :: 0 <= k < |p.thumbprint| ==> ThumbprintChar(p.thumbprint[k]))
              && (forall k :: 0 <= k < |p.capabilities| ==> p.capabilities[k] in Vocabulary)
              && (forall k, l :: 0 <= k < l < |p.capabilities| ==> Lt(p.capabilities[k], p.capabilities[l]))
  {
  }

  /** An accepted pair: each fine on its own, and different in all five identities. */
  lemma PairFields(a: Authorization)
    requires |a.participants| == 2
    ensures var p, q := a.participants[0], a.participants[1];
            ParticipantsOk(a) <==>
              && ParticipantOk(a, p) && ParticipantOk(a, q)
              && p.id != q.id && p.aci != q.aci && p.serviceAccount != q.serviceAccount
              && p.client != q.client && p.role != q.role
  {
    var p, q := a.participants[0], a.participants[1];
    assert Apart(p, q) <==> p.id != q.id && p.aci != q.aci && p.serviceAccount != q.serviceAccount
                            && p.client != q.client && p.role != q.role;
    assert Passed(a, 2) <==> (forall i :: 0 <= i < 2 ==> ParticipantOk(a, a.participants[i])) && Apart(p, q);
  }
}
