/** How a consented scope string is narrowed by role and by live grants. */
module ScopeNarrowing {
  import opened StringOrder
  import Text

  const IdentityScopes := ["openid", "profile", "email", "address", "phone", "offline_access"]

  const UserScopes := ["users:read", "users:create", "users:update", "users:disable"]
  const UserSecretScopes := ["users:delete", "users:password:reset", "users:mfa:enroll", "users:mfa:revoke"]
  const OrgScopes := ["orgs:read", "orgs:update", "orgs:settings:update"]
  const SessionScopes := ["sessions:read", "sessions:revoke"]
  const M2MScopes := ["m2m:read", "m2m:create", "m2m:update", "m2m:disable", "m2m:delete"]
  const ClientScopes := ["clients:read", "clients:create", "clients:update", "clients:delete"]
  const IdpScopes := ["idps:read", "idps:create", "idps:update", "idps:delete", "audit:read"]

  /** `OrgAdminSessionScopes`. */
  const OrgAdminScopes := UserScopes + UserSecretScopes + OrgScopes + SessionScopes + M2MScopes + ClientScopes + IdpScopes

  /** `strings.Fields`. */
  function Tokens(scope: string): (ts: seq<string>)
    ensures forall k :: 0 <= k < |ts| ==> Text.Token(ts[k], Text.IsAsciiSpace)
  {
    Text.Fields(scope, Text.IsAsciiSpace)
  }

  /** The tokens that are allowed, each at its first occurrence. */
  function Keep(ts: seq<string>, ok: set<string>): (r: seq<string>)
    ensures forall x :: x in r <==> x in ts && x in ok
    ensures forall i, j :: 0 <= i < j < |r| ==> r[i] != r[j]
  {
    if ts == [] then []
    else
      var n := |ts| - 1;
      var r := Keep(ts[..n], ok);
      assert ts == ts[..n] + [ts[n]];
      if ts[n] in ok && ts[n] !in r then r + [ts[n]] else r
  }

  /** `keepScopes`. */
  method KeepScopes(scope: string, allowed: seq<string>, always: seq<string>) returns (r: string)
    ensures r == Narrow(scope, Elements(allowed) + Elements(always))
  {
    var ok: set<string> := {};
    for i := 0 to |allowed|
      invariant ok == Elements(allowed[..i])
    {
      assert allowed[..i + 1] == allowed[..i] + [allowed[i]];
      ok := ok + {allowed[i]};
    }
    assert allowed[..|allowed|] == allowed;
    for i := 0 to |always|
      invariant ok == Elements(allowed) + Elements(always[..i])
    {
      assert always[..i + 1] == always[..i] + [always[i]];
      ok := ok + {always[i]};
    }
    assert always[..|always|] == always;
    var ts := Tokens(scope);
    var seen: set<string> := {};
    var out: seq<string> := [];
    for i := 0 to |ts|
      invariant out == Keep(ts[..i], ok)
      invariant seen == Elements(out)
    {
      assert ts[..i + 1][..i] == ts[..i];
      if ts[i] !in ok {
        continue;
      }
      if ts[i] in seen {
        continue;
      }
      seen := seen + {ts[i]};
      out := out + [ts[i]];
    }
    assert ts[..|ts|] == ts;
    r := Text.Join(out, " ");
  }

  /** The value of `keepScopes`: narrowing a scope string to a set of scopes. */
  function Narrow(scope: string, ok: set<string>): string {
    Text.Join(Keep(Tokens(scope), ok), " ")
  }

  // --------------------------------------------------------------- Laws

  /** Reading back a narrowed scope gives the kept tokens. */
  lemma TokensOfNarrow(scope: string, ok: set<string>)
    ensures Tokens(Narrow(scope, ok)) == Keep(Tokens(scope), ok)
  {
    var ts, kept := Tokens(scope), Keep(Tokens(scope), ok);
    forall k | 0 <= k < |kept|
      ensures Text.Token(kept[k], Text.IsAsciiSpace)
    {
      assert kept[k] in ts;
    }
    Text.FieldsJoin(kept, ' ', Text.IsAsciiSpace);
  }

  lemma KeepLast(ts: seq<string>, t: string, ok: set<string>)
    ensures Keep(ts + [t], ok) == Keep(ts, ok) + if t in ok && t !in Keep(ts, ok) then [t] else []
  {
    assert (ts + [t])[..|ts|] == ts;
  }

  lemma {:induction false} KeepTwice(ts: seq<string>, a: set<string>, b: set<string>)
    ensures Keep(Keep(ts, a), b) == Keep(ts, a * b)
  {
    if ts != [] {
      var front, t := ts[..|ts| - 1], ts[|ts| - 1];
      assert ts == front + [t];
      KeepTwice(front, a, b);
      KeepLast(front, t, a);
      KeepLast(front, t, a * b);
      if t in a && t !in Keep(front, a) {
        KeepLast(Keep(front, a), t, b);
      }
    }
  }

  /** Narrowing composes as intersection, to the same string. */
  lemma NarrowComposes(scope: string, a: set<string>, b: set<string>)
    ensures Narrow(Narrow(scope, a), b) == Narrow(scope, a * b)
  {
    TokensOfNarrow(scope, a);
    KeepTwice(Tokens(scope), a, b);
  }

  /** The position of the first occurrence of `x`. */
  function First(ts: seq<string>, x: string): (i: nat)
    requires x in ts
    ensures i < |ts| && ts[i] == x && forall j :: 0 <= j < i ==> ts[j] != x
  {
    if ts[0] == x then 0 else 1 + First(ts[1..], x)
  }

  /** The kept tokens stand in the order of their first occurrences. */
  lemma {:induction false} KeepInOrder(ts: seq<string>, ok: set<string>, i: nat, j: nat)
    requires i < j < |Keep(ts, ok)|
    ensures Keep(ts, ok)[i] in ts && Keep(ts, ok)[j] in ts
    ensures First(ts, Keep(ts, ok)[i]) < First(ts, Keep(ts, ok)[j])
  {
    var n := |ts| - 1;
    var r, k := Keep(ts[..n], ok), Keep(ts, ok);
    assert k[i] in k && k[j] in k;
    assert ts == ts[..n] + [ts[n]];
    assert k[i] in ts[..n] by { assert r[i] == k[i] && r[i] in r; }
    FirstInPrefix(ts, n, k[i]);
    if j < |r| {
      KeepInOrder(ts[..n], ok, i, j);
      FirstInPrefix(ts, n, k[j]);
    } else {
      assert k[j] == ts[n] && ts[n] !in r;
    }
  }

  lemma FirstInPrefix(ts: seq<string>, n: nat, x: string)
    requires n <= |ts| && x in ts[..n]
    ensures x in ts && First(ts, x) == First(ts[..n], x)
  {
  }

  // ------------------------------------------------- Consent, role and live set

  /** `PermittedScopesForRole`: identity scopes, and the admin scopes as they come
      back from the session token's scope string. */
  function PermittedForRole(role: string): seq<string> {
    IdentityScopes + if role == "org_admin" then Tokens(Text.Join(OrgAdminScopes, " ")) else []
  }

  /** `IntersectConsentedScope`. */
  function IntersectConsented(consented: string, role: string): string {
    Narrow(consented, Elements(PermittedForRole(role)))
  }

  /** `NarrowScopeToLive`. */
  function NarrowToLive(tokenScope: string, live: seq<string>): string {
    Narrow(tokenScope, Elements(live) + Elements(IdentityScopes))
  }

  predicate AllTokens(ts: seq<string>) {
    forall k :: 0 <= k < |ts| ==> Text.Token(ts[k], Text.IsAsciiSpace)
  }

  lemma UserScopesAreTokens()
    ensures AllTokens(UserScopes)
  {
  }

  lemma UserSecretScopesAreTokens()
    ensures AllTokens(UserSecretScopes)
  {
  }

  lemma SessionScopesAreTokens()
    ensures AllTokens(SessionScopes)
  {
  }

  lemma OrgScopesAreTokens()
    ensures AllTokens(OrgScopes)
  {
  }

  lemma M2MScopesAreTokens()
    ensures AllTokens(M2MScopes)
  {
  }

  lemma ClientScopesAreTokens()
    ensures AllTokens(ClientScopes)
  {
  }

  lemma IdpScopesAreTokens()
    ensures AllTokens(IdpScopes)
  {
  }

  lemma AdminScopesAreTokens()
    ensures AllTokens(OrgAdminScopes)
  {
    UserScopesAreTokens();
    UserSecretScopesAreTokens();
    OrgScopesAreTokens();
    SessionScopesAreTokens();
    M2MScopesAreTokens();
    ClientScopesAreTokens();
    IdpScopesAreTokens();
    var users := UserScopes + UserSecretScopes;
    BothTokens(UserScopes, UserSecretScopes);
    BothTokens(users, OrgScopes);
    BothTokens(users + OrgScopes, SessionScopes);
    BothTokens(users + OrgScopes + SessionScopes, M2MScopes);
    BothTokens(users + OrgScopes + SessionScopes + M2MScopes, ClientScopes);
    BothTokens(users + OrgScopes + SessionScopes + M2MScopes + ClientScopes, IdpScopes);
  }

  lemma BothTokens(a: seq<string>, b: seq<string>)
    requires AllTokens(a) && AllTokens(b)
    ensures AllTokens(a + b)
  {
  }

  /** An organisation admin is permitted exactly the two published lists. */
  lemma AdminPermitted()
    ensures PermittedForRole("org_admin") == IdentityScopes + OrgAdminScopes
  {
    AdminScopesAreTokens();
    Text.FieldsJoin(OrgAdminScopes, ' ', Text.IsAsciiSpace);
  }

  /** Every other role is permitted the identity scopes only. */
  lemma OthersPermitted(role: string)
    requires role != "org_admin"
    ensures PermittedForRole(role) == IdentityScopes
  {
  }

  lemma PermittedExactly(role: string, x: string)
    ensures x in PermittedForRole(role) <==> x in IdentityScopes || (role == "org_admin" && x in OrgAdminScopes)
  {
    if role == "org_admin" {
      AdminPermitted();
    } else {
      OthersPermitted(role);
    }
  }

  /** A token's scope after consent, role and any live set: nothing beyond
      the consent ever appears; identity scopes survive every role and every live
      set, admin scopes only an admin and only while they are live. */
  lemma NarrowedTokenMeans(consented: string, role: string, live: seq<string>, x: string)
    ensures var token := IntersectConsented(consented, role);
            x in Tokens(NarrowToLive(token, live)) <==>
              && x in Tokens(consented)
              && (x in IdentityScopes || (role == "org_admin" && x in OrgAdminScopes && x in live))
  {
    PermittedExactly(role, x);
    var a, b := Elements(PermittedForRole(role)), Elements(live) + Elements(IdentityScopes);
    NarrowComposes(consented, a, b);
    TokensOfNarrow(consented, a * b);
    assert x in a * b <==> x in PermittedForRole(role) && (x in live || x in IdentityScopes);
  }

  /** Repeating either narrowing changes nothing, and two live sets may be applied
      in either order. */
  lemma NarrowingSettles(consented: string, role: string, live: seq<string>, later: seq<string>)
    ensures var token := IntersectConsented(consented, role);
            && IntersectConsented(token, role) == token
            && NarrowToLive(NarrowToLive(token, live), live) == NarrowToLive(token, live)
            && NarrowToLive(NarrowToLive(token, live), later) == NarrowToLive(NarrowToLive(token, later), live)
  {
    var a := Elements(PermittedForRole(role));
    var token := IntersectConsented(consented, role);
    var b, c := Elements(live) + Elements(IdentityScopes), Elements(later) + Elements(IdentityScopes);
    NarrowComposes(consented, a, a);
    assert a * a == a;
    NarrowComposes(token, b, b);
    assert b * b == b;
    NarrowComposes(token, b, c);
    NarrowComposes(token, c, b);
    assert b * c == c * b;
  }
}
