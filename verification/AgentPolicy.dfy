/** The capability policy of an agent communication authorization and its
    canonical form. */
module AgentPolicy {
  import opened Wrappers
  import opened StringOrder

  // ---------------------------------------------------------- Capabilities

  const Vocabulary: set<string> := {
    "communication.discuss", "repository.read", "repository.write", "command.execute",
    "test.execute", "network.access", "report.final.required"
  }

  predicate Listed(caps: seq<string>) {
    forall i :: 0 <= i < |caps| ==> caps[i] in Vocabulary
  }

  /** `CanonicalizeAgentCommunicationCapabilities`: a hash set, then a sort. */
  method CanonicalizeCapabilities(raw: seq<string>) returns (r: Result<seq<string>, string>)
    ensures r.Ok? <==> Listed(raw)
    ensures r.Ok? ==> r.value == Canonical(raw)
    ensures r.Err? ==> r.error in raw && r.error !in Vocabulary
  {
    var seen: set<string> := {};
    var out: seq<string> := [];
    for i := 0 to |raw|
      invariant seen == Elements(out) == Elements(raw[..i])
      invariant forall j, k :: 0 <= j < k < |out| ==> out[j] != out[k]
      invariant forall j :: 0 <= j < i ==> raw[j] in Vocabulary
    {
      var c := raw[i];
      assert raw[..i + 1] == raw[..i] + [c];
      ElementsConcat(raw[..i], [c]);
      if c !in Vocabulary {
        return Err(c);
      }
      if c in seen {
        continue;
      }
      seen := seen + {c};
      ElementsConcat(out, [c]);
      out := out + [c];
    }
    assert raw[..|raw|] == raw;
    SortDistinct(out);
    CanonicalIdentifiesSets(out, raw);
    r := Ok(Sort(out));
  }

  /** The deduplication of `Canonical`: the kept values are appended to a slice
      that shares the array being read, and the comparison looks back into that
      same array. */
  method DedupInPlace(caps: array<string>) returns (n: nat)
    modifies caps
    ensures n <= caps.Length
    ensures caps[..n] == DropAdjacent(old(caps[..]))
  {
    n := 0;
    ghost var was := caps[..];
    for i := 0 to caps.Length
      invariant n <= i
      invariant caps[..n] == DropAdjacent(was[..i])
      invariant forall k :: n <= k < caps.Length ==> caps[k] == was[k]
      invariant i > 0 ==> caps[i - 1] == was[i - 1]
    {
      var v := caps[i];
      assert was[..i + 1][..i] == was[..i];
      assert i > 0 ==> was[..i + 1][i - 1] == was[i - 1];
      if i > 0 && v == caps[i - 1] {
        continue;
      }
      caps[n] := v;
      n := n + 1;
      assert caps[..n] == caps[..n - 1] + [v];
    }
    assert was[..caps.Length] == was;
  }

  // ---------------------------------------------------------------- Policies

  datatype Grant = Grant(role: string, capabilities: seq<string>)

  datatype Policy = Policy(version: string, maxMessages: int, maxMessageSize: int, participants: seq<Grant>)

  function CanonicalGrant(g: Grant): Grant {
    Grant(g.role, Canonical(g.capabilities))
  }

  function CanonicalGrants(gs: seq<Grant>): (r: seq<Grant>)
    ensures |r| == |gs|
  {
    seq(|gs|, i requires 0 <= i < |gs| => CanonicalGrant(gs[i]))
  }

  function InsertByRole(g: Grant, gs: seq<Grant>): (r: seq<Grant>) {
    if gs == [] || Lt(g.role, gs[0].role) then [g] + gs else [gs[0]] + InsertByRole(g, gs[1..])
  }

  /** `sort.SliceStable` by role. */
  function SortByRole(gs: seq<Grant>): (r: seq<Grant>) {
    if gs == [] then [] else InsertByRole(gs[|gs| - 1], SortByRole(gs[..|gs| - 1]))
  }

  /** What `Canonical` serialises. */
  function CanonicalForm(p: Policy): Policy {
    p.(participants := SortByRole(CanonicalGrants(p.participants)))
  }

  /** `Canonical`, up to the final serialisation. */
  method BuildCanonical(p: Policy) returns (c: Policy)
    ensures c == CanonicalForm(p)
  {
    var out: seq<Grant> := [];
    for i := 0 to |p.participants|
      invariant out == CanonicalGrants(p.participants[..i])
    {
      var part := p.participants[i];
      var sorted := Sort(part.capabilities);
      var caps := new string[|sorted|](j requires 0 <= j < |sorted| => sorted[j]);
      assert caps[..] == sorted;
      var n := DedupInPlace(caps);
      out := out + [Grant(part.role, caps[..n])];
    }
    assert p.participants[..|p.participants|] == p.participants;
    c := Policy(p.version, p.maxMessages, p.maxMessageSize, SortByRole(out));
  }

  predicate DistinctRoles(gs: seq<Grant>) {
    forall i, j :: 0 <= i < j < |gs| ==> gs[i].role != gs[j].role
  }

  /** What the list grants to `role`: the set of capabilities, if the role occurs. */
  predicate Grants(gs: seq<Grant>, role: string, caps: set<string>) {
    exists i :: 0 <= i < |gs| && gs[i].role == role && Elements(gs[i].capabilities) == caps
  }

  /** Two policies authorise the same thing. */
  ghost predicate SameAuthority(p: Policy, q: Policy) {
    && SameHeader(p, q)
    && forall role, caps :: Grants(p.participants, role, caps) <==> Grants(q.participants, role, caps)
  }

  predicate RolesSorted(gs: seq<Grant>) {
    forall i, j :: 0 <= i < j < |gs| ==> !Lt(gs[j].role, gs[i].role)
  }

  lemma {:induction false} InsertByRoleMeans(g: Grant, gs: seq<Grant>)
    requires RolesSorted(gs)
    ensures RolesSorted(InsertByRole(g, gs))
    ensures multiset(InsertByRole(g, gs)) == multiset(gs) + multiset{g}
  {
    if gs == [] {
    } else if Lt(g.role, gs[0].role) {
      LtAsymmetric(g.role, gs[0].role);
      forall k | 0 <= k < |gs|
        ensures !Lt(gs[k].role, g.role)
      {
        if Lt(gs[k].role, g.role) {
          LtTransitive(gs[k].role, g.role, gs[0].role);
        }
      }
    } else {
      InsertByRoleMeans(g, gs[1..]);
      var rest := InsertByRole(g, gs[1..]);
      assert gs == [gs[0]] + gs[1..];
      forall k | 0 <= k < |rest|
        ensures !Lt(rest[k].role, gs[0].role)
      {
        assert rest[k] in multiset(rest);
        assert rest[k] == g || rest[k] in gs[1..];
      }
    }
  }

  lemma {:induction false} SortByRoleMeans(gs: seq<Grant>)
    ensures RolesSorted(SortByRole(gs)) && multiset(SortByRole(gs)) == multiset(gs)
  {
    if gs != [] {
      var front, last := gs[..|gs| - 1], gs[|gs| - 1];
      SortByRoleMeans(front);
      InsertByRoleMeans(last, SortByRole(front));
      assert gs == front + [last];
      assert multiset(gs) == multiset(front) + multiset{last};
    }
  }

  // ------------------------------------------------- Role by role

  /** The grants of one role, in order. */
  function OfRole(gs: seq<Grant>, role: string): seq<Grant> {
    if gs == [] then []
    else (if gs[0].role == role then [gs[0]] else []) + OfRole(gs[1..], role)
  }

  /** The canonical capability lists of one role's participants, in order. */
  function Lists(gs: seq<Grant>, role: string): (r: seq<seq<string>>)
    ensures |r| == |OfRole(gs, role)|
  {
    var of := OfRole(gs, role);
    seq(|of|, i requires 0 <= i < |of| => Canonical(of[i].capabilities))
  }

  lemma {:induction false} OfRoleConcat(a: seq<Grant>, b: seq<Grant>, role: string)
    ensures OfRole(a + b, role) == OfRole(a, role) + OfRole(b, role)
  {
    if a == [] {
      assert a + b == b;
    } else {
      var head := if a[0].role == role then [a[0]] else [];
      assert (a + b)[0] == a[0] && (a + b)[1..] == a[1..] + b;
      OfRoleConcat(a[1..], b, role);
      assert OfRole(a + b, role) == head + OfRole(a[1..] + b, role);
    }
  }

  lemma {:induction false} OfRoleMembers(gs: seq<Grant>, role: string)
    ensures forall g :: g in OfRole(gs, role) <==> g in gs && g.role == role
  {
    if gs != [] {
      OfRoleMembers(gs[1..], role);
      assert gs == [gs[0]] + gs[1..];
    }
  }

  lemma {:induction false} NoneOfRole(gs: seq<Grant>, role: string)
    requires forall k :: 0 <= k < |gs| ==> gs[k].role != role
    ensures OfRole(gs, role) == []
  {
    if gs != [] {
      NoneOfRole(gs[1..], role);
    }
  }

  /** Inserting by role is stable: the grant comes last among those of its role. */
  lemma {:induction false} InsertIsStable(g: Grant, gs: seq<Grant>, role: string)
    requires RolesSorted(gs)
    ensures OfRole(InsertByRole(g, gs), role) == OfRole(gs, role) + OfRole([g], role)
  {
    if gs == [] {
    } else if Lt(g.role, gs[0].role) {
      OfRoleConcat([g], gs, role);
      if g.role == role {
        LtIrreflexive(role);
        NoneOfRole(gs, role);
      }
    } else {
      var rest := InsertByRole(g, gs[1..]);
      InsertIsStable(g, gs[1..], role);
      assert ([gs[0]] + rest)[1..] == rest;
    }
  }

  lemma {:induction false} SortIsStable(gs: seq<Grant>, role: string)
    ensures OfRole(SortByRole(gs), role) == OfRole(gs, role)
  {
    if gs != [] {
      var n := |gs| - 1;
      SortIsStable(gs[..n], role);
      SortByRoleMeans(gs[..n]);
      InsertIsStable(gs[n], SortByRole(gs[..n]), role);
      OfRoleConcat(gs[..n], [gs[n]], role);
      assert gs == gs[..n] + [gs[n]];
    }
  }

  ghost predicate SameByRole(a: seq<Grant>, b: seq<Grant>) {
    forall role :: OfRole(a, role) == OfRole(b, role)
  }

  /** The first role of a sorted list is at most any other that occurs. */
  lemma FirstRoleLeast(a: seq<Grant>, b: seq<Grant>)
    requires RolesSorted(b) && SameByRole(a, b) && a != []
    ensures b != [] && !Lt(a[0].role, b[0].role)
  {
    OfRoleMembers(a, a[0].role);
    OfRoleMembers(b, a[0].role);
    assert a[0] in OfRole(b, a[0].role);
    var j :| 0 <= j < |b| && b[j] == a[0];
    LtIrreflexive(a[0].role);
  }

  /** A list sorted by role is determined by its subsequences, role by role. */
  lemma {:induction false} SortedDetermined(a: seq<Grant>, b: seq<Grant>)
    requires RolesSorted(a) && RolesSorted(b) && SameByRole(a, b)
    ensures a == b
  {
    if a == [] {
      if b != [] {
        FirstRoleLeast(b, a);
      }
    } else {
      FirstRoleLeast(a, b);
      FirstRoleLeast(b, a);
      LtTotal(a[0].role, b[0].role);
      assert OfRole(a, a[0].role)[0] == a[0] && OfRole(b, b[0].role)[0] == b[0];
      forall role
        ensures OfRole(a[1..], role) == OfRole(b[1..], role)
      {
        TailOfRole(a, role);
        TailOfRole(b, role);
      }
      SortedDetermined(a[1..], b[1..]);
      assert a == [a[0]] + a[1..] && b == [b[0]] + b[1..];
    }
  }

  lemma TailOfRole(gs: seq<Grant>, role: string)
    requires gs != []
    ensures gs[0].role != role ==> OfRole(gs[1..], role) == OfRole(gs, role)
    ensures gs[0].role == role ==> OfRole(gs, role) != [] && OfRole(gs[1..], role) == OfRole(gs, role)[1..]
  {
  }

  lemma {:induction false} CanonicalOfRole(gs: seq<Grant>, role: string)
    ensures OfRole(CanonicalGrants(gs), role) == CanonicalGrants(OfRole(gs, role))
  {
    if gs != [] {
      assert CanonicalGrants(gs)[1..] == CanonicalGrants(gs[1..]);
      CanonicalOfRole(gs[1..], role);
    }
  }

  /** Same lists, same canonical grants. */
  lemma ListsDecide(a: seq<Grant>, b: seq<Grant>, role: string)
    ensures Lists(a, role) == Lists(b, role) <==> CanonicalGrants(OfRole(a, role)) == CanonicalGrants(OfRole(b, role))
  {
    var x, y := OfRole(a, role), OfRole(b, role);
    OfRoleMembers(a, role);
    OfRoleMembers(b, role);
    forall i | 0 <= i < |x|
      ensures CanonicalGrants(x)[i] == Grant(role, Lists(a, role)[i])
    {
      assert x[i] in x;
    }
    forall i | 0 <= i < |y|
      ensures CanonicalGrants(y)[i] == Grant(role, Lists(b, role)[i])
    {
      assert y[i] in y;
    }
    if CanonicalGrants(x) == CanonicalGrants(y) {
      assert |x| == |y|;
      assert forall i :: 0 <= i < |x| ==> Lists(a, role)[i] == CanonicalGrants(x)[i].capabilities;
    }
  }

  predicate SameHeader(p: Policy, q: Policy) {
    p.version == q.version && p.maxMessages == q.maxMessages && p.maxMessageSize == q.maxMessageSize
  }

  /** Exactly what the canonical form remembers, for every two policies: version,
      limits and, for each role, the canonical lists of its participants in order. */
  lemma CanonicalFormExactly(p: Policy, q: Policy)
    ensures CanonicalForm(p) == CanonicalForm(q)
       <==> SameHeader(p, q) && forall role :: Lists(p.participants, role) == Lists(q.participants, role)
  {
    var a, b := CanonicalGrants(p.participants), CanonicalGrants(q.participants);
    SortByRoleMeans(a);
    SortByRoleMeans(b);
    forall role
      ensures OfRole(SortByRole(a), role) == OfRole(SortByRole(b), role)
         <==> Lists(p.participants, role) == Lists(q.participants, role)
    {
      SortIsStable(a, role);
      SortIsStable(b, role);
      CanonicalOfRole(p.participants, role);
      CanonicalOfRole(q.participants, role);
      ListsDecide(p.participants, q.participants, role);
    }
    if forall role :: Lists(p.participants, role) == Lists(q.participants, role) {
      SortedDetermined(SortByRole(a), SortByRole(b));
    }
  }

  // ------------------------------------------------- What follows from it

  lemma {:induction false} RankOf(gs: seq<Grant>, i: nat)
    requires i < |gs|
    ensures var rank := |OfRole(gs[..i], gs[i].role)|;
            rank < |OfRole(gs, gs[i].role)| && OfRole(gs, gs[i].role)[rank] == gs[i]
  {
    var role := gs[i].role;
    assert gs == gs[..i] + gs[i..];
    OfRoleConcat(gs[..i], gs[i..], role);
    assert OfRole(gs[i..], role)[0] == gs[i];
  }

  lemma {:induction false} AtMostOne(gs: seq<Grant>, role: string)
    requires DistinctRoles(gs)
    ensures |OfRole(gs, role)| <= 1
  {
    if gs != [] {
      AtMostOne(gs[1..], role);
      if gs[0].role == role {
        NoneOfRole(gs[1..], role);
      }
    }
  }

  /** What is granted to a role, read off its lists. */
  lemma GrantsOfLists(gs: seq<Grant>, role: string, caps: set<string>)
    ensures Grants(gs, role, caps) <==> exists i :: 0 <= i < |Lists(gs, role)| && Elements(Lists(gs, role)[i]) == caps
  {
    var of, lists := OfRole(gs, role), Lists(gs, role);
    OfRoleMembers(gs, role);
    forall i | 0 <= i < |of|
      ensures of[i] in gs && of[i].role == role && Elements(lists[i]) == Elements(of[i].capabilities)
    {
      assert of[i] in of;
      CanonicalMeans(of[i].capabilities);
    }
    if Grants(gs, role, caps) {
      var j :| 0 <= j < |gs| && gs[j].role == role && Elements(gs[j].capabilities) == caps;
      assert gs[j] in of;
      var i :| 0 <= i < |of| && of[i] == gs[j];
      assert Elements(lists[i]) == caps;
    }
  }

  lemma ListsSorted(gs: seq<Grant>, role: string, i: nat)
    requires i < |Lists(gs, role)|
    ensures StrictlySorted(Lists(gs, role)[i])
  {
    CanonicalMeans(OfRole(gs, role)[i].capabilities);
  }

  /** What one list grants, the other does too. */
  lemma ListCarries(a: seq<Grant>, b: seq<Grant>, role: string)
    requires Lists(a, role) != [] && |Lists(b, role)| <= 1
    requires forall caps :: Grants(a, role, caps) <==> Grants(b, role, caps)
    ensures |Lists(b, role)| == 1 && Lists(b, role)[0] == Lists(a, role)[0]
  {
    var caps := Elements(Lists(a, role)[0]);
    GrantsOfLists(a, role, caps);
    GrantsOfLists(b, role, caps);
    ListsSorted(a, role, 0);
    ListsSorted(b, role, 0);
    StrictUnique(Lists(a, role)[0], Lists(b, role)[0]);
  }

  /** With distinct roles a role's lists are decided by what it is granted. */
  lemma OneListByGrants(a: seq<Grant>, b: seq<Grant>, role: string)
    requires DistinctRoles(a) && DistinctRoles(b)
    requires forall caps :: Grants(a, role, caps) <==> Grants(b, role, caps)
    ensures Lists(a, role) == Lists(b, role)
  {
    AtMostOne(a, role);
    AtMostOne(b, role);
    if Lists(a, role) != [] {
      ListCarries(a, b, role);
    } else if Lists(b, role) != [] {
      ListCarries(b, a, role);
    }
  }

  /** The canonical form identifies exactly the policies that authorise the same
      thing, whatever the order of participants, the order of capabilities or
      their repetitions, as long as roles are distinct. */
  lemma CanonicalFormIdentifies(p: Policy, q: Policy)
    requires DistinctRoles(p.participants) && DistinctRoles(q.participants)
    ensures CanonicalForm(p) == CanonicalForm(q) <==> SameAuthority(p, q)
  {
    CanonicalFormExactly(p, q);
    if SameAuthority(p, q) {
      forall role
        ensures Lists(p.participants, role) == Lists(q.participants, role)
      {
        OneListByGrants(p.participants, q.participants, role);
      }
    }
    if CanonicalForm(p) == CanonicalForm(q) {
      forall role, caps
        ensures Grants(p.participants, role, caps) <==> Grants(q.participants, role, caps)
      {
        GrantsOfLists(p.participants, role, caps);
        GrantsOfLists(q.participants, role, caps);
      }
    }
  }

  /** The canonical form of any policy: sorted by role, strictly if roles are
      distinct, every list strictly increasing, the same grants. */
  lemma CanonicalFormMeans(p: Policy)
    ensures RolesSorted(CanonicalForm(p).participants)
    ensures DistinctRoles(p.participants) ==> StrictRoles(CanonicalForm(p).participants)
    ensures forall i :: 0 <= i < |CanonicalForm(p).participants| ==> StrictlySorted(CanonicalForm(p).participants[i].capabilities)
    ensures forall role, caps :: Grants(CanonicalForm(p).participants, role, caps) <==> Grants(p.participants, role, caps)
  {
    var ps, gs := p.participants, CanonicalGrants(p.participants);
    var r := SortByRole(gs);
    SortByRoleMeans(gs);
    forall i | 0 <= i < |r|
      ensures StrictlySorted(r[i].capabilities)
    {
      assert r[i] in multiset(gs);
      var j :| 0 <= j < |gs| && gs[j] == r[i];
      CanonicalMeans(ps[j].capabilities);
    }
    CanonicalFormIdempotent(p);
    CanonicalFormExactly(CanonicalForm(p), p);
    forall role, caps
      ensures Grants(r, role, caps) <==> Grants(ps, role, caps)
    {
      GrantsOfLists(r, role, caps);
      GrantsOfLists(ps, role, caps);
    }
    if DistinctRoles(ps) {
      SortStrict(ps);
    }
  }

  predicate StrictRoles(gs: seq<Grant>) {
    forall i, j :: 0 <= i < j < |gs| ==> Lt(gs[i].role, gs[j].role)
  }

  lemma SortStrict(ps: seq<Grant>)
    requires DistinctRoles(ps)
    ensures StrictRoles(SortByRole(CanonicalGrants(ps)))
  {
    var gs := CanonicalGrants(ps);
    var r := SortByRole(gs);
    SortByRoleMeans(gs);
    forall i, j | 0 <= i < j < |r|
      ensures Lt(r[i].role, r[j].role)
    {
      SortIsStable(gs, r[i].role);
      AtMostOne(gs, r[i].role);
      TwoOfRole(r, i, j);
      LtTotal(r[i].role, r[j].role);
    }
  }

  lemma TwoOfRole(gs: seq<Grant>, i: nat, j: nat)
    requires i < j < |gs|
    ensures gs[i].role == gs[j].role ==> |OfRole(gs, gs[i].role)| >= 2
  {
    if gs[i].role == gs[j].role {
      var role := gs[i].role;
      RankOf(gs, j);
      RankOf(gs[..j], i);
    }
  }

  // --------------------------------------------------------- Reordering

  /** The same participants in any order. */
  ghost predicate Reordered(p: Policy, q: Policy) {
    SameHeader(p, q) && multiset(p.participants) == multiset(q.participants)
  }

  /** Participants of one role do not differ in what they may do. */
  predicate RolesAgree(gs: seq<Grant>) {
    forall i, j :: 0 <= i < |gs| && 0 <= j < |gs| && gs[i].role == gs[j].role
      ==> Elements(gs[i].capabilities) == Elements(gs[j].capabilities)
  }

  lemma {:induction false} OfRoleCount(gs: seq<Grant>, role: string, g: Grant)
    ensures multiset(OfRole(gs, role))[g] == if g.role == role then multiset(gs)[g] else 0
  {
    if gs != [] {
      OfRoleCount(gs[1..], role, g);
      assert gs == [gs[0]] + gs[1..];
    }
  }

  lemma OfRolePermutes(a: seq<Grant>, b: seq<Grant>, role: string)
    requires multiset(a) == multiset(b)
    ensures multiset(OfRole(a, role)) == multiset(OfRole(b, role))
  {
    forall g
      ensures multiset(OfRole(a, role))[g] == multiset(OfRole(b, role))[g]
    {
      OfRoleCount(a, role, g);
      OfRoleCount(b, role, g);
    }
  }

  lemma AgreeingLists(a: seq<Grant>, b: seq<Grant>, role: string)
    requires RolesAgree(a) && multiset(a) == multiset(b)
    ensures Lists(a, role) == Lists(b, role)
  {
    var x, y := OfRole(a, role), OfRole(b, role);
    OfRolePermutes(a, b, role);
    assert |x| == |multiset(x)| == |multiset(y)| == |y|;
    OfRoleMembers(a, role);
    forall i | 0 <= i < |x|
      ensures Canonical(x[i].capabilities) == Canonical(y[i].capabilities)
    {
      assert x[i] in multiset(x) && y[i] in multiset(y);
      assert x[i] in a && y[i] in a;
      CanonicalIdentifiesSets(x[i].capabilities, y[i].capabilities);
    }
  }

  function Exchange(gs: seq<Grant>, i: nat, j: nat): seq<Grant>
    requires i < j < |gs|
  {
    gs[i := gs[j]][j := gs[i]]
  }

  /** Exchanging two participants of one role who differ shows. */
  lemma ExchangeShows(gs: seq<Grant>, i: nat, j: nat)
    requires i < j < |gs| && gs[i].role == gs[j].role
    requires Elements(gs[i].capabilities) != Elements(gs[j].capabilities)
    ensures Lists(Exchange(gs, i, j), gs[i].role) != Lists(gs, gs[i].role)
  {
    var hs := Exchange(gs, i, j);
    assert hs[..i] == gs[..i] && hs[i] == gs[j];
    var role := gs[i].role;
    var rank := |OfRole(gs[..i], role)|;
    RankOf(gs, i);
    RankOf(hs, i);
    CanonicalIdentifiesSets(gs[i].capabilities, gs[j].capabilities);
    assert Lists(gs, role)[rank] == Canonical(gs[i].capabilities);
    assert Lists(hs, role)[rank] == Canonical(gs[j].capabilities);
  }

  lemma AgreeingForms(p: Policy, q: Policy)
    requires RolesAgree(p.participants) && Reordered(p, q)
    ensures CanonicalForm(q) == CanonicalForm(p)
  {
    forall role
      ensures Lists(p.participants, role) == Lists(q.participants, role)
    {
      AgreeingLists(p.participants, q.participants, role);
    }
    CanonicalFormExactly(q, p);
  }

  lemma ExchangedForm(p: Policy, i: nat, j: nat)
    requires i < j < |p.participants| && p.participants[i].role == p.participants[j].role
    requires Elements(p.participants[i].capabilities) != Elements(p.participants[j].capabilities)
    ensures var q := p.(participants := Exchange(p.participants, i, j));
            Reordered(p, q) && CanonicalForm(q) != CanonicalForm(p)
  {
    var q := p.(participants := Exchange(p.participants, i, j));
    ExchangeShows(p.participants, i, j);
    CanonicalFormExactly(q, p);
  }

  /** Reordering participants never changes the canonical form if and only if no
      two participants of one role differ in their set of capabilities. */
  lemma OrderForgottenExactly(p: Policy)
    ensures (forall q :: Reordered(p, q) ==> CanonicalForm(q) == CanonicalForm(p)) <==> RolesAgree(p.participants)
  {
    var ps := p.participants;
    if RolesAgree(ps) {
      forall q | Reordered(p, q)
        ensures CanonicalForm(q) == CanonicalForm(p)
      {
        AgreeingForms(p, q);
      }
    } else {
      var i, j :| 0 <= i < |ps| && 0 <= j < |ps| && ps[i].role == ps[j].role
                  && Elements(ps[i].capabilities) != Elements(ps[j].capabilities);
      if i < j {
        ExchangedForm(p, i, j);
      } else {
        ExchangedForm(p, j, i);
      }
    }
  }

  /** Two participants may change places unseen exactly when their roles differ or
      grant the same set. */
  lemma PairExchange(p: Policy)
    requires |p.participants| == 2
    ensures CanonicalForm(p.(participants := Exchange(p.participants, 0, 1))) == CanonicalForm(p)
       <==> p.participants[0].role != p.participants[1].role
            || Elements(p.participants[0].capabilities) == Elements(p.participants[1].capabilities)
  {
    var ps := p.participants;
    var q := p.(participants := Exchange(ps, 0, 1));
    if ps[0].role != ps[1].role || Elements(ps[0].capabilities) == Elements(ps[1].capabilities) {
      AgreeingForms(p, q);
    } else {
      ExchangedForm(p, 0, 1);
    }
  }

  /** One such pair: these two policies grant the same and differ in canonical
      form. */
  lemma RepeatedRoleBreaksIdentity()
    ensures var p := Policy("v1", 1, 1, [Grant("r", ["a"]), Grant("r", ["b"])]);
            var q := Policy("v1", 1, 1, [Grant("r", ["b"]), Grant("r", ["a"])]);
            SameAuthority(p, q) && CanonicalForm(p) != CanonicalForm(q)
  {
    var a, b := Grant("r", ["a"]), Grant("r", ["b"]);
    var p := Policy("v1", 1, 1, [a, b]);
    assert "a" in Elements(a.capabilities) && "a" !in Elements(b.capabilities) by {
      assert "a"[0] != "b"[0];
    }
    ExchangedForm(p, 0, 1);
    assert Exchange([a, b], 0, 1) == [b, a];
    forall role, caps
      ensures Grants([a, b], role, caps) <==> Grants([b, a], role, caps)
    {
      assert [a, b][0] == [b, a][1] && [a, b][1] == [b, a][0];
    }
  }

  lemma {:induction false} InsertLast(g: Grant, gs: seq<Grant>)
    requires forall k :: 0 <= k < |gs| ==> !Lt(g.role, gs[k].role)
    ensures InsertByRole(g, gs) == gs + [g]
  {
    if gs != [] {
      InsertLast(g, gs[1..]);
    }
  }

  lemma {:induction false} SortFixesSorted(gs: seq<Grant>)
    requires RolesSorted(gs)
    ensures SortByRole(gs) == gs
  {
    if gs != [] {
      var n := |gs| - 1;
      SortFixesSorted(gs[..n]);
      InsertLast(gs[n], gs[..n]);
    }
  }

  /** Canonicalising is idempotent on every policy, distinct roles or not. */
  lemma CanonicalFormIdempotent(p: Policy)
    ensures CanonicalForm(CanonicalForm(p)) == CanonicalForm(p)
  {
    var gs := CanonicalGrants(p.participants);
    var r := SortByRole(gs);
    SortByRoleMeans(gs);
    forall i | 0 <= i < |r|
      ensures CanonicalGrant(r[i]) == r[i]
    {
      assert r[i] in multiset(r);
      var j :| 0 <= j < |gs| && gs[j] == r[i];
      CanonicalMeans(p.participants[j].capabilities);
      CanonicalUnique(r[i].capabilities, r[i].capabilities);
    }
    assert CanonicalGrants(r) == r;
    SortFixesSorted(r);
  }
}
