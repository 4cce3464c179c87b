/** The `llm:invoke:` scope family: its grant-time validator and the matcher a
    gateway runs on tokens. */
module LlmScopes {
  import opened Wrappers
  import Text

  const Prefix := "llm:invoke:"

  predicate ProviderChar(c: char) {
    'a' <= c <= 'z' || '0' <= c <= '9' || c == '_' || c == '-'
  }

  /** The pattern `^[a-z0-9_-]+$`. */
  predicate ProviderOk(p: string) {
    p != "" && Text.AllOf(p, ProviderChar)
  }

  datatype Malformed = Missing | WrongSegments | WildcardProvider | BadProvider | EmptyModel | PartialWildcard

  /** `ValidateLLMInvokeScope`. */
  function Validate(scope: string): Result<(), Malformed> {
    if scope == "llm:invoke" then Err(Missing)
    else if !(Prefix <= scope) then Ok(())
    else
      var tail := scope[|Prefix|..];
      if tail == "" then Err(Missing)
      else if tail == "*" then Ok(())
      else
        var parts := Text.Split(tail, ':');
        if |parts| != 2 then Err(WrongSegments)
        else if parts[0] == "*" then Err(WildcardProvider)
        else if !ProviderOk(parts[0]) then Err(BadProvider)
        else if parts[1] == "" then Err(EmptyModel)
        else if parts[1] == "*" then Ok(())
        else if '*' in parts[1] then Err(PartialWildcard)
        else Ok(())
  }

  /** `ScopeMatchesLLMInvoke`: does the token's scope satisfy the required one? */
  predicate Matches(jwt: string, required: string) {
    if !(Prefix <= required) then jwt == required
    else if jwt == Prefix + "*" then true
    else if !(Prefix <= jwt) then false
    else if !Text.HasSuffix(jwt, ":*") then jwt == required
    else
      WildcardIsLong(jwt);
      var provider := jwt[|Prefix|..|jwt| - 2];
      if provider == "" || ':' in provider || '*' in provider then false
      else Prefix + provider + ":" <= required
  }

  /** The prefix and the wildcard suffix overlap in the global wildcard only. */
  lemma WildcardIsLong(jwt: string)
    requires Prefix <= jwt && Text.HasSuffix(jwt, ":*") && jwt != Prefix + "*"
    ensures |jwt| >= |Prefix| + 2
  {
    Text.SuffixLast(jwt, ":*");
    assert jwt == Prefix + jwt[|Prefix|..];
  }

  // --------------------------------------------------- The intended reading

  datatype Scope =
    | Foreign(text: string)
    | Everything
    | AllModels(provider: string)
    | OneModel(provider: string, model: string)

  predicate Proper(s: Scope) {
    match s
    case Foreign(t) => t != "llm:invoke" && !(Prefix <= t)
    case Everything => true
    case AllModels(p) => ProviderOk(p)
    case OneModel(p, m) => ProviderOk(p) && m != "" && ':' !in m && '*' !in m
  }

  function Spell(s: Scope): string {
    match s
    case Foreign(t) => t
    case Everything => Prefix + "*"
    case AllModels(p) => Prefix + p + ":*"
    case OneModel(p, m) => Prefix + p + ":" + m
  }

  /** What holding `a` grants. */
  predicate Covers(a: Scope, b: Scope) {
    || a == b
    || (a.Everything? && !b.Foreign?)
    || (a.AllModels? && b.OneModel? && a.provider == b.provider)
  }

  /** The reading of an accepted scope. */
  function Classify(scope: string): Scope {
    if !(Prefix <= scope) then Foreign(scope)
    else if scope == Prefix + "*" then Everything
    else
      var parts := Text.Split(scope[|Prefix|..], ':');
      if |parts| != 2 then Foreign(scope)
      else if parts[1] == "*" then AllModels(parts[0])
      else OneModel(parts[0], parts[1])
  }

  lemma ProviderClean(p: string)
    requires ProviderOk(p)
    ensures ':' !in p && '*' !in p
  {
  }

  /** The validator accepts exactly the spellings of proper scopes. */
  lemma AcceptedExactly(scope: string)
    ensures Validate(scope).Ok? <==> exists s :: Proper(s) && scope == Spell(s)
    ensures Validate(scope).Ok? ==> Proper(Classify(scope)) && scope == Spell(Classify(scope))
  {
    if Validate(scope).Ok? {
      AcceptedIsProper(scope);
    }
    if s :| Proper(s) && scope == Spell(s) {
      ProperIsAccepted(s);
    }
  }

  lemma AcceptedIsProper(scope: string)
    requires Validate(scope).Ok?
    ensures Proper(Classify(scope)) && scope == Spell(Classify(scope))
  {
    if Prefix <= scope {
      var tail := scope[|Prefix|..];
      assert scope == Prefix + tail;
      if tail != "*" {
        assert scope != Prefix + "*" by {
          assert (Prefix + "*")[|Prefix|..] == "*";
        }
        var parts := Text.Split(tail, ':');
        Text.JoinSplit(tail, ':');
        Text.SplitPartsClean(tail, ':');
        assert Text.Join(parts[1..], ":") == parts[1];
        assert tail == parts[0] + ":" + parts[1];
      }
    }
  }

  lemma ProperIsAccepted(s: Scope)
    requires Proper(s)
    ensures Validate(Spell(s)).Ok?
  {
    match s
    case Foreign(_) =>
    case Everything =>
      assert (Prefix + "*")[|Prefix|..] == "*";
    case AllModels(p) =>
      assert Spell(s) == Prefix + p + ":" + "*";
      TwoSegments(p, "*");
    case OneModel(p, m) => TwoSegments(p, m);
  }

  lemma TwoSegments(p: string, m: string)
    requires ProviderOk(p) && m != "" && ':' !in m && (m == "*" || '*' !in m)
    ensures Validate(Prefix + p + ":" + m).Ok?
  {
    var scope, tail := Prefix + p + ":" + m, p + ":" + m;
    ProviderClean(p);
    assert scope == Prefix + tail && scope[|Prefix|..] == tail;
    assert tail[0] == p[0];
    Text.SplitFirst(p, m, ':');
    Text.SplitNone(m, ':');
  }

  /** Provider names end at their colon. */
  lemma ProviderPrefix(p: string, q: string, rest: string)
    requires ':' !in p && ':' !in q
    ensures p + ":" <= q + ":" + rest <==> p == q
  {
    Text.IndexOfFirst(q, rest, ':');
    var s := q + ":" + rest;
    if p + ":" <= s {
      assert s == p + ":" + s[|p| + 1..];
      Text.IndexOfFirst(p, s[|p| + 1..], ':');
      assert s[..|p|] == p && s[..|q|] == q;
    }
  }

  /** The matcher on spelled scopes is coverage, in both directions. */
  lemma MatchesMeansCovers(a: Scope, b: Scope)
    requires Proper(a) && Proper(b)
    ensures Matches(Spell(a), Spell(b)) <==> Covers(a, b)
  {
    SpellUnique(a, b);
    if !b.Foreign? {
      match a
      case Foreign(_) =>
      case Everything =>
      case OneModel(p, m) =>
        var s := Spell(a);
        assert s[|s| - 1] == m[|m| - 1];
        if Text.HasSuffix(s, ":*") {
          Text.SuffixLast(s, ":*");
        }
      case AllModels(p) => WildcardMatch(p, b);
    }
  }

  lemma WildcardMatch(p: string, b: Scope)
    requires ProviderOk(p) && Proper(b) && !b.Foreign?
    ensures Matches(Spell(AllModels(p)), Spell(b)) <==> Covers(AllModels(p), b)
  {
    var s := Spell(AllModels(p));
    ProviderClean(p);
    assert s[|s| - 2..] == ":*";
    assert s[|Prefix|..|s| - 2] == p;
    assert s != Prefix + "*" by { assert |s| > |Prefix| + 1; }
    WildcardReach(p, b);
  }

  lemma WildcardReach(p: string, b: Scope)
    requires ':' !in p && p != "" && Proper(b) && !b.Foreign?
    ensures Prefix + p + ":" <= Spell(b) <==> !b.Everything? && b.provider == p
  {
    var head := p + ":";
    assert Prefix + p + ":" == Prefix + head;
    match b
    case Everything =>
      assert |Prefix + p + ":"| > |Spell(b)|;
    case AllModels(q) =>
      ProviderClean(q);
      assert Spell(b) == Prefix + (q + ":" + "*");
      PrefixCancel(head, q + ":" + "*");
      ProviderPrefix(p, q, "*");
    case OneModel(q, m) =>
      ProviderClean(q);
      assert Spell(b) == Prefix + (q + ":" + m);
      PrefixCancel(head, q + ":" + m);
      ProviderPrefix(p, q, m);
  }

  lemma PrefixCancel(x: string, y: string)
    ensures Prefix + x <= Prefix + y <==> x <= y
  {
    if Prefix + x <= Prefix + y {
      assert forall i :: 0 <= i < |x| ==> x[i] == (Prefix + x)[|Prefix| + i] == (Prefix + y)[|Prefix| + i] == y[i];
    }
  }

  /** Proper scopes have one spelling each. */
  lemma SpellUnique(a: Scope, b: Scope)
    requires Proper(a) && Proper(b)
    ensures Spell(a) == Spell(b) <==> a == b
  {
    ClassifySpell(a);
    ClassifySpell(b);
  }

  lemma ClassifySpell(a: Scope)
    requires Proper(a)
    ensures Classify(Spell(a)) == a
  {
    match a
    case Foreign(_) =>
    case Everything =>
    case AllModels(p) =>
      assert Spell(a) == Prefix + p + ":" + "*";
      ClassifySegments(p, "*");
    case OneModel(p, m) => ClassifySegments(p, m);
  }

  lemma ClassifySegments(p: string, m: string)
    requires ProviderOk(p) && m != "" && ':' !in m
    ensures Classify(Prefix + p + ":" + m) == if m == "*" then AllModels(p) else OneModel(p, m)
  {
    var scope, tail := Prefix + p + ":" + m, p + ":" + m;
    ProviderClean(p);
    assert scope == Prefix + tail && scope[|Prefix|..] == tail;
    assert |scope| > |Prefix + "*"|;
    Text.SplitFirst(p, m, ':');
    Text.SplitNone(m, ':');
  }

  // ---------------------------------------------------------------- Theorems

  /** On accepted scopes matching is a partial order, with the global wildcard
      above the whole family; outside the family it is equality. */
  lemma MatchingIsPartialOrder(a: string, b: string, c: string)
    requires Validate(a).Ok? && Validate(b).Ok? && Validate(c).Ok?
    ensures Matches(a, a)
    ensures Matches(a, b) && Matches(b, a) ==> a == b
    ensures Matches(a, b) && Matches(b, c) ==> Matches(a, c)
    ensures Prefix <= a <==> Matches(Prefix + "*", a)
    ensures !(Prefix <= a) || !(Prefix <= b) ==> (Matches(a, b) <==> a == b)
  {
    var x, y, z := Classify(a), Classify(b), Classify(c);
    AcceptedExactly(a);
    AcceptedExactly(b);
    AcceptedExactly(c);
    MatchesMeansCovers(x, x);
    MatchesMeansCovers(x, y);
    MatchesMeansCovers(y, x);
    MatchesMeansCovers(y, z);
    MatchesMeansCovers(x, z);
    MatchesMeansCovers(Everything, x);
  }

  /** Even a token scope nobody validated reaches a family member only by being
      it, by being the global wildcard, or by being its provider's wildcard. */
  lemma NoReachBeyondProvider(jwt: string, b: Scope)
    requires Proper(b) && !b.Foreign? && Matches(jwt, Spell(b))
    ensures || jwt == Spell(b) || jwt == Prefix + "*"
            || (!b.Everything? && jwt == Spell(AllModels(b.provider)))
  {
    if jwt != Prefix + "*" && Text.HasSuffix(jwt, ":*") {
      WildcardIsLong(jwt);
      var provider := jwt[|Prefix|..|jwt| - 2];
      WildcardReach(provider, b);
      assert jwt == Prefix + provider + ":*";
    }
  }
}
