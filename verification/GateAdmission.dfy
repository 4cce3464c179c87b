/** Whom the gate lets in: everyone while there is room, and no one is kept from
    leaving. */
module GateAdmission {
  import opened Wrappers
  import opened HashGate

  /** Exactly when a call's own code can go on: a waiting call needs a free slot, a
      call about to enter or leave needs the mutex, and nothing else blocks. */
  lemma AdvancesExactly(capacity: nat, actions: seq<Action>, g: Gate, c: nat)
    requires Run(Fresh(capacity), actions) == Some(g) && c in g.calls
    ensures CanAdvance(g, c) <==>
              match g.calls[c]
              case Waiting => Count(g.calls, HasSlot) < capacity
              case Holding => g.lock.Free?
              case Leaving => g.lock.Free?
              case Returned => false
              case Cancelled => false
              case _ => true
  {
    RunKeepsInv(capacity, actions, g);
    if g.calls[c].Releasing? {
      OwnsASlot(g, c);
    }
  }

  lemma OwnsASlot(g: Gate, c: nat)
    requires Counters(g) && c in g.calls && HasSlot(g.calls[c])
    ensures g.slots > 0
  {
    assert c in Members(g.calls, HasSlot);
  }

  /** A waiting call can always leave through its context, and only a waiting one;
      a new call can always arrive; and a free mutex can be taken by either reader
      of the peak. */
  lemma OthersExactly(g: Gate, c: nat)
    ensures Step(g, Cancel(c)).Some? <==> c in g.calls && g.calls[c].Waiting?
    ensures Step(g, Arrive(c)).Some? <==> c !in g.calls
    ensures Step(g, LockForReset).Some? <==> g.lock.Free?
    ensures Step(g, LockForPeek).Some? <==> g.lock.Free?
  {
  }

  /** The gate with calls 0 to n - 1 running and nobody else. */
  function Full(capacity: nat, n: nat): Gate {
    Gate(capacity, n, n, n, Free, AllRunning(n), Below(n))
  }

  function AllRunning(n: nat): (calls: map<nat, Phase>)
    ensures forall c: nat :: c in calls <==> c < n
    ensures forall c: nat :: c in calls ==> calls[c] == Running
  {
    if n == 0 then map[] else AllRunning(n - 1)[n - 1 := Running]
  }

  function Below(n: nat): set<nat> {
    if n == 0 then {} else Below(n - 1) + {n - 1}
  }

  /** One more call from arrival to its function. */
  function Entry(c: nat): seq<Action> {
    [Arrive(c), Advance(c), Advance(c), Advance(c), Advance(c), Advance(c)]
  }

  lemma {:induction false} RunConcat(g: Gate, a: seq<Action>, b: seq<Action>, mid: Gate)
    requires Run(g, a) == Some(mid)
    ensures Run(g, a + b) == Run(mid, b)
    decreases |b|
  {
    if b == [] {
      assert a + b == a;
    } else {
      var front, last := b[..|b| - 1], b[|b| - 1];
      RunConcat(g, a, front, mid);
      assert (a + b)[..|a + b| - 1] == a + front && (a + b)[|a + b| - 1] == last;
    }
  }

  lemma RunOne(g: Gate, a: Action)
    ensures Run(g, [a]) == Step(g, a)
  {
    assert [a][..0] == [];
  }

  lemma RunFirst(g: Gate, a: Action, mid: Gate, rest: seq<Action>)
    requires Step(g, a) == Some(mid)
    ensures Run(g, [a] + rest) == Run(mid, rest)
  {
    RunOne(g, a);
    RunConcat(g, [a], rest, mid);
  }

  /** Call `n` on its way in, after `i` of its six actions. */
  function Stage(capacity: nat, n: nat, i: nat): Gate
    requires 1 <= i <= 6
  {
    Gate(capacity,
         if i >= 2 then n + 1 else n,
         if i >= 4 then n + 1 else n,
         if i >= 5 then n + 1 else n,
         if 3 <= i <= 5 then HeldBy(n) else Free,
         AllRunning(n)[n := [Waiting, Holding, Entering, Counting, Entered, Running][i - 1]],
         if i == 6 then Below(n) + {n} else Below(n))
  }

  lemma StageStep(capacity: nat, n: nat, i: nat)
    requires 1 <= i < 6 && n < capacity
    ensures Step(Stage(capacity, n, i), Advance(n)) == Some(Stage(capacity, n, i + 1))
  {
    var g, g' := Stage(capacity, n, i), Stage(capacity, n, i + 1);
    assert g.calls[n := g'.calls[n]] == g'.calls;
  }

  lemma {:induction false} StagesRun(capacity: nat, n: nat, i: nat)
    requires 1 <= i <= 6 && n < capacity
    ensures Run(Stage(capacity, n, i), Entry(n)[i..]) == Some(Stage(capacity, n, 6))
    decreases 6 - i
  {
    if i < 6 {
      StageStep(capacity, n, i);
      StagesRun(capacity, n, i + 1);
      assert Entry(n)[i..] == [Advance(n)] + Entry(n)[i + 1..];
      RunFirst(Stage(capacity, n, i), Advance(n), Stage(capacity, n, i + 1), Entry(n)[i + 1..]);
    }
  }

  lemma FirstStage(capacity: nat, n: nat)
    ensures Step(Full(capacity, n), Arrive(n)) == Some(Stage(capacity, n, 1))
    ensures Stage(capacity, n, 6) == Full(capacity, n + 1)
  {
  }

  lemma EntryRuns(capacity: nat, n: nat)
    requires n < capacity
    ensures Run(Full(capacity, n), Entry(n)) == Some(Full(capacity, n + 1))
  {
    FirstStage(capacity, n);
    StagesRun(capacity, n, 1);
    assert Entry(n) == [Arrive(n)] + Entry(n)[1..];
    RunFirst(Full(capacity, n), Arrive(n), Stage(capacity, n, 1), Entry(n)[1..]);
  }

  lemma {:induction false} FillUp(capacity: nat, n: nat) returns (actions: seq<Action>)
    requires n <= capacity
    ensures Run(Fresh(capacity), actions) == Some(Full(capacity, n))
  {
    if n == 0 {
      actions := [];
    } else {
      var front := FillUp(capacity, n - 1);
      EntryRuns(capacity, n - 1);
      RunConcat(Fresh(capacity), front, Entry(n - 1), Full(capacity, n - 1));
      actions := front + Entry(n - 1);
    }
  }

  lemma {:induction false} CountRunning(n: nat)
    ensures Count(AllRunning(n), IsRunning) == n
  {
    if n == 0 {
      assert Members(AllRunning(n), IsRunning) == {};
    } else {
      CountRunning(n - 1);
      assert Members(AllRunning(n), IsRunning) == Members(AllRunning(n - 1), IsRunning) + {n - 1};
    }
  }

  /** The whole capacity is used: some run has that many functions running at once. */
  lemma CapacityIsReached(capacity: nat)
    ensures exists actions, g :: Run(Fresh(capacity), actions) == Some(g) && Count(g.calls, IsRunning) == capacity
  {
    var actions := FillUp(capacity, capacity);
    CountRunning(capacity);
    assert Count(Full(capacity, capacity).calls, IsRunning) == capacity;
  }
}
