/** `hashLimiter`: a slot channel and two mutex-guarded counters, as a step
    relation over any number of concurrent callers. Every lock, unlock and
    assignment is a step of its own, so all interleavings are covered. */
module HashGate {
  import opened Wrappers

  /** Where a call of `run` stands. */
  datatype Phase =
    | Waiting     // in the select
    | Holding     // slot taken
    | Entering    // mutex held
    | Counting    // inFlight raised
    | Entered     // peak raised
    | Running     // mutex released, f runs
    | Leaving     // f has ended, by return or by panic
    | Uncounting  // mutex held
    | Uncounted   // inFlight lowered
    | Releasing   // mutex released
    | Returned    // slot given back
    | Cancelled   // left through ctx

  datatype Lock = Free | HeldBy(caller: nat) | Resetting | Reset | Peeking

  datatype Gate = Gate(
    capacity: nat, slots: nat, inFlight: int, peak: int, lock: Lock, calls: map<nat, Phase>, ran: set<nat>)

  datatype Action =
    | Arrive(caller: nat) | Cancel(caller: nat) | Advance(caller: nat)
    | LockForReset | StoreReset | UnlockReset | LockForPeek | UnlockPeek

  function Capacity(procs: int): (n: nat)
    ensures n == if procs < 2 then 2 else if procs > 8 then 8 else procs
  {
    var atLeastTwo := if procs > 2 then procs else 2;
    if atLeastTwo < 8 then atLeastTwo else 8
  }

  function Fresh(capacity: nat): Gate {
    Gate(capacity, 0, 0, 0, Free, map[], {})
  }

  // --------------------------------------------------------------- Steps

  function Move(g: Gate, c: nat, to: Phase): Gate {
    g.(calls := g.calls[c := to])
  }

  /** The next step of a call's own code; None while it is blocked or over. */
  function AdvanceCall(g: Gate, c: nat): Option<Gate>
    requires c in g.calls
  {
    match g.calls[c]
    case Waiting => if g.slots < g.capacity then Some(Move(g, c, Holding).(slots := g.slots + 1)) else None
    case Holding => if g.lock.Free? then Some(Move(g, c, Entering).(lock := HeldBy(c))) else None
    case Entering => Some(Move(g, c, Counting).(inFlight := g.inFlight + 1))
    case Counting => Some(Move(g, c, Entered).(peak := if g.peak > g.inFlight then g.peak else g.inFlight))
    case Entered => Some(Move(g, c, Running).(lock := Free, ran := g.ran + {c}))
    case Running => Some(Move(g, c, Leaving))
    case Leaving => if g.lock.Free? then Some(Move(g, c, Uncounting).(lock := HeldBy(c))) else None
    case Uncounting => Some(Move(g, c, Uncounted).(inFlight := g.inFlight - 1))
    case Uncounted => Some(Move(g, c, Releasing).(lock := Free))
    case Releasing => if g.slots > 0 then Some(Move(g, c, Returned).(slots := g.slots - 1)) else None
    case Returned => None
    case Cancelled => None
  }

  function Step(g: Gate, a: Action): Option<Gate> {
    match a
    case Arrive(c) => if c in g.calls then None else Some(Move(g, c, Waiting))
    case Cancel(c) => if c in g.calls && g.calls[c].Waiting? then Some(Move(g, c, Cancelled)) else None
    case Advance(c) => if c in g.calls then AdvanceCall(g, c) else None
    case LockForReset => if g.lock.Free? then Some(g.(lock := Resetting)) else None
    case StoreReset => if g.lock.Resetting? then Some(g.(lock := Reset, peak := g.inFlight)) else None
    case UnlockReset => if g.lock.Reset? then Some(g.(lock := Free)) else None
    case LockForPeek => if g.lock.Free? then Some(g.(lock := Peeking)) else None
    case UnlockPeek => if g.lock.Peeking? then Some(g.(lock := Free)) else None
  }

  /** The state after a sequence of actions, if each could be taken. */
  function Run(g: Gate, actions: seq<Action>): Option<Gate> {
    if actions == [] then Some(g)
    else
      var last := |actions| - 1;
      match Run(g, actions[..last])
      case None => None
      case Some(mid) => Step(mid, actions[last])
  }

  // ----------------------------------------------------------- Invariant

  predicate HasSlot(ph: Phase) {
    !ph.Waiting? && !ph.Returned? && !ph.Cancelled?
  }

  predicate IsCounted(ph: Phase) {
    ph.Counting? || ph.Entered? || ph.Running? || ph.Leaving? || ph.Uncounting?
  }

  predicate HasLock(ph: Phase) {
    ph.Entering? || ph.Counting? || ph.Entered? || ph.Uncounting? || ph.Uncounted?
  }

  predicate HasRun(ph: Phase) {
    ph.Running? || ph.Leaving? || ph.Uncounting? || ph.Uncounted? || ph.Releasing? || ph.Returned?
  }

  predicate IsRunning(ph: Phase) {
    ph.Running?
  }

  predicate Over(ph: Phase) {
    ph.Returned? || ph.Cancelled?
  }

  function Members(calls: map<nat, Phase>, p: Phase -> bool): set<nat> {
    set c | c in calls && p(calls[c])
  }

  function Count(calls: map<nat, Phase>, p: Phase -> bool): nat {
    |Members(calls, p)|
  }

  /** The counters tell how many calls are where. */
  ghost predicate Counters(g: Gate) {
    && g.slots == Count(g.calls, HasSlot) <= g.capacity
    && g.inFlight == Count(g.calls, IsCounted) <= g.slots
  }

  /** The mutex is held by the one call whose code says so. */
  ghost predicate Exclusive(g: Gate) {
    && (forall c :: c in g.calls ==> (HasLock(g.calls[c]) <==> g.lock == HeldBy(c)))
    && (g.lock.HeldBy? ==> g.lock.caller in g.calls)
  }

  /** The peak covers the count except between the two assignments of the call
      that holds the mutex. */
  ghost predicate Covered(g: Gate) {
    && 0 <= g.peak <= g.capacity
    && (g.inFlight <= g.peak || (g.lock.HeldBy? && g.lock.caller in g.calls && g.calls[g.lock.caller].Counting?))
  }

  ghost predicate RanExact(g: Gate) {
    forall c :: c in g.ran <==> c in g.calls && HasRun(g.calls[c])
  }

  ghost predicate Inv(g: Gate) {
    Counters(g) && Exclusive(g) && Covered(g) && RanExact(g)
  }

  function Bit(b: bool): int {
    if b then 1 else 0
  }

  lemma CountMove(calls: map<nat, Phase>, c: nat, to: Phase, p: Phase -> bool)
    ensures Count(calls[c := to], p) == Count(calls, p) - Bit(c in calls && p(calls[c])) + Bit(p(to))
  {
    var before, after := Members(calls, p), Members(calls[c := to], p);
    assert before - {c} == after - {c};
    CountWithout(before, c);
    CountWithout(after, c);
  }

  lemma CountWithout(s: set<nat>, c: nat)
    ensures |s| == |s - {c}| + Bit(c in s)
  {
  }

  lemma CountMono(calls: map<nat, Phase>, p: Phase -> bool, q: Phase -> bool)
    requires forall ph :: p(ph) ==> q(ph)
    ensures Count(calls, p) <= Count(calls, q)
  {
    SubsetCount(Members(calls, p), Members(calls, q));
  }

  lemma {:induction false} SubsetCount(a: set<nat>, b: set<nat>)
    requires a <= b
    ensures |a| <= |b|
  {
    assert b == a + (b - a);
  }

  lemma MoveKeepsCounters(g: Gate, c: nat, g': Gate)
    requires Inv(g) && c in g.calls && AdvanceCall(g, c) == Some(g')
    ensures Counters(g')
  {
    var to := g'.calls[c];
    assert g'.calls == g.calls[c := to];
    CountMove(g.calls, c, to, HasSlot);
    CountMove(g.calls, c, to, IsCounted);
    CountMono(g'.calls, IsCounted, HasSlot);
  }

  lemma MoveKeepsExclusive(g: Gate, c: nat, g': Gate)
    requires Exclusive(g) && c in g.calls && AdvanceCall(g, c) == Some(g')
    ensures Exclusive(g')
  {
  }

  lemma MoveKeepsCovered(g: Gate, c: nat, g': Gate)
    requires Inv(g) && c in g.calls && AdvanceCall(g, c) == Some(g') && Counters(g')
    ensures Covered(g')
  {
  }

  lemma MoveKeepsRan(g: Gate, c: nat, g': Gate)
    requires RanExact(g) && c in g.calls && AdvanceCall(g, c) == Some(g')
    ensures RanExact(g')
  {
  }

  /** A call that starts waiting, or gives up waiting, touches no counter. */
  lemma IdleKeepsInv(g: Gate, c: nat, to: Phase, g': Gate)
    requires Inv(g) && g' == Move(g, c, to)
    requires (c !in g.calls && to.Waiting?) || (c in g.calls && g.calls[c].Waiting? && to.Cancelled?)
    ensures Inv(g')
  {
    CountMove(g.calls, c, to, HasSlot);
    CountMove(g.calls, c, to, IsCounted);
  }

  lemma StepKeepsInv(g: Gate, a: Action, g': Gate)
    requires Inv(g) && Step(g, a) == Some(g')
    ensures Inv(g') && g'.capacity == g.capacity
  {
    match a
    case Arrive(c) =>
      IdleKeepsInv(g, c, Waiting, g');
    case Cancel(c) =>
      IdleKeepsInv(g, c, Cancelled, g');
    case Advance(c) =>
      MoveKeepsCounters(g, c, g');
      MoveKeepsExclusive(g, c, g');
      MoveKeepsCovered(g, c, g');
      MoveKeepsRan(g, c, g');
    case _ =>
  }

  lemma {:induction false} RunKeepsInv(capacity: nat, actions: seq<Action>, g: Gate)
    requires Run(Fresh(capacity), actions) == Some(g)
    ensures Inv(g) && g.capacity == capacity
    decreases |actions|
  {
    if actions == [] {
      assert Members(g.calls, HasSlot) == {} && Members(g.calls, IsCounted) == {};
    } else {
      var last := |actions| - 1;
      var mid := Run(Fresh(capacity), actions[..last]).value;
      RunKeepsInv(capacity, actions[..last], mid);
      StepKeepsInv(mid, actions[last], g);
    }
  }

  // ------------------------------------------------------------- Theorems

  /** For every interleaving: running functions are counted, counted calls hold
      slots, slots are bounded; the peak covers the count unless some call is
      between its two assignments, and never exceeds the capacity, resets
      included. */
  lemma GateBounds(capacity: nat, actions: seq<Action>, g: Gate)
    requires Run(Fresh(capacity), actions) == Some(g)
    ensures Count(g.calls, IsRunning) <= g.inFlight <= g.slots <= capacity
    ensures g.peak <= capacity
    ensures g.inFlight <= g.peak || exists c :: c in g.calls && g.calls[c].Counting?
    ensures forall c, d :: c in g.calls && d in g.calls && HasLock(g.calls[c]) && HasLock(g.calls[d]) ==> c == d
  {
    RunKeepsInv(capacity, actions, g);
    CountMono(g.calls, IsRunning, IsCounted);
  }

  /** A call that left through its context never ran its function; one that
      returned did. */
  lemma CancelledNeverRan(capacity: nat, actions: seq<Action>, g: Gate, c: nat)
    requires Run(Fresh(capacity), actions) == Some(g) && c in g.calls
    ensures g.calls[c].Cancelled? ==> c !in g.ran
    ensures g.calls[c].Returned? ==> c in g.ran
  {
    RunKeepsInv(capacity, actions, g);
  }

  /** When every call is over, every slot is free and nothing is in flight. */
  lemma AllOverAllFree(capacity: nat, actions: seq<Action>, g: Gate)
    requires Run(Fresh(capacity), actions) == Some(g)
    requires forall c :: c in g.calls ==> Over(g.calls[c])
    ensures g.slots == 0 && g.inFlight == 0 && !g.lock.HeldBy?
  {
    RunKeepsInv(capacity, actions, g);
    assert Members(g.calls, HasSlot) == {} && Members(g.calls, IsCounted) == {};
  }

  predicate CanAdvance(g: Gate, c: nat) {
    c in g.calls && Step(g, Advance(c)).Some?
  }

  /** A call that owns what it needs is never blocked; in particular giving a
      slot back never blocks. */
  lemma OwnerMoves(g: Gate, c: nat)
    requires Inv(g) && c in g.calls && !Over(g.calls[c]) && !g.calls[c].Waiting?
    requires g.lock.Free? || g.lock == HeldBy(c)
    ensures CanAdvance(g, c)
  {
    if g.calls[c].Releasing? {
      assert c in Members(g.calls, HasSlot);
    }
  }

  /** No deadlock: while a call is unfinished, some party can take a step. */
  lemma NeverStuck(capacity: nat, actions: seq<Action>, g: Gate, c: nat)
    requires capacity > 0 && Run(Fresh(capacity), actions) == Some(g)
    requires c in g.calls && !Over(g.calls[c])
    ensures Step(g, StoreReset).Some? || Step(g, UnlockReset).Some? || Step(g, UnlockPeek).Some?
            || exists d :: CanAdvance(g, d)
  {
    RunKeepsInv(capacity, actions, g);
    if g.lock.HeldBy? {
      OwnerMoves(g, g.lock.caller);
    } else if g.lock.Free? {
      if !g.calls[c].Waiting? {
        OwnerMoves(g, c);
      } else if g.slots < g.capacity {
        assert CanAdvance(g, c);
      } else {
        var d :| d in Members(g.calls, HasSlot);
        OwnerMoves(g, d);
      }
    }
  }

  /** How many steps of its own a call still has before it. */
  function StepsLeft(ph: Phase): nat {
    match ph
    case Waiting => 10
    case Holding => 9
    case Entering => 8
    case Counting => 7
    case Entered => 6
    case Running => 5
    case Leaving => 4
    case Uncounting => 3
    case Uncounted => 2
    case Releasing => 1
    case Returned => 0
    case Cancelled => 0
  }

  predicate IsStepOf(a: Action, c: nat) {
    a == Advance(c) || a == Cancel(c)
  }

  function OwnSteps(actions: seq<Action>, c: nat): nat {
    if actions == [] then 0
    else OwnSteps(actions[..|actions| - 1], c) + Bit(IsStepOf(actions[|actions| - 1], c))
  }

  /** Every own step uses one up, or ends the call early. */
  lemma StepIsSpent(g: Gate, a: Action, g': Gate, c: nat)
    requires Step(g, a) == Some(g')
    ensures c in g'.calls && !g'.calls[c].Cancelled? ==>
              if c in g.calls then StepsLeft(g.calls[c]) == StepsLeft(g'.calls[c]) + Bit(IsStepOf(a, c))
              else StepsLeft(g'.calls[c]) == 10 && !IsStepOf(a, c)
    ensures c in g'.calls && g'.calls[c].Cancelled? ==>
              c in g.calls && (if IsStepOf(a, c) then g.calls[c].Waiting? else g'.calls[c] == g.calls[c])
    ensures c !in g'.calls ==> c !in g.calls && !IsStepOf(a, c)
  {
  }

  /** No livelock: in any run, however long, a call takes at most ten steps of
      its own, and exactly ten when it returns. */
  lemma {:induction false} CallIsBounded(capacity: nat, actions: seq<Action>, g: Gate, c: nat)
    requires Run(Fresh(capacity), actions) == Some(g)
    ensures c in g.calls ==> OwnSteps(actions, c) + StepsLeft(g.calls[c]) <= 10
    ensures c in g.calls && !g.calls[c].Cancelled? ==> OwnSteps(actions, c) + StepsLeft(g.calls[c]) == 10
    ensures c !in g.calls ==> OwnSteps(actions, c) == 0
    decreases |actions|
  {
    if actions != [] {
      var last := |actions| - 1;
      var mid := Run(Fresh(capacity), actions[..last]).value;
      CallIsBounded(capacity, actions[..last], mid, c);
      StepIsSpent(mid, actions[last], g, c);
    }
  }
}
