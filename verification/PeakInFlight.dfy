/** What `peakInFlight` reports: the high-water mark since the last `resetPeak`. */
module PeakInFlight {
  import opened Wrappers
  import opened HashGate

  /** The count after the first `j` actions. */
  function FlightAt(capacity: nat, actions: seq<Action>, j: nat): int
    requires j <= |actions|
  {
    var g := Run(Fresh(capacity), actions[..j]);
    if g.None? then 0 else g.value.inFlight
  }

  /** No reset is stored from moment `j` on. */
  predicate Since(actions: seq<Action>, j: nat) {
    forall i :: j <= i < |actions| ==> !actions[i].StoreReset?
  }

  /** `h` is the largest count since the last reset, or since the start. */
  ghost predicate IsHighWater(capacity: nat, actions: seq<Action>, h: int) {
    && (forall j: nat :: j <= |actions| && Since(actions, j) ==> FlightAt(capacity, actions, j) <= h)
    && (exists j: nat :: j <= |actions| && Since(actions, j) && FlightAt(capacity, actions, j) == h)
  }

  function Max(a: int, b: int): int {
    if a > b then a else b
  }

  /** One step moves the larger of peak and count as the high-water mark moves. */
  lemma StepRaises(g: Gate, a: Action, g': Gate)
    requires Inv(g) && Step(g, a) == Some(g')
    ensures Max(g'.peak, g'.inFlight)
         == if a.StoreReset? then g'.inFlight else Max(Max(g.peak, g.inFlight), g'.inFlight)
  {
    if a.Advance? && g.calls[a.caller].Uncounting? {
      assert HasLock(g.calls[a.caller]);
    }
  }

  /** What one more action does to the mark. */
  lemma NextHighWater(capacity: nat, actions: seq<Action>, h: int)
    requires actions != [] && IsHighWater(capacity, actions[..|actions| - 1], h)
    ensures var n := |actions|;
            IsHighWater(capacity, actions,
                        if actions[n - 1].StoreReset? then FlightAt(capacity, actions, n)
                        else Max(h, FlightAt(capacity, actions, n)))
  {
    var n := |actions|;
    var front := actions[..n - 1];
    assert Since(actions, n);
    forall j: nat | j < n
      ensures FlightAt(capacity, actions, j) == FlightAt(capacity, front, j)
      ensures Since(actions, j) <==> Since(front, j) && !actions[n - 1].StoreReset?
    {
      assert actions[..j] == front[..j];
      assert forall i :: j <= i < n - 1 ==> front[i] == actions[i];
    }
  }

  lemma {:induction false} RunHighWater(capacity: nat, actions: seq<Action>, g: Gate)
    requires Run(Fresh(capacity), actions) == Some(g)
    ensures IsHighWater(capacity, actions, Max(g.peak, g.inFlight))
    decreases |actions|
  {
    var n := |actions|;
    assert actions[..n] == actions && FlightAt(capacity, actions, n) == g.inFlight;
    if n == 0 {
      assert Since(actions, 0);
    } else {
      var mid := Run(Fresh(capacity), actions[..n - 1]).value;
      RunHighWater(capacity, actions[..n - 1], mid);
      RunKeepsInv(capacity, actions[..n - 1], mid);
      StepRaises(mid, actions[n - 1], g);
      NextHighWater(capacity, actions, Max(mid.peak, mid.inFlight));
    }
  }

  /** `peakInFlight`: after any run, unless some call is between its two
      assignments, the peak is the largest number ever in flight since the last
      reset, or since the start. */
  lemma PeakIsHighWater(capacity: nat, actions: seq<Action>, g: Gate)
    requires Run(Fresh(capacity), actions) == Some(g)
    requires forall c :: c in g.calls ==> !g.calls[c].Counting?
    ensures IsHighWater(capacity, actions, g.peak)
  {
    RunHighWater(capacity, actions, g);
    GateBounds(capacity, actions, g);
  }
}
