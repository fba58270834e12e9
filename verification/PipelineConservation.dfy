/** Every event that enters the pipeline is accounted for exactly once, in every run. */
module PipelineConservation {
  import opened Types
  import opened SequenceTracking
  import opened DeterministicMerge
  import opened PipelineModel

  ghost function Held(lanes: seq<Lane>): nat {
    if lanes == [] then 0 else Held(lanes[..|lanes| - 1]) + |lanes[|lanes| - 1].pending|
  }

  lemma {:induction false} HeldAfterReplace(lanes: seq<Lane>, i: nat, lane: Lane)
    requires i < |lanes|
    ensures Held(lanes[i := lane]) == Held(lanes) - |lanes[i].pending| + |lane.pending|
  {
    var n := |lanes| - 1;
    if i < n {
      HeldAfterReplace(lanes[..n], i, lane);
      assert lanes[..n][i := lane] == lanes[i := lane][..n];
    } else {
      assert lanes[..n] == lanes[i := lane][..n];
    }
  }

  lemma {:induction false} HeldIgnoresQueues(a: seq<Lane>, b: seq<Lane>)
    requires |a| == |b| && forall i :: 0 <= i < |a| ==> a[i].pending == b[i].pending
    ensures Held(a) == Held(b)
  {
    if a != [] {
      HeldIgnoresQueues(a[..|a| - 1], b[..|b| - 1]);
    }
  }

  /** The released run leaves the pending map; what is beyond the first hole stays. */
  lemma {:induction false} ReadyRunLeaves(pending: map<nat, BookEvent>, num: nat, rest: map<nat, BookEvent>)
    requires forall k :: k in pending ==> k >= num
    requires rest.Keys == set k | k in pending && k >= FirstFree(num, pending.Keys)
    ensures |pending| == |ReadyRun(pending, num)| + |rest|
    decreases pending.Keys
  {
    if num in pending {
      var others := pending - {num};
      assert others.Keys == pending.Keys - {num};
      assert rest.Keys == set k | k in others && k >= FirstFree(num + 1, others.Keys);
      ReadyRunLeaves(others, num + 1, rest);
    } else {
      assert rest.Keys == pending.Keys;
    }
  }

  lemma EvictionSplits(pending: map<nat, BookEvent>, low: nat)
    ensures |pending| == |From(pending, low)| + |Below(pending, low)|
  {
    assert From(pending, low).Keys + Below(pending, low) == pending.Keys;
    assert From(pending, low).Keys !! Below(pending, low);
  }

  ghost predicate Fits(lane: Lane, gap: nat) {
    LaneFits(lane, gap) == true
  }

  ghost predicate LaneFits(lane: Lane, gap: nat) {
    forall u {:trigger Unsealed(u)} :: Unsealed(u) ==> WindowOk(WindowOf(lane), gap)
  }

  /** Held-back numbers lie inside the window; true in every run, even across a wrap. */
  ghost predicate InWindow(s: State, gap: nat) {
    && |s.lanes| == VENUE_SLOTS
    && forall i :: 0 <= i < VENUE_SLOTS ==> Fits(s.lanes[i], gap)
  }

  ghost predicate Balanced(s: State, arrivals: nat)
    requires |s.lanes| == VENUE_SLOTS
  {
    var t := s.tally;
    && arrivals + t.reinjected
       == t.accepted + t.duplicateOrOld + t.gapTooLarge + t.evicted + Held(s.lanes) + s.overwritten
    && t.accepted == |s.emitted| + Total(QueuesOf(s))
    && t.requests == t.buffered + t.gapTooLarge
  }

  /** A release takes the run that starts at first, of a given length, and leaves rest. */
  ghost predicate LeavesBehind(pending: map<nat, BookEvent>, first: nat, rest: map<nat, BookEvent>, run: nat) {
    RestIsBeyond(pending, first, rest, run) == true
  }

  ghost predicate RestIsBeyond(pending: map<nat, BookEvent>, first: nat, rest: map<nat, BookEvent>, run: nat) {
    forall u {:trigger Unsealed(u)} :: Unsealed(u) ==>
      && (forall k :: k in pending ==> k >= first)
      && rest.Keys == (set k | k in pending && k >= FirstFree(first, pending.Keys))
      && run == |ReadyRun(pending, first)|
  }

  lemma LeftBehindIsCounted(pending: map<nat, BookEvent>, first: nat, rest: map<nat, BookEvent>, run: nat)
    requires LeavesBehind(pending, first, rest, run)
    ensures |pending| == run + |rest|
  {
    assert Unsealed(true);
    ReadyRunLeaves(pending, first, rest);
  }

  lemma LaneStaysInWindow(lane: Lane, gap: nat, ev: BookEvent)
    requires Fits(lane, gap)
    ensures Fits(LaneAfter(lane, gap, ev), gap)
  {
    assert Unsealed(true);
    assert WindowOk(WindowOf(LaneAfter(lane, gap, ev)), gap);
    assert LaneFits(LaneAfter(lane, gap, ev), gap);
  }

  /** The lane and the tally after an event. */
  ghost predicate AreAfter(t: Tally, lane: Lane, gap: nat, ev: BookEvent, u: Tally, after: Lane) {
    AreTallyAndLaneAfter(t, lane, gap, ev, u, after) == true
  }

  ghost predicate AreTallyAndLaneAfter(t: Tally, lane: Lane, gap: nat, ev: BookEvent, u: Tally, after: Lane) {
    forall b {:trigger Unsealed(b)} :: Unsealed(b) ==> u == TallyAfter(t, lane, gap, ev) && after == LaneAfter(lane, gap, ev)
  }

  lemma ReleaseLeavesBehind(t: Tally, lane: Lane, gap: nat, ev: BookEvent, u: Tally, after: Lane) returns (run: nat)
    requires Fits(lane, gap) && StatusOf(lane.next, gap, ev.sequence) == InOrder && AreAfter(t, lane, gap, ev, u, after)
    ensures |after.queue| == |lane.queue| + 1 + run && u.accepted == t.accepted + 1 + run
    ensures LeavesBehind(lane.pending, ev.sequence + 1, after.pending, run)
    ensures u.duplicateOrOld == t.duplicateOrOld && u.gapTooLarge == t.gapTooLarge && u.evicted == t.evicted
    ensures u.reinjected == t.reinjected && u.buffered == t.buffered && u.requests == t.requests
  {
    assert Unsealed(true);
    run := |ReadyRun(lane.pending, ev.sequence + 1)|;
    assert RestIsBeyond(lane.pending, ev.sequence + 1, after.pending, run);
  }

  lemma OtherAccounts(t: Tally, lane: Lane, gap: nat, ev: BookEvent, u: Tally, after: Lane)
    requires StatusOf(lane.next, gap, ev.sequence) != InOrder && AreAfter(t, lane, gap, ev, u, after)
    ensures after.queue == lane.queue && u.accepted == t.accepted && u.reinjected == t.reinjected
    ensures var again := if StatusOf(lane.next, gap, ev.sequence) == GapBuffered && ev.sequence in lane.pending then 1 else 0;
            u.duplicateOrOld + u.gapTooLarge + u.evicted + |after.pending| + again
            == t.duplicateOrOld + t.gapTooLarge + t.evicted + |lane.pending| + 1
    ensures u.requests - t.requests == (u.buffered - t.buffered) + (u.gapTooLarge - t.gapTooLarge)
  {
    assert Unsealed(true);
    if StatusOf(lane.next, gap, ev.sequence) == GapTooLarge {
      EvictionSplits(lane.pending, ev.sequence);
    } else if StatusOf(lane.next, gap, ev.sequence) == GapBuffered {
      assert after.pending.Keys == lane.pending.Keys + {ev.sequence};
    }
  }

  /** One event moves one unit from the arrivals to exactly one account of its lane. */
  lemma LaneAccounts(t: Tally, lane: Lane, gap: nat, ev: BookEvent, u: Tally, after: Lane)
    requires Fits(lane, gap) && AreAfter(t, lane, gap, ev, u, after)
    ensures var again := if StatusOf(lane.next, gap, ev.sequence) == GapBuffered && ev.sequence in lane.pending then 1 else 0;
            && u.accepted + u.duplicateOrOld + u.gapTooLarge + u.evicted + |after.pending| + again
               == t.accepted + t.duplicateOrOld + t.gapTooLarge + t.evicted + |lane.pending| + 1
            && u.accepted == t.accepted + |after.queue| - |lane.queue| && u.reinjected == t.reinjected
            && u.requests - t.requests == (u.buffered - t.buffered) + (u.gapTooLarge - t.gapTooLarge)
  {
    if StatusOf(lane.next, gap, ev.sequence) == InOrder {
      var run := ReleaseLeavesBehind(t, lane, gap, ev, u, after);
      LeftBehindIsCounted(lane.pending, ev.sequence + 1, after.pending, run);
    } else {
      OtherAccounts(t, lane, gap, ev, u, after);
    }
  }

  /** Which counters one event moves, by plain comparisons with the number its venue wants next. */
  lemma CountersMove(t: Tally, lane: Lane, gap: nat, ev: BookEvent)
    requires 1 <= lane.next
    ensures var u, after, num := TallyAfter(t, lane, gap, ev), LaneAfter(lane, gap, ev), ev.sequence;
      && u.duplicateOrOld == t.duplicateOrOld + (if num < lane.next then 1 else 0)
      && u.buffered == t.buffered + (if lane.next < num <= lane.next + gap then 1 else 0)
      && u.gapTooLarge == t.gapTooLarge + (if num > lane.next + gap then 1 else 0)
      && u.requests == t.requests + (if num > lane.next then 1 else 0)
      && u.accepted - t.accepted == |after.queue| - |lane.queue|
      && u.evicted == t.evicted + (if num > lane.next + gap then |lane.pending| - |after.pending| else 0)
      && u.reinjected == t.reinjected
  {
    EvictionSplits(lane.pending, ev.sequence);
  }

  lemma ProcessBalances(s: State, gap: nat, ev: BookEvent, arrivals: nat)
    requires InWindow(s, gap) && Balanced(s, arrivals)
    ensures InWindow(Process(s, gap, ev), gap) && Balanced(Process(s, gap, ev), arrivals + 1)
  {
    var v := VenueIndex(ev.venue);
    var lane := LaneOf(s, ev);
    var after := Process(s, gap, ev);
    LaneStaysInWindow(lane, gap, ev);
    assert AreTallyAndLaneAfter(s.tally, lane, gap, ev, after.tally, after.lanes[v]);
    LaneAccounts(s.tally, lane, gap, ev, after.tally, after.lanes[v]);
    HeldAfterReplace(s.lanes, v, after.lanes[v]);
    TotalAfterReplace(QueuesOf(s), v, after.lanes[v].queue);
    assert QueuesOf(after) == QueuesOf(s)[v := after.lanes[v].queue];
  }

  lemma {:induction false} ReinjectBalances(s: State, gap: nat, rs: seq<BookEvent>, arrivals: nat)
    requires InWindow(s, gap) && Balanced(s, arrivals)
    ensures InWindow(Reinject(s, gap, rs), gap) && Balanced(Reinject(s, gap, rs), arrivals)
    decreases |rs|
  {
    if rs != [] {
      if rs[0].sequence in LaneOf(s, rs[0]).pending {
        ReinjectBalances(s, gap, rs[1..], arrivals);
      } else {
        ProcessBalances(s, gap, rs[0], arrivals);
        var next := CountReinjection(Process(s, gap, rs[0]));
        assert QueuesOf(next) == QueuesOf(Process(s, gap, rs[0]));
        ReinjectBalances(next, gap, rs[1..], arrivals);
      }
    }
  }

  lemma OnEventBalances(s: State, gap: nat, ev: BookEvent, arrivals: nat)
    requires InWindow(s, gap) && Balanced(s, arrivals)
    ensures InWindow(OnEvent(s, gap, ev), gap) && Balanced(OnEvent(s, gap, ev), arrivals + 1)
  {
    var recorded := Record(s, gap, ev);
    HeldIgnoresQueues(s.lanes, recorded.lanes);
    assert QueuesOf(recorded) == QueuesOf(s);
    ProcessBalances(recorded, gap, ev, arrivals);
    var processed := Process(recorded, gap, ev);
    assert QueuesOf(processed.(recovered := [])) == QueuesOf(processed);
    ReinjectBalances(processed.(recovered := []), gap, processed.recovered, arrivals + 1);
  }

  lemma FinalizeBalances(s: State, gap: nat, arrivals: nat)
    requires InWindow(s, gap) && Balanced(s, arrivals)
    ensures InWindow(Finalize(s), gap) && Balanced(Finalize(s), arrivals)
  {
    MergeLength(QueuesOf(s));
    HeldIgnoresQueues(s.lanes, Finalize(s).lanes);
    TotalWhenDrained(QueuesOf(Finalize(s)));
  }

  ghost function Arrivals(ops: seq<Op>): nat {
    if ops == [] then 0
    else Arrivals(ops[..|ops| - 1]) + if ops[|ops| - 1].Arrive? then 1 else 0
  }

  /**
    In every run: events in + reinjected = accepted + dropped + evicted + still held back +
    overwritten while held back, accepted = drained + still queued, and every event that came too
    early made one recovery request.
   */
  lemma {:induction false} EveryRunBalances(gap: nat, ops: seq<Op>)
    ensures InWindow(RunOps(gap, ops), gap) && Balanced(RunOps(gap, ops), Arrivals(ops))
  {
    if ops == [] {
      StartIsEmpty();
      assert forall i :: 0 <= i < VENUE_SLOTS ==> LaneFits(START.lanes[i], gap);
    } else {
      var front, op := ops[..|ops| - 1], ops[|ops| - 1];
      EveryRunBalances(gap, front);
      if op.Arrive? {
        OnEventBalances(RunOps(gap, front), gap, op.ev, Arrivals(front));
      } else {
        FinalizeBalances(RunOps(gap, front), gap, Arrivals(front));
      }
    }
  }

  lemma StartIsEmpty()
    ensures Held(START.lanes) == 0 && Total(QueuesOf(START)) == 0
  {
    HeldOfFreshLanes(START.lanes);
    TotalWhenDrained(QueuesOf(START));
  }

  lemma {:induction false} HeldOfFreshLanes(lanes: seq<Lane>)
    requires forall i :: 0 <= i < |lanes| ==> lanes[i] == FRESH_LANE
    ensures Held(lanes) == 0
  {
    if lanes != [] {
      HeldOfFreshLanes(lanes[..|lanes| - 1]);
    }
  }
}
