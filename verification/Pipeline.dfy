/** The sequencing pipeline as objects, refining the pipeline on values. */
module SequencingPipeline {
  import opened Types
  import opened SequenceTracking
  import opened RecoveryStorage
  import opened GapSequencing
  import opened DeterministicMerge
  import opened EventChecksum
  import opened PipelineModel
  import opened PipelineSafety
  import opened PipelineConservation

  class MergedEventSink {
    var events: seq<BookEvent>

    constructor ()
      ensures events == []
    {
      events := [];
    }

    method OnMergedEvent(ev: BookEvent)
      modifies this
      ensures events == old(events) + [ev]
    {
      events := events + [ev];
    }
  }

  /** The ring after one number, seen from the lane it belongs to. */
  lemma WindowFollowsLane(lane: Lane, gap: nat, ev: BookEvent)
    requires WindowOk(WindowOf(lane), gap)
    requires StatusOf(lane.next, gap, ev.sequence) != GapTooLarge
    ensures WindowOf(LaneAfter(lane, gap, ev)) == Step(WindowOf(lane), gap, ev.sequence)
  {
    var after := LaneAfter(lane, gap, ev);
    var w := Step(WindowOf(lane), gap, ev.sequence);
    if StatusOf(lane.next, gap, ev.sequence) == InOrder {
      assert after.pending.Keys == w.live;
    } else if StatusOf(lane.next, gap, ev.sequence) == GapBuffered {
      assert after.pending.Keys == w.live;
    }
  }

  lemma WindowFollowsAdvance(lane: Lane, gap: nat, ev: BookEvent)
    requires StatusOf(lane.next, gap, ev.sequence) == GapTooLarge
    ensures WindowOf(LaneAfter(lane, gap, ev)) == Advance(WindowOf(lane), ev.sequence)
  {
    assert LaneAfter(lane, gap, ev).pending.Keys == Advance(WindowOf(lane), ev.sequence).live;
  }

  /** Held-back events of a lane all belong to its venue. */
  ghost predicate Routed(held: map<nat, BookEvent>, i: nat) {
    forall k :: k in held ==> VenueIndex(held[k].venue) == i
  }

  /** One number is released that nobody holds when the run reaches the end of the 64-bit range. */
  ghost function Phantoms(held: map<nat, BookEvent>, first: nat): nat {
    if FirstFree(first, held.Keys) > MAX64 then 1 else 0
  }

  /** Part-way through a release: done is out, rest is still held, cur is the next number. */
  ghost predicate Unreleased(held: map<nat, BookEvent>, first: nat, rest: map<nat, BookEvent>, cur: nat, done: seq<BookEvent>) {
    && done + ReadyRun(rest, cur) == ReadyRun(held, first)
    && FirstFree(cur, rest.Keys) == FirstFree(first, held.Keys)
    && (forall k :: k in rest ==> k >= cur && k in held && rest[k] == held[k])
    && (forall k :: k in held && k >= cur ==> k in rest)
  }

  lemma UnreleasedStep(held: map<nat, BookEvent>, first: nat, rest: map<nat, BookEvent>, cur: nat, done: seq<BookEvent>)
    requires Unreleased(held, first, rest, cur, done) && cur in rest
    ensures Unreleased(held, first, rest - {cur}, cur + 1, done + [rest[cur]])
    ensures |ReadyRun(rest, cur)| == 1 + |ReadyRun(rest - {cur}, cur + 1)|
  {
    assert (rest - {cur}).Keys == rest.Keys - {cur};
    assert ReadyRun(rest, cur) == [rest[cur]] + ReadyRun(rest - {cur}, cur + 1);
  }

  lemma UnreleasedEnd(held: map<nat, BookEvent>, first: nat, rest: map<nat, BookEvent>, cur: nat, done: seq<BookEvent>)
    requires Unreleased(held, first, rest, cur, done) && |ReadyRun(rest, cur)| == 0
    ensures done == ReadyRun(held, first) && rest == From(held, FirstFree(first, held.Keys))
  {
    assert FirstFree(cur, rest.Keys) == cur;
  }

  lemma HeldOrPhantom(held: map<nat, BookEvent>, first: nat, rest: map<nat, BookEvent>, cur: nat, done: seq<BookEvent>, phantoms: nat)
    requires 1 <= first <= cur && Unreleased(held, first, rest, cur, done)
    requires phantoms <= Phantoms(held, first) && |ReadyRun(rest, cur)| + phantoms > 0
    requires forall k :: k in held ==> k <= MAX64
    ensures 0 !in rest
    ensures cur in rest <==> |ReadyRun(rest, cur)| > 0
    ensures cur in rest ==> cur <= MAX64
    ensures cur !in rest ==> cur > MAX64 && phantoms == 1
  {
  }

  lemma ReleaseShape(lane: Lane, gap: nat, ev: BookEvent)
    requires WindowOk(WindowOf(lane), gap) && ev.sequence == lane.next
    ensures var first := ev.sequence + 1;
      && From(lane.pending, FirstFree(first, lane.pending.Keys)) == LaneAfter(lane, gap, ev).pending
      && Released(WindowOf(lane), gap, ev.sequence) - 1
         == |ReadyRun(lane.pending, first)| + Phantoms(lane.pending, first)
  {
    ReadyRunIs(lane.pending, ev.sequence + 1);
  }

  /** Only queue v changed, by appending more. */
  ghost predicate QueueGrew(before: Queues, after: Queues, v: nat, more: seq<BookEvent>)
    requires v < VENUE_SLOTS
  {
    after[v] == before[v] + more && forall i :: 0 <= i < VENUE_SLOTS && i != v ==> after[i] == before[i]
  }

  /** Only map v changed, to held. */
  ghost predicate HeldBecame(before: seq<map<nat, BookEvent>>, after: seq<map<nat, BookEvent>>, v: nat, held: map<nat, BookEvent>)
    requires v < VENUE_SLOTS && |before| == VENUE_SLOTS
  {
    |after| == VENUE_SLOTS && after[v] == held && forall i :: 0 <= i < VENUE_SLOTS && i != v ==> after[i] == before[i]
  }

  lemma QueueGrewTwice(q0: Queues, q1: Queues, q2: Queues, v: nat, a: seq<BookEvent>, b: seq<BookEvent>)
    requires v < VENUE_SLOTS && QueueGrew(q0, q1, v, a) && QueueGrew(q1, q2, v, b)
    ensures QueueGrew(q0, q2, v, a + b)
  {
    assert q0[v] + a + b == q0[v] + (a + b);
  }

  lemma StartLane(i: nat)
    requires i < VENUE_SLOTS
    ensures START.lanes[i] == Lane(1, map[], [], []) && WindowOf(START.lanes[i]) == FRESH_WINDOW
  {
  }

  class Pipeline {
    const gap: u64
    const recoveryStore: ReplayRecoveryStore
    const recoverySim: ReplayRecoverySimulator
    const sequencer: GapAwareSequencer
    const merger: DeterministicMerger
    var pendingByVenue: seq<map<nat, BookEvent>>
    var accepted: nat
    var droppedDuplicateOrOld: nat
    var bufferedOutOfOrder: nat
    var droppedGapTooLarge: nat
    var pendingEvicted: nat
    var pendingInconsistency: nat
    var recoveryReinjected: nat
    var recoveryRequests: nat
    var mergedCrc: bv32

    /** The state on values that the objects stand for. */
    ghost var model: State
    ghost const Repr: set<object>

    ghost predicate Wired()
      reads Repr
    {
      && {this, recoveryStore, recoverySim, merger} <= Repr && sequencer.Repr <= Repr
      && {this, recoveryStore, recoverySim, merger} !! sequencer.Repr
      && |pendingByVenue| == VENUE_SLOTS
      && recoveryStore.Valid() && recoveryStore.maxEventsPerVenue == StoreLimit(gap)
      && recoverySim.store == recoveryStore
      && sequencer.Valid() && sequencer.trackers.gap == gap && sequencer.recoveryHandler == recoverySim
    }

    /** Ring and pending map of venue i hold the same numbers, and the other parts match the lane. */
    ghost predicate LaneCoupled(i: nat, lane: Lane)
      requires Wired() && i < VENUE_SLOTS
      reads Repr
    {
      && sequencer.trackers.At(i) == WindowOf(lane)
      && pendingByVenue[i] == lane.pending && Routed(lane.pending, i)
      && recoveryStore.byVenue[i] == lane.store
      && merger.queues[i] == lane.queue
    }

    ghost function Counted(): Tally
      reads this, recoverySim
    {
      Tally(accepted, droppedDuplicateOrOld, bufferedOutOfOrder, droppedGapTooLarge, pendingEvicted,
            pendingInconsistency, recoveryReinjected, recoverySim.requestsTotal)
    }

    ghost predicate Valid()
      reads Repr
    {
      && Wired()
      && |model.lanes| == VENUE_SLOTS
      && (forall i :: 0 <= i < VENUE_SLOTS ==> LaneCoupled(i, model.lanes[i]))
      && model.recovered == recoverySim.pendingRecovered
      && model.tally == Counted()
    }

    constructor (gapWindow: u64)
      ensures gap == gapWindow && fresh(Repr)
      ensures Valid() <==> gapWindow < MAX64
      ensures model == START && mergedCrc == 0
      ensures recoveryStore.maxEventsPerVenue == (gapWindow + 64) % 0x1_0000_0000_0000_0000
    {
      gap := gapWindow;
      var store := new ReplayRecoveryStore(StoreLimit(gapWindow));
      var sim := new ReplayRecoverySimulator(store);
      recoveryStore := store;
      recoverySim := sim;
      var seqr := new GapAwareSequencer(gapWindow, sim);
      var merge := new DeterministicMerger();
      sequencer := seqr;
      merger := merge;
      pendingByVenue := [map[], map[], map[], map[], map[]];
      accepted, droppedDuplicateOrOld, bufferedOutOfOrder := 0, 0, 0;
      droppedGapTooLarge, pendingEvicted, pendingInconsistency := 0, 0, 0;
      recoveryReinjected, recoveryRequests := 0, 0;
      mergedCrc := 0;
      model := START;
      Repr := {this, store, sim, merge} + seqr.Repr;
      new;
      if gapWindow < MAX64 {
        forall i | 0 <= i < VENUE_SLOTS ensures LaneCoupled(i, model.lanes[i]) {
          StartLane(i);
        }
      }
    }

    method OnEvent(ev: BookEvent)
      requires Valid()
      modifies Repr
      ensures Valid() && mergedCrc == old(mergedCrc)
      ensures model == PipelineModel.OnEvent(old(model), gap, ev)
    {
      RecordArrival(ev);
      ProcessEvent(ev);
      var recovered := TakeRecovered();
      for k := 0 to |recovered|
        invariant Valid() && mergedCrc == old(mergedCrc)
        invariant Reinject(model, gap, recovered[k..]) == PipelineModel.OnEvent(old(model), gap, ev)
      {
        assert recovered[k..][0] == recovered[k] && recovered[k..][1..] == recovered[k + 1..];
        ReinjectOne(recovered[k]);
      }
    }

    method RecordArrival(ev: BookEvent)
      requires Valid()
      modifies Repr
      ensures Valid() && model == Record(old(model), gap, ev) && mergedCrc == old(mergedCrc)
    {
      recoveryStore.RecordEvent(ev);
      model := Record(model, gap, ev);
    }

    method TakeRecovered() returns (recovered: seq<BookEvent>)
      requires Valid()
      modifies Repr
      ensures Valid() && mergedCrc == old(mergedCrc)
      ensures recovered == old(model.recovered) && model == old(model).(recovered := [])
    {
      recovered := recoverySim.DrainRecovered();
      model := model.(recovered := []);
    }

    method ReinjectOne(r: BookEvent)
      requires Valid()
      modifies Repr
      ensures Valid() && mergedCrc == old(mergedCrc)
      ensures model == if r.sequence in LaneOf(old(model), r).pending then old(model)
                       else CountReinjection(Process(old(model), gap, r))
    {
      if r.sequence in pendingByVenue[VenueIndex(r.venue)] {
        return;
      }
      ProcessEvent(r);
      recoveryReinjected := recoveryReinjected + 1;
      model := CountReinjection(model);
    }

    method ProcessEvent(ev: BookEvent)
      requires Valid()
      modifies Repr
      ensures Valid() && mergedCrc == old(mergedCrc)
      ensures model == Process(old(model), gap, ev)
    {
      var result := Sequence(ev);
      match result.update.status {
        case DuplicateOrOld => DropOld(ev);
        case GapTooLarge => Refuse(ev);
        case GapBuffered => Hold(ev);
        case InOrder => Release(ev, result.update.released);
      }
    }

    /** The sequencer has seen ev; pending map, store, queue and model are still those of before. */
    ghost predicate Sequenced(ev: BookEvent)
      reads Repr
    {
      && Wired() && |model.lanes| == VENUE_SLOTS
      && (forall i :: 0 <= i < VENUE_SLOTS && i != VenueIndex(ev.venue) ==> LaneCoupled(i, model.lanes[i]))
      && var lane := LaneOf(model, ev);
      && var v := VenueIndex(ev.venue);
      && WindowOk(WindowOf(lane), gap) && Routed(lane.pending, v)
      && sequencer.trackers.At(v) == Step(WindowOf(lane), gap, ev.sequence)
      && pendingByVenue[v] == lane.pending && recoveryStore.byVenue[v] == lane.store && merger.queues[v] == lane.queue
      && recoverySim.pendingRecovered == Process(model, gap, ev).recovered
      && Counted() == model.tally.(requests := Process(model, gap, ev).tally.requests)
    }

    method Sequence(ev: BookEvent) returns (result: SequencerResult)
      requires Valid()
      modifies Repr
      ensures Sequenced(ev) && model == old(model) && mergedCrc == old(mergedCrc)
      ensures result.update == UpdateOf(WindowOf(LaneOf(model, ev)), gap, ev.sequence)
    {
      result := sequencer.OnSequence(ev.venue, ev.sequence);
    }

    /** All parts have moved to where the model says they should be: move the model too. */
    ghost method Commit(ev: BookEvent)
      requires Wired() && |model.lanes| == VENUE_SLOTS
      requires forall i :: 0 <= i < VENUE_SLOTS && i != VenueIndex(ev.venue) ==> LaneCoupled(i, model.lanes[i])
      requires LaneCoupled(VenueIndex(ev.venue), LaneAfter(LaneOf(model, ev), gap, ev))
      requires Counted() == TallyAfter(model.tally, LaneOf(model, ev), gap, ev)
      requires recoverySim.pendingRecovered == Process(model, gap, ev).recovered
      modifies this`model
      ensures Valid() && model == Process(old(model), gap, ev)
    {
      model := Process(model, gap, ev);
    }

    method DropOld(ev: BookEvent)
      requires Sequenced(ev) && StatusOf(LaneOf(model, ev).next, gap, ev.sequence) == DuplicateOrOld
      modifies this
      ensures Valid() && mergedCrc == old(mergedCrc) && model == Process(old(model), gap, ev)
    {
      droppedDuplicateOrOld := droppedDuplicateOrOld + 1;
      Commit(ev);
    }

    method Hold(ev: BookEvent)
      requires Sequenced(ev) && StatusOf(LaneOf(model, ev).next, gap, ev.sequence) == GapBuffered
      modifies this
      ensures Valid() && mergedCrc == old(mergedCrc) && model == Process(old(model), gap, ev)
    {
      WindowFollowsLane(LaneOf(model, ev), gap, ev);
      var v := VenueIndex(ev.venue);
      var held: map<nat, BookEvent> := pendingByVenue[v][ev.sequence := ev];
      pendingByVenue := pendingByVenue[v := held];
      bufferedOutOfOrder := bufferedOutOfOrder + 1;
      Commit(ev);
    }

    method Refuse(ev: BookEvent)
      requires Sequenced(ev) && StatusOf(LaneOf(model, ev).next, gap, ev.sequence) == GapTooLarge
      modifies Repr
      ensures Valid() && mergedCrc == old(mergedCrc) && model == Process(old(model), gap, ev)
    {
      WindowFollowsAdvance(LaneOf(model, ev), gap, ev);
      sequencer.ForceAdvance(ev.venue, ev.sequence);
      ForgetBefore(ev.venue, ev.sequence);
      Commit(ev);
    }

    /** Count the refusal and drop whatever the forced advance has left behind. */
    method ForgetBefore(venue: Venue, num: nat)
      requires Wired() && sequencer.trackers.At(VenueIndex(venue)).next == num
      modifies this`pendingByVenue, this`pendingEvicted, this`droppedGapTooLarge, recoveryStore
      ensures Wired()
      ensures droppedGapTooLarge == old(droppedGapTooLarge) + 1
      ensures pendingByVenue == old(pendingByVenue)[VenueIndex(venue) := From(old(pendingByVenue)[VenueIndex(venue)], num)]
      ensures pendingEvicted == old(pendingEvicted) + |Below(old(pendingByVenue)[VenueIndex(venue)], num)|
      ensures recoveryStore.byVenue == old(recoveryStore.byVenue)[VenueIndex(venue) :=
        StoreAfterAdvance(old(recoveryStore.byVenue)[VenueIndex(venue)], num)]
    {
      droppedGapTooLarge := droppedGapTooLarge + 1;
      EvictPendingBefore(venue, num);
      TrimStore(venue);
    }

    method EvictPendingBefore(venue: Venue, num: nat)
      requires |pendingByVenue| == VENUE_SLOTS
      modifies this`pendingByVenue, this`pendingEvicted
      ensures pendingByVenue == old(pendingByVenue)[VenueIndex(venue) := From(old(pendingByVenue)[VenueIndex(venue)], num)]
      ensures pendingEvicted == old(pendingEvicted) + |Below(old(pendingByVenue)[VenueIndex(venue)], num)|
    {
      var v := VenueIndex(venue);
      var before := |pendingByVenue[v]|;
      EvictionSplits(pendingByVenue[v], num);
      pendingByVenue := pendingByVenue[v := From(pendingByVenue[v], num)];
      pendingEvicted := pendingEvicted + (before - |pendingByVenue[v]|);
    }

    /** Forget stored events well below the next number wanted. */
    method TrimStore(venue: Venue)
      requires Wired()
      modifies recoveryStore
      ensures Wired()
      ensures recoveryStore.byVenue == old(recoveryStore.byVenue)[VenueIndex(venue) :=
        StoreAfterAdvance(old(recoveryStore.byVenue)[VenueIndex(venue)], sequencer.trackers.At(VenueIndex(venue)).next)]
    {
      var next := sequencer.NextExpected(venue);
      if next > LOOKBACK_SLACK {
        recoveryStore.EvictBefore(venue, next - LOOKBACK_SLACK);
      }
    }

    /** The merger never refuses an event, so no overflow can be counted. */
    method Publish(ev: BookEvent)
      modifies this`accepted, merger
      ensures QueueGrew(old(merger.queues), merger.queues, VenueIndex(ev.venue), [ev])
      ensures accepted == old(accepted) + 1
    {
      var pushed := merger.Push(ev);
      if pushed {
        accepted := accepted + 1;
      } else {
        assert false;
      }
    }

    method PublishHeld(venue: Venue, num: nat)
      requires |pendingByVenue| == VENUE_SLOTS && num in pendingByVenue[VenueIndex(venue)]
      requires Routed(pendingByVenue[VenueIndex(venue)], VenueIndex(venue))
      modifies this`pendingByVenue, this`accepted, merger
      ensures HeldBecame(old(pendingByVenue), pendingByVenue, VenueIndex(venue),
                         Without(old(pendingByVenue)[VenueIndex(venue)], num))
      ensures QueueGrew(old(merger.queues), merger.queues, VenueIndex(venue), [old(pendingByVenue)[VenueIndex(venue)][num]])
      ensures accepted == old(accepted) + 1
    {
      var v := VenueIndex(venue);
      Publish(pendingByVenue[v][num]);
      pendingByVenue := pendingByVenue[v := Without(pendingByVenue[v], num)];
    }

    /**
      Publish the held-back run behind an in-order event, one number at a time.  A number the ring
      released but the map does not hold is counted as an inconsistency.
     */
    method PublishRun(venue: Venue, first: nat, count: nat)
      requires |pendingByVenue| == VENUE_SLOTS && 1 <= first <= MAX64 + 1
      requires Routed(pendingByVenue[VenueIndex(venue)], VenueIndex(venue))
      requires forall k :: k in pendingByVenue[VenueIndex(venue)] ==> first <= k <= MAX64
      requires count == |ReadyRun(pendingByVenue[VenueIndex(venue)], first)|
                     + Phantoms(pendingByVenue[VenueIndex(venue)], first)
      modifies this`pendingByVenue, this`accepted, this`pendingInconsistency, merger
      ensures var v := VenueIndex(venue);
        var held := old(pendingByVenue)[v];
        && HeldBecame(old(pendingByVenue), pendingByVenue, v, From(held, FirstFree(first, held.Keys)))
        && QueueGrew(old(merger.queues), merger.queues, v, ReadyRun(held, first))
        && accepted == old(accepted) + |ReadyRun(held, first)|
        && pendingInconsistency == old(pendingInconsistency) + Phantoms(held, first)
    {
      var v := VenueIndex(venue);
      ghost var held, run := pendingByVenue[v], ReadyRun(pendingByVenue[v], first);
      ghost var rest: map<nat, BookEvent> := held;
      ghost var cur: nat := first;
      ghost var done: seq<BookEvent> := [];
      ghost var phantoms: nat := Phantoms(held, first);
      var toRelease := count;
      var num: u64 := if first > MAX64 then 0 else first;
      while toRelease > 0
        invariant first <= cur && phantoms <= Phantoms(held, first)
        invariant Unreleased(held, first, rest, cur, done)
        invariant toRelease == |ReadyRun(rest, cur)| + phantoms
        invariant toRelease > 0 ==> num == (if cur > MAX64 then 0 else cur)
        invariant HeldBecame(old(pendingByVenue), pendingByVenue, v, rest)
        invariant QueueGrew(old(merger.queues), merger.queues, v, done)
        invariant accepted == old(accepted) + |done|
        invariant pendingInconsistency == old(pendingInconsistency) + Phantoms(held, first) - phantoms
      {
        HeldOrPhantom(held, first, rest, cur, done, phantoms);
        if num !in pendingByVenue[v] {
          pendingInconsistency := pendingInconsistency + 1;
          phantoms := phantoms - 1;
        } else {
          UnreleasedStep(held, first, rest, cur, done);
          ghost var before := merger.queues;
          PublishHeld(venue, num);
          QueueGrewTwice(old(merger.queues), before, merger.queues, v, done, [rest[cur]]);
          done := done + [rest[cur]];
          rest := Without(rest, cur);
          cur := cur + 1;
        }
        num := Inc64(num);
        toRelease := toRelease - 1;
      }
      UnreleasedEnd(held, first, rest, cur, done);
    }

    /** Publish an in-order event and then the run behind it. */
    method PublishAll(ev: BookEvent, released: nat)
      requires |pendingByVenue| == VENUE_SLOTS
      requires Routed(pendingByVenue[VenueIndex(ev.venue)], VenueIndex(ev.venue))
      requires forall k :: k in pendingByVenue[VenueIndex(ev.venue)] ==> ev.sequence < k <= MAX64
      requires released == 1 + |ReadyRun(pendingByVenue[VenueIndex(ev.venue)], ev.sequence + 1)|
                             + Phantoms(pendingByVenue[VenueIndex(ev.venue)], ev.sequence + 1)
      modifies this`pendingByVenue, this`accepted, this`pendingInconsistency, merger
      ensures var v := VenueIndex(ev.venue);
        var held := old(pendingByVenue)[v];
        && HeldBecame(old(pendingByVenue), pendingByVenue, v, From(held, FirstFree(ev.sequence + 1, held.Keys)))
        && QueueGrew(old(merger.queues), merger.queues, v, [ev] + ReadyRun(held, ev.sequence + 1))
        && accepted == old(accepted) + 1 + |ReadyRun(held, ev.sequence + 1)|
        && pendingInconsistency == old(pendingInconsistency) + Phantoms(held, ev.sequence + 1)
    {
      Publish(ev);
      ghost var before := merger.queues;
      PublishRun(ev.venue, ev.sequence + 1, released - 1);
      ghost var run := ReadyRun(old(pendingByVenue)[VenueIndex(ev.venue)], ev.sequence + 1);
      QueueGrewTwice(old(merger.queues), before, merger.queues, VenueIndex(ev.venue), [ev], run);
    }

    method Release(ev: BookEvent, released: nat)
      requires Sequenced(ev) && StatusOf(LaneOf(model, ev).next, gap, ev.sequence) == InOrder
      requires released == Released(WindowOf(LaneOf(model, ev)), gap, ev.sequence)
      modifies Repr
      ensures Valid() && mergedCrc == old(mergedCrc) && model == Process(old(model), gap, ev)
    {
      WindowFollowsLane(LaneOf(model, ev), gap, ev);
      ReleaseShape(LaneOf(model, ev), gap, ev);
      PublishAll(ev, released);
      TrimStore(ev.venue);
      Commit(ev);
    }

    /** One pop of the drain. */
    method DrainOne(sink: MergedEventSink?) returns (more: bool)
      modifies merger, this`mergedCrc, sink
      ensures more ==> Total(merger.queues) < Total(old(merger.queues))
      ensures !more ==> Merge(merger.queues) == []
      ensures StreamCrc(mergedCrc, Merge(merger.queues)) == StreamCrc(old(mergedCrc), Merge(old(merger.queues)))
      ensures sink != null ==>
        sink.events + Merge(merger.queues) == old(sink.events) + Merge(old(merger.queues))
    {
      var next := merger.PopNext();
      if next == None {
        return false;
      }
      if sink != null {
        sink.OnMergedEvent(next.value);
        assert old(sink.events) + ([next.value] + Merge(merger.queues)) == sink.events + Merge(merger.queues);
      }
      StreamCrcFromFront(mergedCrc, next.value, Merge(merger.queues));
      mergedCrc := UpdateCrcFromBookEvent(mergedCrc, next.value);
      return true;
    }

    /** Drain the merger into the sink, if there is one, and into the checksum. */
    method DrainMerger(sink: MergedEventSink?)
      modifies merger, this`mergedCrc, sink
      ensures Merge(merger.queues) == []
      ensures mergedCrc == StreamCrc(old(mergedCrc), Merge(old(merger.queues)))
      ensures sink != null ==> sink.events == old(sink.events) + Merge(old(merger.queues))
    {
      var more := true;
      while more
        invariant more || Merge(merger.queues) == []
        invariant StreamCrc(mergedCrc, Merge(merger.queues)) == StreamCrc(old(mergedCrc), Merge(old(merger.queues)))
        invariant sink != null ==>
          sink.events + Merge(merger.queues) == old(sink.events) + Merge(old(merger.queues))
        decreases more, Total(merger.queues)
      {
        more := DrainOne(sink);
      }
    }

    ghost method CommitDrain()
      requires Wired() && |model.lanes| == VENUE_SLOTS
      requires forall i :: 0 <= i < VENUE_SLOTS ==> LaneCoupled(i, model.lanes[i].(queue := []))
      requires model.recovered == recoverySim.pendingRecovered && model.tally == Counted()
      modifies this`model
      ensures Valid() && model == PipelineModel.Finalize(old(model))
    {
      model := PipelineModel.Finalize(model);
    }

    method Finalize(sink: MergedEventSink?)
      requires Valid() && sink !in Repr
      modifies Repr, sink
      ensures Valid() && model == PipelineModel.Finalize(old(model))
      ensures mergedCrc == StreamCrc(old(mergedCrc), Merge(QueuesOf(old(model))))
      ensures sink != null ==> sink.events == old(sink.events) + Merge(QueuesOf(old(model)))
      ensures recoveryRequests == model.tally.requests
    {
      assert QueuesOf(model) == merger.queues;
      DrainMerger(sink);
      recoveryRequests := recoverySim.requestsTotal;
      CommitDrain();
    }
  }
}
