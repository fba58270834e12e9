/**
  Re-aggregation of a sharded run: a checksum kept up to date while the input stays in order, and a
  full merge when it does not.
 */
module ShardedReaggregation {
  import opened Types
  import opened SequenceTracking
  import opened DeterministicMerge
  import opened EventChecksum
  import opened PipelineModel
  import opened PipelineSafety
  import opened PipelineDeterminism
  import opened SequencingPipeline
  import opened AbArbitration

  lemma RouteOfOneMore(s: seq<BookEvent>, ev: BookEvent)
    ensures Route(s + [ev]) == Route(s)[VenueIndex(ev.venue) := Route(s)[VenueIndex(ev.venue)] + [ev]]
  {
    forall i | 0 <= i < VENUE_SLOTS
      ensures Route(s + [ev])[i] == Route(s)[i] + if i == VenueIndex(ev.venue) then [ev] else []
    {
      VenueEventsOfConcat(s, [ev], i);
      VenueEventsOfOne(ev, i);
    }
    var venue := VenueIndex(ev.venue);
    var expected := Route(s)[venue := Route(s)[venue] + [ev]];
    forall i | 0 <= i < VENUE_SLOTS ensures Route(s + [ev])[i] == expected[i] {
      assert i != venue ==> Route(s)[i] + [] == Route(s)[i];
    }
    assert Route(s + [ev]) == expected;
  }

  class ShardedReaggregator {
    var routed: seq<BookEvent>
    var last: Option<BookEvent>
    var incrementalOrdered: bool
    var incrementalCrc: bv32

    /** The flag says whether the input is still in order; while it is, the checksum covers all of it. */
    ghost predicate Valid()
      reads this
    {
      && (incrementalOrdered <==> Ordered(routed))
      && (incrementalOrdered ==> incrementalCrc == StreamCrc(0, routed))
      && last == if routed == [] then None else Some(routed[|routed| - 1])
    }

    constructor ()
      ensures Valid() && routed == []
    {
      routed, last, incrementalOrdered, incrementalCrc := [], None, true, 0;
    }

    /** Events are stamped on the way in. */
    method Submit(ev: BookEvent, now: u64)
      requires Valid()
      modifies this
      ensures Valid() && routed == old(routed) + [ev.(ingestTs := now)]
    {
      var copy := ev.(ingestTs := now);
      UpdateIncrementalReaggregationCrc(copy);
      routed := routed + [copy];
    }

    method UpdateIncrementalReaggregationCrc(ev: BookEvent)
      requires Valid()
      modifies this`last, this`incrementalOrdered, this`incrementalCrc
      ensures incrementalOrdered <==> Ordered(routed + [ev])
      ensures incrementalOrdered ==> incrementalCrc == StreamCrc(0, routed + [ev])
      ensures last == Some(ev)
    {
      OrderedOfOneMore(routed, ev);
      if last.Some? && LessEvent(ev, last.value) {
        incrementalOrdered := false;
      }
      last := Some(ev);
      if incrementalOrdered {
        ExtendCrcBy(ev);
      }
    }

    method ExtendCrcBy(ev: BookEvent)
      requires incrementalCrc == StreamCrc(0, routed)
      modifies this`incrementalCrc
      ensures incrementalCrc == StreamCrc(0, routed + [ev])
    {
      StreamCrcOfOneMore(0, routed, ev);
      incrementalCrc := UpdateCrcFromBookEvent(incrementalCrc, ev);
    }

    /**
      Whichever path is taken, the result is the checksum of the merged stream; the fast path is
      taken exactly when the input was in order.
     */
    method Finalize() returns (crc: bv32, fastPath: bool)
      requires Valid()
      ensures crc == StreamCrc(0, Merge(Route(routed)))
      ensures fastPath <==> Ordered(routed)
    {
      var alreadySorted := IsDeterministicOrdered(routed);
      if alreadySorted && incrementalOrdered {
        MergeOfOrderedStream(routed);
        return incrementalCrc, true;
      }
      crc := MergedCrc(routed);
      fastPath := false;
    }
  }

  lemma OrderedOfOneMore(s: seq<BookEvent>, ev: BookEvent)
    ensures Ordered(s + [ev]) <==> Ordered(s) && (s != [] ==> !LessEvent(ev, s[|s| - 1]))
  {
    var t := s + [ev];
    if Ordered(t) {
      forall i | 1 <= i < |s| ensures !LessEvent(s[i], s[i - 1]) {
        assert !LessEvent(t[i], t[i - 1]);
      }
      if s != [] {
        assert !LessEvent(t[|s|], t[|s| - 1]);
      }
    }
  }

  method IsDeterministicOrdered(events: seq<BookEvent>) returns (b: bool)
    ensures b <==> Ordered(events)
  {
    var i := 1;
    while i < |events|
      invariant 1 <= i && (i <= |events| || |events| == 0)
      invariant forall k :: 1 <= k < i && k < |events| ==> !LessEvent(events[k], events[k - 1])
    {
      if LessEvent(events[i], events[i - 1]) {
        return false;
      }
      i := i + 1;
    }
    return true;
  }

  /** The slow path: push everything, then pop everything. */
  method MergedCrc(events: seq<BookEvent>) returns (crc: bv32)
    ensures crc == StreamCrc(0, Merge(Route(events)))
  {
    var merger := new DeterministicMerger();
    for i := 0 to |events|
      invariant merger.queues == Route(events[..i])
    {
      RouteOfOneMore(events[..i], events[i]);
      assert events[..i + 1] == events[..i] + [events[i]];
      var _ := merger.Push(events[i]);
    }
    assert events[..|events|] == events;
    crc := 0;
    var more := true;
    while more
      invariant more || Merge(merger.queues) == []
      invariant StreamCrc(crc, Merge(merger.queues)) == StreamCrc(0, Merge(Route(events)))
      decreases more, Total(merger.queues)
    {
      more, crc := PopIntoCrc(merger, crc);
    }
  }

  method PopIntoCrc(merger: DeterministicMerger, crc: bv32) returns (more: bool, r: bv32)
    modifies merger
    ensures more ==> Total(merger.queues) < Total(old(merger.queues))
    ensures !more ==> Merge(merger.queues) == []
    ensures StreamCrc(r, Merge(merger.queues)) == StreamCrc(crc, Merge(old(merger.queues)))
  {
    var next := merger.PopNext();
    if next == None {
      return false, crc;
    }
    StreamCrcFromFront(crc, next.value, Merge(merger.queues));
    r := UpdateCrcFromBookEvent(crc, next.value);
    more := true;
  }

  // ---- Agreement with the unsharded pipeline ----

  /** The baseline: one pipeline over the whole tape. */
  method DeterministicCrcForEvents(events: seq<BookEvent>) returns (crc: bv32)
    ensures crc == StreamCrc(0, Output(256, events))
  {
    var pipeline := new Pipeline(256);
    for i := 0 to |events|
      invariant pipeline.Valid() && fresh(pipeline.Repr) && pipeline.gap == 256 && pipeline.mergedCrc == 0
      invariant pipeline.model == RunOps(256, AllArrive(events[..i]))
    {
      RunOfLongerPrefix(256, events, i);
      pipeline.OnEvent(events[i]);
    }
    assert events[..|events|] == events;
    OutputIsTheMerge(256, events);
    crc := DrainedCrc(pipeline);
  }

  lemma RunOfLongerPrefix(gap: nat, events: seq<BookEvent>, i: nat)
    requires i < |events|
    ensures RunOps(gap, AllArrive(events[..i + 1])) == PipelineModel.OnEvent(RunOps(gap, AllArrive(events[..i])), gap, events[i])
  {
    var front, ev := events[..i], events[i];
    assert events[..i + 1] == front + [ev];
    RunOfOneMore(gap, front, ev);
  }

  method DrainedCrc(pipeline: Pipeline) returns (crc: bv32)
    requires pipeline.Valid()
    modifies pipeline.Repr
    ensures crc == StreamCrc(old(pipeline.mergedCrc), Merge(QueuesOf(old(pipeline.model))))
  {
    pipeline.Finalize(null);
    crc := pipeline.mergedCrc;
  }

  lemma {:induction false} ContiguousNumbers(evs: seq<BookEvent>, i: nat)
    requires Contiguous(evs) && i < VENUE_SLOTS
    ensures FirstFree(1, Numbers(evs, i)) == |VenueEvents(evs, i)| + 1
    ensures forall n :: n in Numbers(evs, i) <==> 1 <= n <= |VenueEvents(evs, i)|
  {
    if evs != [] {
      var front, ev := evs[..|evs| - 1], evs[|evs| - 1];
      assert evs == front + [ev];
      ContiguousSplits(front, ev);
      ContiguousNumbers(front, i);
      NumbersOfOneMore(front, ev, i);
    }
    FirstFreeIs(1, Numbers(evs, i), |VenueEvents(evs, i)| + 1);
  }

  lemma {:induction false} ContiguousPrefix(evs: seq<BookEvent>, n: nat)
    requires Contiguous(evs) && n <= |evs|
    ensures Contiguous(evs[..n])
    decreases |evs| - n
  {
    if n == |evs| {
      assert evs[..n] == evs;
    } else {
      ContiguousPrefix(evs, n + 1);
      assert evs[..n + 1] == evs[..n] + [evs[n]];
      ContiguousSplits(evs[..n], evs[n]);
    }
  }

  lemma ContiguousIsWithinWindow(gap: nat, evs: seq<BookEvent>)
    requires Contiguous(evs)
    ensures WithinWindow(gap, evs)
  {
    forall n | 0 <= n < |evs|
      ensures evs[n].sequence <= FirstFree(1, Numbers(evs[..n], VenueIndex(evs[n].venue))) + gap
    {
      ContiguousPrefix(evs, n);
      ContiguousPrefix(evs, n + 1);
      assert evs[..n + 1] == evs[..n] + [evs[n]];
      ContiguousSplits(evs[..n], evs[n]);
      ContiguousNumbers(evs[..n], VenueIndex(evs[n].venue));
    }
  }

  /** On a tape numbered 1, 2, 3, ... per venue the pipeline queues are the tape split by venue. */
  lemma PipelineOfContiguousTape(gap: nat, evs: seq<BookEvent>)
    requires Contiguous(evs) && EventsBelow(evs)
    ensures Output(gap, evs) == Merge(Route(evs))
  {
    ContiguousIsWithinWindow(gap, evs);
    BelowWrapLeavesRoom(evs);
    var s := RunOps(gap, AllArrive(evs));
    forall i | 0 <= i < VENUE_SLOTS ensures QueuesOf(s)[i] == Route(evs)[i] {
      ContiguousNumbers(evs, i);
      ArrivalsAreDeterministic(gap, evs, i);
      QueueIsTheVenue(s.lanes[i], evs, i);
    }
    OutputIsTheMerge(gap, evs);
    assert QueuesOf(s) == Route(evs);
  }

  lemma QueueIsTheVenue(lane: PipelineModel.Lane, evs: seq<BookEvent>, i: nat)
    requires Tracks(lane, lane.queue, evs, i) && i < VENUE_SLOTS && Contiguous(evs)
    requires |lane.queue| == |VenueEvents(evs, i)|
    ensures lane.queue == VenueEvents(evs, i)
  {
    var mine := VenueEvents(evs, i);
    assert Numbered(mine);
    forall j | 0 <= j < |mine| ensures lane.queue[j] == mine[j] {
      var e := lane.queue[j];
      assert e in evs && VenueIndex(e.venue) == i;
      var n :| 0 <= n < |evs| && evs[n] == e;
      VenueEventsContain(evs, i, n);
      var m :| 0 <= m < |mine| && mine[m] == e;
      assert m == j;
    }
  }

  // ---- Stamping changes neither the order nor the checksum ----

  ghost predicate Twins(a: BookEvent, b: BookEvent) {
    a == b.(ingestTs := a.ingestTs)
  }

  ghost predicate TwinStreams(s: seq<BookEvent>, t: seq<BookEvent>) {
    |s| == |t| && forall i :: 0 <= i < |s| ==> Twins(s[i], t[i])
  }

  ghost predicate TwinQueues(p: seq<seq<BookEvent>>, q: seq<seq<BookEvent>>) {
    |p| == |q| && forall i :: 0 <= i < |p| ==> TwinStreams(p[i], q[i])
  }

  lemma {:induction false} TwinsSplitAlike(s: seq<BookEvent>, t: seq<BookEvent>, i: nat)
    requires TwinStreams(s, t)
    ensures TwinStreams(VenueEvents(s, i), VenueEvents(t, i))
  {
    if s != [] {
      assert Twins(s[0], t[0]);
      TwinsSplitAlike(s[1..], t[1..], i);
    }
  }

  lemma {:induction false} TwinsMergeAlike(p: seq<seq<BookEvent>>, q: seq<seq<BookEvent>>)
    requires TwinQueues(p, q)
    ensures TwinStreams(Merge(p), Merge(q))
    decreases Total(p)
  {
    if !Drained(p) {
      var b := Best(p);
      TwinsChooseAlike(p, q, b);
      MergeUnfold(q, b);
      TotalAfterPop(p, b);
      var p', q' := p[b := p[b][1..]], q[b := q[b][1..]];
      assert TwinQueues(p', q');
      TwinsMergeAlike(p', q');
    } else {
      assert Drained(q);
    }
  }

  lemma TwinsChooseAlike(p: seq<seq<BookEvent>>, q: seq<seq<BookEvent>>, b: nat)
    requires TwinQueues(p, q) && IsBest(p, b)
    ensures IsBest(q, b)
  {
    assert TwinStreams(p[b], q[b]);
    forall j | 0 <= j < |q| && j != b && q[j] != []
      ensures if j < b then LessEvent(q[b][0], q[j][0]) else !LessEvent(q[j][0], q[b][0])
    {
      assert TwinStreams(p[j], q[j]);
      assert Twins(p[j][0], q[j][0]) && Twins(p[b][0], q[b][0]);
    }
  }

  lemma {:induction false} TwinsFoldAlike<W(!new)>(
      step: (W, BookEvent) -> W, w: W, s: seq<BookEvent>, t: seq<BookEvent>)
    requires |s| == |t|
    requires forall v: W, i :: 0 <= i < |s| ==> step(v, s[i]) == step(v, t[i])
    ensures FoldEvents(step, w, s) == FoldEvents(step, w, t)
    decreases |s|
  {
    if s != [] {
      assert step(w, s[0]) == step(w, t[0]);
      forall v: W, i | 0 <= i < |s[1..]| ensures step(v, s[1..][i]) == step(v, t[1..][i]) {
        assert s[1..][i] == s[i + 1] && t[1..][i] == t[i + 1];
      }
      TwinsFoldAlike(step, step(w, s[0]), s[1..], t[1..]);
    }
  }

  lemma TwinsChecksumAlike(seed: bv32, s: seq<BookEvent>, t: seq<BookEvent>)
    requires TwinStreams(s, t)
    ensures StreamCrc(seed, s) == StreamCrc(seed, t)
  {
    forall v: bv32, i | 0 <= i < |s| ensures EventCrc(v, s[i]) == EventCrc(v, t[i]) {
    }
    TwinsFoldAlike(EventCrc, seed, s, t);
  }

  /**
    On a tape numbered 1, 2, 3, ... per venue, re-aggregating the stamped events gives the checksum
    of a single pipeline over the tape.
   */
  lemma ShardedAgreesWithPipeline(gap: nat, tape: seq<BookEvent>, routed: seq<BookEvent>)
    requires Contiguous(tape) && EventsBelow(tape) && TwinStreams(routed, tape)
    ensures StreamCrc(0, Merge(Route(routed))) == StreamCrc(0, Output(gap, tape))
  {
    PipelineOfContiguousTape(gap, tape);
    forall i | 0 <= i < VENUE_SLOTS ensures TwinStreams(Route(routed)[i], Route(tape)[i]) {
      TwinsSplitAlike(routed, tape, i);
    }
    TwinsMergeAlike(Route(routed), Route(tape));
    TwinsChecksumAlike(0, Merge(Route(routed)), Merge(Route(tape)));
  }
}
