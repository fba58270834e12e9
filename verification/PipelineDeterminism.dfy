/**
  The headline claim: the merged stream, and so its checksum, depends on which events arrived and
  not on the order, interleaving or repetition in which they arrived.
 */
module PipelineDeterminism {
  import opened Types
  import opened SequenceTracking
  import opened RecoveryStorage
  import opened DeterministicMerge
  import opened EventChecksum
  import opened PipelineModel
  import opened PipelineSafety

  ghost function Numbers(evs: seq<BookEvent>, i: nat): set<nat> {
    set e | e in evs && VenueIndex(e.venue) == i && e.sequence > 0 :: e.sequence
  }

  /** No event is further ahead of its venue's least missing number than the gap window allows. */
  ghost predicate WithinWindow(gap: nat, evs: seq<BookEvent>) {
    forall n :: 0 <= n < |evs| ==>
      evs[n].sequence <= FirstFree(1, Numbers(evs[..n], VenueIndex(evs[n].venue))) + gap
  }

  ghost predicate OnePayloadEach(evs: seq<BookEvent>) {
    forall a, b :: a in evs && b in evs && a.venue == b.venue && a.sequence == b.sequence > 0 ==> a == b
  }

  function AllArrive(evs: seq<BookEvent>): seq<Op> {
    seq(|evs|, i requires 0 <= i < |evs| => Arrive(evs[i]))
  }

  /** The events that arrive in a run, drains left out. */
  function EventsOf(ops: seq<Op>): seq<BookEvent> {
    if ops == [] then []
    else
      var last := ops[|ops| - 1];
      EventsOf(ops[..|ops| - 1]) + if last.Arrive? then [last.ev] else []
  }

  /** No venue has received all of 1 .. 2^64 - 1. */
  ghost predicate RoomLeft(evs: seq<BookEvent>) {
    forall i :: 0 <= i < VENUE_SLOTS ==> FirstFree(1, Numbers(evs, i)) <= MAX64
  }

  /** Nothing was refused as too far ahead, and no release ran off the end of the 64-bit range. */
  ghost predicate Quiet(s: State) {
    s.tally.gapTooLarge == 0 && s.tally.inconsistent == 0
  }

  /** Events of venue i drawn from evs. */
  ghost predicate DrawnFrom(s: seq<BookEvent>, evs: seq<BookEvent>, i: nat) {
    forall e :: e in s ==> e in evs && VenueIndex(e.venue) == i
  }

  /** Exactly the contiguous prefix received is published, the pending map is what lies beyond a hole. */
  ghost predicate Tracks(lane: Lane, published: seq<BookEvent>, evs: seq<BookEvent>, i: nat) {
    && Summarises(WindowOf(lane), Numbers(evs, i))
    && (forall k :: k in lane.pending ==> lane.pending[k] in evs)
    && DrawnFrom(lane.store, evs, i)
    && IsPrefix(published, lane.next, evs, i)
  }

  /** The events numbered 1, 2, 3, ... below next. */
  ghost predicate IsPrefix(published: seq<BookEvent>, next: nat, evs: seq<BookEvent>, i: nat) {
    && DrawnFrom(published, evs, i) && |published| == next - 1
    && forall j :: 0 <= j < |published| ==> published[j].sequence == j + 1
  }

  ghost predicate Deterministic(s: State, gap: nat, evs: seq<BookEvent>) {
    && Safe(s, gap)
    && Quiet(s) && s.recovered == [] && s.tally.reinjected == 0
    && forall i :: 0 <= i < VENUE_SLOTS ==> Tracks(s.lanes[i], Published(s, i), evs, i)
  }

  lemma NumbersOfOneMore(evs: seq<BookEvent>, ev: BookEvent, i: nat)
    ensures Numbers(evs + [ev], i)
         == if VenueIndex(ev.venue) == i && ev.sequence > 0 then Numbers(evs, i) + {ev.sequence} else Numbers(evs, i)
  {
    var more := Numbers(evs + [ev], i);
    forall n | n in Numbers(evs, i) ensures n in more {
      var e :| e in evs && VenueIndex(e.venue) == i && e.sequence == n && n > 0;
      assert e in evs + [ev];
    }
    if VenueIndex(ev.venue) == i && ev.sequence > 0 {
      assert ev in evs + [ev];
    }
  }

  lemma TracksMore(lane: Lane, published: seq<BookEvent>, evs: seq<BookEvent>, ev: BookEvent, i: nat)
    requires Tracks(lane, published, evs, i) && (VenueIndex(ev.venue) != i || ev.sequence == 0)
    ensures Tracks(lane, published, evs + [ev], i)
  {
    NumbersOfOneMore(evs, ev, i);
  }

  lemma SummaryAfter(lane: Lane, gap: nat, evs: seq<BookEvent>, ev: BookEvent, i: nat)
    requires Summarises(WindowOf(lane), Numbers(evs, i)) && 1 <= lane.next <= MAX64 && PendingOk(lane, gap, i)
    requires VenueIndex(ev.venue) == i && NoWrap(lane, gap, ev)
    requires StatusOf(lane.next, gap, ev.sequence) != GapTooLarge
    ensures Summarises(WindowOf(LaneAfter(lane, gap, ev)), Numbers(evs + [ev], i))
  {
    NumbersOfOneMore(evs, ev, i);
    WindowAfter(lane, gap, ev, i);
    if ev.sequence > 0 {
      LeastMissingAfter(WindowOf(lane), ev.sequence, Numbers(evs, i));
      StepKeepsSummary(WindowOf(lane), gap, ev.sequence, Numbers(evs, i));
    }
  }

  /** Releasing in order extends the contiguous prefix. */
  lemma PrefixAfter(lane: Lane, published: seq<BookEvent>, gap: nat, evs: seq<BookEvent>, ev: BookEvent, i: nat)
    requires 1 <= lane.next && PendingOk(lane, gap, i) && VenueIndex(ev.venue) == i
    requires ev.sequence == lane.next && NoWrap(lane, gap, ev)
    requires IsPrefix(published, lane.next, evs, i) && forall k :: k in lane.pending ==> lane.pending[k] in evs
    ensures IsPrefix(published + [ev] + ReadyRun(lane.pending, ev.sequence + 1), LaneAfter(lane, gap, ev).next, evs + [ev], i)
  {
    InOrderFacts(lane, gap, i, ev);
    ReadyRunIs(lane.pending, ev.sequence + 1);
    var run := ReadyRun(lane.pending, ev.sequence + 1);
    var front := published + [ev];
    var more := front + run;
    forall j | 0 <= j < |more| ensures more[j].sequence == j + 1 {
      if j >= |front| {
        assert more[j] == run[j - |front|];
      }
    }
    forall e | e in more ensures e in evs + [ev] && VenueIndex(e.venue) == i {
      if e in run {
        var j :| 0 <= j < |run| && run[j] == e;
      }
    }
  }

  /** The lane of the arriving event, after it has been recorded and processed. */
  lemma LaneTracks(lane: Lane, published: seq<BookEvent>, gap: nat, evs: seq<BookEvent>, ev: BookEvent, i: nat)
    requires Tracks(lane.(store := []), published, evs, i) && DrawnFrom(lane.store, evs + [ev], i)
    requires 1 <= lane.next <= MAX64 && PendingOk(lane, gap, i)
    requires VenueIndex(ev.venue) == i && NoWrap(lane, gap, ev)
    requires StatusOf(lane.next, gap, ev.sequence) != GapTooLarge
    ensures Tracks(LaneAfter(lane, gap, ev), PublishedAfter(published, lane, gap, ev), evs + [ev], i)
  {
    SummaryAfter(lane, gap, evs, ev, i);
    if StatusOf(lane.next, gap, ev.sequence) == InOrder {
      PrefixAfter(lane, published, gap, evs, ev, i);
      InOrderFacts(lane, gap, i, ev);
      StoreAfterAdvanceKeeps(lane.store, LaneAfter(lane, gap, ev).next);
    }
  }

  lemma WindowAfter(lane: Lane, gap: nat, ev: BookEvent, i: nat)
    requires 1 <= lane.next && PendingOk(lane, gap, i) && NoWrap(lane, gap, ev)
    requires StatusOf(lane.next, gap, ev.sequence) != GapTooLarge
    ensures WindowOf(LaneAfter(lane, gap, ev)) == Step(WindowOf(lane), gap, ev.sequence)
  {
    var after := LaneAfter(lane, gap, ev);
    if StatusOf(lane.next, gap, ev.sequence) == InOrder {
      InOrderFacts(lane, gap, i, ev);
      assert after.pending.Keys == Step(WindowOf(lane), gap, ev.sequence).live;
    } else if StatusOf(lane.next, gap, ev.sequence) == GapBuffered {
      assert after.pending.Keys == lane.pending.Keys + {ev.sequence};
    }
  }

  lemma {:induction false} ReinjectSkipsHeld(s: State, gap: nat, rs: seq<BookEvent>)
    requires |s.lanes| == VENUE_SLOTS
    requires forall r :: r in rs ==> r.sequence in LaneOf(s, r).pending
    ensures Reinject(s, gap, rs) == s
    decreases |rs|
  {
    if rs != [] {
      assert rs[0] in rs && forall r :: r in rs[1..] ==> r in rs;
      ReinjectSkipsHeld(s, gap, rs[1..]);
    }
  }

  /** The next number wanted has never arrived, so whatever is found for a gap is already held back. */
  lemma HitsAreHeld(lane: Lane, gap: nat, evs: seq<BookEvent>, ev: BookEvent, i: nat, r: BookEvent)
    requires Summarises(WindowOf(lane), Numbers(evs, i)) && 1 <= lane.next
    requires StoreOk(lane, i, ev.sequence) && DrawnFrom(lane.store, evs + [ev], i)
    requires StatusOf(lane.next, gap, ev.sequence) == GapBuffered && VenueIndex(ev.venue) == i
    requires r in Hits(lane.store, lane.next, ev.sequence - 1)
    ensures r.sequence in lane.pending && VenueIndex(r.venue) == i
  {
    HitsAreGenuine(lane.store, lane.next, ev.sequence - 1, r);
    assert r in evs + [ev] && r.sequence > 0;
    assert r.sequence in Numbers(evs, i);
    assert lane.next !in Numbers(evs, i);
  }

  lemma RecordedLaneTracks(lane: Lane, published: seq<BookEvent>, limit: nat, evs: seq<BookEvent>, ev: BookEvent, i: nat)
    requires Tracks(lane, published, evs, i) && VenueIndex(ev.venue) == i
    ensures var recorded := lane.(store := Recorded(lane.store, limit, ev));
      Tracks(recorded.(store := []), published, evs, i) && DrawnFrom(recorded.store, evs + [ev], i)
  {
    forall e | e in Recorded(lane.store, limit, ev) ensures e in evs + [ev] && VenueIndex(e.venue) == i {
      assert e in lane.store + [ev];
    }
  }

  lemma LanesTrack(s: State, gap: nat, evs: seq<BookEvent>, ev: BookEvent)
    requires Deterministic(s, gap, evs) && NoWrap(LaneOf(s, ev), gap, ev)
    requires StatusOf(LaneOf(s, ev).next, gap, ev.sequence) != GapTooLarge
    ensures var processed := Process(Record(s, gap, ev), gap, ev);
      forall i :: 0 <= i < VENUE_SLOTS ==> Tracks(processed.lanes[i], Published(processed, i), evs + [ev], i)
  {
    var v := VenueIndex(ev.venue);
    var recorded := Record(s, gap, ev);
    var lane := LaneOf(recorded, ev);
    var processed := Process(recorded, gap, ev);
    RecordedLaneTracks(s.lanes[v], Published(s, v), StoreLimit(gap), evs, ev, v);
    LaneTracks(lane, Published(s, v), gap, evs, ev, v);
    PublishedByProcess(recorded, gap, ev);
    forall i | 0 <= i < VENUE_SLOTS && i != v ensures Tracks(s.lanes[i], Published(s, i), evs + [ev], i) {
      TracksMore(s.lanes[i], Published(s, i), evs, ev, i);
    }
  }

  lemma RecoveredAreHeld(s: State, gap: nat, evs: seq<BookEvent>, ev: BookEvent)
    requires Deterministic(s, gap, evs)
    ensures var processed := Process(Record(s, gap, ev), gap, ev);
      forall r :: r in processed.recovered ==> r.sequence in LaneOf(processed, r).pending
  {
    var v := VenueIndex(ev.venue);
    var recorded := Record(s, gap, ev);
    var lane := LaneOf(recorded, ev);
    RecordIsSafeExcept(s, gap, ev);
    RecordedLaneTracks(s.lanes[v], Published(s, v), StoreLimit(gap), evs, ev, v);
    var processed := Process(recorded, gap, ev);
    forall r | r in processed.recovered ensures r.sequence in LaneOf(processed, r).pending {
      HitsAreHeld(lane, gap, evs, ev, v, r);
    }
  }

  /** A release runs off the range exactly when it completes the numbers of its venue. */
  lemma WrapsWhenAllIsReceived(lane: Lane, gap: nat, evs: seq<BookEvent>, ev: BookEvent, i: nat)
    requires Summarises(WindowOf(lane), Numbers(evs, i)) && 1 <= lane.next <= MAX64 && VenueIndex(ev.venue) == i
    ensures NoWrap(lane, gap, ev) <==> FirstFree(1, Numbers(evs + [ev], i)) <= MAX64
  {
    NumbersOfOneMore(evs, ev, i);
    if ev.sequence > 0 {
      LeastMissingAfter(WindowOf(lane), ev.sequence, Numbers(evs, i));
    }
  }

  /** Nothing recovered is fed back, so an event counts an inconsistency only by its own release. */
  lemma InconsistentIffWraps(s: State, gap: nat, evs: seq<BookEvent>, ev: BookEvent)
    requires Deterministic(s, gap, evs)
    requires StatusOf(LaneOf(s, ev).next, gap, ev.sequence) != GapTooLarge
    ensures OnEvent(s, gap, ev).tally.inconsistent == 0
        <==> FirstFree(1, Numbers(evs + [ev], VenueIndex(ev.venue))) <= MAX64
  {
    var v := VenueIndex(ev.venue);
    assert Tracks(s.lanes[v], Published(s, v), evs, v);
    WrapsWhenAllIsReceived(s.lanes[v], gap, evs, ev, v);
    RecoveredAreHeld(s, gap, evs, ev);
    var processed := Process(Record(s, gap, ev), gap, ev);
    ReinjectSkipsHeld(processed.(recovered := []), gap, processed.recovered);
  }

  lemma OnEventIsDeterministic(s: State, gap: nat, evs: seq<BookEvent>, ev: BookEvent)
    requires Deterministic(s, gap, evs) && RoomLeft(evs + [ev])
    requires ev.sequence <= FirstFree(1, Numbers(evs, VenueIndex(ev.venue))) + gap
    ensures Deterministic(OnEvent(s, gap, ev), gap, evs + [ev])
  {
    var v := VenueIndex(ev.venue);
    assert Tracks(s.lanes[v], Published(s, v), evs, v);
    InconsistentIffWraps(s, gap, evs, ev);
    OnEventIsSafe(s, gap, ev);
    OnEventOnlyCounts(s, gap, ev);
    LanesTrack(s, gap, evs, ev);
    RecoveredAreHeld(s, gap, evs, ev);
    var processed := Process(Record(s, gap, ev), gap, ev);
    var calm := processed.(recovered := []);
    ReinjectSkipsHeld(calm, gap, processed.recovered);
    assert forall i :: 0 <= i < VENUE_SLOTS ==> Published(calm, i) == Published(processed, i);
  }

  lemma FinalizeIsDeterministic(s: State, gap: nat, evs: seq<BookEvent>)
    requires Deterministic(s, gap, evs)
    ensures Deterministic(Finalize(s), gap, evs)
  {
    FinalizeIsSafe(s, gap);
    forall i | 0 <= i < VENUE_SLOTS ensures Tracks(Finalize(s).lanes[i], Published(Finalize(s), i), evs, i) {
      QueuesAreRouted(s, gap);
      FinalizeKeepsPublished(s, i);
      assert Tracks(s.lanes[i], Published(s, i), evs, i);
    }
  }

  lemma WithinWindowFront(gap: nat, evs: seq<BookEvent>)
    requires WithinWindow(gap, evs) && evs != []
    ensures WithinWindow(gap, evs[..|evs| - 1])
  {
    var front := evs[..|evs| - 1];
    forall n | 0 <= n < |front|
      ensures front[n].sequence <= FirstFree(1, Numbers(front[..n], VenueIndex(front[n].venue))) + gap
    {
      assert front[..n] == evs[..n] && front[n] == evs[n];
    }
  }

  lemma WithinWindowMore(gap: nat, evs: seq<BookEvent>, ev: BookEvent)
    requires WithinWindow(gap, evs)
    ensures WithinWindow(gap, evs + [ev])
        <==> ev.sequence <= FirstFree(1, Numbers(evs, VenueIndex(ev.venue))) + gap
  {
    var more := evs + [ev];
    assert more[..|evs|] == evs && more[|evs|] == ev;
    forall n | 0 <= n < |evs|
      ensures more[n].sequence <= FirstFree(1, Numbers(more[..n], VenueIndex(more[n].venue))) + gap
    {
      assert more[..n] == evs[..n] && more[n] == evs[n];
    }
  }

  lemma StartIsDeterministic(gap: nat)
    ensures Deterministic(START, gap, [])
  {
    EveryRunIsSafe(gap, []);
    forall i | 0 <= i < VENUE_SLOTS ensures Tracks(START.lanes[i], Published(START, i), [], i) {
      FirstFreeIs(1, Numbers([], i), 1);
    }
  }

  lemma FrontIsQuieter(gap: nat, ops: seq<Op>)
    requires ops != []
    ensures CountsGrow(RunOps(gap, ops[..|ops| - 1]).tally, RunOps(gap, ops).tally)
  {
    var s, op := RunOps(gap, ops[..|ops| - 1]), ops[|ops| - 1];
    if op.Arrive? {
      OnEventOnlyCounts(s, gap, op.ev);
    }
  }

  /** Without the last number of the range there is always room. */
  lemma BelowWrapLeavesRoom(evs: seq<BookEvent>)
    requires EventsBelow(evs)
    ensures RoomLeft(evs)
  {
    forall i | 0 <= i < VENUE_SLOTS ensures FirstFree(1, Numbers(evs, i)) <= MAX64 {
      assert MAX64 !in Numbers(evs, i);
    }
  }

  lemma RoomBefore(evs: seq<BookEvent>, ev: BookEvent)
    requires RoomLeft(evs + [ev])
    ensures RoomLeft(evs)
  {
    forall i | 0 <= i < VENUE_SLOTS ensures FirstFree(1, Numbers(evs, i)) <= MAX64 {
      NumbersOfOneMore(evs, ev, i);
      FirstFreeGrows(1, Numbers(evs, i), Numbers(evs + [ev], i));
    }
  }

  lemma RoomAfter(evs: seq<BookEvent>, ev: BookEvent)
    requires RoomLeft(evs) && FirstFree(1, Numbers(evs + [ev], VenueIndex(ev.venue))) <= MAX64
    ensures RoomLeft(evs + [ev])
  {
    forall i | 0 <= i < VENUE_SLOTS ensures FirstFree(1, Numbers(evs + [ev], i)) <= MAX64 {
      NumbersOfOneMore(evs, ev, i);
    }
  }

  /**
    Events arriving in any order, drains anywhere: each venue has published exactly the contiguous
    prefix of what arrived, and nothing was refused or reinjected.
   */
  lemma {:induction false} RunsAreDeterministic(gap: nat, ops: seq<Op>)
    requires WithinWindow(gap, EventsOf(ops)) && RoomLeft(EventsOf(ops))
    ensures Deterministic(RunOps(gap, ops), gap, EventsOf(ops))
  {
    if ops == [] {
      StartIsDeterministic(gap);
    } else {
      var front, op := ops[..|ops| - 1], ops[|ops| - 1];
      if op.Arrive? {
        assert EventsOf(ops)[..|EventsOf(ops)| - 1] == EventsOf(front);
        WithinWindowFront(gap, EventsOf(ops));
        WithinWindowMore(gap, EventsOf(front), op.ev);
        RoomBefore(EventsOf(front), op.ev);
        RunsAreDeterministic(gap, front);
        OnEventIsDeterministic(RunOps(gap, front), gap, EventsOf(front), op.ev);
      } else {
        assert EventsOf(ops) == EventsOf(front);
        RunsAreDeterministic(gap, front);
        FinalizeIsDeterministic(RunOps(gap, front), gap, EventsOf(front));
      }
    }
  }

  lemma AheadIsRefused(s: State, gap: nat, evs: seq<BookEvent>, ev: BookEvent)
    requires Deterministic(s, gap, evs)
    requires ev.sequence > FirstFree(1, Numbers(evs, VenueIndex(ev.venue))) + gap
    ensures OnEvent(s, gap, ev).tally.gapTooLarge > 0
  {
    var v := VenueIndex(ev.venue);
    assert Tracks(s.lanes[v], Published(s, v), evs, v);
    OnEventOnlyCounts(s, gap, ev);
  }

  /** One more event is within the window, unless it is refused; and it leaves room, unless it wraps. */
  lemma OneMoreUnrefused(gap: nat, ops: seq<Op>, ev: BookEvent)
    requires WithinWindow(gap, EventsOf(ops)) && RoomLeft(EventsOf(ops))
    requires OnEvent(RunOps(gap, ops), gap, ev).tally.gapTooLarge == 0
    ensures WithinWindow(gap, EventsOf(ops) + [ev])
    ensures OnEvent(RunOps(gap, ops), gap, ev).tally.inconsistent == 0 <==> RoomLeft(EventsOf(ops) + [ev])
  {
    var s, evs, v := RunOps(gap, ops), EventsOf(ops), VenueIndex(ev.venue);
    RunsAreDeterministic(gap, ops);
    WithinWindowMore(gap, evs, ev);
    if ev.sequence > FirstFree(1, Numbers(evs, v)) + gap {
      AheadIsRefused(s, gap, evs, ev);
    }
    assert Tracks(s.lanes[v], Published(s, v), evs, v);
    InconsistentIffWraps(s, gap, evs, ev);
    if FirstFree(1, Numbers(evs + [ev], v)) <= MAX64 {
      RoomAfter(evs, ev);
    }
  }

  lemma {:induction false} UnrefusedMeansWithin(gap: nat, ops: seq<Op>)
    requires RunOps(gap, ops).tally.gapTooLarge == 0
    requires RunOps(gap, ops).tally.inconsistent == 0 || RoomLeft(EventsOf(ops))
    ensures WithinWindow(gap, EventsOf(ops)) && RoomLeft(EventsOf(ops))
  {
    if ops == [] {
      forall i | 0 <= i < VENUE_SLOTS ensures FirstFree(1, Numbers([], i)) <= MAX64 {
        FirstFreeIs(1, Numbers([], i), 1);
      }
    } else {
      var front, op := ops[..|ops| - 1], ops[|ops| - 1];
      FrontIsQuieter(gap, ops);
      if op.Arrive? {
        if RoomLeft(EventsOf(ops)) {
          RoomBefore(EventsOf(front), op.ev);
        }
        UnrefusedMeansWithin(gap, front);
        OneMoreUnrefused(gap, front, op.ev);
      } else {
        assert EventsOf(ops) == EventsOf(front);
        UnrefusedMeansWithin(gap, front);
      }
    }
  }

  /**
    Which runs are quiet can be read off their events: those in which no event arrives beyond the window
    of what arrived before it, and no venue receives the whole range.
   */
  lemma QuietIffWithinWindow(gap: nat, ops: seq<Op>)
    ensures Quiet(RunOps(gap, ops)) <==> WithinWindow(gap, EventsOf(ops)) && RoomLeft(EventsOf(ops))
  {
    if WithinWindow(gap, EventsOf(ops)) && RoomLeft(EventsOf(ops)) {
      RunsAreDeterministic(gap, ops);
    } else if Quiet(RunOps(gap, ops)) {
      UnrefusedMeansWithin(gap, ops);
    }
  }

  /** An event is refused in a run exactly when one arrives beyond the window of what arrived before. */
  lemma RefusedIffBeyondWindow(gap: nat, ops: seq<Op>)
    requires RoomLeft(EventsOf(ops))
    ensures RunOps(gap, ops).tally.gapTooLarge == 0 <==> WithinWindow(gap, EventsOf(ops))
  {
    if WithinWindow(gap, EventsOf(ops)) {
      RunsAreDeterministic(gap, ops);
    } else if RunOps(gap, ops).tally.gapTooLarge == 0 {
      UnrefusedMeansWithin(gap, ops);
    }
  }

  /** In a run without refusals nothing recovered is ever fed back. */
  lemma NothingIsReinjected(gap: nat, ops: seq<Op>)
    requires Quiet(RunOps(gap, ops))
    ensures RunOps(gap, ops).tally.reinjected == 0
  {
    QuietIffWithinWindow(gap, ops);
    RunsAreDeterministic(gap, ops);
  }

  lemma SamePrefix(p: seq<BookEvent>, q: seq<BookEvent>, next: nat, evs: seq<BookEvent>, other: seq<BookEvent>, i: nat)
    requires IsPrefix(p, next, evs, i) && IsPrefix(q, next, other, i) && OnePayloadEach(evs)
    requires forall e :: e in evs <==> e in other
    ensures p == q
  {
    forall j | 0 <= j < |p| ensures p[j] == q[j] {
      assert p[j] in p && q[j] in q;
    }
  }

  lemma SamePending(a: Lane, gap: nat, evs: seq<BookEvent>, b: Lane, gap': nat, other: seq<BookEvent>, i: nat)
    requires PendingOk(a, gap, i) && PendingOk(b, gap', i) && OnePayloadEach(evs)
    requires (forall k :: k in a.pending ==> a.pending[k] in evs) && (forall k :: k in b.pending ==> b.pending[k] in other)
    requires (forall e :: e in evs <==> e in other) && a.pending.Keys == b.pending.Keys
    ensures a.pending == b.pending
  {
    forall k | k in a.pending ensures k in b.pending && a.pending[k] == b.pending[k] {
      assert k in b.pending.Keys;
    }
  }

  /**
    Two runs that receive the same events without refusals, in any order and with any repetition, drains
    anywhere and whatever their gap windows: every venue has published the same stream and holds back
    the same events.
   */
  lemma SameEventsSamePublication(gap: nat, ops: seq<Op>, gap': nat, ops': seq<Op>, i: nat)
    requires Quiet(RunOps(gap, ops)) && Quiet(RunOps(gap', ops')) && i < VENUE_SLOTS
    requires OnePayloadEach(EventsOf(ops)) && forall e :: e in EventsOf(ops) <==> e in EventsOf(ops')
    ensures Published(RunOps(gap, ops), i) == Published(RunOps(gap', ops'), i)
    ensures RunOps(gap, ops).lanes[i].pending == RunOps(gap', ops').lanes[i].pending
  {
    QuietIffWithinWindow(gap, ops);
    QuietIffWithinWindow(gap', ops');
    RunsAreDeterministic(gap, ops);
    RunsAreDeterministic(gap', ops');
    var a, b := RunOps(gap, ops), RunOps(gap', ops');
    var mine, theirs := EventsOf(ops), EventsOf(ops');
    assert Tracks(a.lanes[i], Published(a, i), mine, i) && Tracks(b.lanes[i], Published(b, i), theirs, i);
    assert Numbers(mine, i) == Numbers(theirs, i);
    SamePrefix(Published(a, i), Published(b, i), a.lanes[i].next, mine, theirs, i);
    SamePending(a.lanes[i], gap, mine, b.lanes[i], gap', theirs, i);
  }

  // ---- One final drain ----

  lemma RunOfOneMore(gap: nat, evs: seq<BookEvent>, ev: BookEvent)
    ensures RunOps(gap, AllArrive(evs + [ev])) == OnEvent(RunOps(gap, AllArrive(evs)), gap, ev)
  {
    var ops := AllArrive(evs + [ev]);
    assert ops[..|ops| - 1] == AllArrive(evs) && ops[|ops| - 1] == Arrive(ev);
  }

  lemma {:induction false} EventsOfArrivals(evs: seq<BookEvent>)
    ensures EventsOf(AllArrive(evs)) == evs
  {
    if evs != [] {
      var front := evs[..|evs| - 1];
      assert AllArrive(evs)[..|evs| - 1] == AllArrive(front);
      EventsOfArrivals(front);
      assert evs == front + [evs[|evs| - 1]];
    }
  }

  lemma {:induction false} ReinjectEmitsNothing(s: State, gap: nat, rs: seq<BookEvent>)
    requires |s.lanes| == VENUE_SLOTS
    ensures Reinject(s, gap, rs).emitted == s.emitted
    decreases |rs|
  {
    if rs != [] {
      if rs[0].sequence in LaneOf(s, rs[0]).pending {
        ReinjectEmitsNothing(s, gap, rs[1..]);
      } else {
        ReinjectEmitsNothing(CountReinjection(Process(s, gap, rs[0])), gap, rs[1..]);
      }
    }
  }

  lemma {:induction false} NothingEmittedYet(gap: nat, evs: seq<BookEvent>)
    ensures RunOps(gap, AllArrive(evs)).emitted == []
  {
    if evs != [] {
      var front, ev := evs[..|evs| - 1], evs[|evs| - 1];
      assert evs == front + [ev];
      NothingEmittedYet(gap, front);
      RunOfOneMore(gap, front, ev);
      var processed := Process(Record(RunOps(gap, AllArrive(front)), gap, ev), gap, ev);
      ReinjectEmitsNothing(processed.(recovered := []), gap, processed.recovered);
    }
  }

  lemma QueueIsPublished(gap: nat, evs: seq<BookEvent>, i: nat)
    requires i < VENUE_SLOTS
    ensures Published(RunOps(gap, AllArrive(evs)), i) == RunOps(gap, AllArrive(evs)).lanes[i].queue
  {
    NothingEmittedYet(gap, evs);
  }

  /** Without a drain a queue holds all that its venue has published: the contiguous prefix received. */
  lemma ArrivalsAreDeterministic(gap: nat, evs: seq<BookEvent>, i: nat)
    requires WithinWindow(gap, evs) && RoomLeft(evs) && i < VENUE_SLOTS
    ensures Deterministic(RunOps(gap, AllArrive(evs)), gap, evs)
    ensures var lane := RunOps(gap, AllArrive(evs)).lanes[i];
      Tracks(lane, lane.queue, evs, i) && |lane.queue| == FirstFree(1, Numbers(evs, i)) - 1
  {
    EventsOfArrivals(evs);
    RunsAreDeterministic(gap, AllArrive(evs));
    QueueIsPublished(gap, evs, i);
  }

  /** What the sink sees after everything has arrived and one final drain. */
  ghost function Output(gap: nat, evs: seq<BookEvent>): seq<BookEvent> {
    Finalize(RunOps(gap, AllArrive(evs))).emitted
  }

  lemma OutputIsTheMerge(gap: nat, evs: seq<BookEvent>)
    ensures Output(gap, evs) == Merge(QueuesOf(RunOps(gap, AllArrive(evs))))
  {
    NothingEmittedYet(gap, evs);
  }

  lemma SameEventsSameQueue(gap: nat, evs: seq<BookEvent>, gap': nat, other: seq<BookEvent>, i: nat)
    requires OnePayloadEach(evs) && (forall e :: e in evs <==> e in other) && i < VENUE_SLOTS
    requires Quiet(RunOps(gap, AllArrive(evs))) && Quiet(RunOps(gap', AllArrive(other)))
    ensures RunOps(gap, AllArrive(evs)).lanes[i].queue == RunOps(gap', AllArrive(other)).lanes[i].queue
  {
    EventsOfArrivals(evs);
    EventsOfArrivals(other);
    SameEventsSamePublication(gap, AllArrive(evs), gap', AllArrive(other), i);
    QueueIsPublished(gap, evs, i);
    QueueIsPublished(gap', other, i);
  }

  /**
    Two tapes with the same events and no refusal, in any order and with any repetition, produce the
    same merged stream and the same checksum; even the gap windows may differ.
   */
  lemma ArrivalOrderIsIrrelevant(gap: nat, evs: seq<BookEvent>, gap': nat, other: seq<BookEvent>)
    requires OnePayloadEach(evs) && forall e :: e in evs <==> e in other
    requires Quiet(RunOps(gap, AllArrive(evs))) && Quiet(RunOps(gap', AllArrive(other)))
    ensures Output(gap, evs) == Output(gap', other)
    ensures forall seed :: StreamCrc(seed, Output(gap, evs)) == StreamCrc(seed, Output(gap', other))
  {
    var a, b := RunOps(gap, AllArrive(evs)), RunOps(gap', AllArrive(other));
    forall i | 0 <= i < VENUE_SLOTS ensures a.lanes[i].queue == b.lanes[i].queue {
      SameEventsSameQueue(gap, evs, gap', other, i);
    }
    OutputIsTheMerge(gap, evs);
    OutputIsTheMerge(gap', other);
    assert QueuesOf(a) == QueuesOf(b);
  }

  // ---- The window condition cannot be dropped ----

  /** A run that has published nothing and wants next from venue v. */
  ghost predicate NothingPublished(s: State, v: nat, next: nat) {
    && |s.lanes| == VENUE_SLOTS && v < VENUE_SLOTS
    && s.recovered == [] && s.emitted == [] && Drained(QueuesOf(s)) && s.lanes[v].next == next
  }

  lemma DroppedEventIsQuiet(gap: nat, evs: seq<BookEvent>, ev: BookEvent, next: nat)
    requires NothingPublished(RunOps(gap, AllArrive(evs)), VenueIndex(ev.venue), next)
    requires StatusOf(next, gap, ev.sequence) in {DuplicateOrOld, GapTooLarge}
    ensures NothingPublished(RunOps(gap, AllArrive(evs + [ev])), VenueIndex(ev.venue),
                             if ev.sequence > next then ev.sequence else next)
  {
    var s := RunOps(gap, AllArrive(evs));
    RunOfOneMore(gap, evs, ev);
    var processed := Process(Record(s, gap, ev), gap, ev);
    assert processed.(recovered := []) == processed;
    assert QueuesOf(processed) == QueuesOf(s);
  }

  lemma RefusedTapeIsLost(e1: BookEvent, e2: BookEvent, e3: BookEvent)
    requires e1.venue == e2.venue == e3.venue
    requires e1.sequence == 1 && e2.sequence == 2 && e3.sequence == 3
    ensures Output(1, [e3, e1, e2]) == []
  {
    var v := VenueIndex(e1.venue);
    assert AllArrive([]) == [];
    assert NothingPublished(RunOps(1, AllArrive([])), v, 1);
    DroppedEventIsQuiet(1, [], e3, 1);
    assert [] + [e3] == [e3] && [e3] + [e1] == [e3, e1] && [e3, e1] + [e2] == [e3, e1, e2];
    DroppedEventIsQuiet(1, [e3], e1, 3);
    DroppedEventIsQuiet(1, [e3, e1], e2, 3);
  }

  lemma {:induction false} OneQueueTotal(queues: seq<seq<BookEvent>>, v: nat)
    requires forall i :: 0 <= i < |queues| && i != v ==> queues[i] == []
    ensures Total(queues) == if v < |queues| then |queues[v]| else 0
  {
    if queues != [] {
      OneQueueTotal(queues[..|queues| - 1], v);
    }
  }

  lemma NumbersOfThree(e1: BookEvent, e2: BookEvent, e3: BookEvent, i: nat)
    requires e1.venue == e2.venue == e3.venue
    requires e1.sequence == 1 && e2.sequence == 2 && e3.sequence == 3
    ensures FirstFree(1, Numbers([e1, e2, e3], i)) == if i == VenueIndex(e1.venue) then 4 else 1
  {
    NumbersOfOneMore([], e1, i);
    NumbersOfOneMore([e1], e2, i);
    NumbersOfOneMore([e1, e2], e3, i);
    assert [] + [e1] == [e1] && [e1] + [e2] == [e1, e2] && [e1, e2] + [e3] == [e1, e2, e3];
    assert Numbers([], i) == {};
    assert Numbers([e1, e2, e3], i) == if i == VenueIndex(e1.venue) then {1, 2, 3} else {};
    FirstFreeIs(1, {}, 1);
    FirstFreeIs(1, {1, 2, 3}, 4);
  }

  lemma WindowsOfThree(e1: BookEvent, e2: BookEvent, e3: BookEvent)
    requires e1.venue == e2.venue == e3.venue
    requires e1.sequence == 1 && e2.sequence == 2 && e3.sequence == 3
    ensures !WithinWindow(1, [e3, e1, e2]) && WithinWindow(1, [e1, e2, e3])
  {
    var v := VenueIndex(e1.venue);
    var late, good := [e3, e1, e2], [e1, e2, e3];
    assert Numbers(late[..0], v) == {};
    FirstFreeIs(1, {}, 1);
    assert late[0].sequence > FirstFree(1, Numbers(late[..0], v)) + 1;
    forall n | 0 <= n < 3 ensures good[n].sequence <= FirstFree(1, Numbers(good[..n], v)) + 1 {
      if n > 0 {
        assert good[..n][0] == e1;
        assert e1 in good[..n] && 1 in Numbers(good[..n], v);
      }
    }
  }

  /** Refused as too far ahead, one event takes its predecessors with it; in order, none is lost. */
  lemma TooFarAheadLosesEvents(e1: BookEvent, e2: BookEvent, e3: BookEvent)
    requires e1.venue == e2.venue == e3.venue
    requires e1.sequence == 1 && e2.sequence == 2 && e3.sequence == 3
    ensures !WithinWindow(1, [e3, e1, e2]) && WithinWindow(1, [e1, e2, e3])
    ensures Output(1, [e3, e1, e2]) == []
    ensures |Output(1, [e1, e2, e3])| == 3
  {
    RefusedTapeIsLost(e1, e2, e3);
    WindowsOfThree(e1, e2, e3);
    var good := [e1, e2, e3];
    BelowWrapLeavesRoom(good);
    var s := RunOps(1, AllArrive(good));
    forall i | 0 <= i < VENUE_SLOTS
      ensures |QueuesOf(s)[i]| == if i == VenueIndex(e1.venue) then 3 else 0
    {
      ArrivalsAreDeterministic(1, good, i);
      NumbersOfThree(e1, e2, e3, i);
    }
    OutputIsTheMerge(1, good);
    OneQueueTotal(QueuesOf(s), VenueIndex(e1.venue));
    MergeLength(QueuesOf(s));
  }
}
