/** What every run of the pipeline keeps: per-lane order, agreement of the books kept twice, calm recovery. */
module PipelineSafety {
  import opened Types
  import opened SequenceTracking
  import opened RecoveryStorage
  import opened DeterministicMerge
  import opened PipelineModel

  lemma {:induction false} ReadyRunIs(pending: map<nat, BookEvent>, num: nat)
    ensures num + |ReadyRun(pending, num)| == FirstFree(num, pending.Keys)
    ensures forall j :: 0 <= j < |ReadyRun(pending, num)| ==>
              num + j in pending && ReadyRun(pending, num)[j] == pending[num + j]
    decreases pending.Keys
  {
    if num in pending {
      var rest := pending - {num};
      assert rest.Keys == pending.Keys - {num};
      ReadyRunIs(rest, num + 1);
      var run := ReadyRun(pending, num);
      forall j | 0 <= j < |run| ensures num + j in pending && run[j] == pending[num + j] {
        if j > 0 {
          assert run[j] == ReadyRun(rest, num + 1)[j - 1];
          assert num + 1 + (j - 1) in rest;
        }
      }
    }
  }

  // ---- One lane ----

  ghost predicate PendingOk(lane: Lane, gap: nat, i: nat) {
    forall k :: k in lane.pending ==>
      && lane.next < k <= lane.next + gap && k <= MAX64
      && lane.pending[k].sequence == k && VenueIndex(lane.pending[k].venue) == i
  }

  /** Already published, next in line, or held back. */
  ghost predicate Known(lane: Lane, num: nat) {
    num <= lane.next || num in lane.pending
  }

  ghost predicate StoreOk(lane: Lane, i: nat, extra: nat) {
    forall e :: e in lane.store ==>
      VenueIndex(e.venue) == i && (Known(lane, e.sequence) || e.sequence == extra)
  }

  /** An in-order release that stops before the end of the 64-bit range. */
  ghost predicate NoWrap(lane: Lane, gap: nat, ev: BookEvent) {
    StatusOf(lane.next, gap, ev.sequence) == InOrder ==> FirstFree(ev.sequence + 1, lane.pending.Keys) <= MAX64
  }

  ghost predicate LaneOk(lane: Lane, gap: nat, i: nat, extra: nat) {
    1 <= lane.next <= MAX64 && PendingOk(lane, gap, i) && StoreOk(lane, i, extra)
  }

  /** A published stream of one venue: strictly increasing, and all below the next number wanted. */
  ghost predicate PublishedOk(s: seq<BookEvent>, i: nat, next: nat) {
    && (forall j :: 0 <= j < |s| ==> VenueIndex(s[j].venue) == i && 0 < s[j].sequence < next)
    && (forall j, k :: 0 <= j < k < |s| ==> s[j].sequence < s[k].sequence)
  }

  lemma InOrderFacts(lane: Lane, gap: nat, i: nat, ev: BookEvent)
    requires 1 <= lane.next && PendingOk(lane, gap, i) && ev.sequence == lane.next && NoWrap(lane, gap, ev)
    ensures var r := FirstFree(ev.sequence + 1, lane.pending.Keys);
      r <= MAX64 && LaneAfter(lane, gap, ev).next == r && r !in lane.pending && r > lane.next
    ensures forall k :: k in LaneAfter(lane, gap, ev).pending <==>
      k in lane.pending && k > LaneAfter(lane, gap, ev).next
    ensures forall k :: k in LaneAfter(lane, gap, ev).pending ==>
      LaneAfter(lane, gap, ev).pending[k] == lane.pending[k]
  {
  }

  lemma StoreAfterAdvanceKeeps(store: seq<BookEvent>, next: nat)
    ensures forall e :: e in StoreAfterAdvance(store, next) ==> e in store
  {
    forall e | e in StoreAfterAdvance(store, next) ensures e in store {
      if next > LOOKBACK_SLACK {
        EvictedKeeps(store, next - LOOKBACK_SLACK, e);
      }
    }
  }

  lemma LaneStaysOk(lane: Lane, gap: nat, i: nat, ev: BookEvent)
    requires LaneOk(lane, gap, i, ev.sequence) && VenueIndex(ev.venue) == i && NoWrap(lane, gap, ev)
    ensures LaneOk(LaneAfter(lane, gap, ev), gap, i, 0)
    ensures LaneAfter(lane, gap, ev).next >= lane.next
    ensures forall n :: Known(lane, n) ==> Known(LaneAfter(lane, gap, ev), n)
  {
    var after := LaneAfter(lane, gap, ev);
    var status := StatusOf(lane.next, gap, ev.sequence);
    if status == InOrder {
      InOrderFacts(lane, gap, i, ev);
      StoreAfterAdvanceKeeps(lane.store, after.next);
      forall n | Known(lane, n) ensures Known(after, n) {
      }
    } else if status == GapTooLarge {
      StoreAfterAdvanceKeeps(lane.store, after.next);
    }
  }

  lemma ConsecutiveStayPublished(s: seq<BookEvent>, run: seq<BookEvent>, i: nat, next: nat)
    requires next >= 1 && PublishedOk(s, i, next)
    requires forall j :: 0 <= j < |run| ==> run[j].sequence == next + j && VenueIndex(run[j].venue) == i
    ensures PublishedOk(s + run, i, next + |run|)
  {
    var all := s + run;
    forall j | 0 <= j < |all|
      ensures j < |s| ==> all[j] == s[j]
      ensures j >= |s| ==> all[j].sequence == next + (j - |s|) && VenueIndex(all[j].venue) == i
    {
      if j >= |s| {
        assert all[j] == run[j - |s|];
      }
    }
  }

  lemma PublishedStaysOk(s: seq<BookEvent>, lane: Lane, gap: nat, i: nat, ev: BookEvent)
    requires 1 <= lane.next && PendingOk(lane, gap, i) && VenueIndex(ev.venue) == i && ev.sequence == lane.next
    requires NoWrap(lane, gap, ev)
    requires PublishedOk(s, i, lane.next)
    ensures PublishedOk(s + [ev] + ReadyRun(lane.pending, ev.sequence + 1), i, LaneAfter(lane, gap, ev).next)
  {
    var run := ReadyRun(lane.pending, ev.sequence + 1);
    InOrderFacts(lane, gap, i, ev);
    ReadyRunIs(lane.pending, ev.sequence + 1);
    forall j | 0 <= j < |run| ensures run[j].sequence == ev.sequence + 1 + j && VenueIndex(run[j].venue) == i {
      assert ev.sequence + 1 + j in lane.pending;
    }
    ConsecutiveStayPublished(s, [ev], i, lane.next);
    ConsecutiveStayPublished(s + [ev], run, i, lane.next + 1);
  }

  // ---- The whole state ----

  /** Everything ever published for one venue: what has been drained, then what is still queued. */
  ghost function Published(s: State, i: nat): seq<BookEvent>
    requires i < |s.lanes|
  {
    VenueEvents(s.emitted, i) + s.lanes[i].queue
  }

  /** What venue ev.venue has published once ev is processed. */
  ghost function PublishedAfter(published: seq<BookEvent>, lane: Lane, gap: nat, ev: BookEvent): seq<BookEvent> {
    if StatusOf(lane.next, gap, ev.sequence) == InOrder
    then published + [ev] + ReadyRun(lane.pending, ev.sequence + 1) else published
  }

  lemma PublishedByProcess(s: State, gap: nat, ev: BookEvent)
    requires |s.lanes| == VENUE_SLOTS
    ensures forall i :: 0 <= i < VENUE_SLOTS ==>
      Published(Process(s, gap, ev), i) ==
        if i == VenueIndex(ev.venue) then PublishedAfter(Published(s, i), s.lanes[i], gap, ev) else Published(s, i)
  {
    var v := VenueIndex(ev.venue);
    var lane := LaneOf(s, ev);
    if StatusOf(lane.next, gap, ev.sequence) == InOrder {
      var run := ReadyRun(lane.pending, ev.sequence + 1);
      assert Published(Process(s, gap, ev), v) == Published(s, v) + [ev] + run;
    }
  }

  ghost predicate Safe(s: State, gap: nat) {
    && |s.lanes| == VENUE_SLOTS
    && forall i :: 0 <= i < VENUE_SLOTS ==>
         LaneOk(s.lanes[i], gap, i, 0) && PublishedOk(Published(s, i), i, s.lanes[i].next)
  }

  ghost predicate KnownEvents(s: State, rs: seq<BookEvent>)
    requires |s.lanes| == VENUE_SLOTS
  {
    forall r :: r in rs ==> Known(LaneOf(s, r), r.sequence)
  }

  ghost predicate SafeExcept(s: State, gap: nat, ev: BookEvent) {
    && |s.lanes| == VENUE_SLOTS
    && (forall i :: 0 <= i < VENUE_SLOTS ==> PublishedOk(Published(s, i), i, s.lanes[i].next))
    && (forall i :: 0 <= i < VENUE_SLOTS && i != VenueIndex(ev.venue) ==> LaneOk(s.lanes[i], gap, i, 0))
    && LaneOk(LaneOf(s, ev), gap, VenueIndex(ev.venue), ev.sequence)
  }

  lemma ProcessIsSafe(s: State, gap: nat, ev: BookEvent)
    requires SafeExcept(s, gap, ev) && Process(s, gap, ev).tally.inconsistent == 0
    ensures Safe(Process(s, gap, ev), gap)
    ensures forall i, n :: 0 <= i < VENUE_SLOTS && Known(s.lanes[i], n) ==> Known(Process(s, gap, ev).lanes[i], n)
  {
    var v := VenueIndex(ev.venue);
    var lane := LaneOf(s, ev);
    var after := Process(s, gap, ev);
    LaneStaysOk(lane, gap, v, ev);
    if StatusOf(lane.next, gap, ev.sequence) == InOrder {
      InOrderFacts(lane, gap, v, ev);
      PublishedStaysOk(Published(s, v), lane, gap, v, ev);
      var run := ReadyRun(lane.pending, ev.sequence + 1);
      assert Published(after, v) == Published(s, v) + [ev] + run;
    } else {
      assert Published(after, v) == Published(s, v);
    }
    forall i | 0 <= i < VENUE_SLOTS && i != v
      ensures Published(after, i) == Published(s, i)
    {
    }
  }

  /** Events found for a gap are already published, next in line, or held back. */
  lemma HitsAreKnown(s: State, gap: nat, ev: BookEvent)
    requires SafeExcept(s, gap, ev) && IsBuffered(s, gap, ev)
    ensures KnownEvents(s, Hits(LaneOf(s, ev).store, LaneOf(s, ev).next, ev.sequence - 1))
  {
    var lane := LaneOf(s, ev);
    forall r | r in Hits(lane.store, lane.next, ev.sequence - 1)
      ensures Known(LaneOf(s, r), r.sequence)
    {
      HitsAreGenuine(lane.store, lane.next, ev.sequence - 1, r);
    }
  }

  /** Each recovered event that is fed back is in order or old: none opens a gap or forces an advance. */
  ghost predicate CalmReinjection(s: State, gap: nat, rs: seq<BookEvent>)
    requires |s.lanes| == VENUE_SLOTS
    decreases |rs|
  {
    if rs == [] then true
    else if rs[0].sequence in LaneOf(s, rs[0]).pending then CalmReinjection(s, gap, rs[1..])
    else
      var status := StatusOf(LaneOf(s, rs[0]).next, gap, rs[0].sequence);
      (status == InOrder || status == DuplicateOrOld)
      && CalmReinjection(CountReinjection(Process(s, gap, rs[0])), gap, rs[1..])
  }

  /** Counters never fall. */
  ghost predicate CountsGrow(a: Tally, b: Tally) {
    a.inconsistent <= b.inconsistent && a.gapTooLarge <= b.gapTooLarge && a.reinjected <= b.reinjected
  }

  lemma {:induction false} ReinjectOnlyCounts(s: State, gap: nat, rs: seq<BookEvent>)
    requires |s.lanes| == VENUE_SLOTS
    ensures CountsGrow(s.tally, Reinject(s, gap, rs).tally)
    decreases |rs|
  {
    if rs != [] {
      if rs[0].sequence in LaneOf(s, rs[0]).pending {
        ReinjectOnlyCounts(s, gap, rs[1..]);
      } else {
        ReinjectOnlyCounts(CountReinjection(Process(s, gap, rs[0])), gap, rs[1..]);
      }
    }
  }

  lemma OnEventOnlyCounts(s: State, gap: nat, ev: BookEvent)
    requires |s.lanes| == VENUE_SLOTS
    ensures CountsGrow(s.tally, Process(Record(s, gap, ev), gap, ev).tally)
    ensures CountsGrow(Process(Record(s, gap, ev), gap, ev).tally, OnEvent(s, gap, ev).tally)
  {
    var processed := Process(Record(s, gap, ev), gap, ev);
    ReinjectOnlyCounts(processed.(recovered := []), gap, processed.recovered);
  }

  lemma {:induction false} ReinjectIsSafe(s: State, gap: nat, rs: seq<BookEvent>)
    requires Safe(s, gap) && s.recovered == [] && KnownEvents(s, rs)
    requires Reinject(s, gap, rs).tally.inconsistent == 0
    ensures Safe(Reinject(s, gap, rs), gap) && Reinject(s, gap, rs).recovered == []
    ensures CalmReinjection(s, gap, rs)
    decreases |rs|
  {
    if rs != [] {
      assert rs[0] in rs;
      assert forall r :: r in rs[1..] ==> r in rs;
      if rs[0].sequence in LaneOf(s, rs[0]).pending {
        ReinjectIsSafe(s, gap, rs[1..]);
      } else {
        ReinjectOnlyCounts(CountReinjection(Process(s, gap, rs[0])), gap, rs[1..]);
        ProcessIsSafe(s, gap, rs[0]);
        var next := CountReinjection(Process(s, gap, rs[0]));
        assert next.lanes == Process(s, gap, rs[0]).lanes;
        assert forall i :: 0 <= i < VENUE_SLOTS ==> Published(next, i) == Published(Process(s, gap, rs[0]), i);
        ReinjectIsSafe(next, gap, rs[1..]);
      }
    }
  }

  lemma RecordIsSafeExcept(s: State, gap: nat, ev: BookEvent)
    requires Safe(s, gap)
    ensures SafeExcept(Record(s, gap, ev), gap, ev)
    ensures Record(s, gap, ev).recovered == s.recovered
  {
    var after := Record(s, gap, ev);
    var lane := LaneOf(s, ev);
    forall i | 0 <= i < VENUE_SLOTS ensures Published(after, i) == Published(s, i) {
    }
    forall e | e in LaneOf(after, ev).store ensures e == ev || e in lane.store {
    }
  }

  lemma ProcessedIsCalm(s: State, gap: nat, ev: BookEvent)
    requires SafeExcept(s, gap, ev) && s.recovered == [] && Process(s, gap, ev).tally.inconsistent == 0
    ensures var processed := Process(s, gap, ev);
      Safe(processed.(recovered := []), gap) && KnownEvents(processed.(recovered := []), processed.recovered)
  {
    var processed := Process(s, gap, ev);
    var calm := processed.(recovered := []);
    ProcessIsSafe(s, gap, ev);
    if IsBuffered(s, gap, ev) {
      HitsAreKnown(s, gap, ev);
      assert processed.recovered == Hits(LaneOf(s, ev).store, LaneOf(s, ev).next, ev.sequence - 1);
    }
    assert forall i :: 0 <= i < VENUE_SLOTS ==> Published(calm, i) == Published(processed, i);
  }

  /** The heart of the invariant: one event, from arrival to the end of reinjection. */
  lemma OnEventIsSafe(s: State, gap: nat, ev: BookEvent)
    requires Safe(s, gap) && s.recovered == [] && OnEvent(s, gap, ev).tally.inconsistent == 0
    ensures Safe(OnEvent(s, gap, ev), gap) && OnEvent(s, gap, ev).recovered == []
    ensures var processed := Process(Record(s, gap, ev), gap, ev);
      CalmReinjection(processed.(recovered := []), gap, processed.recovered)
  {
    var recorded := Record(s, gap, ev);
    RecordIsSafeExcept(s, gap, ev);
    OnEventOnlyCounts(s, gap, ev);
    ProcessedIsCalm(recorded, gap, ev);
    var processed := Process(recorded, gap, ev);
    ReinjectIsSafe(processed.(recovered := []), gap, processed.recovered);
  }

  lemma FinalizeKeepsPublished(s: State, i: nat)
    requires |s.lanes| == VENUE_SLOTS && i < VENUE_SLOTS
    requires forall k, e :: 0 <= k < VENUE_SLOTS && e in s.lanes[k].queue ==> VenueIndex(e.venue) == k
    ensures Published(Finalize(s), i) == Published(s, i)
  {
    var queues := QueuesOf(s);
    MergeKeepsEveryVenue(queues, i);
    VenueEventsOfConcat(s.emitted, Merge(queues), i);
  }

  lemma QueuesAreRouted(s: State, gap: nat)
    requires Safe(s, gap)
    ensures forall k, e :: 0 <= k < VENUE_SLOTS && e in s.lanes[k].queue ==> VenueIndex(e.venue) == k
  {
    forall k, e | 0 <= k < VENUE_SLOTS && e in s.lanes[k].queue ensures VenueIndex(e.venue) == k {
      var q := s.lanes[k].queue;
      var j :| 0 <= j < |q| && q[j] == e;
      assert Published(s, k)[|VenueEvents(s.emitted, k)| + j] == e;
    }
  }

  lemma FinalizeIsSafe(s: State, gap: nat)
    requires Safe(s, gap)
    ensures Safe(Finalize(s), gap) && Finalize(s).recovered == s.recovered
  {
    QueuesAreRouted(s, gap);
    forall i | 0 <= i < VENUE_SLOTS
      ensures Published(Finalize(s), i) == Published(s, i)
      ensures LaneOk(Finalize(s).lanes[i], gap, i, 0)
    {
      FinalizeKeepsPublished(s, i);
    }
  }

  // ---- What a release past the end of the range leaves behind ----

  /** Held-back and queued events belong to their lane; unlike safety this holds in every run. */
  ghost predicate RoutedLane(lane: Lane, i: nat) {
    && (forall k :: k in lane.pending ==> lane.pending[k].sequence == k && VenueIndex(lane.pending[k].venue) == i)
    && forall e :: e in lane.queue ==> VenueIndex(e.venue) == i
  }

  ghost predicate LastIsAmong(s: seq<BookEvent>) {
    exists e :: e in s && e.sequence == MAX64
  }

  /** Every lane has its own events; and where an inconsistency was counted, 2^64 - 1 has been published. */
  ghost predicate WrapShows(s: State) {
    && |s.lanes| == VENUE_SLOTS
    && (forall i :: 0 <= i < VENUE_SLOTS ==> RoutedLane(s.lanes[i], i))
    && (s.tally.inconsistent > 0 ==> exists i :: 0 <= i < VENUE_SLOTS && LastIsAmong(Published(s, i)))
  }

  lemma LaneStaysRouted(lane: Lane, gap: nat, i: nat, ev: BookEvent)
    requires RoutedLane(lane, i) && VenueIndex(ev.venue) == i
    ensures RoutedLane(LaneAfter(lane, gap, ev), i)
  {
    ReadyRunIs(lane.pending, ev.sequence + 1);
    var run := ReadyRun(lane.pending, ev.sequence + 1);
    forall e | e in run ensures VenueIndex(e.venue) == i {
      var j :| 0 <= j < |run| && run[j] == e;
      assert ev.sequence + 1 + j in lane.pending;
    }
  }

  lemma WrapReleasesTheLast(lane: Lane, i: nat, ev: BookEvent)
    requires RoutedLane(lane, i) && FirstFree(ev.sequence + 1, lane.pending.Keys) > MAX64
    ensures LastIsAmong([ev] + ReadyRun(lane.pending, ev.sequence + 1))
  {
    var run := ReadyRun(lane.pending, ev.sequence + 1);
    ReadyRunIs(lane.pending, ev.sequence + 1);
    if ev.sequence == MAX64 {
      assert ([ev] + run)[0] == ev;
    } else {
      var j := MAX64 - (ev.sequence + 1);
      assert MAX64 in lane.pending && run[j] == lane.pending[MAX64];
      assert ([ev] + run)[j + 1] == run[j];
    }
  }

  lemma StillAmong(s: seq<BookEvent>, t: seq<BookEvent>)
    requires LastIsAmong(s) || LastIsAmong(t)
    ensures LastIsAmong(s + t)
  {
    var e :| (e in s || e in t) && e.sequence == MAX64;
    assert e in s + t;
  }

  lemma ProcessStillShows(s: State, gap: nat, ev: BookEvent)
    requires WrapShows(s)
    ensures WrapShows(Process(s, gap, ev))
  {
    var v, lane, after := VenueIndex(ev.venue), LaneOf(s, ev), Process(s, gap, ev);
    var run := [ev] + ReadyRun(lane.pending, ev.sequence + 1);
    LaneStaysRouted(lane, gap, v, ev);
    PublishedByProcess(s, gap, ev);
    assert Published(s, v) + [ev] + ReadyRun(lane.pending, ev.sequence + 1) == Published(s, v) + run;
    if after.tally.inconsistent > s.tally.inconsistent {
      WrapReleasesTheLast(lane, v, ev);
      StillAmong(Published(s, v), run);
    } else if after.tally.inconsistent > 0 {
      var i :| 0 <= i < VENUE_SLOTS && LastIsAmong(Published(s, i));
      if i == v {
        StillAmong(Published(s, v), run);
      }
      assert LastIsAmong(Published(after, i));
    }
  }

  lemma {:induction false} ReinjectStillShows(s: State, gap: nat, rs: seq<BookEvent>)
    requires WrapShows(s)
    ensures WrapShows(Reinject(s, gap, rs))
    decreases |rs|
  {
    if rs != [] {
      if rs[0].sequence in LaneOf(s, rs[0]).pending {
        ReinjectStillShows(s, gap, rs[1..]);
      } else {
        var next := Process(s, gap, rs[0]);
        ProcessStillShows(s, gap, rs[0]);
        assert forall i :: 0 <= i < VENUE_SLOTS ==> Published(CountReinjection(next), i) == Published(next, i);
        ReinjectStillShows(CountReinjection(next), gap, rs[1..]);
      }
    }
  }

  lemma OnEventStillShows(s: State, gap: nat, ev: BookEvent)
    requires WrapShows(s)
    ensures WrapShows(OnEvent(s, gap, ev))
  {
    var recorded := Record(s, gap, ev);
    assert forall i :: 0 <= i < VENUE_SLOTS ==> Published(recorded, i) == Published(s, i);
    ProcessStillShows(recorded, gap, ev);
    var processed := Process(recorded, gap, ev);
    var calm := processed.(recovered := []);
    assert forall i :: 0 <= i < VENUE_SLOTS ==> Published(calm, i) == Published(processed, i);
    ReinjectStillShows(calm, gap, processed.recovered);
  }

  lemma FinalizeStillShows(s: State)
    requires WrapShows(s)
    ensures WrapShows(Finalize(s))
  {
    forall i | 0 <= i < VENUE_SLOTS ensures Published(Finalize(s), i) == Published(s, i) {
      FinalizeKeepsPublished(s, i);
    }
  }

  lemma {:induction false} EveryRunShowsItsWrap(gap: nat, ops: seq<Op>)
    ensures WrapShows(RunOps(gap, ops))
  {
    if ops != [] {
      var front, op := ops[..|ops| - 1], ops[|ops| - 1];
      EveryRunShowsItsWrap(gap, front);
      if op.Arrive? {
        OnEventStillShows(RunOps(gap, front), gap, op.ev);
      } else {
        FinalizeStillShows(RunOps(gap, front));
      }
    }
  }

  /** Once 2^64 - 1 is published no next number lies above it. */
  lemma NothingFollowsTheLast(s: State, gap: nat, i: nat)
    requires |s.lanes| == VENUE_SLOTS && i < VENUE_SLOTS && LastIsAmong(Published(s, i))
    ensures !Safe(s, gap)
  {
    var p := Published(s, i);
    var e :| e in p && e.sequence == MAX64;
    var j :| 0 <= j < |p| && p[j] == e;
    assert PublishedOk(p, i, s.lanes[i].next) ==> p[j].sequence < s.lanes[i].next;
  }

  lemma {:induction false} CalmRunIsSafe(gap: nat, ops: seq<Op>)
    requires RunOps(gap, ops).tally.inconsistent == 0
    ensures Safe(RunOps(gap, ops), gap) && RunOps(gap, ops).recovered == []
  {
    if ops != [] {
      var front, op := ops[..|ops| - 1], ops[|ops| - 1];
      if op.Arrive? {
        OnEventOnlyCounts(RunOps(gap, front), gap, op.ev);
        CalmRunIsSafe(gap, front);
        OnEventIsSafe(RunOps(gap, front), gap, op.ev);
      } else {
        CalmRunIsSafe(gap, front);
        FinalizeIsSafe(RunOps(gap, front), gap);
      }
    }
  }

  /**
    A run keeps pending maps and gap windows in agreement, and each venue's published stream strictly
    increasing and behind the next number wanted, across forced advances, recovery and drains, if and
    only if no release has run off the end of the 64-bit range.
   */
  lemma EveryRunIsSafe(gap: nat, ops: seq<Op>)
    ensures Safe(RunOps(gap, ops), gap) <==> RunOps(gap, ops).tally.inconsistent == 0
    ensures RunOps(gap, ops).tally.inconsistent == 0 ==> RunOps(gap, ops).recovered == []
  {
    var s := RunOps(gap, ops);
    EveryRunShowsItsWrap(gap, ops);
    if s.tally.inconsistent == 0 {
      CalmRunIsSafe(gap, ops);
    } else {
      var i :| 0 <= i < VENUE_SLOTS && LastIsAmong(Published(s, i));
      NothingFollowsTheLast(s, gap, i);
    }
  }

  /**
    An inconsistency between the two books is counted exactly when an in-order release runs off the
    end of the 64-bit range; no event below 2^64 - 1 can cause one.
   */
  lemma InconsistencyIsTheWrap(lane: Lane, gap: nat, i: nat, t: Tally, ev: BookEvent)
    requires 1 <= lane.next <= MAX64 && WindowOk(WindowOf(lane), gap)
    ensures TallyAfter(t, lane, gap, ev).inconsistent != t.inconsistent
        <==> ev.sequence == lane.next && forall k :: ev.sequence < k <= MAX64 ==> k in lane.pending
  {
    if forall k :: ev.sequence < k <= MAX64 ==> k in lane.pending {
      FirstFreeIs(ev.sequence + 1, lane.pending.Keys, MAX64 + 1);
    }
  }

  // ---- Runs that cannot reach the end of the range ----

  ghost predicate BelowWrap(ops: seq<Op>) {
    forall op :: op in ops && op.Arrive? ==> op.ev.sequence < MAX64
  }

  ghost predicate AllBelow(s: State) {
    && |s.lanes| == VENUE_SLOTS
    && (forall e :: e in s.recovered ==> e.sequence < MAX64)
    && forall i :: 0 <= i < VENUE_SLOTS ==> MAX64 !in s.lanes[i].pending && EventsBelow(s.lanes[i].store)
  }

  ghost predicate EventsBelow(evs: seq<BookEvent>) {
    forall e :: e in evs ==> e.sequence < MAX64
  }

  lemma ProcessStaysBelow(s: State, gap: nat, ev: BookEvent)
    requires AllBelow(s) && ev.sequence < MAX64
    ensures AllBelow(Process(s, gap, ev)) && Process(s, gap, ev).tally.inconsistent == s.tally.inconsistent
  {
    var lane := LaneOf(s, ev);
    var after := LaneAfter(lane, gap, ev);
    StoreAfterAdvanceKeeps(lane.store, after.next);
    forall e | e in Process(s, gap, ev).recovered && e !in s.recovered ensures e.sequence < MAX64 {
      HitsAreGenuine(lane.store, lane.next, ev.sequence - 1, e);
    }
  }

  lemma {:induction false} ReinjectStaysBelow(s: State, gap: nat, rs: seq<BookEvent>)
    requires AllBelow(s) && EventsBelow(rs)
    ensures AllBelow(Reinject(s, gap, rs)) && Reinject(s, gap, rs).tally.inconsistent == s.tally.inconsistent
    decreases |rs|
  {
    if rs != [] {
      assert rs[0] in rs && forall r :: r in rs[1..] ==> r in rs;
      if rs[0].sequence in LaneOf(s, rs[0]).pending {
        ReinjectStaysBelow(s, gap, rs[1..]);
      } else {
        ProcessStaysBelow(s, gap, rs[0]);
        ReinjectStaysBelow(CountReinjection(Process(s, gap, rs[0])), gap, rs[1..]);
      }
    }
  }

  /** Without the last number of the range no inconsistency is ever counted. */
  lemma {:induction false} BelowWrapIsConsistent(gap: nat, ops: seq<Op>)
    requires BelowWrap(ops)
    ensures AllBelow(RunOps(gap, ops)) && RunOps(gap, ops).tally.inconsistent == 0
  {
    if ops != [] {
      var front, op := ops[..|ops| - 1], ops[|ops| - 1];
      assert op in ops && forall o :: o in front ==> o in ops;
      BelowWrapIsConsistent(gap, front);
      var s := RunOps(gap, front);
      if op.Arrive? {
        var recorded := Record(s, gap, op.ev);
        assert forall e :: e in LaneOf(recorded, op.ev).store ==> e == op.ev || e in LaneOf(s, op.ev).store;
        ProcessStaysBelow(recorded, gap, op.ev);
        var processed := Process(recorded, gap, op.ev);
        ReinjectStaysBelow(processed.(recovered := []), gap, processed.recovered);
      }
    }
  }

  /** The shortest such run: the last sequence number, refused and then repeated. */
  lemma WrapCountsAnInconsistency(gap: nat, ev: BookEvent)
    requires ev.sequence == MAX64 && gap < MAX64 - 1
    ensures RunOps(gap, [Arrive(ev), Arrive(ev)]).tally.inconsistent == 1
  {
    var s1 := OnEvent(START, gap, ev);
    assert s1.recovered == [] && LaneOf(s1, ev).next == MAX64 && LaneOf(s1, ev).pending == map[];
    FirstFreeIs(MAX64 + 1, {}, MAX64 + 1);
    var ops := [Arrive(ev), Arrive(ev)];
    assert ops[..1] == [Arrive(ev)] && ops[..1][..0] == [];
    assert RunOps(gap, ops[..1]) == s1;
  }
}
