/** What recovery brings back: the number wanted next, whenever the store can find it. */
module PipelineRecovery {
  import opened Types
  import opened SequenceTracking
  import opened RecoveryStorage
  import opened DeterministicMerge
  import opened PipelineModel
  import opened PipelineSafety
  import opened PipelineDeterminism

  /** The store of an event's venue once the event itself is recorded. */
  ghost function StoreHere(s: State, gap: nat, ev: BookEvent): seq<BookEvent>
    requires |s.lanes| == VENUE_SLOTS
  {
    Recorded(LaneOf(s, ev).store, StoreLimit(gap), ev)
  }

  /** An advance to next drops from the front what lies more than 64 below it, and nothing else. */
  lemma StoreLooksBack(store: seq<BookEvent>, next: nat)
    ensures var kept := StoreAfterAdvance(store, next);
      && (forall e :: e in store && e.sequence + 64 >= next ==> e in kept)
      && (forall e :: e in kept ==> e in store)
      && (kept != [] ==> kept[0].sequence + 64 >= next)
  {
    if next > 64 {
      forall e: BookEvent
        ensures e in store && e.sequence + 64 >= next ==> e in StoreAfterAdvance(store, next)
        ensures e in StoreAfterAdvance(store, next) ==> e in store
      {
        EvictedKeeps(store, next - 64, e);
      }
      var k := EvictedIsTail(store, next - 64);
    }
  }

  lemma {:induction false} ReinjectKeepsPublished(s: State, gap: nat, rs: seq<BookEvent>, i: nat, e: BookEvent)
    requires |s.lanes| == VENUE_SLOTS && i < VENUE_SLOTS && e in Published(s, i)
    ensures e in Published(Reinject(s, gap, rs), i)
    decreases |rs|
  {
    if rs != [] {
      if rs[0].sequence in LaneOf(s, rs[0]).pending {
        ReinjectKeepsPublished(s, gap, rs[1..], i, e);
      } else {
        PublishedByProcess(s, gap, rs[0]);
        var next := CountReinjection(Process(s, gap, rs[0]));
        assert Published(next, i) == Published(Process(s, gap, rs[0]), i);
        ReinjectKeepsPublished(next, gap, rs[1..], i, e);
      }
    }
  }

  /** A recovered event that comes first and is the one wanted next is published, with the run behind it. */
  lemma FirstIsPublished(s: State, gap: nat, rs: seq<BookEvent>, e: BookEvent)
    requires |s.lanes| == VENUE_SLOTS && rs != [] && rs[0].sequence == LaneOf(s, rs[0]).next > 0
    requires rs[0].sequence !in LaneOf(s, rs[0]).pending
    requires e == rs[0]
          || (rs[0].sequence + 1 in LaneOf(s, rs[0]).pending && e == LaneOf(s, rs[0]).pending[rs[0].sequence + 1])
    ensures e in Published(Reinject(s, gap, rs), VenueIndex(rs[0].venue))
  {
    var v, lane := VenueIndex(rs[0].venue), LaneOf(s, rs[0]);
    PublishedByProcess(s, gap, rs[0]);
    var run := ReadyRun(lane.pending, rs[0].sequence + 1);
    var next := CountReinjection(Process(s, gap, rs[0]));
    assert Published(next, v) == Published(s, v) + [rs[0]] + run;
    if e != rs[0] {
      assert run[0] == e;
    }
    ReinjectKeepsPublished(next, gap, rs[1..], v, e);
  }

  /** The state in which reinjection starts. */
  ghost function Processed(s: State, gap: nat, ev: BookEvent): (r: State)
    requires |s.lanes| == VENUE_SLOTS
    ensures |r.lanes| == VENUE_SLOTS
  {
    Process(Record(s, gap, ev), gap, ev).(recovered := [])
  }

  /** An event ahead of the next number wanted, within the gap window. */
  ghost predicate IsEarly(s: State, gap: nat, ev: BookEvent) {
    |s.lanes| == VENUE_SLOTS && 0 < LaneOf(s, ev).next < ev.sequence <= LaneOf(s, ev).next + gap
  }

  lemma EarlyIsHeld(s: State, gap: nat, ev: BookEvent)
    requires IsEarly(s, gap, ev)
    ensures var lane, held := LaneOf(s, ev), LaneOf(Processed(s, gap, ev), ev);
      held.next == lane.next && held.pending == lane.pending[ev.sequence := ev]
  {
  }

  lemma NothingPublishedYet(s: State, gap: nat, ev: BookEvent)
    requires IsEarly(s, gap, ev)
    ensures Published(Processed(s, gap, ev), VenueIndex(ev.venue)) == Published(s, VenueIndex(ev.venue))
  {
    var v := VenueIndex(ev.venue);
    var recorded := Record(s, gap, ev);
    assert Published(recorded, v) == Published(s, v);
    PublishedByProcess(recorded, gap, ev);
  }

  lemma HitsAreFedBack(s: State, gap: nat, ev: BookEvent)
    requires IsEarly(s, gap, ev) && s.recovered == []
    ensures OnEvent(s, gap, ev) ==
      Reinject(Processed(s, gap, ev), gap, Hits(StoreHere(s, gap, ev), LaneOf(s, ev).next, ev.sequence - 1))
  {
    var hits := Hits(StoreHere(s, gap, ev), LaneOf(s, ev).next, ev.sequence - 1);
    assert [] + hits == hits;
    assert Process(Record(s, gap, ev), gap, ev).recovered == hits;
  }

  lemma StoredIsKnown(s: State, gap: nat, ev: BookEvent, e: BookEvent)
    requires Safe(s, gap) && IsEarly(s, gap, ev) && e in StoreHere(s, gap, ev)
    ensures e.venue == ev.venue
    ensures e.sequence <= LaneOf(s, ev).next || e.sequence in LaneOf(s, ev).pending || e.sequence == ev.sequence
  {
    var lane := LaneOf(s, ev);
    assert LaneOk(lane, gap, VenueIndex(ev.venue), 0);
    assert e in lane.store + [ev];
    VenuesAreNumbered(e.venue, ev.venue);
    assert e in lane.store ==> Known(lane, e.sequence) || e.sequence == 0;
  }

  lemma NextIsPublished(s: State, gap: nat, ev: BookEvent)
    requires Safe(s, gap) && s.recovered == [] && IsEarly(s, gap, ev)
    requires Lookup(StoreHere(s, gap, ev), LaneOf(s, ev).next).Some?
    ensures Lookup(StoreHere(s, gap, ev), LaneOf(s, ev).next).value in Published(OnEvent(s, gap, ev), VenueIndex(ev.venue))
    ensures ev.sequence == LaneOf(s, ev).next + 1 ==> ev in Published(OnEvent(s, gap, ev), VenueIndex(ev.venue))
  {
    var lane, q := LaneOf(s, ev), StoreHere(s, gap, ev);
    var calm := Processed(s, gap, ev);
    EarlyIsHeld(s, gap, ev);
    HitsAreFedBack(s, gap, ev);
    LookupIsSound(q, lane.next);
    var r := Lookup(q, lane.next).value;
    StoredIsKnown(s, gap, ev, r);
    assert LaneOk(lane, gap, VenueIndex(ev.venue), 0);
    var hits := Hits(q, lane.next, ev.sequence - 1);
    assert hits[0] == r;
    FirstIsPublished(calm, gap, hits, r);
    if ev.sequence == lane.next + 1 {
      FirstIsPublished(calm, gap, hits, ev);
    }
  }

  lemma HitIsHeld(s: State, gap: nat, ev: BookEvent, r: BookEvent)
    requires Safe(s, gap) && IsEarly(s, gap, ev)
    requires Lookup(StoreHere(s, gap, ev), LaneOf(s, ev).next) == None
    requires r in Hits(StoreHere(s, gap, ev), LaneOf(s, ev).next, ev.sequence - 1)
    ensures r.venue == ev.venue && r.sequence in LaneOf(s, ev).pending
  {
    HitIsFound(StoreHere(s, gap, ev), LaneOf(s, ev).next, ev.sequence - 1, r);
    LookupIsSound(StoreHere(s, gap, ev), r.sequence);
    StoredIsKnown(s, gap, ev, r);
  }

  /** Without it nothing is published: all that is found behind a missing number is held back already. */
  lemma NothingIsPublished(s: State, gap: nat, ev: BookEvent)
    requires Safe(s, gap) && s.recovered == [] && IsEarly(s, gap, ev)
    requires Lookup(StoreHere(s, gap, ev), LaneOf(s, ev).next) == None
    ensures Published(OnEvent(s, gap, ev), VenueIndex(ev.venue)) == Published(s, VenueIndex(ev.venue))
  {
    var hits, calm := Hits(StoreHere(s, gap, ev), LaneOf(s, ev).next, ev.sequence - 1), Processed(s, gap, ev);
    HitsAreFedBack(s, gap, ev);
    NothingPublishedYet(s, gap, ev);
    forall r | r in hits ensures r.sequence in LaneOf(calm, r).pending {
      HitIsHeld(s, gap, ev, r);
      EarlyIsHeld(s, gap, ev);
    }
    ReinjectSkipsHeld(calm, gap, hits);
  }

  /**
    When an early event is held back, the number wanted next is published with it if and only if the
    lookup finds that number in the store.
   */
  lemma NextIsRecoveredIff(s: State, gap: nat, ev: BookEvent)
    requires Safe(s, gap) && s.recovered == [] && IsEarly(s, gap, ev)
    ensures (exists e :: e in Published(OnEvent(s, gap, ev), VenueIndex(ev.venue)) && e.sequence == LaneOf(s, ev).next)
        <==> Lookup(StoreHere(s, gap, ev), LaneOf(s, ev).next).Some?
    ensures Lookup(StoreHere(s, gap, ev), LaneOf(s, ev).next).Some? ==>
      Lookup(StoreHere(s, gap, ev), LaneOf(s, ev).next).value in Published(OnEvent(s, gap, ev), VenueIndex(ev.venue))
  {
    var v, next, q := VenueIndex(ev.venue), LaneOf(s, ev).next, StoreHere(s, gap, ev);
    if Lookup(q, next).Some? {
      NextIsPublished(s, gap, ev);
      LookupIsSound(q, next);
    } else {
      NothingIsPublished(s, gap, ev);
      var p := Published(s, v);
      assert PublishedOk(p, v, next);
      forall e | e in p ensures e.sequence != next {
        var j :| 0 <= j < |p| && p[j] == e;
      }
    }
  }

  /** In every run, while no inconsistency is counted. */
  lemma EveryRunRecoversTheNext(gap: nat, ops: seq<Op>, ev: BookEvent)
    requires RunOps(gap, ops).tally.inconsistent == 0
    requires var next := LaneOf(RunOps(gap, ops), ev).next; next < ev.sequence <= next + gap
    ensures var s, after := RunOps(gap, ops), RunOps(gap, ops + [Arrive(ev)]);
      var next, found := LaneOf(s, ev).next, Lookup(StoreHere(s, gap, ev), LaneOf(s, ev).next);
      && ((exists e :: e in Published(after, VenueIndex(ev.venue)) && e.sequence == next) <==> found.Some?)
      && (found.Some? ==> found.value.sequence == next && found.value in Published(after, VenueIndex(ev.venue)))
  {
    CalmRunIsSafe(gap, ops);
    var s := RunOps(gap, ops);
    assert LaneOk(LaneOf(s, ev), gap, VenueIndex(ev.venue), 0);
    assert (ops + [Arrive(ev)])[..|ops|] == ops;
    NextIsRecoveredIff(s, gap, ev);
    LookupIsSound(StoreHere(s, gap, ev), LaneOf(s, ev).next);
  }

  // ---- A refused event comes back ----

  ghost predicate StoreBelow(q: seq<BookEvent>, num: nat) {
    forall i :: 0 <= i < |q| ==> q[i].sequence < num
  }

  /** The newest event of a store, above all the others. */
  ghost predicate IsNewest(q: seq<BookEvent>, ev: BookEvent) {
    q != [] && q[|q| - 1] == ev && StoreBelow(q[..|q| - 1], ev.sequence)
  }

  lemma NewestOfTail(q: seq<BookEvent>, k: nat, ev: BookEvent)
    requires IsNewest(q, ev) && k < |q|
    ensures IsNewest(q[k..], ev)
  {
    var older, kept := q[..|q| - 1], q[k..][..|q| - k - 1];
    forall i | 0 <= i < |kept| ensures kept[i] == older[k + i] {
    }
  }

  /** Recorded, and the store trimmed, a refused event is the newest there. */
  lemma NewestStays(q: seq<BookEvent>, limit: nat, ev: BookEvent)
    requires StoreBelow(q, ev.sequence) && limit > 0
    ensures IsNewest(StoreAfterAdvance(Recorded(q, limit, ev), ev.sequence), ev)
  {
    var q1 := Recorded(q, limit, ev);
    RecordedIsNewest(q, limit, ev);
    assert (q + [ev])[..|q|] == q;
    NewestOfTail(q + [ev], |q| + 1 - |q1|, ev);
    if ev.sequence > 64 {
      NewestSurvives(q1, ev);
    }
  }

  lemma NewestSurvives(q: seq<BookEvent>, ev: BookEvent)
    requires IsNewest(q, ev) && ev.sequence > 64
    ensures IsNewest(Evicted(q, ev.sequence - 64), ev)
  {
    var k := EvictedIsTail(q, ev.sequence - 64);
    assert q[|q| - 1].sequence >= ev.sequence - 64;
    NewestOfTail(q, k, ev);
  }

  lemma RefusedIsStored(s: State, gap: nat, ev: BookEvent)
    requires |s.lanes| == VENUE_SLOTS && s.recovered == [] && StatusOf(LaneOf(s, ev).next, gap, ev.sequence) == GapTooLarge
    ensures var after := LaneOf(OnEvent(s, gap, ev), ev);
      && after.next == ev.sequence
      && after.store == StoreAfterAdvance(Recorded(LaneOf(s, ev).store, StoreLimit(gap), ev), ev.sequence)
    ensures OnEvent(s, gap, ev).recovered == [] && OnEvent(s, gap, ev).tally.inconsistent == s.tally.inconsistent
  {
  }

  lemma StoredLieBelow(s: State, gap: nat, e: BookEvent)
    requires Safe(s, gap) && e.sequence > LaneOf(s, e).next + gap
    ensures StoreBelow(LaneOf(s, e).store, e.sequence)
  {
    var lane := LaneOf(s, e);
    assert LaneOk(lane, gap, VenueIndex(e.venue), 0);
    forall i | 0 <= i < |lane.store| ensures lane.store[i].sequence < e.sequence {
      assert lane.store[i] in lane.store;
    }
  }

  /** It waits in the store as the number wanted next. */
  lemma RefusedWaits(s: State, gap: nat, e: BookEvent, f: BookEvent)
    requires Safe(s, gap) && s.recovered == [] && 1 <= gap && StoreLimit(gap) >= 2
    requires e.sequence > LaneOf(s, e).next + gap && f.venue == e.venue && f.sequence == e.sequence + 1
    ensures var t := OnEvent(s, gap, e);
      IsEarly(t, gap, f) && LaneOf(t, f).next == e.sequence && Lookup(StoreHere(t, gap, f), e.sequence) == Some(e)
  {
    StoredLieBelow(s, gap, e);
    RefusedIsStored(s, gap, e);
    NewestStays(LaneOf(s, e).store, StoreLimit(gap), e);
    var t := OnEvent(s, gap, e);
    RecordedIsNewest(LaneOf(t, f).store, StoreLimit(gap), f);
    NewestTwoAreFound(LaneOf(t, f).store, StoreHere(t, gap, f), e, f);
  }

  /** An event refused as too far ahead is published after all when its successor arrives, and so is the successor. */
  lemma RefusedIsRecovered(s: State, gap: nat, e: BookEvent, f: BookEvent)
    requires Safe(s, gap) && s.recovered == [] && s.tally.inconsistent == 0 && 1 <= gap
    requires (gap + 64) % 0x1_0000_0000_0000_0000 >= 2
    requires e.sequence > LaneOf(s, e).next + gap && f.venue == e.venue && f.sequence == e.sequence + 1
    ensures var p := Published(OnEvent(OnEvent(s, gap, e), gap, f), VenueIndex(e.venue)); e in p && f in p
  {
    RefusedWaits(s, gap, e, f);
    RefusedIsStored(s, gap, e);
    OnEventIsSafe(s, gap, e);
    NextIsPublished(OnEvent(s, gap, e), gap, f);
  }

  lemma NewestTwoAreFound(q: seq<BookEvent>, q2: seq<BookEvent>, e: BookEvent, f: BookEvent)
    requires IsNewest(q, e) && f.sequence == e.sequence + 1
    requires 2 <= |q2| <= |q| + 1 && q2 == (q + [f])[|q| + 1 - |q2|..]
    ensures Lookup(q2, e.sequence) == Some(e)
  {
    var all, k := q + [f], |q2| - 2;
    forall i | 0 <= i < |q2| ensures i < k ==> q2[i].sequence < e.sequence {
      assert q2[i] == all[|q| + 1 - |q2| + i];
      assert i < k ==> q2[i] == q[..|q| - 1][|q| + 1 - |q2| + i];
    }
    assert q2[k] == e && q2[k + 1] == f;
    LowerBoundIsDivide(q2, 0, |q2|, e.sequence, k);
  }

  lemma RefusalPublishesNothing(s: State, gap: nat, ev: BookEvent)
    requires |s.lanes| == VENUE_SLOTS && s.recovered == [] && StatusOf(LaneOf(s, ev).next, gap, ev.sequence) == GapTooLarge
    ensures Published(OnEvent(s, gap, ev), VenueIndex(ev.venue)) == Published(s, VenueIndex(ev.venue))
  {
    var v := VenueIndex(ev.venue);
    assert Published(Record(s, gap, ev), v) == Published(s, v);
    PublishedByProcess(Record(s, gap, ev), gap, ev);
    assert OnEvent(s, gap, ev) == Processed(s, gap, ev);
  }

  lemma OneSlotForgets(q: seq<BookEvent>, limit: nat, e: BookEvent, f: BookEvent)
    requires limit < 2 && f.sequence != e.sequence
    ensures Lookup(Recorded(q, limit, f), e.sequence) == None
  {
    var kept := Recorded(q, limit, f);
    RecordedIsNewest(q, limit, f);
    LookupIsSound(kept, e.sequence);
  }

  /** A store of at most one event has forgotten it, and a window of 0 refuses the successor too. */
  lemma RefusedIsLost(s: State, gap: nat, e: BookEvent, f: BookEvent)
    requires Safe(s, gap) && s.recovered == [] && LaneOf(s, f).next == e.sequence
    requires f.venue == e.venue && f.sequence == e.sequence + 1 && (gap == 0 || StoreLimit(gap) < 2)
    ensures e !in Published(OnEvent(s, gap, f), VenueIndex(e.venue))
  {
    var v := VenueIndex(e.venue);
    assert PublishedOk(Published(s, v), v, e.sequence);
    assert LaneOk(LaneOf(s, f), gap, v, 0);
    if gap == 0 {
      RefusalPublishesNothing(s, gap, f);
    } else {
      OneSlotForgets(LaneOf(s, f).store, StoreLimit(gap), e, f);
      NothingIsPublished(s, gap, f);
    }
  }

  /** The refused event comes back with its successor if and only if the window is not 0 and the store keeps two events. */
  lemma RefusedIsRecoveredIff(s: State, gap: nat, e: BookEvent, f: BookEvent)
    requires Safe(s, gap) && s.recovered == [] && s.tally.inconsistent == 0
    requires e.sequence > LaneOf(s, e).next + gap && f.venue == e.venue && f.sequence == e.sequence + 1
    ensures e in Published(OnEvent(OnEvent(s, gap, e), gap, f), VenueIndex(e.venue))
        <==> 1 <= gap && (gap + 64) % 0x1_0000_0000_0000_0000 >= 2
  {
    if 1 <= gap && (gap + 64) % 0x1_0000_0000_0000_0000 >= 2 {
      RefusedIsRecovered(s, gap, e, f);
    } else {
      RefusedIsStored(s, gap, e);
      OnEventIsSafe(s, gap, e);
      RefusedIsLost(OnEvent(s, gap, e), gap, e, f);
    }
  }

  /** So it is in every run, whatever came before, while no inconsistency is counted. */
  lemma EveryRunRecoversTheRefused(gap: nat, ops: seq<Op>, e: BookEvent, f: BookEvent)
    requires RunOps(gap, ops).tally.inconsistent == 0 && 1 <= gap && (gap + 64) % 0x1_0000_0000_0000_0000 >= 2
    requires e.sequence > LaneOf(RunOps(gap, ops), e).next + gap && f.venue == e.venue && f.sequence == e.sequence + 1
    ensures var p := Published(RunOps(gap, ops + [Arrive(e)] + [Arrive(f)]), VenueIndex(e.venue)); e in p && f in p
  {
    CalmRunIsSafe(gap, ops);
    OneMoreArrives(gap, ops, e);
    OneMoreArrives(gap, ops + [Arrive(e)], f);
    RefusedIsRecovered(RunOps(gap, ops), gap, e, f);
  }

  lemma OneMoreArrives(gap: nat, ops: seq<Op>, ev: BookEvent)
    ensures RunOps(gap, ops + [Arrive(ev)]) == OnEvent(RunOps(gap, ops), gap, ev)
  {
    assert (ops + [Arrive(ev)])[..|ops|] == ops;
  }

  lemma OnEventKeepsPublished(s: State, gap: nat, ev: BookEvent, i: nat, e: BookEvent)
    requires |s.lanes| == VENUE_SLOTS && i < VENUE_SLOTS && e in Published(s, i)
    ensures e in Published(OnEvent(s, gap, ev), i)
  {
    var recorded := Record(s, gap, ev);
    assert Published(recorded, i) == Published(s, i);
    PublishedByProcess(recorded, gap, ev);
    assert Published(Processed(s, gap, ev), i) == Published(Process(recorded, gap, ev), i);
    ReinjectKeepsPublished(Processed(s, gap, ev), gap, Process(recorded, gap, ev).recovered, i, e);
  }

  lemma FirstArrival(gap: nat, ops: seq<Op>, ev: BookEvent)
    requires ev.sequence == 1 && ops == [Arrive(ev)]
    ensures LaneOf(RunOps(gap, ops), ev).next == 2 && ev in Published(RunOps(gap, ops), VenueIndex(ev.venue))
    ensures RunOps(gap, ops).tally.inconsistent == 0
  {
    var none: seq<Op> := [];
    OneMoreArrives(gap, none, ev);
    assert none + [Arrive(ev)] == ops;
    BelowWrapIsConsistent(gap, ops);
    FirstFreeIs(2, {}, 2);
    assert LaneOf(START, ev) == FRESH_LANE;
    PublishedByProcess(Record(START, gap, ev), gap, ev);
    assert OnEvent(START, gap, ev) == Processed(START, gap, ev);
    assert Published(OnEvent(START, gap, ev), VenueIndex(ev.venue)) == Published(START, VenueIndex(ev.venue)) + [ev];
  }

  lemma PublishedStays(gap: nat, ops: seq<Op>, e: BookEvent, f: BookEvent, i: nat, was: BookEvent)
    requires i < VENUE_SLOTS && was in Published(RunOps(gap, ops), i)
    ensures was in Published(RunOps(gap, ops + [Arrive(e)] + [Arrive(f)]), i)
  {
    OneMoreArrives(gap, ops, e);
    OneMoreArrives(gap, ops + [Arrive(e)], f);
    OnEventKeepsPublished(RunOps(gap, ops), gap, e, i, was);
    OnEventKeepsPublished(RunOps(gap, ops + [Arrive(e)]), gap, f, i, was);
  }

  /** What was published stays so, and the refused event joins it with its successor. */
  lemma RefusedJoins(gap: nat, ops: seq<Op>, was: BookEvent, e: BookEvent, f: BookEvent)
    requires RunOps(gap, ops).tally.inconsistent == 0 && 1 <= gap && (gap + 64) % 0x1_0000_0000_0000_0000 >= 2
    requires e.sequence > LaneOf(RunOps(gap, ops), e).next + gap && f.venue == e.venue && f.sequence == e.sequence + 1
    requires was in Published(RunOps(gap, ops), VenueIndex(e.venue))
    ensures var p := Published(RunOps(gap, ops + [Arrive(e)] + [Arrive(f)]), VenueIndex(e.venue));
      was in p && e in p && f in p
  {
    EveryRunRecoversTheRefused(gap, ops, e, f);
    PublishedStays(gap, ops, e, f, VenueIndex(e.venue), was);
  }

  /** One event is published, nothing is held back. */
  ghost predicate StartedWith(gap: nat, ops: seq<Op>, e: BookEvent) {
    StartFacts(gap, ops, e) == true
  }

  ghost predicate StartFacts(gap: nat, ops: seq<Op>, e: BookEvent) {
    forall u {:trigger Unsealed(u)} :: Unsealed(u) ==>
      && LaneOf(RunOps(gap, ops), e).next == 2 && e in Published(RunOps(gap, ops), VenueIndex(e.venue))
      && RunOps(gap, ops).tally.inconsistent == 0
  }

  lemma FirstStarts(gap: nat, ops: seq<Op>, e: BookEvent)
    requires e.sequence == 1 && ops == [Arrive(e)]
    ensures StartedWith(gap, ops, e)
  {
    FirstArrival(gap, ops, e);
    assert StartFacts(gap, ops, e);
  }

  lemma RefusedJoinsTheFirst(gap: nat, ops: seq<Op>, first: BookEvent, e: BookEvent, f: BookEvent)
    requires StartedWith(gap, ops, first) && 1 <= gap && (gap + 64) % 0x1_0000_0000_0000_0000 >= 2
    requires first.venue == e.venue == f.venue && e.sequence > 2 + gap && f.sequence == e.sequence + 1
    ensures var p := Published(RunOps(gap, ops + [Arrive(e)] + [Arrive(f)]), VenueIndex(first.venue));
      first in p && e in p && f in p
  {
    assert Unsealed(true);
    RefusedJoins(gap, ops, first, e, f);
  }

  /** The shortest such run: 1, then 10 with a window of 4, then 11 brings 10 back. */
  lemma RefusedComesBack(ops: seq<Op>, e1: BookEvent, e10: BookEvent, e11: BookEvent)
    requires ops == [Arrive(e1)] && e1.venue == e10.venue == e11.venue
    requires e1.sequence == 1 && e10.sequence == 10 && e11.sequence == 11
    ensures var p := Published(RunOps(4, ops + [Arrive(e10)] + [Arrive(e11)]), VenueIndex(e1.venue));
      e1 in p && e10 in p && e11 in p
  {
    FirstStarts(4, ops, e1);
    RefusedJoinsTheFirst(4, ops, e1, e10, e11);
  }
}
