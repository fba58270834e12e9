/** One gap window per venue, with every detected gap reported to a recovery handler if there is one. */
module GapSequencing {
  import opened Types
  import opened SequenceTracking
  import opened RecoveryStorage

  class MultiVenueSequenceTracker {
    const gap: u64
    const trackers: seq<SequenceTracker>

    ghost const Repr: set<object>

    /** One tracker per venue, none of them sharing a ring. */
    ghost predicate Wired()
      reads Repr
    {
      && |trackers| == VENUE_SLOTS
      && (forall i :: 0 <= i < |trackers| ==> trackers[i] in Repr && trackers[i].tags in Repr)
      && (forall i, j :: 0 <= i < j < |trackers| ==>
            trackers[i] != trackers[j] && trackers[i].tags != trackers[j].tags)
      && forall i :: 0 <= i < |trackers| ==> trackers[i].gapWindow == gap
    }

    ghost predicate Valid()
      reads Repr
    {
      Wired() && forall i :: 0 <= i < |trackers| ==> trackers[i].Valid()
    }

    /** The window of the venue with index i. */
    ghost function At(i: nat): Window
      requires Wired() && i < VENUE_SLOTS
      reads Repr
    {
      trackers[i].View()
    }

    constructor (gapWindow: u64)
      ensures Wired() && gap == gapWindow && fresh(Repr)
      ensures Valid() <==> gapWindow < MAX64
      ensures forall i :: 0 <= i < VENUE_SLOTS ==> At(i) == FRESH_WINDOW
    {
      var ts := MakeTrackers(gapWindow);
      gap := gapWindow;
      trackers := ts;
      Repr := (set t: SequenceTracker | t in ts :: t as object) + (set t: SequenceTracker | t in ts :: t.tags as object);
      new;
      assert trackers[0].Valid() <==> gapWindow < MAX64;
    }

    static method MakeTrackers(gapWindow: u64) returns (ts: seq<SequenceTracker>)
      ensures |ts| == VENUE_SLOTS
      ensures forall i, j :: 0 <= i < j < |ts| ==> ts[i] != ts[j] && ts[i].tags != ts[j].tags
      ensures forall i :: 0 <= i < |ts| ==>
        fresh(ts[i]) && fresh(ts[i].tags) && ts[i].gapWindow == gapWindow
        && (ts[i].Valid() <==> gapWindow < MAX64) && ts[i].View() == FRESH_WINDOW
    {
      ts := [];
      while |ts| < VENUE_SLOTS
        invariant |ts| <= VENUE_SLOTS
        invariant forall i, j :: 0 <= i < j < |ts| ==> ts[i] != ts[j] && ts[i].tags != ts[j].tags
        invariant forall i :: 0 <= i < |ts| ==>
          fresh(ts[i]) && fresh(ts[i].tags) && ts[i].gapWindow == gapWindow
          && (ts[i].Valid() <==> gapWindow < MAX64) && ts[i].View() == FRESH_WINDOW
      {
        var t := new SequenceTracker(gapWindow);
        ts := ts + [t];
      }
    }

    method OnSequence(venue: Venue, num: u64) returns (out: Update)
      requires Valid()
      modifies Repr
      ensures Valid()
      ensures At(VenueIndex(venue)) == Step(old(At(VenueIndex(venue))), gap, num)
      ensures out == UpdateOf(old(At(VenueIndex(venue))), gap, num)
      ensures forall i :: 0 <= i < VENUE_SLOTS && i != VenueIndex(venue) ==> At(i) == old(At(i))
    {
      var tracker := trackers[VenueIndex(venue)];
      out := tracker.OnSequence(num);
    }

    /** As for one tracker: only a new base that is itself buffered leaves a stale tag. */
    method ForceAdvance(venue: Venue, newNext: u64)
      requires Valid()
      modifies Repr
      ensures Wired() && (Valid() <==> newNext !in old(At(VenueIndex(venue))).live)
      ensures At(VenueIndex(venue)) == Advance(old(At(VenueIndex(venue))), newNext)
      ensures forall i :: 0 <= i < VENUE_SLOTS && i != VenueIndex(venue) ==> At(i) == old(At(i))
    {
      var tracker := trackers[VenueIndex(venue)];
      tracker.ForceAdvance(newNext);
    }

    method NextExpected(venue: Venue) returns (n: u64)
      requires Valid()
      ensures n == At(VenueIndex(venue)).next
    {
      n := trackers[VenueIndex(venue)].nextExpected;
    }
  }

  datatype RecoveryReason = GapDetected | SpanTooLarge

  datatype RecoveryRequest = RecoveryRequest(venue: Venue, missing: GapRange, reason: RecoveryReason)

  datatype SequencerResult = SequencerResult(update: Update, recovery: Option<RecoveryRequest>)

  /** A request goes out exactly when numbers are missing. */
  function RequestFor(venue: Venue, update: Update): Option<RecoveryRequest> {
    if update.missing.Some? then
      Some(RecoveryRequest(venue, update.missing.value,
                           if update.status == GapTooLarge then SpanTooLarge else GapDetected))
    else None
  }

  class GapAwareSequencer {
    const trackers: MultiVenueSequenceTracker
    const recoveryHandler: ReplayRecoverySimulator?

    ghost const Repr: set<object>

    ghost predicate Valid()
      reads Repr
    {
      trackers.Repr == Repr && trackers.Valid()
    }

    constructor (gapWindow: u64, handler: ReplayRecoverySimulator?)
      ensures trackers.Wired() && trackers.Repr == Repr && trackers.gap == gapWindow && recoveryHandler == handler && fresh(Repr)
      ensures Valid() <==> gapWindow < MAX64
      ensures forall i :: 0 <= i < VENUE_SLOTS ==> trackers.At(i) == FRESH_WINDOW
    {
      var ts := new MultiVenueSequenceTracker(gapWindow);
      trackers := ts;
      recoveryHandler := handler;
      Repr := ts.Repr;
    }

    method OnSequence(venue: Venue, num: u64) returns (out: SequencerResult)
      requires Valid() && recoveryHandler !in Repr
      modifies Repr, recoveryHandler
      ensures Valid()
      ensures trackers.At(VenueIndex(venue)) == Step(old(trackers.At(VenueIndex(venue))), trackers.gap, num)
      ensures forall i :: 0 <= i < VENUE_SLOTS && i != VenueIndex(venue) ==>
        trackers.At(i) == old(trackers.At(i))
      ensures out.update == UpdateOf(old(trackers.At(VenueIndex(venue))), trackers.gap, num)
      ensures out.recovery == RequestFor(venue, out.update)
      ensures recoveryHandler != null ==>
        recoveryHandler.requestsTotal == old(recoveryHandler.requestsTotal) + (if out.recovery.Some? then 1 else 0)
      ensures recoveryHandler != null ==>
        recoveryHandler.pendingRecovered == old(recoveryHandler.pendingRecovered)
          + (if out.recovery == None then []
             else recoveryHandler.Found(venue, out.recovery.value.missing.begin, out.recovery.value.missing.end,
                                        out.recovery.value.reason == SpanTooLarge))
    {
      var update := trackers.OnSequence(venue, num);
      if update.missing == None {
        return SequencerResult(update, None);
      }
      var req := RecoveryRequest(
        venue, update.missing.value, if update.status == GapTooLarge then SpanTooLarge else GapDetected);
      if recoveryHandler != null {
        Report(recoveryHandler, req);
      }
      out := SequencerResult(update, Some(req));
    }

    static method Report(handler: ReplayRecoverySimulator, req: RecoveryRequest)
      modifies handler
      ensures handler.requestsTotal == old(handler.requestsTotal) + 1
      ensures handler.pendingRecovered == old(handler.pendingRecovered)
        + handler.Found(req.venue, req.missing.begin, req.missing.end, req.reason == SpanTooLarge)
    {
      handler.RequestRecovery(req.venue, req.missing.begin, req.missing.end, req.reason == SpanTooLarge);
    }

    method ForceAdvance(venue: Venue, newNext: u64)
      requires Valid()
      modifies Repr
      ensures trackers.Repr == Repr && trackers.Wired()
      ensures Valid() <==> newNext !in old(trackers.At(VenueIndex(venue))).live
      ensures trackers.At(VenueIndex(venue)) == Advance(old(trackers.At(VenueIndex(venue))), newNext)
      ensures forall i :: 0 <= i < VENUE_SLOTS && i != VenueIndex(venue) ==>
        trackers.At(i) == old(trackers.At(i))
    {
      trackers.ForceAdvance(venue, newNext);
    }

    method NextExpected(venue: Venue) returns (n: u64)
      requires Valid()
      ensures n == trackers.At(VenueIndex(venue)).next
    {
      n := trackers.NextExpected(venue);
    }
  }
}
