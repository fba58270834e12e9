/**
  The sequencing pipeline on values.  A lane is what one venue owns: the next sequence wanted, the
  later events held back, the recovery store and the merge queue.  The gap window needs no ring
  here: the numbers held back are exactly the keys of the pending map.
 */
module PipelineModel {
  import opened Types
  import opened SequenceTracking
  import opened RecoveryStorage
  import opened DeterministicMerge

  const LOOKBACK_SLACK: nat := 64

  /** How many events of a venue the store keeps. */
  function StoreLimit(gap: nat): nat {
    (gap + LOOKBACK_SLACK) % (MAX64 + 1)
  }

  datatype Lane = Lane(
    next: nat,
    pending: map<nat, BookEvent>,
    store: seq<BookEvent>,
    queue: seq<BookEvent>)

  datatype Tally = Tally(
    accepted: nat,
    duplicateOrOld: nat,
    buffered: nat,
    gapTooLarge: nat,
    evicted: nat,
    inconsistent: nat,
    reinjected: nat,
    requests: nat)

  /** emitted is everything the sink has seen; overwritten counts held-back events replaced by a repeat. */
  datatype State = State(
    lanes: seq<Lane>,
    recovered: seq<BookEvent>,
    tally: Tally,
    emitted: seq<BookEvent>,
    overwritten: nat)

  const FRESH_LANE: Lane := Lane(1, map[], [], [])

  const START: State := State(
    [FRESH_LANE, FRESH_LANE, FRESH_LANE, FRESH_LANE, FRESH_LANE], [], Tally(0, 0, 0, 0, 0, 0, 0, 0), [], 0)

  function QueuesOf(s: State): seq<seq<BookEvent>> {
    seq(|s.lanes|, i requires 0 <= i < |s.lanes| => s.lanes[i].queue)
  }

  ghost function WindowOf(lane: Lane): Window {
    Window(lane.next, lane.pending.Keys)
  }

  function From(pending: map<nat, BookEvent>, low: nat): map<nat, BookEvent> {
    map k | k in pending && k >= low :: pending[k]
  }

  function Restricted(pending: map<nat, BookEvent>, keys: set<nat>): map<nat, BookEvent> {
    map k | k in pending && k in keys :: pending[k]
  }

  function Without(pending: map<nat, BookEvent>, num: nat): map<nat, BookEvent> {
    pending - {num}
  }

  function Below(pending: map<nat, BookEvent>, low: nat): set<nat> {
    set k | k in pending && k < low
  }

  /** The run of held-back events that starts at num. */
  ghost function ReadyRun(pending: map<nat, BookEvent>, num: nat): (r: seq<BookEvent>)
    decreases pending.Keys
  {
    if num in pending then [pending[num]] + ReadyRun(pending - {num}, num + 1) else []
  }

  function StoreAfterAdvance(store: seq<BookEvent>, next: nat): seq<BookEvent> {
    if next > LOOKBACK_SLACK then Evicted(store, next - LOOKBACK_SLACK) else store
  }

  ghost function LaneAfter(lane: Lane, gap: nat, ev: BookEvent): Lane {
    match StatusOf(lane.next, gap, ev.sequence)
    case DuplicateOrOld => lane
    case GapTooLarge =>
      lane.(next := ev.sequence,
            pending := From(lane.pending, ev.sequence),
            store := StoreAfterAdvance(lane.store, ev.sequence))
    case GapBuffered => lane.(pending := lane.pending[ev.sequence := ev])
    case InOrder =>
      var w := Step(WindowOf(lane), gap, ev.sequence);
      lane.(next := w.next,
            pending := Restricted(lane.pending, w.live),
            store := StoreAfterAdvance(lane.store, w.next),
            queue := lane.queue + [ev] + ReadyRun(lane.pending, ev.sequence + 1))
  }

  ghost function TallyAfter(t: Tally, lane: Lane, gap: nat, ev: BookEvent): Tally {
    match StatusOf(lane.next, gap, ev.sequence)
    case DuplicateOrOld => t.(duplicateOrOld := t.duplicateOrOld + 1)
    case GapTooLarge =>
      t.(gapTooLarge := t.gapTooLarge + 1,
         evicted := t.evicted + |Below(lane.pending, ev.sequence)|,
         requests := t.requests + 1)
    case GapBuffered => t.(buffered := t.buffered + 1, requests := t.requests + 1)
    case InOrder =>
      t.(accepted := t.accepted + 1 + |ReadyRun(lane.pending, ev.sequence + 1)|,
         inconsistent := t.inconsistent + (if FirstFree(ev.sequence + 1, lane.pending.Keys) > MAX64 then 1 else 0))
  }

  ghost function LaneOf(s: State, ev: BookEvent): Lane
    requires |s.lanes| == VENUE_SLOTS
  {
    s.lanes[VenueIndex(ev.venue)]
  }

  ghost predicate IsBuffered(s: State, gap: nat, ev: BookEvent)
    requires |s.lanes| == VENUE_SLOTS
  {
    StatusOf(LaneOf(s, ev).next, gap, ev.sequence) == GapBuffered
  }

  /** One pass of an event, new or reinjected, through the sequencer. */
  ghost function Process(s: State, gap: nat, ev: BookEvent): (r: State)
    requires |s.lanes| == VENUE_SLOTS
    ensures |r.lanes| == VENUE_SLOTS
  {
    var lane := LaneOf(s, ev);
    State(
      s.lanes[VenueIndex(ev.venue) := LaneAfter(lane, gap, ev)],
      if IsBuffered(s, gap, ev) then s.recovered + Hits(lane.store, lane.next, ev.sequence - 1) else s.recovered,
      TallyAfter(s.tally, lane, gap, ev),
      s.emitted,
      if IsBuffered(s, gap, ev) && ev.sequence in lane.pending then s.overwritten + 1 else s.overwritten)
  }

  /** Feed recovered events back, except those still held back. */
  ghost function Reinject(s: State, gap: nat, rs: seq<BookEvent>): (r: State)
    requires |s.lanes| == VENUE_SLOTS
    ensures |r.lanes| == VENUE_SLOTS
    decreases |rs|
  {
    if rs == [] then s
    else if rs[0].sequence in LaneOf(s, rs[0]).pending then Reinject(s, gap, rs[1..])
    else Reinject(CountReinjection(Process(s, gap, rs[0])), gap, rs[1..])
  }

  function CountReinjection(s: State): State {
    s.(tally := s.tally.(reinjected := s.tally.reinjected + 1))
  }

  ghost function Record(s: State, gap: nat, ev: BookEvent): (r: State)
    requires |s.lanes| == VENUE_SLOTS
    ensures |r.lanes| == VENUE_SLOTS
  {
    var lane := LaneOf(s, ev);
    s.(lanes := s.lanes[VenueIndex(ev.venue) := lane.(store := Recorded(lane.store, StoreLimit(gap), ev))])
  }

  ghost function OnEvent(s: State, gap: nat, ev: BookEvent): (r: State)
    requires |s.lanes| == VENUE_SLOTS
    ensures |r.lanes| == VENUE_SLOTS
  {
    var processed := Process(Record(s, gap, ev), gap, ev);
    Reinject(processed.(recovered := []), gap, processed.recovered)
  }

  function Emptied(lanes: seq<Lane>): (r: seq<Lane>)
    ensures |r| == |lanes|
  {
    seq(|lanes|, i requires 0 <= i < |lanes| => lanes[i].(queue := []))
  }

  ghost function Finalize(s: State): (r: State)
    requires |s.lanes| == VENUE_SLOTS
    ensures |r.lanes| == VENUE_SLOTS
  {
    s.(emitted := s.emitted + Merge(QueuesOf(s)),
       lanes := Emptied(s.lanes))
  }

  datatype Op = Arrive(ev: BookEvent) | Drain

  ghost function Apply(s: State, gap: nat, op: Op): (r: State)
    requires |s.lanes| == VENUE_SLOTS
    ensures |r.lanes| == VENUE_SLOTS
  {
    if op.Arrive? then OnEvent(s, gap, op.ev) else Finalize(s)
  }

  /** A whole run: events arriving, and drains wherever they happen. */
  ghost function RunOps(gap: nat, ops: seq<Op>): (r: State)
    ensures |r.lanes| == VENUE_SLOTS
  {
    if ops == [] then START
    else Apply(RunOps(gap, ops[..|ops| - 1]), gap, ops[|ops| - 1])
  }
}
