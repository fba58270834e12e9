/**
  The national best bid and offer over the venues of a symbol, updated only when a venue's top changes,
  and the journal of its changes.
 */
module NbboConsolidation {
  import opened Types
  import opened BookModel
  import opened HashBook

  datatype VenueTop = VenueTop(top: TopOfBook, bidSequence: u64, askSequence: u64)

  datatype Nbbo = Nbbo(
    hasBid: bool, hasAsk: bool, bidPrice: u32, bidQty: u32, askPrice: u32, askQty: u32,
    bidVenue: nat, askVenue: nat, bidVenueSequence: u64, askVenueSequence: u64)

  datatype SymbolState = SymbolState(venues: seq<VenueTop>, nbbo: Nbbo)

  const NO_NBBO: Nbbo := Nbbo(false, false, 0, 0, 0, 0, 0, 0, 0, 0)

  const NO_TOP: TopOfBook := TopOfBook(false, false, 0, 0, 0, 0)

  const NO_VENUE: VenueTop := VenueTop(NO_TOP, 0, 0)

  const NEW_STATE: SymbolState := SymbolState([NO_VENUE, NO_VENUE, NO_VENUE, NO_VENUE, NO_VENUE], NO_NBBO)

  // ---- What the consolidated quote must be ----

  /** Venue i has the best bid; a tie goes to the lowest venue. */
  ghost predicate BestBidAt(venues: seq<VenueTop>, i: nat) {
    && i < |venues| && venues[i].top.hasBid
    && forall j :: 0 <= j < |venues| && venues[j].top.hasBid ==>
         venues[j].top.bidPrice <= venues[i].top.bidPrice
         && (j < i ==> venues[j].top.bidPrice < venues[i].top.bidPrice)
  }

  ghost predicate BestAskAt(venues: seq<VenueTop>, i: nat) {
    && i < |venues| && venues[i].top.hasAsk
    && forall j :: 0 <= j < |venues| && venues[j].top.hasAsk ==>
         venues[j].top.askPrice >= venues[i].top.askPrice
         && (j < i ==> venues[j].top.askPrice > venues[i].top.askPrice)
  }

  ghost predicate ShowsBid(n: Nbbo, venues: seq<VenueTop>) {
    if n.hasBid then
      && BestBidAt(venues, n.bidVenue)
      && var v := venues[n.bidVenue];
         n.bidPrice == v.top.bidPrice && n.bidQty == v.top.bidQty && n.bidVenueSequence == v.bidSequence
    else
      && (forall j :: 0 <= j < |venues| ==> !venues[j].top.hasBid)
      && n.bidPrice == n.bidQty == n.bidVenue == n.bidVenueSequence == 0
  }

  ghost predicate ShowsAsk(n: Nbbo, venues: seq<VenueTop>) {
    if n.hasAsk then
      && BestAskAt(venues, n.askVenue)
      && var v := venues[n.askVenue];
         n.askPrice == v.top.askPrice && n.askQty == v.top.askQty && n.askVenueSequence == v.askSequence
    else
      && (forall j :: 0 <= j < |venues| ==> !venues[j].top.hasAsk)
      && n.askPrice == n.askQty == n.askVenue == n.askVenueSequence == 0
  }

  ghost predicate IsNbbo(n: Nbbo, venues: seq<VenueTop>) {
    ShowsBid(n, venues) && ShowsAsk(n, venues)
  }

  lemma NbboIsDetermined(a: Nbbo, b: Nbbo, venues: seq<VenueTop>)
    requires IsNbbo(a, venues) && IsNbbo(b, venues)
    ensures a == b
  {
    assert a.hasBid ==> venues[a.bidVenue].top.hasBid;
    assert b.hasBid ==> venues[b.bidVenue].top.hasBid;
    assert a.hasAsk ==> venues[a.askVenue].top.hasAsk;
    assert b.hasAsk ==> venues[b.askVenue].top.hasAsk;
  }

  method Compute(venues: seq<VenueTop>) returns (n: Nbbo)
    ensures IsNbbo(n, venues)
  {
    n := NO_NBBO;
    for i := 0 to |venues|
      invariant IsNbbo(n, venues[..i])
    {
      var v := venues[i];
      var was := n;
      if v.top.hasBid && (!n.hasBid || v.top.bidPrice > n.bidPrice) {
        n := n.(hasBid := true, bidPrice := v.top.bidPrice, bidQty := v.top.bidQty, bidVenue := i,
                bidVenueSequence := v.bidSequence);
      }
      if v.top.hasAsk && (!n.hasAsk || v.top.askPrice < n.askPrice) {
        n := n.(hasAsk := true, askPrice := v.top.askPrice, askQty := v.top.askQty, askVenue := i,
                askVenueSequence := v.askSequence);
      }
      OneMoreVenue(venues, i, was, n);
    }
    assert venues[..|venues|] == venues;
  }

  lemma OneMoreVenue(venues: seq<VenueTop>, i: nat, was: Nbbo, now: Nbbo)
    requires i < |venues| && IsNbbo(was, venues[..i])
    requires var v := venues[i];
      if v.top.hasBid && (!was.hasBid || v.top.bidPrice > was.bidPrice) then
        now.hasBid && now.bidPrice == v.top.bidPrice && now.bidQty == v.top.bidQty && now.bidVenue == i
        && now.bidVenueSequence == v.bidSequence
      else
        now.hasBid == was.hasBid && now.bidPrice == was.bidPrice && now.bidQty == was.bidQty
        && now.bidVenue == was.bidVenue && now.bidVenueSequence == was.bidVenueSequence
    requires var v := venues[i];
      if v.top.hasAsk && (!was.hasAsk || v.top.askPrice < was.askPrice) then
        now.hasAsk && now.askPrice == v.top.askPrice && now.askQty == v.top.askQty && now.askVenue == i
        && now.askVenueSequence == v.askSequence
      else
        now.hasAsk == was.hasAsk && now.askPrice == was.askPrice && now.askQty == was.askQty
        && now.askVenue == was.askVenue && now.askVenueSequence == was.askVenueSequence
    ensures IsNbbo(now, venues[..i + 1])
  {
    var some, more := venues[..i], venues[..i + 1];
    assert forall j :: 0 <= j < i ==> more[j] == some[j];
    assert more[i] == venues[i];
  }

  // ---- The consolidator ----

  function StateOf(bySymbol: map<u64, SymbolState>, symbol: u64): SymbolState {
    if symbol in bySymbol then bySymbol[symbol] else NEW_STATE
  }

  /** The venue's entry shows the new top; a side the top does not show keeps the sequence it had. */
  function UpdatedVenue(was: VenueTop, top: TopOfBook, num: u64): (now: VenueTop)
    ensures now.top == top
    ensures now.bidSequence == num || (!top.hasBid && now.bidSequence == was.bidSequence)
    ensures now.askSequence == num || (!top.hasAsk && now.askSequence == was.askSequence)
    ensures !top.hasBid ==> now.bidSequence == was.bidSequence
    ensures !top.hasAsk ==> now.askSequence == was.askSequence
  {
    VenueTop(top, if top.hasBid then num else was.bidSequence, if top.hasAsk then num else was.askSequence)
  }

  ghost predicate GoodState(state: SymbolState) {
    |state.venues| == VENUE_SLOTS && IsNbbo(state.nbbo, state.venues)
  }

  class NbboConsolidator {
    var bySymbol: map<u64, SymbolState>
    var cachedSymbol: u64
    var cachedValid: bool

    /** The cached entry is one of the map. */
    ghost predicate Valid()
      reads this
    {
      && (cachedValid ==> cachedSymbol in bySymbol)
      && forall s :: s in bySymbol ==> GoodState(bySymbol[s])
    }

    constructor ()
      ensures Valid() && bySymbol == map[]
    {
      bySymbol, cachedSymbol, cachedValid := map[], 0, false;
    }

    function Current(symbol: u64): (n: Nbbo)
      requires Valid()
      reads this
      ensures IsNbbo(n, StateOf(bySymbol, symbol).venues)
    {
      if symbol in bySymbol then
        assert GoodState(bySymbol[symbol]);
        bySymbol[symbol].nbbo
      else NO_NBBO
    }

    /** One venue's entry is replaced and the quote recomputed; other symbols are untouched. */
    method UpdateAndCurrent(symbol: u64, venue: Venue, top: TopOfBook, num: u64) returns (n: Nbbo)
      requires Valid()
      modifies this
      ensures Valid() && n == Current(symbol)
      ensures forall s :: s != symbol ==> StateOf(bySymbol, s) == StateOf(old(bySymbol), s)
      ensures symbol in bySymbol && |old(StateOf(bySymbol, symbol)).venues| == VENUE_SLOTS
      ensures bySymbol[symbol].venues ==
        old(StateOf(bySymbol, symbol)).venues[VenueIndex(venue) :=
          UpdatedVenue(old(StateOf(bySymbol, symbol)).venues[VenueIndex(venue)], top, num)]
    {
      if !(cachedValid && cachedSymbol == symbol) {
        if symbol !in bySymbol {
          cachedValid := false;
          bySymbol := bySymbol[symbol := NEW_STATE];
        }
        cachedSymbol, cachedValid := symbol, true;
      }
      var state := bySymbol[symbol];
      assert GoodState(state);
      var i := VenueIndex(venue);
      var venues := state.venues[i := UpdatedVenue(state.venues[i], top, num)];
      n := Compute(venues);
      bySymbol := bySymbol[symbol := SymbolState(venues, n)];
    }

    method Update(symbol: u64, venue: Venue, top: TopOfBook, num: u64) returns (changed: bool)
      requires Valid()
      modifies this
      ensures Valid() && (changed <==> Current(symbol) != old(Current(symbol)))
      ensures forall s :: s != symbol ==> StateOf(bySymbol, s) == StateOf(old(bySymbol), s)
      ensures symbol in bySymbol && |old(StateOf(bySymbol, symbol)).venues| == VENUE_SLOTS
      ensures bySymbol[symbol].venues ==
        old(StateOf(bySymbol, symbol)).venues[VenueIndex(venue) :=
          UpdatedVenue(old(StateOf(bySymbol, symbol)).venues[VenueIndex(venue)], top, num)]
    {
      var before := Current(symbol);
      var after := UpdateAndCurrent(symbol, venue, top, num);
      changed := before != after;
    }
  }

  // ---- The lazy replay ----

  /** The consolidator's view of every venue is the top of that venue's book. */
  ghost predicate Mirrors(bySymbol: map<u64, SymbolState>, sides: map<Ladder, seq<PriceLevel>>) {
    forall s: u64, v: Venue :: MirrorsAt(bySymbol, sides, s, v)
  }

  ghost predicate MirrorsAt(bySymbol: map<u64, SymbolState>, sides: map<Ladder, seq<PriceLevel>>, s: u64, v: Venue) {
    VenueIndex(v) < |StateOf(bySymbol, s).venues|
    && StateOf(bySymbol, s).venues[VenueIndex(v)].top == TopFrom(sides, v, s)
  }

  /** The price, quantity and venue of the best bid and ask over the books themselves. */
  ghost predicate BestOverBooks(n: Nbbo, sides: map<Ladder, seq<PriceLevel>>, s: u64) {
    && (n.hasBid <==> exists v: Venue :: TopFrom(sides, v, s).hasBid)
    && (n.hasBid ==> exists v: Venue :: VenueIndex(v) == n.bidVenue && BestBidBook(n, sides, s, v))
    && (n.hasAsk <==> exists v: Venue :: TopFrom(sides, v, s).hasAsk)
    && (n.hasAsk ==> exists v: Venue :: VenueIndex(v) == n.askVenue && BestAskBook(n, sides, s, v))
  }

  ghost predicate BestBidBook(n: Nbbo, sides: map<Ladder, seq<PriceLevel>>, s: u64, v: Venue) {
    var top := TopFrom(sides, v, s);
    && top.hasBid && n.bidPrice == top.bidPrice && n.bidQty == top.bidQty
    && forall w: Venue :: TopFrom(sides, w, s).hasBid ==>
         TopFrom(sides, w, s).bidPrice <= n.bidPrice
         && (VenueIndex(w) < VenueIndex(v) ==> TopFrom(sides, w, s).bidPrice < n.bidPrice)
  }

  ghost predicate BestAskBook(n: Nbbo, sides: map<Ladder, seq<PriceLevel>>, s: u64, v: Venue) {
    var top := TopFrom(sides, v, s);
    && top.hasAsk && n.askPrice == top.askPrice && n.askQty == top.askQty
    && forall w: Venue :: TopFrom(sides, w, s).hasAsk ==>
         TopFrom(sides, w, s).askPrice >= n.askPrice
         && (VenueIndex(w) < VenueIndex(v) ==> TopFrom(sides, w, s).askPrice > n.askPrice)
  }

  function VenueAt(i: nat): (v: Venue)
    requires i < VENUE_SLOTS
    ensures VenueIndex(v) == i
  {
    if i == 0 then Nasdaq else if i == 1 then Iex else if i == 2 then Cboe else if i == 3 then Cme else Bitfinex
  }

  lemma MirroredIsBest(n: Nbbo, bySymbol: map<u64, SymbolState>, sides: map<Ladder, seq<PriceLevel>>, s: u64)
    requires Mirrors(bySymbol, sides) && IsNbbo(n, StateOf(bySymbol, s).venues)
    requires |StateOf(bySymbol, s).venues| == VENUE_SLOTS
    ensures BestOverBooks(n, sides, s)
  {
    var venues := StateOf(bySymbol, s).venues;
    forall v: Venue ensures TopFrom(sides, v, s) == venues[VenueIndex(v)].top {
      assert MirrorsAt(bySymbol, sides, s, v);
    }
    if n.hasBid {
      var v := VenueAt(n.bidVenue);
      assert BestBidBook(n, sides, s, v);
    }
    if n.hasAsk {
      var v := VenueAt(n.askVenue);
      assert BestAskBook(n, sides, s, v);
    }
  }

  datatype NbboEvent = NbboEvent(symbol: u64, nbbo: Nbbo, exchangeTs: u64, ingestTs: u64)

  datatype ReplayStats = ReplayStats(bookEventsIn: nat, topChanges: nat, nbboEmitted: nat)

  /** The last quote journaled for a symbol. */
  ghost function LastJournaled(records: seq<NbboEvent>, s: u64): Nbbo {
    if records == [] then NO_NBBO
    else if records[|records| - 1].symbol == s then records[|records| - 1].nbbo
    else LastJournaled(records[..|records| - 1], s)
  }

  lemma MirrorAfterEvent(before: map<u64, SymbolState>, after: map<u64, SymbolState>,
                         was: map<Ladder, seq<PriceLevel>>, now: map<Ladder, seq<PriceLevel>>, venue: Venue, symbol: u64)
    requires Mirrors(before, was) && OthersKept(was, now, venue, symbol)
    requires forall s, v: Venue :: s != symbol || v != venue ==> SameTop(before, after, s, v)
    requires MirrorsAt(after, now, symbol, venue)
    ensures Mirrors(after, now)
  {
    forall s: u64, v: Venue ensures MirrorsAt(after, now, s, v) {
      assert MirrorsAt(before, was, s, v);
      if s != symbol || v != venue {
        assert SameTop(before, after, s, v);
        assert SideAt(now, Ladder(v, s, Buy)) == SideAt(was, Ladder(v, s, Buy));
        assert SideAt(now, Ladder(v, s, Sell)) == SideAt(was, Ladder(v, s, Sell));
      }
    }
  }

  ghost predicate SameTop(before: map<u64, SymbolState>, after: map<u64, SymbolState>, s: u64, v: Venue) {
    && |StateOf(after, s).venues| == |StateOf(before, s).venues|
    && (VenueIndex(v) < |StateOf(before, s).venues| ==>
          StateOf(after, s).venues[VenueIndex(v)].top == StateOf(before, s).venues[VenueIndex(v)].top)
  }

  ghost predicate InStep(nbbo: NbboConsolidator, sides: map<Ladder, seq<PriceLevel>>, records: seq<NbboEvent>)
    requires nbbo.Valid()
    reads nbbo
  {
    && Mirrors(nbbo.bySymbol, sides)
    && forall s: u64 :: LastJournaled(records, s) == nbbo.Current(s)
  }

  /**
    The records come from n events of the tape, in the tape's order, each with its event's symbol and
    timestamps, and none repeats the quote journaled last for its symbol.
   */
  ghost predicate Journals(records: seq<NbboEvent>, events: seq<BookEvent>, sources: seq<nat>, n: nat)
    requires n <= |events|
  {
    && |sources| == |records|
    && (forall k :: 0 <= k < |sources| ==> sources[k] < n)
    && (forall k, l :: 0 <= k < l < |sources| ==> sources[k] < sources[l])
    && (forall k :: 0 <= k < |records| ==> Records(records[k], events[sources[k]]))
    && (forall k :: 0 <= k < |records| ==> IsNews(records, k))
  }

  ghost predicate IsNews(records: seq<NbboEvent>, k: nat)
    requires k < |records|
  {
    records[k].nbbo != LastJournaled(records[..k], records[k].symbol)
  }

  ghost predicate Records(record: NbboEvent, ev: BookEvent) {
    record.symbol == ev.symbol && record.exchangeTs == ev.exchangeTs && record.ingestTs == ev.ingestTs
  }

  lemma OneMoreRecord(records: seq<NbboEvent>, events: seq<BookEvent>, sources: seq<nat>, n: nat, record: NbboEvent)
    requires n < |events| && Journals(records, events, sources, n)
    requires Records(record, events[n]) && record.nbbo != LastJournaled(records, record.symbol)
    ensures Journals(records + [record], events, sources + [n], n + 1)
  {
    var more, froms := records + [record], sources + [n];
    forall k | 0 <= k < |more| ensures IsNews(more, k) && Records(more[k], events[froms[k]]) {
      NewsStays(records, record, k);
    }
  }

  lemma JournalsGrow(records: seq<NbboEvent>, events: seq<BookEvent>, sources: seq<nat>, n: nat, emitted: seq<NbboEvent>)
    requires n < |events| && Journals(records, events, sources, n) && |emitted| <= 1
    requires emitted != [] ==> Records(emitted[0], events[n]) && emitted[0].nbbo != LastJournaled(records, emitted[0].symbol)
    ensures Journals(records + emitted, events, if emitted == [] then sources else sources + [n], n + 1)
  {
    if emitted == [] {
      assert records + emitted == records;
      assert Journals(records, events, sources, n + 1);
    } else {
      OneMoreRecord(records, events, sources, n, emitted[0]);
      assert emitted == [emitted[0]];
    }
  }

  lemma NewsStays(records: seq<NbboEvent>, record: NbboEvent, k: nat)
    requires k <= |records|
    requires if k < |records| then IsNews(records, k) else record.nbbo != LastJournaled(records, record.symbol)
    ensures IsNews(records + [record], k)
  {
    assert (records + [record])[..k] == records[..k];
    assert records[..|records|] == records;
  }

  /**
    Replays a tape, consulting the consolidator only for events that move a top.  Whatever the tape,
    the quotes afterwards are those of all the books, and the journal's last record of every symbol
    is its current quote.
   */
  method ReplayToJournal(events: seq<BookEvent>, books: OrderBookEngine, nbbo: NbboConsolidator)
    returns (records: seq<NbboEvent>, stats: ReplayStats, ghost sources: seq<nat>)
    requires books.Valid() && books.sides == map[] && nbbo.Valid() && nbbo.bySymbol == map[]
    modifies books, books.table, books.table.slots, nbbo
    ensures books.Valid() && nbbo.Valid()
    ensures forall s: u64 :: BestOverBooks(nbbo.Current(s), books.sides, s)
    ensures forall s: u64 :: LastJournaled(records, s) == nbbo.Current(s)
    ensures Journals(records, events, sources, |events|)
    ensures stats.bookEventsIn == |events| && stats.nbboEmitted == |records| <= stats.topChanges <= |events|
  {
    stats := ReplayStats(0, 0, 0);
    records, sources := [], [];
    for n := 0 to |events|
      invariant books.Valid() && nbbo.Valid() && InStep(nbbo, books.sides, records)
      invariant Journals(records, events, sources, n)
      invariant stats.bookEventsIn == n && stats.nbboEmitted == |records| <= stats.topChanges <= n
    {
      var topChanged, emitted := ReplayOne(events[n], books, nbbo, records);
      JournalsGrow(records, events, sources, n, emitted);
      sources := if emitted == [] then sources else sources + [n];
      records := records + emitted;
      stats := ReplayStats(n + 1, stats.topChanges + (if topChanged then 1 else 0), stats.nbboEmitted + |emitted|);
    }
    forall s: u64 ensures BestOverBooks(nbbo.Current(s), books.sides, s) {
      assert s in nbbo.bySymbol ==> GoodState(nbbo.bySymbol[s]);
      MirroredIsBest(nbbo.Current(s), nbbo.bySymbol, books.sides, s);
    }
  }

  method ReplayOne(ev: BookEvent, books: OrderBookEngine, nbbo: NbboConsolidator, ghost records: seq<NbboEvent>)
    returns (topChanged: bool, emitted: seq<NbboEvent>)
    requires books.Valid() && nbbo.Valid() && InStep(nbbo, books.sides, records)
    modifies books, books.table, books.table.slots, nbbo
    ensures books.Valid() && nbbo.Valid() && InStep(nbbo, books.sides, records + emitted)
    ensures |emitted| <= if topChanged then 1 else 0
    ensures topChanged <==> TopFrom(books.sides, ev.venue, ev.symbol) != TopFrom(old(books.sides), ev.venue, ev.symbol)
    ensures emitted == if nbbo.Current(ev.symbol) == old(nbbo.Current(ev.symbol)) then []
                       else [NbboEvent(ev.symbol, nbbo.Current(ev.symbol), ev.exchangeTs, ev.ingestTs)]
  {
    var apply := books.OnEvent(ev);
    emitted := [];
    assert records + [] == records;
    if !apply.changedTop {
      assert forall s, v: Venue :: SameTop(nbbo.bySymbol, nbbo.bySymbol, s, v);
      assert MirrorsAt(nbbo.bySymbol, old(books.sides), ev.symbol, ev.venue);
      MirrorAfterEvent(nbbo.bySymbol, nbbo.bySymbol, old(books.sides), books.sides, ev.venue, ev.symbol);
      return false, [];
    }
    topChanged := true;
    emitted := Consolidate(ev, apply.topAfter, nbbo, old(books.sides), books.sides, records);
  }

  method Consolidate(ev: BookEvent, top: TopOfBook, nbbo: NbboConsolidator, ghost was: map<Ladder, seq<PriceLevel>>,
                     ghost now: map<Ladder, seq<PriceLevel>>, ghost records: seq<NbboEvent>)
    returns (emitted: seq<NbboEvent>)
    requires nbbo.Valid() && InStep(nbbo, was, records)
    requires OthersKept(was, now, ev.venue, ev.symbol) && top == TopFrom(now, ev.venue, ev.symbol)
    modifies nbbo
    ensures nbbo.Valid() && InStep(nbbo, now, records + emitted) && |emitted| <= 1
    ensures emitted == if nbbo.Current(ev.symbol) == old(nbbo.Current(ev.symbol)) then []
                       else [NbboEvent(ev.symbol, nbbo.Current(ev.symbol), ev.exchangeTs, ev.ingestTs)]
  {
    emitted := [];
    assert records + [] == records;
    var changed := nbbo.Update(ev.symbol, ev.venue, top, ev.sequence);
    MirrorAfterEvent(old(nbbo.bySymbol), nbbo.bySymbol, was, now, ev.venue, ev.symbol);
    if changed {
      emitted := [NbboEvent(ev.symbol, nbbo.Current(ev.symbol), ev.exchangeTs, ev.ingestTs)];
      assert (records + emitted)[..|records|] == records;
    }
  }
}
