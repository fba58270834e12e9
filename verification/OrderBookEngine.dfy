/** The hash-table book: orders in an open-addressing table, levels in sorted vectors. */
module HashBook {
  import opened Types
  import opened BookModel
  import opened OrderTables
  import opened PriceLevels

  datatype OrderRef = OrderRef(venue: Venue, symbol: u64, side: Side, price: u32, qty: u32)

  function RefOf(o: Order): OrderRef {
    OrderRef(o.level.ladder.venue, o.level.ladder.symbol, o.level.ladder.side, o.level.price, o.qty)
  }

  function SideAt(sides: map<Ladder, seq<PriceLevel>>, ladder: Ladder): seq<PriceLevel> {
    if ladder in sides then sides[ladder] else []
  }

  // ---- What the sides show ----

  ghost predicate AllSorted(sides: map<Ladder, seq<PriceLevel>>) {
    forall l :: l in sides ==> Sorted(sides[l], l.side)
  }

  ghost predicate SidesShow(sides: map<Ladder, seq<PriceLevel>>, live: seq<Order>) {
    forall l: Ladder :: l.side != Unknown ==> IsDepth(SideAt(sides, l), live, l)
  }

  /** Only one ladder changed. */
  ghost predicate OnlyAt(was: map<Ladder, seq<PriceLevel>>, now: map<Ladder, seq<PriceLevel>>, ladder: Ladder) {
    && (forall l: Ladder :: l != ladder ==> SideAt(now, l) == SideAt(was, l))
    && (Positive(SideAt(was, ladder)) ==> Positive(SideAt(now, ladder)))
    && Sorted(SideAt(now, ladder), ladder.side)
  }

  ghost predicate Grown(was: map<Ladder, seq<PriceLevel>>, now: map<Ladder, seq<PriceLevel>>, lv: LevelId, qty: nat) {
    forall u {:trigger Unsealed(u)} :: Unsealed(u) ==>
      && OnlyAt(was, now, lv.ladder)
      && forall p: u32 :: QtyIn(SideAt(now, lv.ladder), p)
           == QtyIn(SideAt(was, lv.ladder), p) + if p == lv.price then qty else 0
  }

  ghost predicate Reduced(was: map<Ladder, seq<PriceLevel>>, now: map<Ladder, seq<PriceLevel>>, lv: LevelId, qty: nat) {
    forall u {:trigger Unsealed(u)} :: Unsealed(u) ==>
      && OnlyAt(was, now, lv.ladder)
      && forall p: u32 :: QtyIn(SideAt(now, lv.ladder), p)
           == LeftOf(QtyIn(SideAt(was, lv.ladder), p), if p == lv.price then qty else 0)
  }

  lemma ArrivalShows(was: map<Ladder, seq<PriceLevel>>, now: map<Ladder, seq<PriceLevel>>, live: seq<Order>, o: Order)
    requires SidesShow(was, live) && Grown(was, now, o.level, o.qty) && o.level.ladder.side != Unknown
    ensures SidesShow(now, live + [o])
  {
    assert Unsealed(true);
    forall l: Ladder | l.side != Unknown ensures IsDepth(SideAt(now, l), live + [o], l) {
      assert IsDepth(SideAt(was, l), live, l);
      assert l == o.level.ladder || SideAt(now, l) == SideAt(was, l);
      forall price: u32 ensures QtyIn(SideAt(now, l), price) == QtyAt(live + [o], LevelId(l, price)) {
        QtyAtOfOneMore(live, o, LevelId(l, price));
      }
    }
  }

  lemma ReductionShows(was: map<Ladder, seq<PriceLevel>>, now: map<Ladder, seq<PriceLevel>>,
                       live: seq<Order>, p: nat, dec: nat, after: seq<Order>)
    requires SidesShow(was, live) && p < |live| && dec <= live[p].qty
    requires Reduced(was, now, live[p].level, dec) && live[p].level.ladder.side != Unknown
    requires after == Shrunk(live, p, dec) || (dec == live[p].qty && after == Without(live, p))
    ensures SidesShow(now, after)
  {
    assert Unsealed(true);
    forall l: Ladder | l.side != Unknown ensures IsDepth(SideAt(now, l), after, l) {
      assert IsDepth(SideAt(was, l), live, l);
      assert l == live[p].level.ladder || SideAt(now, l) == SideAt(was, l);
      forall price: u32 ensures QtyIn(SideAt(now, l), price) == QtyAt(after, LevelId(l, price)) {
        QtyAtShrunk(live, p, dec, LevelId(l, price));
        QtyAtWithout(live, p, LevelId(l, price));
        QtyAtCoversOrder(live, p);
        assert QtyIn(SideAt(was, l), price) == QtyAt(live, LevelId(l, price));
      }
    }
  }

  /** Only the two sides of one book changed. */
  ghost predicate OthersKept(was: map<Ladder, seq<PriceLevel>>, now: map<Ladder, seq<PriceLevel>>,
                             venue: Venue, symbol: u64) {
    forall l: Ladder :: l.venue != venue || l.symbol != symbol ==> SideAt(now, l) == SideAt(was, l)
  }

  // ---- What the table holds ----

  ghost predicate TableHolds(contents: map<u64, OrderRef>, live: seq<Order>) {
    && (forall p :: 0 <= p < |live| ==> live[p].key in contents && contents[live[p].key] == RefOf(live[p]))
    && (forall k :: k in contents ==> HasKey(live, k))
  }

  lemma ArrivalHolds(contents: map<u64, OrderRef>, live: seq<Order>, o: Order)
    requires TableHolds(contents, live) && !HasKey(live, o.key)
    ensures TableHolds(contents[o.key := RefOf(o)], live + [o])
  {
    var after, orders := contents[o.key := RefOf(o)], live + [o];
    forall p | 0 <= p < |orders| ensures orders[p].key in after && after[orders[p].key] == RefOf(orders[p]) {
      if p < |live| {
        assert live[p].key != o.key;
      }
    }
    forall k | k in after ensures HasKey(orders, k) {
      if k == o.key {
        assert orders[|live|].key == k;
      } else {
        var p :| 0 <= p < |live| && live[p].key == k;
        assert orders[p].key == k;
      }
    }
  }

  lemma RemovalHolds(contents: map<u64, OrderRef>, live: seq<Order>, p: nat)
    requires TableHolds(contents, live) && DistinctKeys(live) && p < |live|
    ensures TableHolds(Removed(contents, live[p].key), Without(live, p))
  {
    var after, orders := Removed(contents, live[p].key), Without(live, p);
    forall q | 0 <= q < |orders| ensures orders[q].key in after && after[orders[q].key] == RefOf(orders[q]) {
      var old_q := if q < p then q else q + 1;
      assert orders[q] == live[old_q];
      assert live[old_q].key != live[p].key;
    }
    forall k | k in after ensures HasKey(orders, k) {
      var q :| 0 <= q < |live| && live[q].key == k;
      assert orders[if q < p then q else q - 1] == live[q];
    }
  }

  lemma ShrinkHolds(contents: map<u64, OrderRef>, live: seq<Order>, p: nat, dec: nat)
    requires TableHolds(contents, live) && DistinctKeys(live) && p < |live| && dec <= live[p].qty
    ensures TableHolds(contents[live[p].key := RefOf(Shrunk(live, p, dec)[p])], Shrunk(live, p, dec))
  {
    var orders := Shrunk(live, p, dec);
    var after := contents[live[p].key := RefOf(orders[p])];
    forall k | k in after ensures HasKey(orders, k) {
      var q :| 0 <= q < |live| && live[q].key == k;
      assert orders[q].key == k;
    }
  }

  /** The table's count is the number of live orders. */
  lemma {:induction false} CountIsLiveOrders(contents: map<u64, OrderRef>, live: seq<Order>)
    requires TableHolds(contents, live) && DistinctKeys(live)
    ensures |contents| == |live|
  {
    if live == [] {
      assert forall k :: k in contents ==> HasKey(live, k);
      assert contents == map[];
    } else {
      var last: nat := |live| - 1;
      assert Without(live, last) == live[..last];
      RemovalHolds(contents, live, last);
      RemovedIsSmaller(contents, live[last].key);
      CountIsLiveOrders(Removed(contents, live[last].key), live[..last]);
    }
  }

  /** The table finds a key exactly when an order has it, and then that order. */
  lemma TableFinds(contents: map<u64, OrderRef>, live: seq<Order>, key: u64)
    requires TableHolds(contents, live)
    ensures key in contents <==> Find(live, key) < |live|
    ensures key in contents ==> contents[key] == RefOf(live[Find(live, key)])
  {
    if key in contents {
      var p :| 0 <= p < |live| && live[p].key == key;
    }
  }

  /** The order that a small id refers to rests on the venue of the event, and on its symbol. */
  lemma ReferredOrder(live: seq<Order>, p: nat, venue: Venue, id: u64, symbol: u64)
    requires GoodBook(live) && p < |live| && id < ID_LIMIT
    requires live[p].key == OrderKey(venue, id) && SameSymbol(live, live[p].key, symbol)
    ensures live[p].level == LevelId(Ladder(venue, symbol, live[p].level.ladder.side), live[p].level.price)
    ensures live[p].level.ladder.side != Unknown
  {
    KeyOfSmallId(venue, id);
    assert GoodOrder(live[p]);
  }

  // ---- The coupling of the engine to the live orders ----

  ghost predicate Coupled(sides: map<Ladder, seq<PriceLevel>>, contents: map<u64, OrderRef>, live: seq<Order>) {
    forall u {:trigger Unsealed(u)} :: Unsealed(u) ==>
      GoodBook(live) && SidesShow(sides, live) && TableHolds(contents, live)
  }

  lemma CoupledTop(sides: map<Ladder, seq<PriceLevel>>, contents: map<u64, OrderRef>, live: seq<Order>,
                   venue: Venue, symbol: u64)
    requires Coupled(sides, contents, live)
    ensures TopOf(live, venue, symbol) == TopFrom(sides, venue, symbol)
    ensures IsSnapshot(SnapshotFrom(sides, venue, symbol), live, venue, symbol)
  {
    assert Unsealed(true);
    var bid, ask := Ladder(venue, symbol, Buy), Ladder(venue, symbol, Sell);
    assert IsDepth(SideAt(sides, bid), live, bid) && IsDepth(SideAt(sides, ask), live, ask);
    FrontIsBest(SideAt(sides, bid), live, bid);
    FrontIsBest(SideAt(sides, ask), live, ask);
  }

  lemma ArrivalCouples(was: map<Ladder, seq<PriceLevel>>, now: map<Ladder, seq<PriceLevel>>,
                       contents: map<u64, OrderRef>, live: seq<Order>, ev: BookEvent)
    requires Coupled(was, contents, live) && GoodArrival(live, ev)
    requires Grown(was, now, LevelOf(ev), ev.qty)
    ensures Coupled(now, contents[OrderKey(ev.venue, ev.orderId) := RefOf(OrderFrom(ev))], live + [OrderFrom(ev)])
  {
    assert Unsealed(true);
    ArrivalKeepsGoodBook(live, ev);
    ArrivalShows(was, now, live, OrderFrom(ev));
    ArrivalHolds(contents, live, OrderFrom(ev));
  }

  lemma RemovalCouples(was: map<Ladder, seq<PriceLevel>>, now: map<Ladder, seq<PriceLevel>>,
                       contents: map<u64, OrderRef>, live: seq<Order>, p: nat, o: Order)
    requires Coupled(was, contents, live) && p < |live| && live[p] == o
    requires Reduced(was, now, o.level, o.qty)
    ensures Coupled(now, Removed(contents, o.key), Without(live, p))
  {
    assert Unsealed(true);
    assert GoodOrder(live[p]);
    ReductionShows(was, now, live, p, live[p].qty, Without(live, p));
    RemovalHolds(contents, live, p);
    WithoutKeepsGoodBook(live, p);
  }

  lemma ShrinkCouples(was: map<Ladder, seq<PriceLevel>>, now: map<Ladder, seq<PriceLevel>>,
                      contents: map<u64, OrderRef>, live: seq<Order>, p: nat, o: Order, dec: nat)
    requires Coupled(was, contents, live) && p < |live| && live[p] == o && dec < o.qty
    requires Reduced(was, now, o.level, dec)
    ensures Coupled(now, contents[o.key := RefOf(o).(qty := o.qty - dec)], Shrunk(live, p, dec))
  {
    ShrinkStaysShown(was, now, contents, live, p, dec);
    ShrinkStaysHeld(was, contents, live, p, o, dec);
  }

  lemma ShrinkStaysShown(was: map<Ladder, seq<PriceLevel>>, now: map<Ladder, seq<PriceLevel>>,
                         contents: map<u64, OrderRef>, live: seq<Order>, p: nat, dec: nat)
    requires Coupled(was, contents, live) && p < |live| && dec < live[p].qty
    requires Reduced(was, now, live[p].level, dec)
    ensures SidesShow(now, Shrunk(live, p, dec))
  {
    assert Unsealed(true);
    assert GoodOrder(live[p]);
    ReductionShows(was, now, live, p, dec, Shrunk(live, p, dec));
  }

  lemma ShrinkStaysHeld(sides: map<Ladder, seq<PriceLevel>>, contents: map<u64, OrderRef>, live: seq<Order>,
                        p: nat, o: Order, dec: nat)
    requires Coupled(sides, contents, live) && p < |live| && live[p] == o && dec < o.qty
    ensures GoodBook(Shrunk(live, p, dec))
    ensures TableHolds(contents[o.key := RefOf(o).(qty := o.qty - dec)], Shrunk(live, p, dec))
  {
    assert Unsealed(true);
    ShrinkHolds(contents, live, p, dec);
    ShrinkKeepsGoodBook(live, p, dec);
    assert Shrunk(live, p, dec)[p] == o.(qty := o.qty - dec);
  }

  /** The order an event refers to: where the table has it, and where it rests. */
  ghost predicate Refers(live: seq<Order>, contents: map<u64, OrderRef>, key: u64, p: nat, venue: Venue, symbol: u64) {
    && key in contents && p < |live| && live[p].key == key && contents[key] == RefOf(live[p])
    && live[p].level == LevelId(Ladder(venue, symbol, live[p].level.ladder.side), live[p].level.price)
    && live[p].level.ladder.side != Unknown
  }

  lemma CoupledFinds(sides: map<Ladder, seq<PriceLevel>>, contents: map<u64, OrderRef>, live: seq<Order>,
                     venue: Venue, id: u64, symbol: u64)
    returns (p: nat)
    requires Coupled(sides, contents, live) && id < ID_LIMIT && SameSymbol(live, OrderKey(venue, id), symbol)
    ensures p == Find(live, OrderKey(venue, id))
    ensures OrderKey(venue, id) in contents <==> p < |live|
    ensures p < |live| ==> Refers(live, contents, OrderKey(venue, id), p, venue, symbol)
  {
    assert Unsealed(true);
    TableFinds(contents, live, OrderKey(venue, id));
    p := Find(live, OrderKey(venue, id));
    if p < |live| {
      ReferredOrder(live, p, venue, id, symbol);
    }
  }

  function TopFrom(sides: map<Ladder, seq<PriceLevel>>, venue: Venue, symbol: u64): TopOfBook {
    var bids := SideAt(sides, Ladder(venue, symbol, Buy));
    var asks := SideAt(sides, Ladder(venue, symbol, Sell));
    MakeTop(if bids == [] then None else Some(bids[0]), if asks == [] then None else Some(asks[0]))
  }

  function SnapshotFrom(sides: map<Ladder, seq<PriceLevel>>, venue: Venue, symbol: u64): BookSnapshot {
    BookSnapshot(SideAt(sides, Ladder(venue, symbol, Buy)), SideAt(sides, Ladder(venue, symbol, Sell)))
  }

  lemma FewOrdersFit(n: nat)
    requires n <= 0x8000_0001
    ensures n * MAX32 <= MAX64
  {
    assert n * MAX32 <= 0x8000_0001 * MAX32;
  }

  class OrderBookEngine {
    const table: OrderTable<OrderRef>
    var sides: map<Ladder, seq<PriceLevel>>
    ghost var live: seq<Order>
    /** So far every event was well-formed and no insert was dropped. */
    ghost var clean: bool

    ghost predicate Valid()
      reads this, table, table.slots
    {
      table.Valid() && AllSorted(sides) && (clean ==> Coupled(sides, table.contents, live))
    }

    constructor (size: nat, mix: u64 -> nat)
      requires size > 0
      ensures Valid() && clean && live == [] && fresh(table) && fresh(table.slots) && table.slots.Length == size
    {
      table := new OrderTable<OrderRef>(size, mix);
      sides := map[];
      live, clean := [], true;
    }

    method TopOfBook(venue: Venue, symbol: u64) returns (top: TopOfBook)
      requires Valid()
      ensures top == TopFrom(sides, venue, symbol) && (clean ==> top == TopOf(live, venue, symbol))
      ensures clean ==> ShowsTop(top, live, venue, symbol)
    {
      TopShowsBestPrices(live, venue, symbol);
      if clean {
        CoupledTop(sides, table.contents, live, venue, symbol);
      }
      top := TopFrom(sides, venue, symbol);
    }

    method Snapshot(venue: Venue, symbol: u64) returns (snap: BookSnapshot)
      requires Valid()
      ensures snap == SnapshotFrom(sides, venue, symbol) && BestFirst(snap)
      ensures clean ==> IsSnapshot(snap, live, venue, symbol)
    {
      if clean {
        CoupledTop(sides, table.contents, live, venue, symbol);
      }
      snap := SnapshotFrom(sides, venue, symbol);
    }

    method LiveOrderCount() returns (n: nat)
      requires Valid()
      ensures n == |table.contents| && (clean ==> n == |live|)
    {
      table.CountIsSize();
      if clean {
        assert Unsealed(true);
        CountIsLiveOrders(table.contents, live);
      }
      n := table.orderCount;
    }

    /** With a table of up to 2^32 slots no level's quantity gets past 64 bits. */
    lemma QuantitiesFit(lv: LevelId)
      requires Valid() && clean && table.slots.Length <= 0x1_0000_0000
      ensures QtyAt(live, lv) <= MAX64
    {
      assert Unsealed(true);
      table.CountIsSize();
      CountIsLiveOrders(table.contents, live);
      QtyAtIsBounded(live, lv);
      FewOrdersFit(|live|);
    }

    /**
      On every tape the engine stays sound; while the tape is well-formed and nothing is dropped, it
      does to the live orders, and reports, exactly what the list of orders says.
     */
    method OnEvent(ev: BookEvent) returns (r: ApplyResult)
      requires Valid()
      modifies this, table, table.slots
      ensures Valid()
      ensures clean <==> old(clean) && WellFormed(old(live), ev) && !r.dropped
      ensures clean ==> live == Step(old(live), ev) && r == ResultOf(old(live), ev)
      ensures clean ==> ShowsTop(r.topAfter, live, ev.venue, ev.symbol)
      ensures OthersKept(old(sides), sides, ev.venue, ev.symbol)
      ensures r.topAfter == TopFrom(sides, ev.venue, ev.symbol)
      ensures r.changedTop <==> r.topAfter != TopFrom(old(sides), ev.venue, ev.symbol)
    {
      var before := TopOfBook(ev.venue, ev.symbol);
      var dropped, queueAhead := Apply(ev);
      var after := TopOfBook(ev.venue, ev.symbol);
      r := ApplyResult(before != after, dropped, queueAhead, after);
    }

    method Apply(ev: BookEvent) returns (dropped: bool, queueAhead: nat)
      requires Valid()
      modifies this, table, table.slots
      ensures Valid()
      ensures clean <==> old(clean) && WellFormed(old(live), ev) && !dropped
      ensures clean ==> live == Step(old(live), ev) && queueAhead == QueueAhead(old(live), ev)
      ensures OthersKept(old(sides), sides, ev.venue, ev.symbol)
    {
      dropped, queueAhead := false, 0;
      if IsAdd(ev.kind) {
        queueAhead := QueueAheadOf(ev);
        dropped := Enter(ev);
      } else if IsReduction(ev.kind) {
        ReduceOrder(ev);
      } else if ev.kind == Replace {
        DropReferenced(ev);
        dropped := Enter(ev);
      }
    }

    method QueueAheadOf(ev: BookEvent) returns (qty: nat)
      requires Valid()
      ensures clean && ev.side != Unknown ==> qty == QtyAt(live, LevelOf(ev))
    {
      var side := if ev.side == Buy then Buy else Sell;
      var ladder := Ladder(ev.venue, ev.symbol, side);
      qty := QtyAtPrice(SideAt(sides, ladder), side, ev.price);
      assert Unsealed(true);
      assert clean && ev.side != Unknown ==> IsDepth(SideAt(sides, ladder), live, ladder);
    }

    /** Adds the quantity to its level, then the order to the table. */
    method Enter(ev: BookEvent) returns (dropped: bool)
      requires Valid()
      modifies this, table, table.slots
      ensures Valid()
      ensures clean <==> old(clean) && GoodArrival(old(live), ev) && !dropped
      ensures clean ==> live == old(live) + [OrderFrom(ev)]
      ensures OthersKept(old(sides), sides, ev.venue, ev.symbol)
    {
      AddLevelQty(LevelOf(ev), ev.qty);
      dropped := false;
      if ev.orderId != 0 {
        var ok := table.PutOrder(OrderKey(ev.venue, ev.orderId), RefOf(OrderFrom(ev)));
        dropped := !ok;
      }
      clean := clean && GoodArrival(live, ev) && !dropped;
      if clean {
        ArrivalCouples(old(sides), sides, old(table.contents), live, ev);
        live := live + [OrderFrom(ev)];
      }
    }

    method AddLevelQty(lv: LevelId, qty: nat)
      requires AllSorted(sides)
      modifies this`sides
      ensures AllSorted(sides) && OthersKept(old(sides), sides, lv.ladder.venue, lv.ladder.symbol)
      ensures lv.ladder.side != Unknown && qty > 0 ==> Grown(old(sides), sides, lv, qty)
    {
      if lv.ladder.side != Unknown {
        var levels := AddQty(SideAt(sides, lv.ladder), lv.ladder.side, lv.price, qty);
        sides := sides[lv.ladder := levels];
      }
    }

    method ReduceLevelQty(lv: LevelId, qty: nat)
      requires AllSorted(sides)
      modifies this`sides
      ensures AllSorted(sides) && OthersKept(old(sides), sides, lv.ladder.venue, lv.ladder.symbol)
      ensures lv.ladder.side != Unknown ==> Reduced(old(sides), sides, lv, qty)
    {
      if lv.ladder.side != Unknown {
        var levels := ReduceQty(SideAt(sides, lv.ladder), lv.ladder.side, lv.price, qty);
        sides := sides[lv.ladder := levels];
      }
    }

    /** The level reduced is the one under the symbol of the event, whatever the order's symbol. */
    method ReduceOrder(ev: BookEvent)
      requires Valid() && IsReduction(ev.kind)
      modifies this, table, table.slots
      ensures Valid()
      ensures clean <==> old(clean) && WellFormed(old(live), ev)
      ensures clean ==> live == Step(old(live), ev)
      ensures OthersKept(old(sides), sides, ev.venue, ev.symbol)
    {
      var key := OrderKey(ev.venue, ev.orderId);
      var found := table.FindOrder(key);
      clean := clean && WellFormed(live, ev);
      ghost var p: nat := 0;
      if clean {
        p := CoupledFinds(sides, table.contents, live, ev.venue, ev.orderId, ev.symbol);
      }
      if found.Some? {
        var order := table.slots[found.value].value;
        var dec := if ev.qty == 0 || ev.qty > order.qty then order.qty else ev.qty;
        var level := LevelId(Ladder(ev.venue, ev.symbol, order.side), order.price);
        if dec >= order.qty || ev.kind == Delete {
          TakeOut(key, level, dec, p);
        } else {
          TakePart(key, level, dec, found.value, p);
        }
      }
    }

    /** The order leaves the table; its level loses what the event says. */
    method TakeOut(key: u64, level: LevelId, dec: u32, ghost p: nat)
      requires Valid() && key in table.contents
      requires clean ==> p < |live| && live[p] == Order(key, level, dec) && level.ladder.side != Unknown
      modifies this, table, table.slots
      ensures Valid() && clean == old(clean)
      ensures clean ==> live == Without(old(live), p)
      ensures OthersKept(old(sides), sides, level.ladder.venue, level.ladder.symbol)
    {
      ReduceLevelQty(level, dec);
      table.EraseOrder(key);
      if clean {
        RemovalCouples(old(sides), sides, old(table.contents), live, p, Order(key, level, dec));
        live := Without(live, p);
      }
    }

    method TakePart(key: u64, level: LevelId, dec: u32, idx: nat, ghost p: nat)
      requires Valid() && key in table.contents
      requires idx < table.slots.Length && table.slots[idx] == Live(key, table.contents[key])
      requires dec < table.contents[key].qty
      requires clean ==>
        && p < |live| && live[p].key == key && live[p].level == level
        && RefOf(live[p]) == table.contents[key] && level.ladder.side != Unknown
      modifies this, table, table.slots
      ensures Valid() && clean == old(clean)
      ensures clean ==> dec < old(live)[p].qty && live == Shrunk(old(live), p, dec)
      ensures OthersKept(old(sides), sides, level.ladder.venue, level.ladder.symbol)
    {
      ghost var o := if clean then live[p] else Order(key, level, 0);
      ReduceLevelQty(level, dec);
      var order := table.slots[idx].value;
      table.Rewrite(idx, order.(qty := order.qty - dec));
      if clean {
        ShrinkCouples(old(sides), sides, old(table.contents), live, p, o, dec);
        live := Shrunk(live, p, dec);
      }
    }

    method DropReferenced(ev: BookEvent)
      requires Valid()
      modifies this, table, table.slots
      ensures Valid()
      ensures clean <==> old(clean) && ev.referenceOrderId < ID_LIMIT
                         && SameSymbol(old(live), OrderKey(ev.venue, ev.referenceOrderId), ev.symbol)
      ensures clean ==> live == Dropping(old(live), OrderKey(ev.venue, ev.referenceOrderId))
      ensures OthersKept(old(sides), sides, ev.venue, ev.symbol)
    {
      var key := OrderKey(ev.venue, ev.referenceOrderId);
      var found := table.FindOrder(key);
      clean := clean && ev.referenceOrderId < ID_LIMIT && SameSymbol(live, key, ev.symbol);
      ghost var p: nat := 0;
      if clean {
        p := CoupledFinds(sides, table.contents, live, ev.venue, ev.referenceOrderId, ev.symbol);
      }
      if found.Some? {
        var order := table.slots[found.value].value;
        TakeOut(key, LevelId(Ladder(ev.venue, ev.symbol, order.side), order.price), order.qty, p);
      }
    }
  }
}
