/** The slab book: orders in preallocated nodes, one doubly linked queue per level, cached best prices. */
module IntrusiveBook {
  import opened Types
  import opened BookModel
  import opened OrderTables
  import opened PriceLevels
  import opened SlabModel

  /** A level is written back into its side. */
  function WithLevel(sides: map<Ladder, SideBook>, lv: LevelId, side: SideBook, level: Level): map<Ladder, SideBook> {
    var levels: map<u32, Level> := side.levels[lv.price := level];
    sides[lv.ladder := side.(levels := levels)]
  }

  function WithoutLevel(levels: map<u32, Level>, price: u32): map<u32, Level> {
    map k | k in levels && k != price :: levels[k]
  }

  lemma WithLevelChangesOne(sides: map<Ladder, SideBook>, lv: LevelId, side: SideBook, level: Level)
    requires forall k :: k != lv.price ==>
      (k in side.levels <==> k in SideBookAt(sides, lv.ladder).levels)
      && (k in side.levels ==> side.levels[k] == SideBookAt(sides, lv.ladder).levels[k])
    ensures OnlyLevel(sides, WithLevel(sides, lv, side, level), lv, Some(level))
  {
  }

  lemma CleanBest(nodes: seq<OrderNode>, free: seq<nat>, sides: map<Ladder, SideBook>, index: map<u64, nat>,
                  live: seq<Order>, at: seq<nat>, ladder: Ladder)
    requires Sound(nodes, free, sides, index, live, at) && Clean(sides, index, live)
    ensures var side := SideBookAt(sides, ladder);
            && ShownBest(side) == BestOf(live, ladder)
            && (side.hasBest ==>
                  && side.bestPrice in side.levels
                  && side.levels[side.bestPrice].qty == QtyAt(live, LevelId(ladder, side.bestPrice)))
  {
    assert Unsealed(true);
    var side := SideBookAt(sides, ladder);
    BestOfIs(live, ladder);
    if side.hasBest {
      var lv := LevelId(ladder, side.bestPrice);
      assert LevelHolds(sides, live, at, lv);
      QuotedIsPicked(live, at, lv);
    }
  }

  // ---- Adding ----

  function FindOrAddLevel(side: SideBook, dir: Side, price: u32): SideBook {
    if price in side.levels then side
    else
      var levels: map<u32, Level> := side.levels[price := Level(price, 0, NULL, NULL)];
      UpdateBestOnAdd(side.(levels := levels), dir, price)
  }

  function SidesAfterAdd(sides: map<Ladder, SideBook>, o: Order, idx: u32): map<Ladder, SideBook> {
    var side := FindOrAddLevel(SideBookAt(sides, o.level.ladder), o.level.ladder.side, o.level.price);
    WithLevel(sides, o.level, side, Joined(side.levels[o.level.price], o, idx))
  }

  ghost predicate AreAfterAdd(sides: map<Ladder, SideBook>, now: map<Ladder, SideBook>, o: Order, idx: u32) {
    forall u {:trigger Unsealed(u)} :: Unsealed(u) ==> now == SidesAfterAdd(sides, o, idx)
  }

  /** The order joins its level, which is created if it is new. */
  method AddToLevel(sides: map<Ladder, SideBook>, o: Order, idx: u32) returns (now: map<Ladder, SideBook>)
    ensures AreAfterAdd(sides, now, o, idx)
    ensures OnlyLevel(sides, now, o.level, Some(Joined(LevelFor(sides, o.level), o, idx)))
  {
    var side := FindOrAddLevel(SideBookAt(sides, o.level.ladder), o.level.ladder.side, o.level.price);
    WithLevelChangesOne(sides, o.level, side, Joined(side.levels[o.level.price], o, idx));
    now := WithLevel(sides, o.level, side, Joined(side.levels[o.level.price], o, idx));
  }

  /** The queue ahead of a new order, and the room there is for it. */
  lemma RoomFor(nodes: seq<OrderNode>, free: seq<nat>, sides: map<Ladder, SideBook>, index: map<u64, nat>,
                live: seq<Order>, at: seq<nat>, lv: LevelId)
    requires Sound(nodes, free, sides, index, live, at)
    ensures |free| + |live| == |nodes| && LevelFor(sides, lv).qty == QtyAt(live, lv)
  {
    assert Unsealed(true);
    assert LevelHolds(sides, live, at, lv);
    if Pick(live, at, lv) == [] {
      NoOrdersNoQty(live, at, lv);
    }
  }

  lemma AddKeepsClean(nodes: seq<OrderNode>, free: seq<nat>, sides: map<Ladder, SideBook>, index: map<u64, nat>,
                      live: seq<Order>, at: seq<nat>, o: Order, idx: u32, now: map<Ladder, SideBook>)
    requires Sound(nodes, free, sides, index, live, at) && Clean(sides, index, live) && GoodBook(live + [o])
    requires AreAfterAdd(sides, now, o, idx)
    ensures Clean(now, index[o.key := idx], live + [o])
  {
    assert Unsealed(true);
    assert LevelHolds(sides, live, at, o.level);
    QuotedIsPicked(live, at, o.level);
    forall l: Ladder
      ensures ShownBest(SideBookAt(SidesAfterAdd(sides, o, idx), l)) == BestOf(live + [o], l)
    {
      BestAfterAdd(live, o, l);
      assert ShownBest(SideBookAt(sides, l)) == BestOf(live, l);
    }
  }

  /** All that one insertion leaves behind, with the level it found. */
  lemma InsertedIsValid(nodes: seq<OrderNode>, free: seq<nat>, sides: map<Ladder, SideBook>, index: map<u64, nat>,
                        live: seq<Order>, at: seq<nat>, o: Order, idx: u32, now: map<Ladder, SideBook>, level: Level,
                        freshIds: bool)
    requires Sound(nodes, free, sides, index, live, at) && free != [] && idx == free[|free| - 1]
    requires OnlyLevel(sides, now, o.level, Some(Joined(LevelFor(sides, o.level), o, idx)))
    requires level == LevelFor(sides, o.level)
    requires freshIds ==> Clean(sides, index, live) && GoodBook(live + [o]) && AreAfterAdd(sides, now, o, idx)
    ensures level.qty == QtyAt(live, o.level)
    ensures idx < |nodes| && (level.tail == NULL || (level.tail < |nodes| && level.tail != idx))
    ensures Sound(Appended(nodes, level.tail, idx, o), free[..|free| - 1], now, index[o.key := idx], live + [o], at + [idx])
    ensures freshIds ==> Clean(now, index[o.key := idx], live + [o])
  {
    RoomFor(nodes, free, sides, index, live, at, o.level);
    AddKeepsSound(nodes, free, sides, index, live, at, o, idx, now);
    if freshIds {
      AddKeepsClean(nodes, free, sides, index, live, at, o, idx, now);
    }
  }

  // ---- Leaving ----

  /** After a level is gone its side's best is recomputed if it was that level's price. */
  ghost predicate BestFollows(was: map<Ladder, SideBook>, now: map<Ladder, SideBook>, lv: LevelId, gone: bool) {
    var before, after := SideBookAt(was, lv.ladder), SideBookAt(now, lv.ladder);
    && (forall l: Ladder :: l != lv.ladder ==> SideBookAt(now, l) == SideBookAt(was, l))
    && (if gone && ShownBest(before) == Some(lv.price) then BestAmong(after.levels, lv.ladder.side, ShownBest(after))
        else ShownBest(after) == ShownBest(before))
  }

  lemma LeavingLevel(nodes: seq<OrderNode>, free: seq<nat>, sides: map<Ladder, SideBook>, index: map<u64, nat>,
                     live: seq<Order>, at: seq<nat>, p: nat)
    requires Sound(nodes, free, sides, index, live, at) && p < |live| && p < |at| && at[p] < |nodes|
    ensures var left := Left(LevelFor(sides, live[p].level), nodes[at[p]]);
            && (left.head == NULL ==> left.qty == 0)
            && (left.head != NULL ==> Quoted(Without(live, p), live[p].level.ladder, live[p].level.price))
  {
    assert Unsealed(true);
    LeaveShowsOwn(nodes, sides, live, at, p);
    assert LevelHolds(sides, live, at, live[p].level);
    PickAround(live, at, p, live[p].level);
    NoOrdersNoQtyAfter(live, at, p);
    QuotedIsPicked(Without(live, p), WithoutAt(at, p), live[p].level);
  }

  lemma NoOrdersNoQtyAfter(live: seq<Order>, at: seq<nat>, p: nat)
    requires |live| == |at| && p < |live|
    ensures Pick(Without(live, p), WithoutAt(at, p), live[p].level) == [] ==> QtyAt(live, live[p].level) == live[p].qty
  {
    QtyAtWithout(live, p, live[p].level);
    if Pick(Without(live, p), WithoutAt(at, p), live[p].level) == [] {
      NoOrdersNoQty(Without(live, p), WithoutAt(at, p), live[p].level);
    }
  }

  lemma LeaveKeepsClean(nodes: seq<OrderNode>, free: seq<nat>, sides: map<Ladder, SideBook>, now: map<Ladder, SideBook>,
                        index: map<u64, nat>, live: seq<Order>, at: seq<nat>, p: nat, gone: bool)
    requires Clean(sides, index, live) && p < |live|
    requires Sound(nodes, free, now, Removed(index, live[p].key), Without(live, p), at)
    requires BestFollows(sides, now, live[p].level, gone)
    requires !gone ==> Quoted(Without(live, p), live[p].level.ladder, live[p].level.price)
    ensures Clean(now, Removed(index, live[p].key), Without(live, p))
  {
    assert Unsealed(true);
    var after := Without(live, p);
    WithoutKeepsGoodBook(live, p);
    forall q | 0 <= q < |after| ensures after[q].key in Removed(index, live[p].key) {
      assert after[q] == live[if q < p then q else q + 1];
    }
    forall l: Ladder ensures ShownBest(SideBookAt(now, l)) == BestOf(after, l) {
      assert ShownBest(SideBookAt(sides, l)) == BestOf(live, l);
      if l == live[p].level.ladder && gone && BestOf(live, l) == Some(live[p].level.price) {
        RecomputedIsBest(now, after, at, l, ShownBest(SideBookAt(now, l)));
      } else {
        BestWithout(live, p, l);
      }
    }
  }

  ghost predicate SameBests(was: map<Ladder, SideBook>, now: map<Ladder, SideBook>) {
    forall u {:trigger Unsealed(u)} :: Unsealed(u) ==>
      forall l: Ladder :: ShownBest(SideBookAt(now, l)) == ShownBest(SideBookAt(was, l))
  }

  method RewriteLevel(sides: map<Ladder, SideBook>, lv: LevelId, left: Level) returns (now: map<Ladder, SideBook>)
    ensures OnlyLevel(sides, now, lv, Some(left)) && SameBests(sides, now)
  {
    var side := SideBookAt(sides, lv.ladder);
    WithLevelChangesOne(sides, lv, side, left);
    now := WithLevel(sides, lv, side, left);
  }

  lemma ShrinkKeepsClean(sides: map<Ladder, SideBook>, now: map<Ladder, SideBook>, index: map<u64, nat>,
                         live: seq<Order>, p: nat, dec: nat)
    requires Clean(sides, index, live) && p < |live| && dec < live[p].qty
    requires SameBests(sides, now)
    ensures Clean(now, index, Shrunk(live, p, dec))
  {
    assert Unsealed(true);
    ShrinkKeepsGoodBook(live, p, dec);
    var after := Shrunk(live, p, dec);
    forall q | 0 <= q < |after| ensures after[q].key in index && after[q].level == live[q].level {
      assert live[q].key in index;
    }
    forall l: Ladder ensures BestOf(after, l) == BestOf(live, l) {
      BestByLevels(live, after, l);
    }
  }

  lemma {:induction false} BestByLevels(live: seq<Order>, other: seq<Order>, l: Ladder)
    requires |live| == |other| && forall i :: 0 <= i < |live| ==> live[i].level == other[i].level
    ensures BestOf(live, l) == BestOf(other, l)
  {
    if live != [] {
      var n := |live| - 1;
      assert live[n].level == other[n].level;
      BestByLevels(live[..n], other[..n], l);
    }
  }

  /** In any order, as an unordered map is walked. */
  method RecomputeBest(levels: map<u32, Level>, dir: Side) returns (side: SideBook)
    ensures side.levels == levels && BestAmong(levels, dir, ShownBest(side))
  {
    side := SideBook(levels, 0, false);
    var rest := levels.Keys;
    while rest != {}
      invariant side.levels == levels && rest <= levels.Keys
      invariant !side.hasBest ==> forall k :: k in levels && k !in rest ==> levels[k].qty == 0
      invariant side.hasBest ==> side.bestPrice in levels && levels[side.bestPrice].qty != 0
      invariant side.hasBest ==>
        forall k :: k in levels && k !in rest && levels[k].qty != 0 ==> !Better(dir, k, side.bestPrice)
      decreases |rest|
    {
      var price :| price in rest;
      rest := rest - {price};
      if levels[price].qty != 0 {
        side := UpdateBestOnAdd(side, dir, price);
      }
    }
  }

  /** The level is written back, or erased once it is empty. */
  method UpdateLevel(sides: map<Ladder, SideBook>, lv: LevelId, left: Level) returns (now: map<Ladder, SideBook>)
    requires LevelAt(sides, lv).Some?
    ensures var gone := left.qty == 0 && left.head == NULL;
            OnlyLevel(sides, now, lv, if gone then None else Some(left)) && BestFollows(sides, now, lv, gone)
  {
    var side := SideBookAt(sides, lv.ladder);
    if left.qty != 0 || left.head != NULL {
      WithLevelChangesOne(sides, lv, side, left);
      return WithLevel(sides, lv, side, left);
    }
    var levels := WithoutLevel(side.levels, lv.price);
    if side.hasBest && side.bestPrice == lv.price {
      side := RecomputeBest(levels, lv.ladder.side);
    } else {
      side := side.(levels := levels);
    }
    now := sides[lv.ladder := side];
  }

  function QtyOf(held: map<u32, Level>, rest: set<u32>, price: u32): nat {
    if price in held && price !in rest then held[price].qty else 0
  }

  lemma CollectedIsDepth(nodes: seq<OrderNode>, free: seq<nat>, sides: map<Ladder, SideBook>, index: map<u64, nat>,
                         live: seq<Order>, at: seq<nat>, ladder: Ladder, levels: seq<PriceLevel>)
    requires Sound(nodes, free, sides, index, live, at) && Clean(sides, index, live)
    requires Sorted(levels, ladder.side)
    requires (forall k :: k in SideBookAt(sides, ladder).levels ==> SideBookAt(sides, ladder).levels[k].qty > 0) ==>
               Positive(levels)
    requires forall price: u32 :: QtyIn(levels, price) == QtyOf(SideBookAt(sides, ladder).levels, {}, price)
    ensures IsDepth(levels, live, ladder)
  {
    assert Unsealed(true);
    var held := SideBookAt(sides, ladder).levels;
    forall price: u32
      ensures QtyOf(held, {}, price) == QtyAt(live, LevelId(ladder, price))
      ensures price in held ==> held[price].qty > 0
    {
      var lv := LevelId(ladder, price);
      assert LevelHolds(sides, live, at, lv);
      if Pick(live, at, lv) == [] {
        NoOrdersNoQty(live, at, lv);
      } else {
        var p := PickedFrom(live, at, lv, 0);
        assert GoodOrder(live[p]);
        QtyAtCoversOrder(live, p);
      }
    }
  }

  lemma ArrivalIsGood(sides: map<Ladder, SideBook>, index: map<u64, nat>, live: seq<Order>, ev: BookEvent)
    requires Clean(sides, index, live) && GoodArrival(live, ev)
    ensures GoodBook(live + [OrderFrom(ev)])
  {
    assert Unsealed(true);
    ArrivalKeepsGoodBook(live, ev);
  }

  lemma IndexIsFind(sides: map<Ladder, SideBook>, index: map<u64, nat>, live: seq<Order>, key: u64)
    requires Clean(sides, index, live)
    ensures key !in index ==> Find(live, key) == |live|
  {
    assert Unsealed(true);
  }

  lemma OnlyOneWithKey(sides: map<Ladder, SideBook>, index: map<u64, nat>, live: seq<Order>, p: nat)
    requires Clean(sides, index, live) && p < |live|
    ensures Find(live, live[p].key) == p
  {
    assert Unsealed(true);
  }

  // ---- Tapes with fresh ids ----

  /** The side a replacement takes: its own, or else that of the order it replaces. */
  ghost function PlacedSide(live: seq<Order>, ev: BookEvent): Side {
    var p := Find(live, OrderKey(ev.venue, ev.referenceOrderId));
    if ev.side == Unknown && p < |live| then live[p].level.ladder.side else ev.side
  }

  /** Whatever enters the book has a new small id and a quantity; nothing is asked of other events. */
  ghost predicate FreshId(live: seq<Order>, ev: BookEvent) {
    && (IsAdd(ev.kind) && ev.orderId != 0 && ev.side != Unknown ==> GoodArrival(live, ev))
    && (ev.kind == Replace && PlacedSide(live, ev) != Unknown ==>
          GoodArrival(Dropping(live, OrderKey(ev.venue, ev.referenceOrderId)), ev.(side := PlacedSide(live, ev))))
  }

  ghost function Entered(live: seq<Order>, ev: BookEvent, capacity: nat): seq<Order> {
    if ev.side == Unknown || |live| == capacity then live else live + [OrderFrom(ev)]
  }

  /** What an event does to the live orders of a slab with so many nodes. */
  ghost function SlabStep(live: seq<Order>, ev: BookEvent, capacity: nat): seq<Order> {
    if IsAdd(ev.kind) then
      if ev.orderId == 0 then live else Entered(live, ev, capacity)
    else if IsReduction(ev.kind) then
      Reduction(live, OrderKey(ev.venue, ev.orderId), ev.qty, ev.kind == Delete)
    else if ev.kind == Replace then
      Entered(Dropping(live, OrderKey(ev.venue, ev.referenceOrderId)), ev.(side := PlacedSide(live, ev)), capacity)
    else live
  }

  /** On a well-formed event that finds a node the slab does what the list of orders does. */
  lemma SlabStepIsStep(live: seq<Order>, ev: BookEvent, capacity: nat)
    requires WellFormed(live, ev) && |live| < capacity
    ensures SlabStep(live, ev, capacity) == Step(live, ev) && FreshId(live, ev)
  {
  }

  /**
    What the slab takes in: an arrival with an id and a side, while there is a node.  A replacement takes
    the place of the order referred to, and its side if it names none.
   */
  lemma SlabTakesIn(live: seq<Order>, ev: BookEvent, capacity: nat)
    requires ev.kind in {Add, AddMpid, Replace} && DistinctKeys(live)
    ensures var after := SlabStep(live, ev, capacity);
      ev.kind != Replace ==>
        if ev.orderId == 0 || ev.side == Unknown || |live| == capacity then after == live
        else after != [] && after[..|after| - 1] == live && IsArrival(after[|after| - 1], ev)
    ensures var after, ref := SlabStep(live, ev, capacity), OrderKey(ev.venue, ev.referenceOrderId);
      ev.kind == Replace ==> forall o :: o in live && o.key == ref ==>
        var side := if ev.side == Unknown then o.level.ladder.side else ev.side;
        if side == Unknown then OthersStand(live, after, ref) && !HasKey(after, ref)
        else
          |live| <= capacity ==>
            && |after| == |live| && IsArrival(after[|after| - 1], ev.(side := side))
            && OthersStand(live, after[..|after| - 1], ref) && !HasKey(after[..|after| - 1], ref)
  {
    if ev.kind == Replace {
      var ref := OrderKey(ev.venue, ev.referenceOrderId);
      var p := Find(live, ref);
      if p < |live| {
        WithoutOrders(live, p);
        assert forall o :: o in live && o.key == ref ==> o == live[p];
      }
    }
  }

  ghost function SlabSteps(tape: seq<BookEvent>, capacity: nat): seq<Order> {
    if tape == [] then []
    else SlabStep(SlabSteps(tape[..|tape| - 1], capacity), tape[|tape| - 1], capacity)
  }

  ghost predicate FreshTape(tape: seq<BookEvent>, capacity: nat) {
    tape == [] ||
    (FreshTape(tape[..|tape| - 1], capacity) && FreshId(SlabSteps(tape[..|tape| - 1], capacity), tape[|tape| - 1]))
  }

  class IntrusiveOrderBook {
    const nodes: array<OrderNode>
    var freeList: seq<u32>
    var orderIndex: map<u64, nat>
    var sides: map<Ladder, SideBook>
    var liveOrderCount: nat
    var dropped: nat
    /** The live orders in arrival order, and the node of each. */
    ghost var live: seq<Order>
    ghost var at: seq<nat>
    /** So far every arrival had a fresh id. */
    ghost var freshIds: bool
    /** So far every event was well-formed and no insert was dropped. */
    ghost var clean: bool

    ghost predicate Valid()
      reads this, nodes
    {
      && Sound(nodes[..], freeList, sides, orderIndex, live, at)
      && liveOrderCount == |live|
      && (freshIds ==> Clean(sides, orderIndex, live))
      && (clean ==> freshIds)
    }

    constructor (capacity: nat)
      requires capacity <= NULL
      ensures Valid() && clean && freshIds && live == [] && dropped == 0 && fresh(nodes) && nodes.Length == capacity
    {
      nodes := new OrderNode[capacity](_ => BLANK_NODE);
      orderIndex, sides := map[], map[];
      liveOrderCount, dropped := 0, 0;
      live, at, clean, freshIds := [], [], true, true;
      freeList := [];
      new;
      var i := capacity;
      while i > 0
        invariant i <= capacity && |freeList| == capacity - i
        invariant forall k :: 0 <= k < |freeList| ==> freeList[k] == capacity - 1 - k
        invariant forall k :: 0 <= k < nodes.Length ==> nodes[k] == BLANK_NODE
        invariant live == [] && at == [] && clean && freshIds && sides == map[] && orderIndex == map[]
        invariant liveOrderCount == 0 && dropped == 0
      {
        freeList := freeList + [i - 1];
        i := i - 1;
      }
      forall x | 0 <= x < capacity ensures x in freeList {
        assert freeList[capacity - 1 - x] == x;
      }
      assert Partitioned(|nodes[..]|, freeList, at);
    }

    /** On every tape: no level's quantity gets past 64 bits. */
    lemma QuantitiesFit(lv: LevelId)
      requires Valid()
      ensures LevelFor(sides, lv).qty == QtyAt(live, lv) <= MAX64
    {
      RoomFor(nodes[..], freeList, sides, orderIndex, live, at, lv);
      assert Unsealed(true);
      QtyAtIsBounded(live, lv);
      assert |live| * MAX32 <= MAX32 * MAX32;
    }

    method SnapshotTop(venue: Venue, symbol: u64) returns (top: TopOfBook)
      requires Valid()
      ensures freshIds ==> top == TopOf(live, venue, symbol) && ShowsTop(top, live, venue, symbol)
    {
      TopShowsBestPrices(live, venue, symbol);
      var bid := BestOfSide(Ladder(venue, symbol, Buy));
      var ask := BestOfSide(Ladder(venue, symbol, Sell));
      top := MakeTop(bid, ask);
    }

    /** The cached best price, with the quantity of its level. */
    method BestOfSide(ladder: Ladder) returns (best: Option<PriceLevel>)
      requires Valid()
      ensures freshIds ==> best == BestLevel(live, ladder)
    {
      var side := SideBookAt(sides, ladder);
      if freshIds {
        CleanBest(nodes[..], freeList, sides, orderIndex, live, at, ladder);
      }
      if !side.hasBest {
        return None;
      }
      var qty := if side.bestPrice in side.levels then side.levels[side.bestPrice].qty else 0;
      best := Some(PriceLevel(side.bestPrice, qty));
    }

    /**
      On every tape the slab stays sound; while ids are fresh it holds the orders it should and shows
      their true top, whatever it refused; while the tape is well-formed and nothing is dropped, it
      does to the live orders, and reports, exactly what the list of orders says.
     */
    method OnEvent(ev: BookEvent) returns (r: ApplyResult)
      requires Valid()
      modifies this, nodes
      ensures Valid()
      ensures clean <==> old(clean) && WellFormed(old(live), ev) && dropped == old(dropped)
      ensures dropped >= old(dropped)
      ensures freshIds <==> old(freshIds) && FreshId(old(live), ev)
      ensures freshIds ==> live == SlabStep(old(live), ev, nodes.Length)
      ensures freshIds ==> r.topAfter == TopOf(live, ev.venue, ev.symbol) && ShowsTop(r.topAfter, live, ev.venue, ev.symbol)
      ensures freshIds ==> (r.changedTop <==> r.topAfter != TopOf(old(live), ev.venue, ev.symbol))
      ensures clean ==> live == Step(old(live), ev) && r == ResultOf(old(live), ev)
    {
      var before := SnapshotTop(ev.venue, ev.symbol);
      var exhausted, queueAhead := Apply(ev);
      var after := SnapshotTop(ev.venue, ev.symbol);
      r := ApplyResult(before != after, exhausted, queueAhead, after);
    }

    method Apply(ev: BookEvent) returns (exhausted: bool, queueAhead: nat)
      requires Valid()
      modifies this, nodes
      ensures Valid()
      ensures clean <==> old(clean) && WellFormed(old(live), ev) && dropped == old(dropped)
      ensures dropped >= old(dropped)
      ensures freshIds <==> old(freshIds) && FreshId(old(live), ev)
      ensures freshIds ==> live == SlabStep(old(live), ev, nodes.Length)
      ensures clean ==> live == Step(old(live), ev) && queueAhead == QueueAhead(old(live), ev) && !exhausted
    {
      exhausted, queueAhead := false, 0;
      clean := clean && WellFormed(live, ev);
      freshIds := freshIds && FreshId(live, ev);
      if IsAdd(ev.kind) {
        exhausted, queueAhead := ApplyAdd(ev);
      } else if IsReduction(ev.kind) {
        ReduceOrder(OrderKey(ev.venue, ev.orderId), ev.qty, ev.kind == Delete);
      } else if ev.kind == Replace {
        ReplaceOrder(ev);
      }
    }

    method ApplyAdd(ev: BookEvent) returns (exhausted: bool, queueAhead: nat)
      requires Valid() && IsAdd(ev.kind) && (clean ==> WellFormed(live, ev)) && (freshIds ==> FreshId(live, ev))
      modifies this, nodes
      ensures Valid() && (clean <==> old(clean) && dropped == old(dropped)) && dropped >= old(dropped)
      ensures freshIds == old(freshIds) && (freshIds ==> live == SlabStep(old(live), ev, nodes.Length))
      ensures clean ==> live == Step(old(live), ev) && queueAhead == QueueAhead(old(live), ev) && !exhausted
    {
      exhausted, queueAhead := false, 0;
      if ev.orderId != 0 {
        exhausted, queueAhead := AddOrder(ev);
      }
    }

    /** A new order is refused exactly when every node is taken. */
    method AddOrder(ev: BookEvent) returns (exhausted: bool, queueAhead: nat)
      requires Valid() && (freshIds && ev.side != Unknown ==> GoodArrival(live, ev))
      modifies this, nodes
      ensures Valid() && (clean <==> old(clean) && dropped == old(dropped)) && freshIds == old(freshIds)
      ensures exhausted <==> ev.side != Unknown && |old(live)| == nodes.Length
      ensures dropped == old(dropped) + if exhausted then 1 else 0
      ensures live == if ev.side == Unknown || exhausted then old(live) else old(live) + [OrderFrom(ev)]
      ensures ev.side != Unknown && !exhausted ==> queueAhead == QtyAt(old(live), LevelOf(ev))
    {
      if ev.side == Unknown {
        return false, 0;
      }
      RoomFor(nodes[..], freeList, sides, orderIndex, live, at, LevelOf(ev));
      if |freeList| == 0 {
        dropped := dropped + 1;
        clean := false;
        return true, 0;
      }
      if freshIds {
        ArrivalIsGood(sides, orderIndex, live, ev);
      }
      queueAhead := Insert(OrderFrom(ev));
      exhausted := false;
    }

    method Insert(o: Order) returns (queueAhead: nat)
      requires Valid() && freeList != [] && (freshIds ==> GoodBook(live + [o]))
      modifies this, nodes
      ensures Valid() && clean == old(clean) && freshIds == old(freshIds) && dropped == old(dropped)
      ensures live == old(live) + [o] && queueAhead == QtyAt(old(live), o.level)
    {
      var idx := freeList[|freeList| - 1];
      var level := LevelFor(sides, o.level);
      var now := AddToLevel(sides, o, idx);
      InsertedIsValid(nodes[..], freeList, sides, orderIndex, live, at, o, idx, now, level, freshIds);
      queueAhead := level.qty;
      TakeNode(idx, o, level.tail);
      sides := now;
      orderIndex := orderIndex[o.key := idx];
      live, at := live + [o], at + [idx];
      assert Sound(nodes[..], freeList, sides, orderIndex, live, at);
    }

    /** Takes a node off the free list and links it behind the tail of its level. */
    method TakeNode(idx: u32, o: Order, tail: u32)
      requires freeList != [] && idx == freeList[|freeList| - 1] && idx < nodes.Length
      requires tail == NULL || (tail < nodes.Length && tail != idx)
      modifies this`freeList, this`liveOrderCount, nodes
      ensures freeList == old(freeList[..|freeList| - 1]) && liveOrderCount == old(liveOrderCount) + 1
      ensures nodes[..] == Appended(old(nodes[..]), tail, idx, o)
    {
      freeList := freeList[..|freeList| - 1];
      liveOrderCount := liveOrderCount + 1;
      nodes[idx] := OrderNode(o, tail, NULL, true);
      if tail != NULL {
        nodes[tail] := nodes[tail].(next := idx);
      }
    }

    method ReduceOrder(key: u64, qty: u32, deleteAll: bool)
      requires Valid()
      modifies this, nodes
      ensures Valid() && clean == old(clean) && freshIds == old(freshIds) && dropped == old(dropped)
      ensures key !in old(orderIndex) ==> live == old(live)
      ensures key in old(orderIndex) ==>
        exists p :: 0 <= p < |old(live)| && old(live)[p].key == key && live == ReducedAt(old(live), p, qty, deleteAll)
      ensures freshIds ==> live == Reduction(old(live), key, qty, deleteAll)
    {
      if freshIds {
        IndexIsFind(sides, orderIndex, live, key);
      }
      if key !in orderIndex {
        return;
      }
      var idx := orderIndex[key];
      ghost var p := IndexFinds(nodes[..], freeList, sides, orderIndex, live, at, key);
      if freshIds {
        OnlyOneWithKey(sides, orderIndex, live, p);
      }
      var node := nodes[idx];
      var dec := if deleteAll || qty == 0 || qty > node.order.qty then node.order.qty else qty;
      if node.order.qty - dec == 0 {
        RemoveOrder(idx, p);
      } else {
        ShrinkOrder(idx, dec, p);
      }
    }

    method ShrinkOrder(idx: nat, dec: u32, ghost p: nat)
      requires Valid() && p < |live| && p < |at| && at[p] == idx < nodes.Length
      requires nodes[idx].order == live[p] && 0 < dec < live[p].qty
      requires LevelAt(sides, live[p].level).Some?
      modifies this, nodes
      ensures Valid() && clean == old(clean) && freshIds == old(freshIds) && dropped == old(dropped)
      ensures live == Shrunk(old(live), p, dec)
    {
      var o := nodes[idx].order;
      var level := LevelFor(sides, o.level);
      var left := level.(qty := if level.qty > dec then level.qty - dec else 0);
      var now := RewriteLevel(sides, o.level, left);
      ShrinkKeepsSound(nodes[..], freeList, sides, orderIndex, live, at, p, dec, now);
      if freshIds {
        ShrinkKeepsClean(sides, now, orderIndex, live, p, dec);
      }
      sides := now;
      ReduceNode(idx, dec);
      live := Shrunk(live, p, dec);
    }

    method ReduceNode(idx: nat, dec: u32)
      requires idx < nodes.Length && dec <= nodes[idx].order.qty
      modifies nodes
      ensures nodes[..] == Resized(old(nodes[..]), idx, dec)
    {
      nodes[idx] := nodes[idx].(order := nodes[idx].order.(qty := nodes[idx].order.qty - dec));
    }

    method RemoveOrder(idx: nat, ghost p: nat)
      requires Valid() && p < |live| && p < |at| && at[p] == idx < nodes.Length
      requires nodes[idx].order == live[p] && LevelAt(sides, live[p].level).Some?
      modifies this, nodes
      ensures Valid() && clean == old(clean) && freshIds == old(freshIds) && dropped == old(dropped)
      ensures live == Without(old(live), p)
    {
      var node := nodes[idx];
      var left := Left(LevelFor(sides, node.order.level), node);
      LeavingLevel(nodes[..], freeList, sides, orderIndex, live, at, p);
      var now := UpdateLevel(sides, node.order.level, left);
      LeaveKeepsSound(nodes[..], freeList, sides, orderIndex, live, at, p, now);
      if freshIds {
        LeaveKeepsClean(Unlinked(nodes[..], idx), freeList + [idx], sides, now, orderIndex, live, WithoutAt(at, p), p,
                        left.head == NULL);
      }
      UnlinkNode(idx);
      orderIndex := Removed(orderIndex, node.order.key);
      sides := now;
      live, at := Without(live, p), WithoutAt(at, p);
    }

    /** Joins the neighbours and gives the node back to the free list. */
    method UnlinkNode(idx: nat)
      requires idx < nodes.Length <= NULL
      requires nodes[idx].prev == NULL || nodes[idx].prev < nodes.Length
      requires nodes[idx].next == NULL || nodes[idx].next < nodes.Length
      modifies this`freeList, this`liveOrderCount, nodes
      ensures nodes[..] == Unlinked(old(nodes[..]), idx)
      ensures freeList == old(freeList) + [idx]
      ensures liveOrderCount == if old(liveOrderCount) > 0 then old(liveOrderCount) - 1 else 0
    {
      var node := nodes[idx];
      if node.prev != NULL {
        nodes[node.prev] := nodes[node.prev].(next := node.next);
      }
      if node.next != NULL {
        nodes[node.next] := nodes[node.next].(prev := node.prev);
      }
      nodes[idx] := BLANK_NODE;
      freeList := freeList + [idx];
      if liveOrderCount > 0 {
        liveOrderCount := liveOrderCount - 1;
      }
    }

    /** The drop of a replacement that finds no node shows only in the counter. */
    method ReplaceOrder(ev: BookEvent)
      requires Valid() && ev.kind == Replace && (clean ==> WellFormed(live, ev)) && (freshIds ==> FreshId(live, ev))
      modifies this, nodes
      ensures Valid() && (clean <==> old(clean) && dropped == old(dropped)) && dropped >= old(dropped)
      ensures freshIds == old(freshIds) && (freshIds ==> live == SlabStep(old(live), ev, nodes.Length))
      ensures clean ==> live == Step(old(live), ev)
    {
      var side := ev.side;
      var oldKey := OrderKey(ev.venue, ev.referenceOrderId);
      if oldKey in orderIndex {
        ghost var p := IndexFinds(nodes[..], freeList, sides, orderIndex, live, at, oldKey);
        if freshIds {
          OnlyOneWithKey(sides, orderIndex, live, p);
        }
        if side == Unknown {
          side := nodes[orderIndex[oldKey]].order.level.ladder.side;
        }
      }
      ReduceOrder(oldKey, 0, true);
      var _, _ := AddOrder(ev.(side := side));
    }

    /** The levels are collected from an unordered map and sorted. */
    method CollectSide(ladder: Ladder) returns (levels: seq<PriceLevel>)
      requires Valid()
      ensures Sorted(levels, ladder.side)
      ensures freshIds && ladder.side != Unknown ==> IsDepth(levels, live, ladder)
    {
      var held := SideBookAt(sides, ladder).levels;
      var rest := held.Keys;
      levels := [];
      while rest != {}
        invariant rest <= held.Keys && Sorted(levels, ladder.side)
        invariant (forall k :: k in held ==> held[k].qty > 0) ==> Positive(levels)
        invariant forall price: u32 :: QtyIn(levels, price) == QtyOf(held, rest, price)
        decreases |rest|
      {
        var price :| price in rest;
        rest := rest - {price};
        levels := AddQty(levels, ladder.side, price, held[price].qty);
      }
      if freshIds {
        CollectedIsDepth(nodes[..], freeList, sides, orderIndex, live, at, ladder, levels);
      }
    }

    method Snapshot(venue: Venue, symbol: u64) returns (snap: BookSnapshot)
      requires Valid()
      ensures BestFirst(snap) && (freshIds ==> IsSnapshot(snap, live, venue, symbol))
    {
      var bids := CollectSide(Ladder(venue, symbol, Buy));
      var asks := CollectSide(Ladder(venue, symbol, Sell));
      snap := BookSnapshot(bids, asks);
    }
  }
}
