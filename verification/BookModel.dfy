/**
  The book as a plain list of live orders in arrival order: what each event does to it, the depth
  and the top it shows, and the tapes on which both implementations follow it.
 */
module BookModel {
  import opened Types
  import opened ByteCodec

  /** One side of one symbol on one venue. */
  datatype Ladder = Ladder(venue: Venue, symbol: u64, side: Side)

  datatype LevelId = LevelId(ladder: Ladder, price: u32)

  datatype Order = Order(key: u64, level: LevelId, qty: u32)

  datatype PriceLevel = PriceLevel(price: u32, qty: nat)

  datatype TopOfBook = TopOfBook(
    hasBid: bool, hasAsk: bool, bidPrice: u32, bidQty: u32, askPrice: u32, askQty: u32)

  datatype BookSnapshot = BookSnapshot(bids: seq<PriceLevel>, asks: seq<PriceLevel>)

  datatype ApplyResult = ApplyResult(changedTop: bool, dropped: bool, queueAhead: nat, topAfter: TopOfBook)

  // ---- Order keys ----

  const ID_LIMIT: nat := 0x100_0000_0000_0000

  /** The venue is exclusive-ored into the top byte of the id. */
  function OrderKey(venue: Venue, id: u64): u64 {
    KeyFrom(XorByte(VenueIndex(venue), id / ID_LIMIT), id % ID_LIMIT)
  }

  function KeyFrom(top: nat, low: nat): u64
    requires top < 256 && low < ID_LIMIT
  {
    top * ID_LIMIT + low
  }

  function XorByte(a: nat, b: nat): (c: nat)
    requires a < 256 && b < 256
    ensures c < 256
  {
    ValueOf(ByteOf(a) ^ ByteOf(b))
  }

  lemma XorByteWithZero(a: nat)
    requires a < 256
    ensures XorByte(a, 0) == a && XorByte(0, a) == a
  {
    ByteRoundTrip(a);
  }

  /** An id below 2^56 and the venue can both be read off the key. */
  lemma KeyOfSmallId(venue: Venue, id: u64)
    requires id < ID_LIMIT
    ensures OrderKey(venue, id) == VenueIndex(venue) * ID_LIMIT + id
    ensures OrderKey(venue, id) / ID_LIMIT == VenueIndex(venue)
  {
    XorByteWithZero(VenueIndex(venue));
  }

  lemma KeysAreInjective(v: Venue, a: u64, w: Venue, b: u64)
    requires a < ID_LIMIT && b < ID_LIMIT && OrderKey(v, a) == OrderKey(w, b)
    ensures v == w && a == b
  {
    KeyOfSmallId(v, a);
    KeyOfSmallId(w, b);
  }

  /** Each id below 2^56 of one venue shares its key with a larger id of another. */
  lemma LargeIdsCollide(id: u64)
    requires id < ID_LIMIT
    ensures OrderKey(Iex, id) == OrderKey(Nasdaq, ID_LIMIT + id)
  {
    KeyOfSmallId(Iex, id);
    XorByteWithZero(1);
    assert (ID_LIMIT + id) / ID_LIMIT == 1 && (ID_LIMIT + id) % ID_LIMIT == id;
  }

  ghost predicate KeysDifferBelow(bound: nat) {
    forall v: Venue, a: u64, w: Venue, b: u64 ::
      a < bound && b < bound && OrderKey(v, a) == OrderKey(w, b) ==> v == w && a == b
  }

  /** The bound below which keys tell orders apart. */
  lemma KeysDifferExactlyBelow(bound: nat)
    ensures KeysDifferBelow(bound) <==> bound <= ID_LIMIT
  {
    if bound <= ID_LIMIT {
      forall v: Venue, a: u64, w: Venue, b: u64 | a < bound && b < bound && OrderKey(v, a) == OrderKey(w, b)
        ensures v == w && a == b
      {
        KeysAreInjective(v, a, w, b);
      }
    } else {
      LargeIdsCollide(0);
      var large: u64 := ID_LIMIT;
      assert OrderKey(Iex, 0) == OrderKey(Nasdaq, large);
    }
  }

  // ---- What a list of orders shows ----

  function ShareOf(o: Order, lv: LevelId): nat {
    if o.level == lv then o.qty else 0
  }

  /** The quantity resting at a level: the sum over its orders. */
  ghost function QtyAt(live: seq<Order>, lv: LevelId): nat {
    if live == [] then 0
    else QtyAt(live[..|live| - 1], lv) + ShareOf(live[|live| - 1], lv)
  }

  lemma QtyAtOfOneMore(live: seq<Order>, o: Order, lv: LevelId)
    ensures QtyAt(live + [o], lv) == QtyAt(live, lv) + ShareOf(o, lv)
  {
    assert (live + [o])[..|live|] == live;
  }

  lemma {:induction false} QtyAtOfConcat(a: seq<Order>, b: seq<Order>, lv: LevelId)
    ensures QtyAt(a + b, lv) == QtyAt(a, lv) + QtyAt(b, lv)
  {
    if b == [] {
      assert a + b == a;
    } else {
      QtyAtOfConcat(a, b[..|b| - 1], lv);
      assert a + b == (a + b[..|b| - 1]) + [b[|b| - 1]];
      QtyAtOfOneMore(a + b[..|b| - 1], b[|b| - 1], lv);
    }
  }

  function Without(live: seq<Order>, p: nat): seq<Order>
    requires p < |live|
  {
    live[..p] + live[p + 1..]
  }

  function Shrunk(live: seq<Order>, p: nat, dec: nat): seq<Order>
    requires p < |live| && dec <= live[p].qty
  {
    live[p := live[p].(qty := live[p].qty - dec)]
  }

  lemma QtyAtAround(live: seq<Order>, p: nat, o: Order, lv: LevelId)
    requires p < |live|
    ensures QtyAt(live[p := o], lv) == QtyAt(Without(live, p), lv) + ShareOf(o, lv)
  {
    var front, rest := live[..p], live[p + 1..];
    assert live[p := o] == (front + [o]) + rest;
    QtyAtOfConcat(front + [o], rest, lv);
    QtyAtOfOneMore(front, o, lv);
    QtyAtOfConcat(front, rest, lv);
  }

  lemma QtyAtWithout(live: seq<Order>, p: nat, lv: LevelId)
    requires p < |live|
    ensures QtyAt(live, lv) == QtyAt(Without(live, p), lv) + ShareOf(live[p], lv)
  {
    assert live[p := live[p]] == live;
    QtyAtAround(live, p, live[p], lv);
  }

  lemma QtyAtShrunk(live: seq<Order>, p: nat, dec: nat, lv: LevelId)
    requires p < |live| && dec <= live[p].qty
    ensures QtyAt(Shrunk(live, p, dec), lv) == QtyAt(live, lv) - if live[p].level == lv then dec else 0
  {
    QtyAtWithout(live, p, lv);
    QtyAtAround(live, p, live[p].(qty := live[p].qty - dec), lv);
  }

  lemma {:induction false} QtyAtCoversOrder(live: seq<Order>, p: nat)
    requires p < |live|
    ensures live[p].qty <= QtyAt(live, live[p].level)
  {
    QtyAtWithout(live, p, live[p].level);
  }

  lemma {:induction false} QtyNeedsAnOrder(live: seq<Order>, lv: LevelId) returns (p: nat)
    requires QtyAt(live, lv) > 0
    ensures p < |live| && live[p].level == lv
  {
    if live[|live| - 1].level == lv {
      p := |live| - 1;
    } else {
      p := QtyNeedsAnOrder(live[..|live| - 1], lv);
    }
  }

  lemma {:induction false} QtyAtIsBounded(live: seq<Order>, lv: LevelId)
    ensures QtyAt(live, lv) <= |live| * MAX32
  {
    if live != [] {
      QtyAtIsBounded(live[..|live| - 1], lv);
      assert |live| * MAX32 == (|live| - 1) * MAX32 + MAX32;
    }
  }

  predicate Better(side: Side, a: u32, b: u32) {
    if side == Buy then a > b else a < b
  }

  /** The best price on a ladder. */
  ghost function BestOf(live: seq<Order>, ladder: Ladder): Option<u32> {
    if live == [] then None
    else
      var o, rest := live[|live| - 1], BestOf(live[..|live| - 1], ladder);
      if o.level.ladder == ladder && (rest == None || Better(ladder.side, o.level.price, rest.value))
      then Some(o.level.price) else rest
  }

  ghost predicate Quoted(live: seq<Order>, ladder: Ladder, price: u32) {
    exists p :: 0 <= p < |live| && live[p].level == LevelId(ladder, price)
  }

  ghost predicate NoneBetter(live: seq<Order>, ladder: Ladder, price: u32) {
    forall p :: 0 <= p < |live| && live[p].level.ladder == ladder ==> !Better(ladder.side, live[p].level.price, price)
  }

  lemma {:induction false} BestOfIs(live: seq<Order>, ladder: Ladder)
    ensures BestOf(live, ladder) == None <==> forall p :: 0 <= p < |live| ==> live[p].level.ladder != ladder
    ensures BestOf(live, ladder).Some? ==>
      Quoted(live, ladder, BestOf(live, ladder).value) && NoneBetter(live, ladder, BestOf(live, ladder).value)
  {
    if live != [] {
      var front, o := live[..|live| - 1], live[|live| - 1];
      BestOfIs(front, ladder);
      var best := BestOf(live, ladder);
      if BestOf(front, ladder).Some? {
        var p :| 0 <= p < |front| && front[p].level == LevelId(ladder, BestOf(front, ladder).value);
        assert live[p] == front[p];
      }
      if best.Some? && best != BestOf(front, ladder) {
        assert live[|live| - 1].level == LevelId(ladder, best.value);
      }
      forall p | 0 <= p < |live| && best.Some? && live[p].level.ladder == ladder
        ensures !Better(ladder.side, live[p].level.price, best.value)
      {
        assert p < |front| ==> live[p] == front[p];
      }
      if best == None {
        forall p | 0 <= p < |live| ensures live[p].level.ladder != ladder {
          assert p < |front| ==> live[p] == front[p];
        }
      }
    }
  }

  lemma BestIsUnique(live: seq<Order>, ladder: Ladder, price: u32)
    requires Quoted(live, ladder, price) && NoneBetter(live, ladder, price)
    ensures BestOf(live, ladder) == Some(price)
  {
    BestOfIs(live, ladder);
    var p :| 0 <= p < |live| && live[p].level == LevelId(ladder, price);
    assert live[p].level.ladder == ladder;
    var q :| 0 <= q < |live| && live[q].level == LevelId(ladder, BestOf(live, ladder).value);
    assert live[q].level.ladder == ladder;
  }

  ghost function BestLevel(live: seq<Order>, ladder: Ladder): Option<PriceLevel> {
    var best := BestOf(live, ladder);
    if best == None then None else Some(PriceLevel(best.value, QtyAt(live, LevelId(ladder, best.value))))
  }

  /** Quantities are shown truncated to 32 bits. */
  function MakeTop(bid: Option<PriceLevel>, ask: Option<PriceLevel>): TopOfBook {
    TopOfBook(bid.Some?, ask.Some?, ShownPrice(bid), ShownQty(bid), ShownPrice(ask), ShownQty(ask))
  }

  function ShownPrice(level: Option<PriceLevel>): u32 {
    if level == None then 0 else level.value.price
  }

  function ShownQty(level: Option<PriceLevel>): u32 {
    if level == None then 0 else level.value.qty % 0x1_0000_0000
  }

  ghost function TopOf(live: seq<Order>, venue: Venue, symbol: u64): TopOfBook {
    MakeTop(BestLevel(live, Ladder(venue, symbol, Buy)), BestLevel(live, Ladder(venue, symbol, Sell)))
  }

  // ---- The same, on prices ----

  ghost predicate OnLadder(o: Order, venue: Venue, symbol: u64, side: Side) {
    o.level.ladder.venue == venue && o.level.ladder.symbol == symbol && o.level.ladder.side == side
  }

  /** A price of a live bid that no live bid exceeds. */
  ghost predicate HighestBid(live: seq<Order>, venue: Venue, symbol: u64, price: u32) {
    && (exists p :: 0 <= p < |live| && OnLadder(live[p], venue, symbol, Buy) && live[p].level.price == price)
    && forall p :: 0 <= p < |live| && OnLadder(live[p], venue, symbol, Buy) ==> live[p].level.price <= price
  }

  /** A price of a live ask that no live ask is below. */
  ghost predicate LowestAsk(live: seq<Order>, venue: Venue, symbol: u64, price: u32) {
    && (exists p :: 0 <= p < |live| && OnLadder(live[p], venue, symbol, Sell) && live[p].level.price == price)
    && forall p :: 0 <= p < |live| && OnLadder(live[p], venue, symbol, Sell) ==> live[p].level.price >= price
  }

  /** The top shows the highest live bid and the lowest live ask, with the sums resting there, or zeros. */
  ghost predicate ShowsTop(top: TopOfBook, live: seq<Order>, venue: Venue, symbol: u64) {
    && (top.hasBid <==> exists p :: 0 <= p < |live| && OnLadder(live[p], venue, symbol, Buy))
    && (top.hasAsk <==> exists p :: 0 <= p < |live| && OnLadder(live[p], venue, symbol, Sell))
    && (if top.hasBid then
          && HighestBid(live, venue, symbol, top.bidPrice)
          && top.bidQty == QtyAt(live, LevelId(Ladder(venue, symbol, Buy), top.bidPrice)) % 0x1_0000_0000
        else top.bidPrice == top.bidQty == 0)
    && (if top.hasAsk then
          && LowestAsk(live, venue, symbol, top.askPrice)
          && top.askQty == QtyAt(live, LevelId(Ladder(venue, symbol, Sell), top.askPrice)) % 0x1_0000_0000
        else top.askPrice == top.askQty == 0)
  }

  lemma BestBidIsHighest(live: seq<Order>, venue: Venue, symbol: u64)
    ensures var best := BestOf(live, Ladder(venue, symbol, Buy));
      && (best.Some? <==> exists p :: 0 <= p < |live| && OnLadder(live[p], venue, symbol, Buy))
      && (best.Some? ==> HighestBid(live, venue, symbol, best.value))
  {
    var ladder := Ladder(venue, symbol, Buy);
    BestOfIs(live, ladder);
    assert forall p :: 0 <= p < |live| ==> (OnLadder(live[p], venue, symbol, Buy) <==> live[p].level.ladder == ladder);
    if BestOf(live, ladder).Some? {
      var p :| 0 <= p < |live| && live[p].level == LevelId(ladder, BestOf(live, ladder).value);
      assert OnLadder(live[p], venue, symbol, Buy);
    }
  }

  lemma BestAskIsLowest(live: seq<Order>, venue: Venue, symbol: u64)
    ensures var best := BestOf(live, Ladder(venue, symbol, Sell));
      && (best.Some? <==> exists p :: 0 <= p < |live| && OnLadder(live[p], venue, symbol, Sell))
      && (best.Some? ==> LowestAsk(live, venue, symbol, best.value))
  {
    var ladder := Ladder(venue, symbol, Sell);
    BestOfIs(live, ladder);
    assert forall p :: 0 <= p < |live| ==> (OnLadder(live[p], venue, symbol, Sell) <==> live[p].level.ladder == ladder);
    if BestOf(live, ladder).Some? {
      var p :| 0 <= p < |live| && live[p].level == LevelId(ladder, BestOf(live, ladder).value);
      assert OnLadder(live[p], venue, symbol, Sell);
    }
  }

  /** For every list of live orders. */
  lemma TopShowsBestPrices(live: seq<Order>, venue: Venue, symbol: u64)
    ensures ShowsTop(TopOf(live, venue, symbol), live, venue, symbol)
  {
    BestBidIsHighest(live, venue, symbol);
    BestAskIsLowest(live, venue, symbol);
  }

  // ---- Depth ----

  /** Bid prices strictly fall and ask prices strictly rise. */
  ghost predicate BestFirst(snap: BookSnapshot) {
    && (forall i, j :: 0 <= i < j < |snap.bids| ==> snap.bids[i].price > snap.bids[j].price)
    && (forall i, j :: 0 <= i < j < |snap.asks| ==> snap.asks[i].price < snap.asks[j].price)
  }

  ghost predicate Sorted(levels: seq<PriceLevel>, side: Side) {
    forall i, j :: 0 <= i < j < |levels| ==> Better(side, levels[i].price, levels[j].price)
  }

  /** The quantity a list of levels gives for a price. */
  function QtyIn(levels: seq<PriceLevel>, price: u32): nat {
    if levels == [] then 0
    else if levels[0].price == price then levels[0].qty
    else QtyIn(levels[1..], price)
  }

  ghost predicate Listed(levels: seq<PriceLevel>, price: u32) {
    exists i :: 0 <= i < |levels| && levels[i].price == price
  }

  lemma {:induction false} QtyInOfConcat(a: seq<PriceLevel>, b: seq<PriceLevel>, price: u32)
    ensures QtyIn(a + b, price) == if Listed(a, price) then QtyIn(a, price) else QtyIn(b, price)
  {
    if a == [] {
      assert a + b == b;
    } else {
      QtyInOfConcat(a[1..], b, price);
      assert (a + b)[1..] == a[1..] + b;
      if Listed(a[1..], price) {
        var i :| 0 <= i < |a[1..]| && a[1..][i].price == price;
        assert a[i + 1].price == price;
      }
      if Listed(a, price) && a[0].price != price {
        var i :| 0 <= i < |a| && a[i].price == price;
        assert a[1..][i - 1].price == price;
      }
    }
  }

  lemma {:induction false} QtyInUnlisted(levels: seq<PriceLevel>, price: u32)
    requires !Listed(levels, price)
    ensures QtyIn(levels, price) == 0
  {
    if levels != [] {
      assert levels[0].price != price;
      forall i | 0 <= i < |levels[1..]| ensures levels[1..][i].price != price {
        assert levels[1..][i] == levels[i + 1];
      }
      QtyInUnlisted(levels[1..], price);
    }
  }

  lemma QtyInAt(levels: seq<PriceLevel>, side: Side, i: nat)
    requires Sorted(levels, side) && i < |levels|
    ensures QtyIn(levels, levels[i].price) == levels[i].qty
  {
    var a, b := levels[..i], levels[i..];
    assert levels == a + b;
    assert !Listed(a, levels[i].price);
    QtyInOfConcat(a, b, levels[i].price);
  }

  /** The full depth of one side: every level once, best first, with the sum of its orders. */
  ghost predicate IsDepth(levels: seq<PriceLevel>, live: seq<Order>, ladder: Ladder) {
    && Sorted(levels, ladder.side)
    && (forall i :: 0 <= i < |levels| ==> levels[i].qty > 0)
    && (forall price: u32 :: QtyIn(levels, price) == QtyAt(live, LevelId(ladder, price)))
  }

  lemma PositiveMeansListed(levels: seq<PriceLevel>, side: Side, price: u32)
    requires Sorted(levels, side) && forall i :: 0 <= i < |levels| ==> levels[i].qty > 0
    ensures Listed(levels, price) <==> QtyIn(levels, price) > 0
  {
    if Listed(levels, price) {
      var i :| 0 <= i < |levels| && levels[i].price == price;
      QtyInAt(levels, side, i);
    } else {
      QtyInUnlisted(levels, price);
    }
  }

  lemma FrontIsBest(levels: seq<PriceLevel>, live: seq<Order>, ladder: Ladder)
    requires IsDepth(levels, live, ladder) && AllPositive(live)
    ensures BestLevel(live, ladder) == if levels == [] then None else Some(levels[0])
  {
    BestOfIs(live, ladder);
    forall p | 0 <= p < |live| && live[p].level.ladder == ladder
      ensures Listed(levels, live[p].level.price)
    {
      QtyAtCoversOrder(live, p);
      assert live[p].level == LevelId(ladder, live[p].level.price);
      PositiveMeansListed(levels, ladder.side, live[p].level.price);
    }
    if levels != [] {
      QtyInAt(levels, ladder.side, 0);
      var p := QtyNeedsAnOrder(live, LevelId(ladder, levels[0].price));
      assert Quoted(live, ladder, levels[0].price);
      assert NoneBetter(live, ladder, levels[0].price);
      BestIsUnique(live, ladder, levels[0].price);
    }
  }

  lemma FirstLevelAgrees(s: seq<PriceLevel>, t: seq<PriceLevel>, side: Side)
    requires Sorted(s, side) && Sorted(t, side) && s != [] && t != []
    requires forall i :: 0 <= i < |s| ==> s[i].qty > 0
    requires forall i :: 0 <= i < |t| ==> t[i].qty > 0
    requires forall price: u32 :: QtyIn(s, price) == QtyIn(t, price)
    ensures s[0] == t[0]
  {
    PositiveMeansListed(t, side, s[0].price);
    PositiveMeansListed(s, side, s[0].price);
    PositiveMeansListed(t, side, t[0].price);
    PositiveMeansListed(s, side, t[0].price);
    assert s[0].price == s[0].price && t[0].price == t[0].price;
    assert Listed(s, s[0].price) && Listed(t, t[0].price);
    var i :| 0 <= i < |s| && s[i].price == t[0].price;
    var j :| 0 <= j < |t| && t[j].price == s[0].price;
    QtyInAt(s, side, 0);
    QtyInAt(t, side, 0);
  }

  /** Two lists of levels that give the same quantities are the same list. */
  lemma {:induction false} LevelsAreDetermined(s: seq<PriceLevel>, t: seq<PriceLevel>, side: Side)
    requires Sorted(s, side) && Sorted(t, side)
    requires forall i :: 0 <= i < |s| ==> s[i].qty > 0
    requires forall i :: 0 <= i < |t| ==> t[i].qty > 0
    requires forall price: u32 :: QtyIn(s, price) == QtyIn(t, price)
    ensures s == t
    decreases |s| + |t|
  {
    var first := if s != [] then s[0].price else if t != [] then t[0].price else 0;
    assert QtyIn(s, first) == QtyIn(t, first);
    if s != [] && t != [] {
      FirstLevelAgrees(s, t, side);
      forall price: u32 ensures QtyIn(s[1..], price) == QtyIn(t[1..], price) {
        assert QtyIn(s, price) == QtyIn(t, price);
        if price == s[0].price {
          QtyInUnlisted(s[1..], price);
          QtyInUnlisted(t[1..], price);
        }
      }
      LevelsAreDetermined(s[1..], t[1..], side);
      assert s == [s[0]] + s[1..] && t == [t[0]] + t[1..];
    }
  }

  /** The depth of a side is determined by the live orders. */
  lemma DepthIsDetermined(s: seq<PriceLevel>, t: seq<PriceLevel>, live: seq<Order>, ladder: Ladder)
    requires IsDepth(s, live, ladder) && IsDepth(t, live, ladder)
    ensures s == t
  {
    LevelsAreDetermined(s, t, ladder.side);
  }

  ghost predicate IsSnapshot(snap: BookSnapshot, live: seq<Order>, venue: Venue, symbol: u64) {
    && IsDepth(snap.bids, live, Ladder(venue, symbol, Buy))
    && IsDepth(snap.asks, live, Ladder(venue, symbol, Sell))
  }

  lemma SortedIsBestFirst(snap: BookSnapshot)
    requires Sorted(snap.bids, Buy) && Sorted(snap.asks, Sell)
    ensures BestFirst(snap)
  {
  }

  /** Each level of a snapshot is one price with the sum of its live orders, and every live order is in one. */
  lemma SnapshotShowsOrders(snap: BookSnapshot, live: seq<Order>, venue: Venue, symbol: u64)
    requires IsSnapshot(snap, live, venue, symbol) && AllPositive(live)
    ensures BestFirst(snap)
    ensures forall i :: 0 <= i < |snap.bids| ==>
      snap.bids[i].qty == QtyAt(live, LevelId(Ladder(venue, symbol, Buy), snap.bids[i].price)) > 0
    ensures forall i :: 0 <= i < |snap.asks| ==>
      snap.asks[i].qty == QtyAt(live, LevelId(Ladder(venue, symbol, Sell), snap.asks[i].price)) > 0
    ensures forall p :: 0 <= p < |live| && OnLadder(live[p], venue, symbol, Buy) ==>
      exists i :: 0 <= i < |snap.bids| && snap.bids[i].price == live[p].level.price
    ensures forall p :: 0 <= p < |live| && OnLadder(live[p], venue, symbol, Sell) ==>
      exists i :: 0 <= i < |snap.asks| && snap.asks[i].price == live[p].level.price
  {
    DepthShowsOrders(snap.bids, live, Ladder(venue, symbol, Buy));
    DepthShowsOrders(snap.asks, live, Ladder(venue, symbol, Sell));
    forall p | 0 <= p < |live| && OnLadder(live[p], venue, symbol, Buy)
      ensures exists i :: 0 <= i < |snap.bids| && snap.bids[i].price == live[p].level.price
    {
      assert Listed(snap.bids, live[p].level.price);
    }
    forall p | 0 <= p < |live| && OnLadder(live[p], venue, symbol, Sell)
      ensures exists i :: 0 <= i < |snap.asks| && snap.asks[i].price == live[p].level.price
    {
      assert Listed(snap.asks, live[p].level.price);
    }
  }

  lemma DepthShowsOrders(levels: seq<PriceLevel>, live: seq<Order>, ladder: Ladder)
    requires IsDepth(levels, live, ladder) && AllPositive(live)
    ensures forall i :: 0 <= i < |levels| ==> levels[i].qty == QtyAt(live, LevelId(ladder, levels[i].price)) > 0
    ensures forall p :: 0 <= p < |live| && live[p].level.ladder == ladder ==> Listed(levels, live[p].level.price)
  {
    forall i | 0 <= i < |levels| ensures levels[i].qty == QtyAt(live, LevelId(ladder, levels[i].price)) {
      QtyInAt(levels, ladder.side, i);
    }
    forall p | 0 <= p < |live| && live[p].level.ladder == ladder ensures Listed(levels, live[p].level.price) {
      QtyAtCoversOrder(live, p);
      assert live[p].level == LevelId(ladder, live[p].level.price);
      PositiveMeansListed(levels, ladder.side, live[p].level.price);
    }
  }

  // ---- Events ----

  function LevelOf(ev: BookEvent): LevelId {
    LevelId(Ladder(ev.venue, ev.symbol, ev.side), ev.price)
  }

  function OrderFrom(ev: BookEvent): Order {
    Order(OrderKey(ev.venue, ev.orderId), LevelOf(ev), ev.qty)
  }

  predicate IsAdd(kind: EventType) {
    kind == Add || kind == AddMpid
  }

  predicate IsReduction(kind: EventType) {
    kind == Execute || kind == ExecutePrice || kind == Cancel || kind == Delete
  }

  /** The position of the first order with a key, or the length of the list. */
  ghost function Find(live: seq<Order>, key: u64): (p: nat)
    ensures p <= |live|
    ensures p < |live| ==> live[p].key == key
    ensures forall i :: 0 <= i < p ==> live[i].key != key
  {
    if live == [] || live[0].key == key then 0 else Find(live[1..], key) + 1
  }

  ghost predicate HasKey(live: seq<Order>, key: u64) {
    exists p :: 0 <= p < |live| && live[p].key == key
  }

  /** An order loses a quantity; naming none, or all there is, removes it. */
  function ReducedAt(live: seq<Order>, p: nat, qty: nat, all: bool): seq<Order>
    requires p < |live|
  {
    if all || qty == 0 || qty >= live[p].qty then Without(live, p) else Shrunk(live, p, qty)
  }

  ghost function Reduction(live: seq<Order>, key: u64, qty: nat, all: bool): seq<Order> {
    var p := Find(live, key);
    if p == |live| then live else ReducedAt(live, p, qty, all)
  }

  ghost function Dropping(live: seq<Order>, key: u64): seq<Order> {
    Reduction(live, key, 0, true)
  }

  /** What an event does to the live orders. */
  ghost function Step(live: seq<Order>, ev: BookEvent): seq<Order> {
    if IsAdd(ev.kind) then
      live + [OrderFrom(ev)]
    else if IsReduction(ev.kind) then
      Reduction(live, OrderKey(ev.venue, ev.orderId), ev.qty, ev.kind == Delete)
    else if ev.kind == Replace then
      Dropping(live, OrderKey(ev.venue, ev.referenceOrderId)) + [OrderFrom(ev)]
    else live
  }

  ghost function Steps(live: seq<Order>, tape: seq<BookEvent>): seq<Order> {
    if tape == [] then live
    else Step(Steps(live, tape[..|tape| - 1]), tape[|tape| - 1])
  }

  ghost function QueueAhead(live: seq<Order>, ev: BookEvent): nat {
    if IsAdd(ev.kind) then QtyAt(live, LevelOf(ev)) else 0
  }

  /** What a caller is told about an event. */
  ghost function ResultOf(live: seq<Order>, ev: BookEvent): ApplyResult {
    var after := TopOf(Step(live, ev), ev.venue, ev.symbol);
    ApplyResult(TopOf(live, ev.venue, ev.symbol) != after, false, QueueAhead(live, ev), after)
  }

  // ---- Well-formed tapes ----

  ghost predicate GoodArrival(live: seq<Order>, ev: BookEvent) {
    && 0 < ev.orderId < ID_LIMIT && ev.qty > 0 && ev.side != Unknown
    && !HasKey(live, OrderKey(ev.venue, ev.orderId))
  }

  ghost predicate SameSymbol(live: seq<Order>, key: u64, symbol: u64) {
    forall p :: 0 <= p < |live| && live[p].key == key ==> live[p].level.ladder.symbol == symbol
  }

  /**
    The events on which both books must follow the list of orders: small ids, new ids on arrivals,
    known sides, positive quantities, the symbol of the order referred to, and deletions that name
    no partial quantity.
   */
  ghost predicate WellFormed(live: seq<Order>, ev: BookEvent) {
    var key := OrderKey(ev.venue, ev.orderId);
    var ref := OrderKey(ev.venue, ev.referenceOrderId);
    && (IsAdd(ev.kind) ==> GoodArrival(live, ev))
    && (IsReduction(ev.kind) ==>
          && ev.orderId < ID_LIMIT && SameSymbol(live, key, ev.symbol)
          && (ev.kind == Delete ==>
                ev.qty == 0 || forall p :: 0 <= p < |live| && live[p].key == key ==> ev.qty >= live[p].qty))
    && (ev.kind == Replace ==>
          && ev.referenceOrderId < ID_LIMIT && SameSymbol(live, ref, ev.symbol)
          && GoodArrival(Dropping(live, ref), ev))
  }

  ghost predicate AllPositive(live: seq<Order>) {
    forall p :: 0 <= p < |live| ==> live[p].qty > 0
  }

  ghost predicate DistinctKeys(live: seq<Order>) {
    forall p, q :: 0 <= p < q < |live| ==> live[p].key != live[q].key
  }

  ghost predicate GoodOrder(o: Order) {
    && o.qty > 0 && o.level.ladder.side != Unknown
    && o.key / ID_LIMIT == VenueIndex(o.level.ladder.venue)
  }

  /** What well-formed tapes keep: every key names one order, on the venue the key says. */
  ghost predicate GoodBook(live: seq<Order>) {
    DistinctKeys(live) && forall p :: 0 <= p < |live| ==> GoodOrder(live[p])
  }

  lemma ArrivalKeepsGoodBook(live: seq<Order>, ev: BookEvent)
    requires GoodBook(live) && GoodArrival(live, ev)
    ensures GoodBook(live + [OrderFrom(ev)])
  {
    KeyOfSmallId(ev.venue, ev.orderId);
    var after := live + [OrderFrom(ev)];
    forall p, q | 0 <= p < q < |after| ensures after[p].key != after[q].key {
      assert live[p].key != OrderKey(ev.venue, ev.orderId);
    }
  }

  lemma WithoutKeepsGoodBook(live: seq<Order>, p: nat)
    requires GoodBook(live) && p < |live|
    ensures GoodBook(Without(live, p))
  {
  }

  lemma ShrinkKeepsGoodBook(live: seq<Order>, p: nat, dec: nat)
    requires GoodBook(live) && p < |live| && dec < live[p].qty
    ensures GoodBook(Shrunk(live, p, dec))
  {
    var after := Shrunk(live, p, dec);
    assert GoodOrder(live[p]);
    forall q | 0 <= q < |after| ensures GoodOrder(after[q]) && after[q].key == live[q].key {
      assert GoodOrder(live[q]);
    }
  }

  lemma StepKeepsGoodBook(live: seq<Order>, ev: BookEvent)
    requires GoodBook(live) && WellFormed(live, ev)
    ensures GoodBook(Step(live, ev))
  {
    if IsAdd(ev.kind) {
      ArrivalKeepsGoodBook(live, ev);
    } else if IsReduction(ev.kind) {
      var p := Find(live, OrderKey(ev.venue, ev.orderId));
      if p < |live| {
        WithoutKeepsGoodBook(live, p);
        if 0 < ev.qty < live[p].qty {
          ShrinkKeepsGoodBook(live, p, ev.qty);
        }
      }
    } else if ev.kind == Replace {
      var p := Find(live, OrderKey(ev.venue, ev.referenceOrderId));
      if p < |live| {
        WithoutKeepsGoodBook(live, p);
      }
      ArrivalKeepsGoodBook(Dropping(live, OrderKey(ev.venue, ev.referenceOrderId)), ev);
    }
  }

  // ---- The events, order by order ----

  /** The order that an event describes. */
  ghost predicate IsArrival(o: Order, ev: BookEvent) {
    && o.key == OrderKey(ev.venue, ev.orderId) && o.qty == ev.qty && o.level.price == ev.price
    && OnLadder(o, ev.venue, ev.symbol, ev.side)
  }

  /** All orders but those of a key stand as they were. */
  ghost predicate OthersStand(live: seq<Order>, after: seq<Order>, key: u64) {
    forall o: Order :: o.key != key ==> (o in live <==> o in after)
  }

  lemma WithoutOrders(live: seq<Order>, p: nat)
    requires p < |live| && DistinctKeys(live)
    ensures forall o :: o in Without(live, p) <==> o in live && o != live[p]
    ensures !HasKey(Without(live, p), live[p].key)
  {
    var after := Without(live, p);
    forall o | o in live && o != live[p] ensures o in after {
      var q :| 0 <= q < |live| && live[q] == o;
      assert after[if q < p then q else q - 1] == o;
    }
    forall q | 0 <= q < |after| ensures after[q].key != live[p].key && after[q] in live {
      assert after[q] == live[if q < p then q else q + 1];
    }
  }

  /** An execution, cancel or deletion takes its quantity, or all there is, from the order referred to. */
  lemma ReductionOnOrders(live: seq<Order>, ev: BookEvent, o: Order)
    requires DistinctKeys(live) && ev.kind in {Execute, ExecutePrice, Cancel, Delete}
    requires o in live && o.key == OrderKey(ev.venue, ev.orderId)
    ensures OthersStand(live, Step(live, ev), o.key)
    ensures forall q: Order :: q in Step(live, ev) && q.key == o.key <==>
      ev.kind != Delete && 0 < ev.qty < o.qty && q == o.(qty := o.qty - ev.qty)
  {
    var p :| 0 <= p < |live| && live[p] == o;
    var f := Find(live, o.key);
    assert f == p;
    var after := Step(live, ev);
    if ev.kind == Delete || ev.qty == 0 || ev.qty >= o.qty {
      WithoutOrders(live, p);
    } else {
      assert after[p] == o.(qty := o.qty - ev.qty);
      forall q: Order | q.key != o.key ensures q in live <==> q in after {
        if q in live {
          var k :| 0 <= k < |live| && live[k] == q;
          assert after[k] == q;
        }
        if q in after {
          var k :| 0 <= k < |after| && after[k] == q;
          assert live[k] == q;
        }
      }
    }
  }

  /** Without an order to refer to it does nothing; nor do events of the other kinds. */
  lemma NothingToReduce(live: seq<Order>, ev: BookEvent)
    requires ev.kind in {Execute, ExecutePrice, Cancel, Delete} ==> !HasKey(live, OrderKey(ev.venue, ev.orderId))
    requires ev.kind !in {Add, AddMpid, Replace}
    ensures Step(live, ev) == live
  {
  }

  /** An arrival joins at the end; a replacement does so when the order referred to has left. */
  lemma ArrivalOnOrders(live: seq<Order>, ev: BookEvent)
    requires ev.kind in {Add, AddMpid, Replace} && DistinctKeys(live)
    ensures Step(live, ev) != [] && IsArrival(Step(live, ev)[|Step(live, ev)| - 1], ev)
    ensures var rest := Step(live, ev)[..|Step(live, ev)| - 1];
      var ref := OrderKey(ev.venue, ev.referenceOrderId);
      if ev.kind == Replace then OthersStand(live, rest, ref) && !HasKey(rest, ref) else rest == live
  {
    if ev.kind == Replace {
      var ref := OrderKey(ev.venue, ev.referenceOrderId);
      var p := Find(live, ref);
      if p < |live| {
        WithoutOrders(live, p);
      }
      assert Step(live, ev)[..|Step(live, ev)| - 1] == Dropping(live, ref);
    } else {
      assert Step(live, ev)[..|Step(live, ev)| - 1] == live;
    }
  }
}
