/**
  The simulated matching engine: strategy orders rest in price-time order and are filled by tape
  prints, each within a budget.
 */
module Matching {
  import opened Types

  datatype OrderSide = Bid | Ask

  datatype Order = Order(id: u64, side: OrderSide, price: int, qty: u64, ts: u64)

  datatype Fill = Fill(orderId: u64, side: OrderSide, price: int, qty: u64, ts: u64, partial: bool)

  datatype SymbolBook = SymbolBook(bids: seq<Order>, asks: seq<Order>)

  const EMPTY_BOOK: SymbolBook := SymbolBook([], [])

  // ---- Price-time order ----

  predicate Better(side: OrderSide, a: Order, b: Order) {
    if a.price != b.price then (if side == Bid then a.price > b.price else a.price < b.price)
    else a.ts < b.ts
  }

  ghost predicate Ordered(v: seq<Order>, side: OrderSide) {
    forall i, j :: 0 <= i < j < |v| ==> !Better(side, v[j], v[i])
  }

  ghost predicate Positive(v: seq<Order>) {
    forall i :: 0 <= i < |v| ==> v[i].qty > 0
  }

  /** Resting orders that a print at a price can fill. */
  predicate Eligible(side: OrderSide, o: Order, limit: int) {
    if side == Bid then o.price >= limit else o.price <= limit
  }

  method InsertOrdered(v: seq<Order>, side: OrderSide, o: Order) returns (r: seq<Order>)
    requires Ordered(v, side)
    ensures Ordered(r, side) && multiset(r) == multiset(v) + multiset{o}
  {
    var i: nat := |v|;
    while i > 0 && Better(side, o, v[i - 1])
      invariant i <= |v| && forall k :: i <= k < |v| ==> Better(side, o, v[k])
    {
      i := i - 1;
    }
    r := v[..i] + [o] + v[i..];
    InsertedIsPermutation(v, o, i);
    forall a, b | 0 <= a < b < |r| ensures !Better(side, r[b], r[a]) {
      InsertedIsOrdered(v, side, o, i, a, b);
    }
  }

  lemma InsertedIsPermutation(v: seq<Order>, o: Order, i: nat)
    requires i <= |v|
    ensures multiset(v[..i] + [o] + v[i..]) == multiset(v) + multiset{o}
  {
    assert v == v[..i] + v[i..];
  }

  lemma InsertedIsOrdered(v: seq<Order>, side: OrderSide, o: Order, i: nat, a: nat, b: nat)
    requires Ordered(v, side) && i <= |v| && a < b <= |v|
    requires i > 0 ==> !Better(side, o, v[i - 1])
    requires forall k :: i <= k < |v| ==> Better(side, o, v[k])
    ensures var r := v[..i] + [o] + v[i..]; !Better(side, r[b], r[a])
  {
    if b == i && a + 1 < i {
      assert !Better(side, v[i - 1], v[a]);
    }
  }

  /** std::sort: all that is known of the result is that it is ordered and a permutation. */
  method SortOrders(v: seq<Order>, side: OrderSide) returns (r: seq<Order>)
    ensures Ordered(r, side) && multiset(r) == multiset(v)
  {
    r := [];
    for i := 0 to |v|
      invariant Ordered(r, side) && multiset(r) == multiset(v[..i])
    {
      r := InsertOrdered(r, side, v[i]);
      assert v[..i + 1] == v[..i] + [v[i]];
    }
    assert v[..|v|] == v;
  }

  /** Bids: a higher price stands in front, and at one price an earlier time. */
  ghost predicate BidsRanked(v: seq<Order>) {
    forall i, j :: 0 <= i < j < |v| ==> v[i].price > v[j].price || (v[i].price == v[j].price && v[i].ts <= v[j].ts)
  }

  /** Asks: a lower price stands in front, and at one price an earlier time. */
  ghost predicate AsksRanked(v: seq<Order>) {
    forall i, j :: 0 <= i < j < |v| ==> v[i].price < v[j].price || (v[i].price == v[j].price && v[i].ts <= v[j].ts)
  }

  ghost predicate BookRanked(book: SymbolBook) {
    BidsRanked(book.bids) && AsksRanked(book.asks)
  }

  lemma OrderedIsRanked(v: seq<Order>)
    ensures Ordered(v, Bid) <==> BidsRanked(v)
    ensures Ordered(v, Ask) <==> AsksRanked(v)
  {
    RankedIsOrdered(v);
    if Ordered(v, Bid) {
      forall i, j | 0 <= i < j < |v|
        ensures v[i].price > v[j].price || (v[i].price == v[j].price && v[i].ts <= v[j].ts)
      {
        assert !Better(Bid, v[j], v[i]);
      }
    }
    if Ordered(v, Ask) {
      forall i, j | 0 <= i < j < |v|
        ensures v[i].price < v[j].price || (v[i].price == v[j].price && v[i].ts <= v[j].ts)
      {
        assert !Better(Ask, v[j], v[i]);
      }
    }
  }

  lemma RankedIsOrdered(v: seq<Order>)
    ensures BidsRanked(v) ==> Ordered(v, Bid)
    ensures AsksRanked(v) ==> Ordered(v, Ask)
  {
  }

  // ---- Quantities ----

  function QtyOf(v: seq<Order>): nat {
    if v == [] then 0 else v[0].qty + QtyOf(v[1..])
  }

  function EligibleQty(v: seq<Order>, side: OrderSide, limit: int): nat {
    if v == [] then 0
    else (if Eligible(side, v[0], limit) then v[0].qty else 0) + EligibleQty(v[1..], side, limit)
  }

  function QtyById(v: seq<Order>, id: u64): nat {
    if v == [] then 0 else (if v[0].id == id then v[0].qty else 0) + QtyById(v[1..], id)
  }

  function FilledById(fills: seq<Fill>, id: u64): nat {
    if fills == [] then 0 else (if fills[0].orderId == id then fills[0].qty else 0) + FilledById(fills[1..], id)
  }

  function Filled(fills: seq<Fill>): nat {
    if fills == [] then 0 else fills[0].qty + Filled(fills[1..])
  }

  function Min(a: nat, b: nat): nat {
    if a < b then a else b
  }

  // ---- What one print does to one side ----

  function FillOf(o: Order, side: OrderSide, limit: int, take: u64, ts: u64): Fill {
    Fill(o.id, side, limit, take, ts, take < o.qty)
  }

  function FillsOf(v: seq<Order>, side: OrderSide, limit: int, budget: nat, ts: u64): seq<Fill> {
    if v == [] || budget == 0 || !Eligible(side, v[0], limit) then []
    else
      var take := Min(v[0].qty, budget);
      [FillOf(v[0], side, limit, take, ts)] + FillsOf(v[1..], side, limit, budget - take, ts)
  }

  function AfterFill(v: seq<Order>, side: OrderSide, limit: int, budget: nat): seq<Order> {
    if v == [] || budget == 0 || !Eligible(side, v[0], limit) then v
    else
      var take := Min(v[0].qty, budget);
      (if take == v[0].qty then [] else [v[0].(qty := v[0].qty - take)])
      + AfterFill(v[1..], side, limit, budget - take)
  }

  /** Orders filled up leave the symbol table. */
  function Exhausted(v: seq<Order>, side: OrderSide, limit: int, budget: nat): set<u64> {
    if v == [] || budget == 0 || !Eligible(side, v[0], limit) then {}
    else
      var take := Min(v[0].qty, budget);
      (if take == v[0].qty then {v[0].id} else {}) + Exhausted(v[1..], side, limit, budget - take)
  }

  lemma NoneEligible(v: seq<Order>, side: OrderSide, limit: int)
    requires Ordered(v, side) && v != [] && !Eligible(side, v[0], limit)
    ensures forall j :: 0 <= j < |v| ==> !Eligible(side, v[j], limit)
  {
    forall j | 0 <= j < |v| ensures !Eligible(side, v[j], limit) {
      assert j > 0 ==> !Better(side, v[j], v[0]);
    }
  }

  lemma {:induction false} NoneEligibleNoQty(v: seq<Order>, side: OrderSide, limit: int)
    requires forall j :: 0 <= j < |v| ==> !Eligible(side, v[j], limit)
    ensures EligibleQty(v, side, limit) == 0
  {
    if v != [] {
      assert forall j :: 0 <= j < |v[1..]| ==> v[1..][j] == v[j + 1];
      NoneEligibleNoQty(v[1..], side, limit);
    }
  }

  /** A print fills exactly the budget or everything eligible, whichever is less. */
  lemma {:induction false} FillsTheBudget(v: seq<Order>, side: OrderSide, limit: int, budget: nat, ts: u64)
    requires Ordered(v, side)
    ensures Filled(FillsOf(v, side, limit, budget, ts)) == Min(budget, EligibleQty(v, side, limit))
    decreases |v|
  {
    if v != [] && budget > 0 {
      if Eligible(side, v[0], limit) {
        FillsTheBudget(v[1..], side, limit, budget - Min(v[0].qty, budget), ts);
      } else {
        NoneEligible(v, side, limit);
        NoneEligibleNoQty(v, side, limit);
      }
    }
  }

  /**
    Price-time priority: the fills go to the front orders one by one, each but the last takes its
    order in full, and an order's share is what the better orders left of the budget.
   */
  lemma {:induction false} FillsInPriority(v: seq<Order>, side: OrderSide, limit: int, budget: nat, ts: u64, k: nat)
    requires Positive(v) && k < |FillsOf(v, side, limit, budget, ts)|
    ensures k < |v| && QtyOf(v[..k]) < budget && Eligible(side, v[k], limit)
    ensures FillsOf(v, side, limit, budget, ts)[k] ==
      FillOf(v[k], side, limit, Min(v[k].qty, budget - QtyOf(v[..k])), ts)
    ensures FillsOf(v, side, limit, budget, ts)[k].qty > 0
    ensures k + 1 < |FillsOf(v, side, limit, budget, ts)| ==> FillsOf(v, side, limit, budget, ts)[k].qty == v[k].qty
    decreases k
  {
    var take := Min(v[0].qty, budget);
    if k > 0 {
      assert Positive(v[1..]);
      FillsInPriority(v[1..], side, limit, budget - take, ts, k - 1);
      assert v[..k][1..] == v[1..][..k - 1];
    } else {
      assert v[..0] == [];
    }
  }

  /** What is left of the last order filled. */
  function LeftOver(v: seq<Order>, fills: seq<Fill>): seq<Order>
    requires |fills| <= |v|
  {
    var n := |fills|;
    if n > 0 && fills[n - 1].qty < v[n - 1].qty then [v[n - 1].(qty := v[n - 1].qty - fills[n - 1].qty)] else []
  }

  /** Nothing beyond the fills is touched: the rest of the queue stands as it was. */
  lemma {:induction false} OnlyFilledAreTouched(v: seq<Order>, side: OrderSide, limit: int, budget: nat, ts: u64)
    ensures var fills := FillsOf(v, side, limit, budget, ts);
            |fills| <= |v| && AfterFill(v, side, limit, budget) == LeftOver(v, fills) + v[|fills|..]
    decreases |v|
  {
    if v != [] && budget > 0 && Eligible(side, v[0], limit) {
      var take := Min(v[0].qty, budget);
      OnlyFilledAreTouched(v[1..], side, limit, budget - take, ts);
      TouchedFromFront(v, FillOf(v[0], side, limit, take, ts), FillsOf(v[1..], side, limit, budget - take, ts));
    }
  }

  lemma TouchedFromFront(v: seq<Order>, fill: Fill, rest: seq<Fill>)
    requires |rest| < |v| && fill.qty <= v[0].qty && (fill.qty < v[0].qty ==> rest == [])
    ensures LeftOver(v, [fill] + rest) + v[1 + |rest|..] ==
      (if fill.qty == v[0].qty then [] else [v[0].(qty := v[0].qty - fill.qty)]) + (LeftOver(v[1..], rest) + v[1..][|rest|..])
  {
    assert v[1..][|rest|..] == v[1 + |rest|..];
    if rest != [] {
      assert ([fill] + rest)[|rest|] == rest[|rest| - 1] && v[1..][|rest| - 1] == v[|rest|];
    }
  }

  // ---- A print, on the fields of orders and fills ----

  /** The order may trade at the price. */
  ghost predicate WithinLimit(o: Order, side: OrderSide, limit: int) {
    (side == Bid ==> o.price >= limit) && (side == Ask ==> o.price <= limit)
  }

  /** A better price, or the same price at an earlier time. */
  ghost predicate AheadOf(a: Order, b: Order, side: OrderSide) {
    || (side == Bid && a.price > b.price)
    || (side == Ask && a.price < b.price)
    || (a.price == b.price && a.ts < b.ts)
  }

  ghost predicate FillFits(f: Fill, o: Order, side: OrderSide, limit: int, ts: u64) {
    && f.orderId == o.id && f.side == side && f.price == limit && f.ts == ts
    && 0 < f.qty <= o.qty && f.partial == (f.qty < o.qty)
    && WithinLimit(o, side, limit)
  }

  ghost predicate InFull(v: seq<Order>, fills: seq<Fill>, i: nat)
    requires i < |v|
  {
    i < |fills| && fills[i].orderId == v[i].id && fills[i].qty == v[i].qty
  }

  predicate SomeFullFill(fills: seq<Fill>, id: u64) {
    exists k :: 0 <= k < |fills| && fills[k].orderId == id && !fills[k].partial
  }

  /**
    What a print does to one side: the front orders are filled, at the print's price and within their
    own; whoever is ahead of a filled order is filled in full; if budget is left over, so is everyone
    within the limit. What is left of the last order filled stays in front of the orders not touched.
   */
  ghost predicate Served(v: seq<Order>, side: OrderSide, limit: int, budget: nat, ts: u64,
                         fills: seq<Fill>, after: seq<Order>, gone: set<u64>) {
    && |fills| <= |v| && (forall k :: 0 <= k < |fills| ==> FillFits(fills[k], v[k], side, limit, ts))
    && (forall k, i :: 0 <= k < |fills| && 0 <= i < |v| && AheadOf(v[i], v[k], side) ==> InFull(v, fills, i))
    && (Filled(fills) < budget ==> forall i :: 0 <= i < |v| && WithinLimit(v[i], side, limit) ==> InFull(v, fills, i))
    && Filled(fills) <= budget
    && after == (if |fills| > 0 && fills[|fills| - 1].qty < v[|fills| - 1].qty
                 then [v[|fills| - 1].(qty := v[|fills| - 1].qty - fills[|fills| - 1].qty)] else []) + v[|fills|..]
    && (forall id :: id in gone <==> SomeFullFill(fills, id))
  }

  lemma FillsFit(v: seq<Order>, side: OrderSide, limit: int, budget: nat, ts: u64, k: nat)
    requires Positive(v) && k < |FillsOf(v, side, limit, budget, ts)|
    ensures k < |v| && FillFits(FillsOf(v, side, limit, budget, ts)[k], v[k], side, limit, ts)
  {
    FillsInPriority(v, side, limit, budget, ts, k);
  }

  lemma AheadIsInFull(v: seq<Order>, side: OrderSide, limit: int, budget: nat, ts: u64, i: nat, k: nat)
    requires Ordered(v, side) && Positive(v) && i < |v| && k < |v| && k < |FillsOf(v, side, limit, budget, ts)|
    requires AheadOf(v[i], v[k], side)
    ensures InFull(v, FillsOf(v, side, limit, budget, ts), i)
  {
    assert i < k;
    FillsInPriority(v, side, limit, budget, ts, i);
  }

  lemma {:induction false} LeftOverBudgetMeansInFull(v: seq<Order>, side: OrderSide, limit: int, budget: nat, ts: u64, i: nat)
    requires Ordered(v, side) && i < |v| && WithinLimit(v[i], side, limit)
    requires Filled(FillsOf(v, side, limit, budget, ts)) < budget
    ensures InFull(v, FillsOf(v, side, limit, budget, ts), i)
    decreases |v|
  {
    assert i > 0 ==> !Better(side, v[i], v[0]);
    var take := Min(v[0].qty, budget);
    var rest := FillsOf(v[1..], side, limit, budget - take, ts);
    assert ([FillOf(v[0], side, limit, take, ts)] + rest)[1..] == rest;
    if i > 0 {
      LeftOverBudgetMeansInFull(v[1..], side, limit, budget - take, ts, i - 1);
    }
  }

  lemma {:induction false} ExhaustedAreFilled(v: seq<Order>, side: OrderSide, limit: int, budget: nat, ts: u64, id: u64)
    ensures id in Exhausted(v, side, limit, budget) <==> SomeFullFill(FillsOf(v, side, limit, budget, ts), id)
    decreases |v|
  {
    if v != [] && budget > 0 && Eligible(side, v[0], limit) {
      var take := Min(v[0].qty, budget);
      var rest := FillsOf(v[1..], side, limit, budget - take, ts);
      ExhaustedAreFilled(v[1..], side, limit, budget - take, ts, id);
      FullFillIn(FillOf(v[0], side, limit, take, ts), rest, id);
    }
  }

  lemma FullFillIn(f: Fill, rest: seq<Fill>, id: u64)
    ensures SomeFullFill([f] + rest, id) <==> (f.orderId == id && !f.partial) || SomeFullFill(rest, id)
  {
    var fills := [f] + rest;
    if f.orderId == id && !f.partial {
      assert fills[0] == f;
    }
    if SomeFullFill(rest, id) {
      var k :| 0 <= k < |rest| && rest[k].orderId == id && !rest[k].partial;
      assert fills[k + 1] == rest[k];
    }
    if SomeFullFill(fills, id) {
      var k :| 0 <= k < |fills| && fills[k].orderId == id && !fills[k].partial;
      assert k > 0 ==> rest[k - 1] == fills[k];
    }
  }

  /** Price-time priority of a print, said of prices, times and quantities only. */
  lemma PrintServes(v: seq<Order>, side: OrderSide, limit: int, budget: nat, ts: u64)
    requires Ordered(v, side) && Positive(v)
    ensures Served(v, side, limit, budget, ts, FillsOf(v, side, limit, budget, ts), AfterFill(v, side, limit, budget),
                   Exhausted(v, side, limit, budget))
  {
    FillsTheBudget(v, side, limit, budget, ts);
    OnlyFilledAreTouched(v, side, limit, budget, ts);
    var fills := FillsOf(v, side, limit, budget, ts);
    forall k | 0 <= k < |fills| ensures FillFits(fills[k], v[k], side, limit, ts) {
      FillsFit(v, side, limit, budget, ts, k);
    }
    forall k, i | 0 <= k < |fills| && 0 <= i < |v| && AheadOf(v[i], v[k], side) ensures InFull(v, fills, i) {
      AheadIsInFull(v, side, limit, budget, ts, i, k);
    }
    if Filled(fills) < budget {
      forall i | 0 <= i < |v| && WithinLimit(v[i], side, limit) ensures InFull(v, fills, i) {
        LeftOverBudgetMeansInFull(v, side, limit, budget, ts, i);
      }
    }
    forall id: u64 ensures id in Exhausted(v, side, limit, budget) <==> SomeFullFill(fills, id) {
      ExhaustedAreFilled(v, side, limit, budget, ts, id);
    }
  }

  lemma PrintServesBook(book: SymbolBook, limit: int, budget: nat, ts: u64)
    requires GoodBook(book)
    ensures Served(book.bids, Bid, limit, budget, ts, FillsOf(book.bids, Bid, limit, budget, ts),
                   AfterFill(book.bids, Bid, limit, budget), Exhausted(book.bids, Bid, limit, budget))
    ensures Served(book.asks, Ask, limit, budget, ts, FillsOf(book.asks, Ask, limit, budget, ts),
                   AfterFill(book.asks, Ask, limit, budget), Exhausted(book.asks, Ask, limit, budget))
  {
    PrintServes(book.bids, Bid, limit, budget, ts);
    PrintServes(book.asks, Ask, limit, budget, ts);
  }

  lemma FillKeepsOrder(v: seq<Order>, side: OrderSide, limit: int, budget: nat)
    requires Ordered(v, side) && Positive(v)
    ensures Ordered(AfterFill(v, side, limit, budget), side) && Positive(AfterFill(v, side, limit, budget))
  {
    OnlyFilledAreTouched(v, side, limit, budget, 0);
    var fills := FillsOf(v, side, limit, budget, 0);
    SuffixIsOrdered(v, side, |fills|);
    if LeftOver(v, fills) != [] {
      LeftOverGoesFirst(v, side, fills);
    } else {
      assert [] + v[|fills|..] == v[|fills|..];
    }
  }

  lemma SuffixIsOrdered(v: seq<Order>, side: OrderSide, n: nat)
    requires Ordered(v, side) && Positive(v) && n <= |v|
    ensures Ordered(v[n..], side) && Positive(v[n..])
  {
    assert forall i :: 0 <= i < |v[n..]| ==> v[n..][i] == v[n + i];
  }

  lemma LeftOverGoesFirst(v: seq<Order>, side: OrderSide, fills: seq<Fill>)
    requires Ordered(v, side) && Positive(v) && |fills| <= |v| && LeftOver(v, fills) != []
    ensures Ordered(LeftOver(v, fills) + v[|fills|..], side) && Positive(LeftOver(v, fills) + v[|fills|..])
  {
    var n, after := |fills|, LeftOver(v, fills) + v[|fills|..];
    forall i | 0 <= i < |after|
      ensures after[i].price == v[n - 1 + i].price && after[i].ts == v[n - 1 + i].ts && after[i].qty > 0
    {
      assert i > 0 ==> after[i] == v[n - 1 + i];
    }
    forall i, j | 0 <= i < j < |after| ensures !Better(side, after[j], after[i]) {
      assert !Better(side, v[n - 1 + j], v[n - 1 + i]);
    }
  }

  /** Per order id, what was resting is what is filled and what still rests. */
  lemma {:induction false} FillConserves(v: seq<Order>, side: OrderSide, limit: int, budget: nat, ts: u64, id: u64)
    ensures QtyById(v, id) ==
      FilledById(FillsOf(v, side, limit, budget, ts), id) + QtyById(AfterFill(v, side, limit, budget), id)
    decreases |v|
  {
    if v != [] && budget > 0 && Eligible(side, v[0], limit) {
      var take := Min(v[0].qty, budget);
      FillConserves(v[1..], side, limit, budget - take, ts, id);
      FrontConserves(v[0], side, limit, take, ts, FillsOf(v[1..], side, limit, budget - take, ts),
                     AfterFill(v[1..], side, limit, budget - take), id);
    }
  }

  lemma FrontConserves(o: Order, side: OrderSide, limit: int, take: u64, ts: u64, fills: seq<Fill>, rest: seq<Order>,
                       id: u64)
    requires take <= o.qty
    ensures FilledById([FillOf(o, side, limit, take, ts)] + fills, id)
            == (if o.id == id then take else 0) + FilledById(fills, id)
    ensures QtyById((if take == o.qty then [] else [o.(qty := o.qty - take)]) + rest, id)
            == (if o.id == id then o.qty - take else 0) + QtyById(rest, id)
  {
    assert ([FillOf(o, side, limit, take, ts)] + fills)[1..] == fills;
    if take == o.qty {
      assert [] + rest == rest;
    } else {
      assert ([o.(qty := o.qty - take)] + rest)[1..] == rest;
    }
  }

  // ---- Sums over rearranged sequences ----

  lemma {:induction false} QtyByIdOfConcat(a: seq<Order>, b: seq<Order>, id: u64)
    ensures QtyById(a + b, id) == QtyById(a, id) + QtyById(b, id)
  {
    if a == [] {
      assert a + b == b;
    } else {
      assert (a + b)[1..] == a[1..] + b;
      QtyByIdOfConcat(a[1..], b, id);
    }
  }

  lemma {:induction false} QtyByIdOfPermutation(v: seq<Order>, w: seq<Order>, id: u64)
    requires multiset(v) == multiset(w)
    ensures QtyById(v, id) == QtyById(w, id)
    decreases |v|
  {
    if v == [] {
      assert |w| == |multiset(w)| == 0;
    } else {
      var j := FoundIn(w, v[0]);
      TakenOut(v, w, j);
      QtyByIdOfPermutation(v[1..], w[..j] + w[j + 1..], id);
      QtyByIdAround(w, j, id);
    }
  }

  lemma FoundIn(w: seq<Order>, o: Order) returns (j: nat)
    requires o in multiset(w)
    ensures j < |w| && w[j] == o
  {
    j :| 0 <= j < |w| && w[j] == o;
  }

  lemma TakenOut(v: seq<Order>, w: seq<Order>, j: nat)
    requires v != [] && j < |w| && w[j] == v[0] && multiset(v) == multiset(w)
    ensures multiset(v[1..]) == multiset(w[..j] + w[j + 1..])
  {
    AllButOne(v, 0);
    AllButOne(w, j);
    assert v[..0] + v[1..] == v[1..];
  }

  lemma AllButOne(w: seq<Order>, j: nat)
    requires j < |w|
    ensures multiset(w[..j] + w[j + 1..]) == multiset(w) - multiset{w[j]}
  {
    assert w == w[..j] + [w[j]] + w[j + 1..];
  }

  lemma QtyByIdAround(w: seq<Order>, j: nat, id: u64)
    requires j < |w|
    ensures QtyById(w, id) == QtyById(w[..j] + w[j + 1..], id) + if w[j].id == id then w[j].qty else 0
  {
    var tail := w[j..];
    QtyByIdOfConcat(w[..j], w[j + 1..], id);
    QtyByIdOfConcat(w[..j], tail, id);
    assert w == w[..j] + tail && tail[1..] == w[j + 1..] && tail[0] == w[j];
    assert QtyById(tail, id) == (if w[j].id == id then w[j].qty else 0) + QtyById(w[j + 1..], id);
  }

  // ---- Cancelling ----

  function Without(v: seq<Order>, id: u64): seq<Order> {
    if v == [] then [] else (if v[0].id == id then [] else [v[0]]) + Without(v[1..], id)
  }

  lemma {:induction false} WithoutOfOneMore(v: seq<Order>, o: Order, id: u64)
    ensures Without(v + [o], id) == Without(v, id) + if o.id == id then [] else [o]
  {
    if v == [] {
      assert [o][1..] == [];
    } else {
      WithoutOfOneMore(v[1..], o, id);
      assert (v + [o])[1..] == v[1..] + [o];
    }
  }

  method RemoveOrder(v: seq<Order>, id: u64) returns (r: seq<Order>)
    ensures r == Without(v, id)
  {
    r := [];
    for i := 0 to |v|
      invariant r == Without(v[..i], id)
    {
      WithoutOfOneMore(v[..i], v[i], id);
      assert v[..i + 1] == v[..i] + [v[i]];
      if v[i].id != id {
        r := r + [v[i]];
      }
    }
    assert v[..|v|] == v;
  }

  lemma {:induction false} WithoutKeepsOthers(v: seq<Order>, id: u64, other: u64)
    ensures QtyById(Without(v, id), other) == if other == id then 0 else QtyById(v, other)
  {
    if v != [] {
      WithoutKeepsOthers(v[1..], id, other);
      if v[0].id == id {
        assert Without(v, id) == Without(v[1..], id);
      } else {
        assert Without(v, id)[1..] == Without(v[1..], id);
      }
    }
  }

  lemma {:induction false} WithoutMembers(v: seq<Order>, id: u64, o: Order)
    ensures o in Without(v, id) <==> o in v && o.id != id
  {
    if v != [] {
      WithoutMembers(v[1..], id, o);
      assert v == [v[0]] + v[1..];
    }
  }

  lemma {:induction false} WithoutKeepsOrder(v: seq<Order>, id: u64, side: OrderSide)
    requires Ordered(v, side) && Positive(v)
    ensures Ordered(Without(v, id), side) && Positive(Without(v, id))
  {
    if v != [] {
      assert Positive(v[1..]);
      WithoutKeepsOrder(v[1..], id, side);
      var rest := Without(v[1..], id);
      forall j | 0 <= j < |rest| ensures !Better(side, rest[j], v[0]) {
        WithoutMembers(v[1..], id, rest[j]);
        var k :| 0 <= k < |v[1..]| && v[1..][k] == rest[j];
        assert v[k + 1] == rest[j];
      }
    }
  }

  // ---- The engine ----

  /** A quantity of one order on one symbol. */
  datatype Entry = Entry(symbol: u64, id: u64, qty: nat)

  function SumOf(log: seq<Entry>, symbol: u64, id: u64): nat {
    if log == [] then 0
    else
      var e := log[|log| - 1];
      SumOf(log[..|log| - 1], symbol, id) + if e.symbol == symbol && e.id == id then e.qty else 0
  }

  lemma SumOfOneMore(log: seq<Entry>, e: Entry, symbol: u64, id: u64)
    ensures SumOf(log + [e], symbol, id) == SumOf(log, symbol, id) + if e.symbol == symbol && e.id == id then e.qty else 0
  {
    assert (log + [e])[..|log|] == log;
  }

  /** The log entries of some fills. */
  function Entries(symbol: u64, fills: seq<Fill>): seq<Entry> {
    seq(|fills|, i requires 0 <= i < |fills| => Entry(symbol, fills[i].orderId, fills[i].qty))
  }

  lemma {:induction false} SumOfFills(log: seq<Entry>, symbol: u64, fills: seq<Fill>, s: u64, id: u64)
    ensures SumOf(log + Entries(symbol, fills), s, id) ==
      SumOf(log, s, id) + if s == symbol then FilledById(fills, id) else 0
    decreases |fills|
  {
    if fills == [] {
      assert log + Entries(symbol, fills) == log;
    } else {
      var e := Entry(symbol, fills[0].orderId, fills[0].qty);
      SumOfOneMore(log, e, s, id);
      SumOfFills(log + [e], symbol, fills[1..], s, id);
      assert log + Entries(symbol, fills) == (log + [e]) + Entries(symbol, fills[1..]);
    }
  }

  function BookAt(books: map<u64, SymbolBook>, symbol: u64): SymbolBook {
    if symbol in books then books[symbol] else EMPTY_BOOK
  }

  function Resting(book: SymbolBook, id: u64): nat {
    QtyById(book.bids, id) + QtyById(book.asks, id)
  }

  ghost predicate GoodBook(book: SymbolBook) {
    Ordered(book.bids, Bid) && Positive(book.bids) && Ordered(book.asks, Ask) && Positive(book.asks)
  }

  /** For every order: submitted is filled plus cancelled plus still resting. */
  ghost predicate Conserved(books: map<u64, SymbolBook>, submitted: seq<Entry>, filled: seq<Entry>, cancelled: seq<Entry>) {
    forall symbol: u64, id: u64 :: ConservedAt(books, submitted, filled, cancelled, symbol, id)
  }

  ghost predicate ConservedAt(books: map<u64, SymbolBook>, submitted: seq<Entry>, filled: seq<Entry>,
                              cancelled: seq<Entry>, symbol: u64, id: u64) {
    SumOf(submitted, symbol, id) ==
      SumOf(filled, symbol, id) + SumOf(cancelled, symbol, id) + Resting(BookAt(books, symbol), id)
  }

  function SideOf(book: SymbolBook, side: OrderSide): seq<Order> {
    if side == Bid then book.bids else book.asks
  }

  function WithSide(book: SymbolBook, side: OrderSide, v: seq<Order>): SymbolBook {
    if side == Bid then book.(bids := v) else book.(asks := v)
  }

  lemma SubmitConserves(books: map<u64, SymbolBook>, submitted: seq<Entry>, filled: seq<Entry>, cancelled: seq<Entry>,
                        symbol: u64, o: Order, v: seq<Order>)
    requires Conserved(books, submitted, filled, cancelled)
    requires multiset(v) == multiset(SideOf(BookAt(books, symbol), o.side) + [o])
    ensures Conserved(books[symbol := WithSide(BookAt(books, symbol), o.side, v)],
                      submitted + [Entry(symbol, o.id, o.qty)], filled, cancelled)
  {
    var after := books[symbol := WithSide(BookAt(books, symbol), o.side, v)];
    forall s: u64, id: u64
      ensures ConservedAt(after, submitted + [Entry(symbol, o.id, o.qty)], filled, cancelled, s, id)
    {
      assert ConservedAt(books, submitted, filled, cancelled, s, id);
      SumOfOneMore(submitted, Entry(symbol, o.id, o.qty), s, id);
      QtyByIdOfPermutation(v, SideOf(BookAt(books, symbol), o.side) + [o], id);
      QtyByIdOfConcat(SideOf(BookAt(books, symbol), o.side), [o], id);
      assert [o][1..] == [];
    }
  }

  lemma CancelConserves(books: map<u64, SymbolBook>, submitted: seq<Entry>, filled: seq<Entry>, cancelled: seq<Entry>,
                        symbol: u64, id: u64)
    requires Conserved(books, submitted, filled, cancelled)
    ensures var book := BookAt(books, symbol);
            Conserved(books[symbol := SymbolBook(Without(book.bids, id), Without(book.asks, id))],
                      submitted, filled, cancelled + [Entry(symbol, id, Resting(book, id))])
  {
    var book := BookAt(books, symbol);
    var after := books[symbol := SymbolBook(Without(book.bids, id), Without(book.asks, id))];
    forall s: u64, other: u64
      ensures ConservedAt(after, submitted, filled, cancelled + [Entry(symbol, id, Resting(book, id))], s, other)
    {
      assert ConservedAt(books, submitted, filled, cancelled, s, other);
      SumOfOneMore(cancelled, Entry(symbol, id, Resting(book, id)), s, other);
      WithoutKeepsOthers(book.bids, id, other);
      WithoutKeepsOthers(book.asks, id, other);
    }
  }

  lemma PrintConserves(books: map<u64, SymbolBook>, submitted: seq<Entry>, filled: seq<Entry>, cancelled: seq<Entry>,
                       symbol: u64, side: OrderSide, limit: int, budget: nat, ts: u64)
    requires Conserved(books, submitted, filled, cancelled)
    ensures var v := SideOf(BookAt(books, symbol), side);
            Conserved(books[symbol := WithSide(BookAt(books, symbol), side, AfterFill(v, side, limit, budget))],
                      submitted, filled + Entries(symbol, FillsOf(v, side, limit, budget, ts)), cancelled)
  {
    var v := SideOf(BookAt(books, symbol), side);
    var fills := FillsOf(v, side, limit, budget, ts);
    var after := books[symbol := WithSide(BookAt(books, symbol), side, AfterFill(v, side, limit, budget))];
    forall s: u64, id: u64 ensures ConservedAt(after, submitted, filled + Entries(symbol, fills), cancelled, s, id) {
      assert ConservedAt(books, submitted, filled, cancelled, s, id);
      SumOfFills(filled, symbol, fills, s, id);
      FillConserves(v, side, limit, budget, ts, id);
    }
  }

  /** Prints that can fill resting orders. */
  predicate IsPrint(kind: EventType) {
    kind == Trade || kind == ExecutePrice || kind == CrossTrade
  }

  function Unbound(orderToSymbol: map<u64, u64>, ids: set<u64>): (left: map<u64, u64>)
    ensures left == orderToSymbol - ids
  {
    map k | k in orderToSymbol && k !in ids :: orderToSymbol[k]
  }

  // ---- Which orders can be cancelled ----

  function CountById(v: seq<Order>, id: u64): nat {
    if v == [] then 0 else (if v[0].id == id then 1 else 0) + CountById(v[1..], id)
  }

  lemma {:induction false} CountOfConcat(a: seq<Order>, b: seq<Order>, id: u64)
    ensures CountById(a + b, id) == CountById(a, id) + CountById(b, id)
  {
    if a == [] {
      assert a + b == b;
    } else {
      assert (a + b)[1..] == a[1..] + b;
      CountOfConcat(a[1..], b, id);
    }
  }

  lemma {:induction false} CountOfPermutation(v: seq<Order>, w: seq<Order>, id: u64)
    requires multiset(v) == multiset(w)
    ensures CountById(v, id) == CountById(w, id)
    decreases |v|
  {
    if v == [] {
      assert |w| == |multiset(w)| == 0;
    } else {
      var j := FoundIn(w, v[0]);
      TakenOut(v, w, j);
      CountOfPermutation(v[1..], w[..j] + w[j + 1..], id);
      CountAround(w, j, id);
    }
  }

  lemma CountAround(w: seq<Order>, j: nat, id: u64)
    requires j < |w|
    ensures CountById(w, id) == CountById(w[..j] + w[j + 1..], id) + if w[j].id == id then 1 else 0
  {
    var tail := w[j..];
    CountOfConcat(w[..j], w[j + 1..], id);
    CountOfConcat(w[..j], tail, id);
    assert w == w[..j] + tail && tail[1..] == w[j + 1..] && tail[0] == w[j];
  }

  lemma {:induction false} CountWithout(v: seq<Order>, id: u64, other: u64)
    ensures CountById(Without(v, id), other) == if other == id then 0 else CountById(v, other)
  {
    if v != [] {
      CountWithout(v[1..], id, other);
      if v[0].id == id {
        assert Without(v, id) == Without(v[1..], id);
      } else {
        assert Without(v, id)[1..] == Without(v[1..], id);
      }
    }
  }

  /** Every order that is filled up is one order less of its id. */
  lemma {:induction false} CountAfterFill(v: seq<Order>, side: OrderSide, limit: int, budget: nat, id: u64)
    ensures CountById(AfterFill(v, side, limit, budget), id)
            + (if id in Exhausted(v, side, limit, budget) then 1 else 0) <= CountById(v, id)
    decreases |v|
  {
    if v != [] && budget > 0 && Eligible(side, v[0], limit) {
      var take := Min(v[0].qty, budget);
      var rest := AfterFill(v[1..], side, limit, budget - take);
      CountAfterFill(v[1..], side, limit, budget - take, id);
      if take == v[0].qty {
        assert [] + rest == rest;
      } else {
        assert ([v[0].(qty := v[0].qty - take)] + rest)[1..] == rest;
      }
    }
  }

  function OrdersOf(book: SymbolBook, id: u64): nat {
    CountById(book.bids, id) + CountById(book.asks, id)
  }

  lemma {:induction false} NoOrderNoQty(v: seq<Order>, id: u64)
    requires Positive(v)
    ensures CountById(v, id) == 0 <==> QtyById(v, id) == 0
  {
    if v != [] {
      assert Positive(v[1..]);
      NoOrderNoQty(v[1..], id);
    }
  }

  lemma NoneRests(book: SymbolBook, id: u64)
    requires GoodBook(book)
    ensures OrdersOf(book, id) == 0 <==> Resting(book, id) == 0
  {
    NoOrderNoQty(book.bids, id);
    NoOrderNoQty(book.asks, id);
  }

  ghost predicate TidyAt(books: map<u64, SymbolBook>, binding: map<u64, u64>, symbol: u64, id: u64) {
    && OrdersOf(BookAt(books, symbol), id) <= 1
    && (OrdersOf(BookAt(books, symbol), id) == 1 ==> id in binding && binding[id] == symbol)
  }

  /** No two resting orders share an id, and each is bound to the symbol it rests on: a cancel finds it. */
  ghost predicate Tidy(books: map<u64, SymbolBook>, binding: map<u64, u64>) {
    TidyEverywhere(books, binding) == true
  }

  ghost predicate TidyEverywhere(books: map<u64, SymbolBook>, binding: map<u64, u64>) {
    forall u {:trigger Unsealed(u)} :: Unsealed(u) ==>
      forall symbol: u64, id: u64 :: TidyAt(books, binding, symbol, id)
  }

  lemma TidyHere(books: map<u64, SymbolBook>, binding: map<u64, u64>, symbol: u64, id: u64)
    requires Tidy(books, binding)
    ensures TidyAt(books, binding, symbol, id)
  {
    assert Unsealed(true);
  }

  lemma TidyEach(books: map<u64, SymbolBook>, binding: map<u64, u64>)
    requires forall symbol: u64, id: u64 :: TidyAt(books, binding, symbol, id)
    ensures Tidy(books, binding)
  {
    assert TidyEverywhere(books, binding);
  }

  ghost predicate RestsElsewhere(books: map<u64, SymbolBook>, id: u64, symbol: u64) {
    exists s: u64 :: s != symbol && Resting(BookAt(books, s), id) > 0
  }

  ghost predicate GoodBooks(books: map<u64, SymbolBook>) {
    forall s :: s in books ==> GoodBook(books[s])
  }

  lemma NoneRestsAt(books: map<u64, SymbolBook>, s: u64, id: u64)
    requires GoodBooks(books)
    ensures OrdersOf(BookAt(books, s), id) == 0 <==> Resting(BookAt(books, s), id) == 0
  {
    if s in books {
      NoneRests(books[s], id);
    }
  }

  lemma RestKeepsBooks(books: map<u64, SymbolBook>, submitted: seq<Entry>, filled: seq<Entry>, cancelled: seq<Entry>,
                       symbol: u64, o: Order, v: seq<Order>)
    requires GoodBooks(books) && Conserved(books, submitted, filled, cancelled) && o.qty > 0 && Ordered(v, o.side)
    requires multiset(v) == multiset(SideOf(BookAt(books, symbol), o.side) + [o])
    ensures var after := books[symbol := WithSide(BookAt(books, symbol), o.side, v)];
      GoodBooks(after) && Conserved(after, submitted + [Entry(symbol, o.id, o.qty)], filled, cancelled)
    ensures multiset(v) == multiset(SideOf(BookAt(books, symbol), o.side)) + multiset{o}
    ensures SideOf(WithSide(BookAt(books, symbol), o.side, v), o.side) == v
  {
    SubmitConserves(books, submitted, filled, cancelled, symbol, o, v);
    PermutationKeepsPositive(SideOf(BookAt(books, symbol), o.side) + [o], v);
  }

  lemma BindKeepsTidyIff(books: map<u64, SymbolBook>, binding: map<u64, u64>, id: u64, symbol: u64)
    requires Tidy(books, binding) && GoodBooks(books)
    ensures Tidy(books, binding[id := symbol]) <==> !RestsElsewhere(books, id, symbol)
  {
    var after: map<u64, u64> := binding[id := symbol];
    if RestsElsewhere(books, id, symbol) {
      var s: u64 :| s != symbol && Resting(BookAt(books, s), id) > 0;
      NoneRestsAt(books, s, id);
      if Tidy(books, after) {
        TidyHere(books, after, s, id);
      }
    } else {
      forall s: u64, other: u64 ensures TidyAt(books, after, s, other) {
        TidyHere(books, binding, s, other);
        NoneRestsAt(books, s, other);
      }
      TidyEach(books, after);
    }
  }

  lemma CountAfterSubmit(book: SymbolBook, o: Order, v: seq<Order>, id: u64)
    requires multiset(v) == multiset(SideOf(book, o.side) + [o])
    ensures OrdersOf(WithSide(book, o.side, v), id) == OrdersOf(book, id) + if o.id == id then 1 else 0
  {
    CountOfPermutation(v, SideOf(book, o.side) + [o], id);
    CountOfConcat(SideOf(book, o.side), [o], id);
    assert [o][1..] == [];
  }

  lemma SubmitKeepsTidyIff(books: map<u64, SymbolBook>, binding: map<u64, u64>, o: Order, v: seq<Order>)
    requires Tidy(books, binding) && GoodBooks(books) && o.id in binding
    requires multiset(v) == multiset(SideOf(BookAt(books, binding[o.id]), o.side) + [o])
    ensures Tidy(books[binding[o.id] := WithSide(BookAt(books, binding[o.id]), o.side, v)], binding)
        <==> Resting(BookAt(books, binding[o.id]), o.id) == 0
  {
    var symbol := binding[o.id];
    var after: map<u64, SymbolBook> := books[symbol := WithSide(BookAt(books, symbol), o.side, v)];
    NoneRestsAt(books, symbol, o.id);
    CountAfterSubmit(BookAt(books, symbol), o, v, o.id);
    if Resting(BookAt(books, symbol), o.id) == 0 {
      forall s: u64, id: u64 ensures TidyAt(after, binding, s, id) {
        TidyHere(books, binding, s, id);
        CountAfterSubmit(BookAt(books, symbol), o, v, id);
      }
      TidyEach(after, binding);
    } else if Tidy(after, binding) {
      TidyHere(after, binding, symbol, o.id);
      assert false;
    }
  }

  lemma CancelKeepsTidy(books: map<u64, SymbolBook>, binding: map<u64, u64>, id: u64)
    requires Tidy(books, binding) && GoodBooks(books) && id in binding
    ensures var book := BookAt(books, binding[id]);
      var after := books[binding[id] := SymbolBook(Without(book.bids, id), Without(book.asks, id))];
      Tidy(after, Unbound(binding, {id})) && forall s: u64 :: Resting(BookAt(after, s), id) == 0
  {
    var book := BookAt(books, binding[id]);
    var after := books[binding[id] := SymbolBook(Without(book.bids, id), Without(book.asks, id))];
    forall s: u64, other: u64 ensures TidyAt(after, Unbound(binding, {id}), s, other) {
      TidyHere(books, binding, s, other);
      CountWithout(book.bids, id, other);
      CountWithout(book.asks, id, other);
    }
    forall s: u64 ensures Resting(BookAt(after, s), id) == 0 {
      TidyHere(books, binding, s, id);
      NoneRestsAt(books, s, id);
      WithoutKeepsOthers(book.bids, id, id);
      WithoutKeepsOthers(book.asks, id, id);
    }
    TidyEach(after, Unbound(binding, {id}));
  }

  lemma NothingToCancel(books: map<u64, SymbolBook>, binding: map<u64, u64>, id: u64)
    requires Tidy(books, binding) && GoodBooks(books) && (id !in binding || binding[id] !in books)
    ensures forall s: u64 :: Resting(BookAt(books, s), id) == 0
  {
    forall s: u64 ensures Resting(BookAt(books, s), id) == 0 {
      TidyHere(books, binding, s, id);
      NoneRestsAt(books, s, id);
    }
  }

  lemma PrintKeepsTidy(books: map<u64, SymbolBook>, binding: map<u64, u64>, symbol: u64, side: OrderSide, limit: int,
                       budget: nat)
    requires Tidy(books, binding)
    ensures var v := SideOf(BookAt(books, symbol), side);
      Tidy(books[symbol := WithSide(BookAt(books, symbol), side, AfterFill(v, side, limit, budget))],
           Unbound(binding, Exhausted(v, side, limit, budget)))
  {
    var v := SideOf(BookAt(books, symbol), side);
    var gone := Exhausted(v, side, limit, budget);
    var after := books[symbol := WithSide(BookAt(books, symbol), side, AfterFill(v, side, limit, budget))];
    forall s: u64, id: u64 ensures TidyAt(after, Unbound(binding, gone), s, id) {
      TidyHere(books, binding, s, id);
      TidyHere(books, binding, symbol, id);
      CountAfterFill(v, side, limit, budget, id);
    }
    TidyEach(after, Unbound(binding, gone));
  }

  lemma PrintKeepsBooks(books: map<u64, SymbolBook>, submitted: seq<Entry>, filled: seq<Entry>, cancelled: seq<Entry>,
                        binding: map<u64, u64>, symbol: u64, side: OrderSide, limit: int, budget: nat, ts: u64)
    requires GoodBooks(books) && Conserved(books, submitted, filled, cancelled) && symbol in books
    ensures var v := SideOf(books[symbol], side);
      var after := books[symbol := WithSide(books[symbol], side, AfterFill(v, side, limit, budget))];
      && GoodBooks(after) && Conserved(after, submitted, filled + Entries(symbol, FillsOf(v, side, limit, budget, ts)), cancelled)
      && (Tidy(books, binding) ==> Tidy(after, Unbound(binding, Exhausted(v, side, limit, budget))))
      && Filled(FillsOf(v, side, limit, budget, ts)) == Min(budget, EligibleQty(v, side, limit))
  {
    var v := SideOf(books[symbol], side);
    assert GoodBook(books[symbol]);
    PrintConserves(books, submitted, filled, cancelled, symbol, side, limit, budget, ts);
    FillKeepsOrder(v, side, limit, budget);
    FillsTheBudget(v, side, limit, budget, ts);
    if Tidy(books, binding) {
      PrintKeepsTidy(books, binding, symbol, side, limit, budget);
    }
  }

  class SimMatchingEngine {
    var books: map<u64, SymbolBook>
    var orderToSymbol: map<u64, u64>
    /** What the fill callback was told. */
    var fills: seq<Fill>
    ghost var submitted: seq<Entry>
    ghost var filled: seq<Entry>
    ghost var cancelled: seq<Entry>

    /** In every run the books stay in priority order with positive quantities, and every order is conserved. */
    ghost predicate Valid()
      reads this
    {
      && GoodBooks(books)
      && Conserved(books, submitted, filled, cancelled)
      && |filled| == |fills|
      && (forall k :: 0 <= k < |fills| ==> filled[k].id == fills[k].orderId && filled[k].qty == fills[k].qty)
    }

    /** A cancel of any id takes all that rests of it. */
    ghost predicate Cancellable()
      reads this
    {
      Tidy(books, orderToSymbol)
    }

    /** Price-time order of every book, on prices and times. */
    ghost predicate Ranked()
      reads this
    {
      forall s :: s in books ==> BookRanked(books[s])
    }

    lemma EveryBookIsRanked()
      requires Valid()
      ensures Ranked()
    {
      forall s | s in books ensures BookRanked(books[s]) {
        assert GoodBook(books[s]);
        OrderedIsRanked(books[s].bids);
        OrderedIsRanked(books[s].asks);
      }
    }

    constructor ()
      ensures Valid() && books == map[] && orderToSymbol == map[] && fills == [] && submitted == cancelled == []
      ensures Cancellable()
    {
      books, orderToSymbol, fills := map[], map[], [];
      submitted, filled, cancelled := [], [], [];
      new;
      TidyEach(books, orderToSymbol);
    }

    method BindOrderSymbol(id: u64, symbol: u64)
      requires Valid()
      modifies this`orderToSymbol
      ensures Valid() && orderToSymbol == if id == 0 then old(orderToSymbol) else old(orderToSymbol)[id := symbol]
      ensures old(Cancellable()) ==> (Cancellable() <==> id == 0 || !RestsElsewhere(books, id, symbol))
    {
      if Cancellable() {
        BindKeepsTidyIff(books, orderToSymbol, id, symbol);
      }
      if id != 0 {
        orderToSymbol := orderToSymbol[id := symbol];
      }
    }

    /** Only bound orders with a quantity are taken. */
    method Submit(side: OrderSide, price: int, qty: u64, id: u64, ts: u64)
      requires Valid()
      modifies this
      ensures Valid() && orderToSymbol == old(orderToSymbol) && fills == old(fills) && cancelled == old(cancelled)
      ensures id == 0 || qty == 0 || id !in orderToSymbol ==> books == old(books) && submitted == old(submitted)
      ensures id != 0 && qty != 0 && id in orderToSymbol ==>
        var symbol := orderToSymbol[id];
        && submitted == old(submitted) + [Entry(symbol, id, qty)]
        && symbol in books && (forall s :: s != symbol ==> BookAt(books, s) == BookAt(old(books), s))
        && multiset(SideOf(books[symbol], side)) ==
             multiset(SideOf(BookAt(old(books), symbol), side)) + multiset{Order(id, side, price, qty, ts)}
        && books[symbol] == WithSide(BookAt(old(books), symbol), side, SideOf(books[symbol], side))
      ensures Ranked()
      ensures old(Cancellable()) ==>
        (Cancellable() <==> id == 0 || qty == 0 || id !in orderToSymbol || Resting(BookAt(old(books), orderToSymbol[id]), id) == 0)
    {
      if id != 0 && qty != 0 && id in orderToSymbol {
        Rest(orderToSymbol[id], Order(id, side, price, qty, ts));
      }
      EveryBookIsRanked();
    }

    /** The order joins its side, which is sorted again. */
    method Rest(symbol: u64, o: Order)
      requires Valid() && o.qty > 0 && o.id in orderToSymbol && orderToSymbol[o.id] == symbol
      modifies this`books, this`submitted
      ensures Valid() && submitted == old(submitted) + [Entry(symbol, o.id, o.qty)]
      ensures symbol in books && multiset(SideOf(books[symbol], o.side)) ==
        multiset(SideOf(BookAt(old(books), symbol), o.side)) + multiset{o}
      ensures books == old(books)[symbol := WithSide(BookAt(old(books), symbol), o.side, SideOf(books[symbol], o.side))]
      ensures old(Cancellable()) ==> (Cancellable() <==> Resting(BookAt(old(books), symbol), o.id) == 0)
    {
      var book := BookAt(books, symbol);
      var v := SortOrders(SideOf(book, o.side) + [o], o.side);
      RestKeepsBooks(books, submitted, filled, cancelled, symbol, o, v);
      if Cancellable() {
        SubmitKeepsTidyIff(books, orderToSymbol, o, v);
      }
      books := books[symbol := WithSide(book, o.side, v)];
      submitted := submitted + [Entry(symbol, o.id, o.qty)];
    }

    /** All resting orders of the id leave the book of the symbol it is bound to now. */
    method Cancel(id: u64)
      requires Valid()
      modifies this
      ensures Valid() && fills == old(fills) && submitted == old(submitted)
      ensures id !in old(orderToSymbol) || old(orderToSymbol)[id] !in old(books) ==>
        books == old(books) && orderToSymbol == old(orderToSymbol) && cancelled == old(cancelled)
      ensures id in old(orderToSymbol) && old(orderToSymbol)[id] in old(books) ==>
        var symbol := old(orderToSymbol)[id];
        && orderToSymbol == Unbound(old(orderToSymbol), {id})
        && symbol in books && Resting(books[symbol], id) == 0
        && (forall other :: other != id ==> Resting(books[symbol], other) == Resting(old(books)[symbol], other))
        && (forall s :: s != symbol ==> BookAt(books, s) == BookAt(old(books), s))
        && cancelled == old(cancelled) + [Entry(symbol, id, Resting(old(books)[symbol], id))]
      ensures old(Cancellable()) ==> Cancellable() && forall s: u64 :: Resting(BookAt(books, s), id) == 0
    {
      if id !in orderToSymbol || orderToSymbol[id] !in books {
        if Cancellable() {
          NothingToCancel(books, orderToSymbol, id);
        }
        return;
      }
      var symbol := orderToSymbol[id];
      var book := books[symbol];
      var bids := RemoveOrder(book.bids, id);
      var asks := RemoveOrder(book.asks, id);
      CancelConserves(books, submitted, filled, cancelled, symbol, id);
      CancelKeepsBook(book, id);
      if Cancellable() {
        CancelKeepsTidy(books, orderToSymbol, id);
      }
      books := books[symbol := SymbolBook(bids, asks)];
      cancelled := cancelled + [Entry(symbol, id, Resting(book, id))];
      orderToSymbol := Unbound(orderToSymbol, {id});
    }

    /** A print fills the opposite side of its symbol's book within the budget. */
    method OnMarketEvent(ev: BookEvent, budget: u64)
      requires Valid()
      modifies this
      ensures Valid() && submitted == old(submitted) && cancelled == old(cancelled)
      ensures ev.kind !in {Trade, ExecutePrice, CrossTrade} || ev.symbol !in old(books) || ev.side == Unknown
              || ev.qty == 0 || budget == 0 ==>
        books == old(books) && fills == old(fills) && orderToSymbol == old(orderToSymbol)
      ensures ev.kind in {Trade, ExecutePrice, CrossTrade} && ev.symbol in old(books) && ev.side != Unknown
              && ev.qty > 0 && budget > 0 ==>
        var side := if ev.side == Sell then Bid else Ask;
        var v := if ev.side == Sell then old(books)[ev.symbol].bids else old(books)[ev.symbol].asks;
        && books == old(books)[ev.symbol := WithSide(old(books)[ev.symbol], side, AfterFill(v, side, ev.price, budget))]
        && fills == old(fills) + FillsOf(v, side, ev.price, budget, ev.exchangeTs)
        && Filled(FillsOf(v, side, ev.price, budget, ev.exchangeTs)) == Min(budget, EligibleQty(v, side, ev.price))
        && orderToSymbol == Unbound(old(orderToSymbol), Exhausted(v, side, ev.price, budget))
        && Served(v, side, ev.price, budget, ev.exchangeTs, FillsOf(v, side, ev.price, budget, ev.exchangeTs),
                  AfterFill(v, side, ev.price, budget), Exhausted(v, side, ev.price, budget))
      ensures Ranked()
      ensures old(Cancellable()) ==> Cancellable()
    {
      if !IsPrint(ev.kind) || ev.symbol !in books || ev.qty == 0 || budget == 0 {
        EveryBookIsRanked();
        return;
      }
      PrintServesBook(books[ev.symbol], ev.price, budget, ev.exchangeTs);
      if ev.side == Sell {
        FillSide(ev.symbol, Bid, ev.price, budget, ev.exchangeTs);
      } else if ev.side == Buy {
        FillSide(ev.symbol, Ask, ev.price, budget, ev.exchangeTs);
      }
      EveryBookIsRanked();
    }

    /** Both fill loops: from the best order on, until the budget or the eligible orders run out. */
    method FillSide(symbol: u64, side: OrderSide, limit: int, budget: nat, ts: u64)
      requires Valid() && symbol in books
      modifies this
      ensures Valid() && submitted == old(submitted) && cancelled == old(cancelled)
      ensures var v := SideOf(old(books)[symbol], side);
        && books == old(books)[symbol := WithSide(old(books)[symbol], side, AfterFill(v, side, limit, budget))]
        && fills == old(fills) + FillsOf(v, side, limit, budget, ts)
        && Filled(FillsOf(v, side, limit, budget, ts)) == Min(budget, EligibleQty(v, side, limit))
        && orderToSymbol == Unbound(old(orderToSymbol), Exhausted(v, side, limit, budget))
      ensures old(Cancellable()) ==> Cancellable()
    {
      var book := books[symbol];
      var v := SideOf(book, side);
      var after, told, gone := RunFill(v, side, limit, budget, ts);
      PrintKeepsBooks(books, submitted, filled, cancelled, orderToSymbol, symbol, side, limit, budget, ts);
      filled := filled + Entries(symbol, told);
      fills := fills + told;
      books := books[symbol := WithSide(book, side, after)];
      orderToSymbol := Unbound(orderToSymbol, gone);
    }
  }

  // ---- Runs in which every order can be cancelled ----

  datatype Action =
    | Bind(id: u64, symbol: u64)
    | Submit(side: OrderSide, price: int, qty: u64, id: u64, ts: u64)
    | Cancel(id: u64)
    | Print(ev: BookEvent, budget: u64)

  predicate EachOnce(actions: seq<Action>) {
    && (forall i, j :: 0 <= i < j < |actions| && actions[i].Bind? && actions[j].Bind? ==> actions[i].id != actions[j].id)
    && (forall i, j :: 0 <= i < j < |actions| && actions[i].Submit? && actions[j].Submit? ==>
          actions[i].id != actions[j].id)
  }

  /** Every id is bound and submitted at most once; then whatever rests can be cancelled at any time. */
  method RunEachOnce(engine: SimMatchingEngine, actions: seq<Action>)
    requires engine.Valid() && engine.Cancellable() && engine.orderToSymbol == map[] && engine.submitted == []
    requires EachOnce(actions)
    modifies engine
    ensures engine.Valid() && engine.Cancellable()
  {
    for n := 0 to |actions|
      invariant engine.Valid() && engine.Cancellable()
      invariant forall id :: id in engine.orderToSymbol ==> BoundIn(actions[..n], id)
      invariant forall e :: e in engine.submitted ==> SubmittedIn(actions[..n], e.id)
    {
      OneMoreAction(actions, n);
      match actions[n]
      case Bind(id, symbol) =>
        UnboundRestsNowhere(engine.books, engine.orderToSymbol, id, symbol);
        engine.BindOrderSymbol(id, symbol);
      case Submit(side, price, qty, id, ts) =>
        if id in engine.orderToSymbol {
          NotSubmittedRestsNowhere(engine.books, engine.submitted, engine.filled, engine.cancelled,
                                   engine.orderToSymbol[id], id);
        }
        engine.Submit(side, price, qty, id, ts);
      case Cancel(id) =>
        engine.Cancel(id);
      case Print(ev, budget) =>
        engine.OnMarketEvent(ev, budget);
    }
  }

  /** Bound to another symbol in the meantime, an order is out of reach of its cancel. */
  method RebindingHidesAnOrder(o: Order, symbol: u64, other: u64) returns (engine: SimMatchingEngine)
    requires o.id != 0 && o.qty > 0 && symbol != other
    ensures fresh(engine) && engine.Valid() && !engine.Cancellable()
    ensures Resting(BookAt(engine.books, symbol), o.id) == o.qty
  {
    engine := new SimMatchingEngine();
    engine.BindOrderSymbol(o.id, symbol);
    engine.Submit(o.side, o.price, o.qty, o.id, o.ts);
    OneOrderRests(engine.books[symbol], o);
    engine.BindOrderSymbol(o.id, other);
    engine.Cancel(o.id);
    NoneRestsAt(engine.books, symbol, o.id);
    if engine.Cancellable() {
      TidyHere(engine.books, engine.orderToSymbol, symbol, o.id);
    }
  }

  lemma OneOrderRests(book: SymbolBook, o: Order)
    requires multiset(SideOf(book, o.side)) == multiset{o}
    requires book == WithSide(EMPTY_BOOK, o.side, SideOf(book, o.side))
    ensures Resting(book, o.id) == o.qty
  {
    assert multiset([o]) == multiset{o};
    QtyByIdOfPermutation(SideOf(book, o.side), [o], o.id);
    assert [o][1..] == [];
  }

  predicate BoundIn(actions: seq<Action>, id: u64) {
    exists k :: 0 <= k < |actions| && actions[k].Bind? && actions[k].id == id
  }

  predicate SubmittedIn(actions: seq<Action>, id: u64) {
    exists k :: 0 <= k < |actions| && actions[k].Submit? && actions[k].id == id
  }

  lemma OneMoreAction(actions: seq<Action>, n: nat)
    requires EachOnce(actions) && n < |actions|
    ensures actions[n].Bind? ==> !BoundIn(actions[..n], actions[n].id) && BoundIn(actions[..n + 1], actions[n].id)
    ensures actions[n].Submit? ==> !SubmittedIn(actions[..n], actions[n].id) && SubmittedIn(actions[..n + 1], actions[n].id)
    ensures forall id :: BoundIn(actions[..n], id) ==> BoundIn(actions[..n + 1], id)
    ensures forall id :: SubmittedIn(actions[..n], id) ==> SubmittedIn(actions[..n + 1], id)
  {
    var more := actions[..n + 1];
    assert more[n] == actions[n] && forall k :: 0 <= k < n ==> actions[..n][k] == more[k];
  }

  lemma UnboundRestsNowhere(books: map<u64, SymbolBook>, binding: map<u64, u64>, id: u64, symbol: u64)
    requires Tidy(books, binding) && GoodBooks(books) && id !in binding
    ensures !RestsElsewhere(books, id, symbol)
  {
    NothingToCancel(books, binding, id);
  }

  lemma {:induction false} SumNeedsEntry(log: seq<Entry>, symbol: u64, id: u64)
    requires forall e :: e in log ==> e.id != id
    ensures SumOf(log, symbol, id) == 0
  {
    if log != [] {
      assert log[|log| - 1] in log && forall e :: e in log[..|log| - 1] ==> e in log;
      SumNeedsEntry(log[..|log| - 1], symbol, id);
    }
  }

  lemma NotSubmittedRestsNowhere(books: map<u64, SymbolBook>, submitted: seq<Entry>, filled: seq<Entry>,
                                 cancelled: seq<Entry>, symbol: u64, id: u64)
    requires Conserved(books, submitted, filled, cancelled) && forall e :: e in submitted ==> e.id != id
    ensures Resting(BookAt(books, symbol), id) == 0
  {
    SumNeedsEntry(submitted, symbol, id);
    assert ConservedAt(books, submitted, filled, cancelled, symbol, id);
  }

  lemma PermutationKeepsPositive(v: seq<Order>, w: seq<Order>)
    requires Positive(v) && multiset(v) == multiset(w)
    ensures Positive(w)
  {
    forall i | 0 <= i < |w| ensures w[i].qty > 0 {
      assert w[i] in multiset(w);
      assert w[i] in multiset(v);
    }
  }

  lemma CancelKeepsBook(book: SymbolBook, id: u64)
    requires GoodBook(book)
    ensures GoodBook(SymbolBook(Without(book.bids, id), Without(book.asks, id)))
    ensures Resting(SymbolBook(Without(book.bids, id), Without(book.asks, id)), id) == 0
    ensures forall other :: other != id ==>
      Resting(SymbolBook(Without(book.bids, id), Without(book.asks, id)), other) == Resting(book, other)
  {
    WithoutKeepsOrder(book.bids, id, Bid);
    WithoutKeepsOrder(book.asks, id, Ask);
    forall other: u64
      ensures Resting(SymbolBook(Without(book.bids, id), Without(book.asks, id)), other)
              == if other == id then 0 else Resting(book, other)
    {
      WithoutKeepsOthers(book.bids, id, other);
      WithoutKeepsOthers(book.asks, id, other);
    }
  }

  /** The loop that fills and erases in place; it moves on only past an order it leaves a part of. */
  method RunFill(v: seq<Order>, side: OrderSide, limit: int, budget: nat, ts: u64)
    returns (after: seq<Order>, told: seq<Fill>, gone: set<u64>)
    ensures after == AfterFill(v, side, limit, budget) && told == FillsOf(v, side, limit, budget, ts)
    ensures gone == Exhausted(v, side, limit, budget)
  {
    var i: nat, left: nat := 0, budget;
    after, told, gone := v, [], {};
    FillingStarts(v, side, limit, budget, ts);
    while i < |after| && left > 0
      invariant i <= |after| && left <= budget
      invariant Filling(after, i, left, told, gone, v, side, limit, budget, ts)
      decreases |after| - i
    {
      var o := after[i];
      if !Eligible(side, o, limit) {
        break;
      }
      var take := Min(o.qty, left);
      var fill := FillOf(o, side, limit, take, ts);
      if o.qty - take == 0 {
        OneIsFilled(after, i, left, told, gone, v, side, limit, budget, ts);
        gone := gone + {o.id};
        after := after[..i] + after[i + 1..];
      } else {
        OneIsReduced(after, i, left, told, gone, v, side, limit, budget, ts);
        after := after[i := o.(qty := o.qty - take)];
        i := i + 1;
      }
      told := told + [fill];
      left := left - take;
    }
    FillingEnds(after, i, left, told, gone, v, side, limit, budget, ts);
  }

  /** Part of the print is done; what is left of it, on the orders from i on, gives the whole. */
  ghost predicate Filling(after: seq<Order>, i: nat, left: nat, told: seq<Fill>, gone: set<u64>,
                          v: seq<Order>, side: OrderSide, limit: int, budget: nat, ts: u64) {
    FillingFacts(after, i, left, told, gone, v, side, limit, budget, ts) == true
  }

  ghost predicate FillingFacts(after: seq<Order>, i: nat, left: nat, told: seq<Fill>, gone: set<u64>,
                               v: seq<Order>, side: OrderSide, limit: int, budget: nat, ts: u64) {
    forall u {:trigger Unsealed(u)} :: Unsealed(u) ==>
      && i <= |after|
      && after[..i] + AfterFill(after[i..], side, limit, left) == AfterFill(v, side, limit, budget)
      && told + FillsOf(after[i..], side, limit, left, ts) == FillsOf(v, side, limit, budget, ts)
      && gone + Exhausted(after[i..], side, limit, left) == Exhausted(v, side, limit, budget)
  }

  lemma FillingStarts(v: seq<Order>, side: OrderSide, limit: int, budget: nat, ts: u64)
    ensures Filling(v, 0, budget, [], {}, v, side, limit, budget, ts)
  {
    assert v[0..] == v && v[..0] == [];
    assert [] + AfterFill(v, side, limit, budget) == AfterFill(v, side, limit, budget);
    assert [] + FillsOf(v, side, limit, budget, ts) == FillsOf(v, side, limit, budget, ts);
  }

  lemma FillingEnds(after: seq<Order>, i: nat, left: nat, told: seq<Fill>, gone: set<u64>,
                    v: seq<Order>, side: OrderSide, limit: int, budget: nat, ts: u64)
    requires Filling(after, i, left, told, gone, v, side, limit, budget, ts) && i <= |after|
    requires i == |after| || left == 0 || !Eligible(side, after[i], limit)
    ensures after == AfterFill(v, side, limit, budget) && told == FillsOf(v, side, limit, budget, ts)
    ensures gone == Exhausted(v, side, limit, budget)
  {
    assert Unsealed(true);
    assert after[..i] + after[i..] == after && told + [] == told;
  }

  lemma OneIsFilled(after: seq<Order>, i: nat, left: nat, told: seq<Fill>, gone: set<u64>,
                    v: seq<Order>, side: OrderSide, limit: int, budget: nat, ts: u64)
    requires Filling(after, i, left, told, gone, v, side, limit, budget, ts)
    requires i < |after| && 0 < left && after[i].qty <= left && Eligible(side, after[i], limit)
    ensures var o := after[i];
            var more := told + [FillOf(o, side, limit, o.qty, ts)];
            Filling(after[..i] + after[i + 1..], i, left - o.qty, more, gone + {o.id}, v, side, limit, budget, ts)
  {
    assert Unsealed(true);
    var o, rest := after[i], after[i + 1..];
    assert after[i..][1..] == rest;
    FillsJoin(told, FillOf(o, side, limit, o.qty, ts), FillsOf(rest, side, limit, left - o.qty, ts));
    var shorter := after[..i] + rest;
    assert shorter[..i] == after[..i] && shorter[i..] == rest;
    assert [] + AfterFill(rest, side, limit, left - o.qty) == AfterFill(rest, side, limit, left - o.qty);
  }

  lemma OneIsReduced(after: seq<Order>, i: nat, left: nat, told: seq<Fill>, gone: set<u64>,
                     v: seq<Order>, side: OrderSide, limit: int, budget: nat, ts: u64)
    requires Filling(after, i, left, told, gone, v, side, limit, budget, ts)
    requires i < |after| && 0 < left < after[i].qty && Eligible(side, after[i], limit)
    ensures var o := after[i];
            var more := told + [FillOf(o, side, limit, left, ts)];
            Filling(after[i := o.(qty := o.qty - left)], i + 1, 0, more, gone, v, side, limit, budget, ts)
  {
    assert Unsealed(true);
    var o, rest := after[i], after[i + 1..];
    assert after[i..][1..] == rest;
    FillsJoin(told, FillOf(o, side, limit, left, ts), FillsOf(rest, side, limit, 0, ts));
    var changed := after[i := o.(qty := o.qty - left)];
    assert changed[..i + 1] == after[..i] + [changed[i]] && changed[i + 1..] == rest;
  }

  lemma FillsJoin(a: seq<Fill>, f: Fill, b: seq<Fill>)
    ensures (a + [f]) + b == a + ([f] + b)
  {
  }

}
