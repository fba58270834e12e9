/** One side of an engine book: a vector of price levels kept sorted, best price first. */
module PriceLevels {
  import opened Types
  import opened BookModel

  ghost predicate Positive(levels: seq<PriceLevel>) {
    forall i :: 0 <= i < |levels| ==> levels[i].qty > 0
  }

  /** The position that splits a sorted vector into better prices and the rest. */
  ghost predicate Splits(levels: seq<PriceLevel>, side: Side, price: u32, i: nat) {
    && i <= |levels|
    && (forall k :: 0 <= k < i ==> Better(side, levels[k].price, price))
    && (forall k :: i <= k < |levels| ==> !Better(side, levels[k].price, price))
  }

  method LowerBound(levels: seq<PriceLevel>, side: Side, price: u32) returns (i: nat)
    requires Sorted(levels, side)
    ensures Splits(levels, side, price, i)
  {
    i := 0;
    var count := |levels|;
    while count > 0
      invariant 0 <= count && i + count <= |levels|
      invariant forall k :: 0 <= k < i ==> Better(side, levels[k].price, price)
      invariant forall k :: i + count <= k < |levels| ==> !Better(side, levels[k].price, price)
    {
      var half := count / 2;
      if Better(side, levels[i + half].price, price) {
        i := i + half + 1;
        count := count - half - 1;
      } else {
        count := half;
      }
    }
  }

  lemma HereOrNowhere(levels: seq<PriceLevel>, side: Side, price: u32, i: nat)
    requires Sorted(levels, side) && Splits(levels, side, price, i)
    ensures Listed(levels, price) <==> i < |levels| && levels[i].price == price
    ensures QtyIn(levels, price) == if i < |levels| && levels[i].price == price then levels[i].qty else 0
  {
    if i < |levels| && levels[i].price == price {
      QtyInAt(levels, side, i);
    } else {
      forall k | 0 <= k < |levels| ensures levels[k].price != price {
        if i < k {
          assert Better(side, levels[i].price, levels[k].price);
        }
      }
      QtyInUnlisted(levels, price);
    }
  }

  /** Replacing the entry between two parts of a vector changes one price and no other. */
  lemma QtyInAround(a: seq<PriceLevel>, x: PriceLevel, b: seq<PriceLevel>, price: u32)
    requires !Listed(a, x.price)
    ensures QtyIn(a + [x] + b, price) == if price == x.price then x.qty else QtyIn(a + b, price)
  {
    QtyInOfConcat(a, [x] + b, price);
    QtyInOfConcat(a, b, price);
    assert a + [x] + b == a + ([x] + b);
    assert ([x] + b)[1..] == b;
  }

  method QtyAtPrice(levels: seq<PriceLevel>, side: Side, price: u32) returns (qty: nat)
    requires Sorted(levels, side)
    ensures qty == QtyIn(levels, price)
  {
    var i := LowerBound(levels, side, price);
    HereOrNowhere(levels, side, price, i);
    qty := if i == |levels| || levels[i].price != price then 0 else levels[i].qty;
  }

  method AddQty(levels: seq<PriceLevel>, side: Side, price: u32, qty: nat) returns (r: seq<PriceLevel>)
    requires Sorted(levels, side)
    ensures Sorted(r, side) && (Positive(levels) && qty > 0 ==> Positive(r))
    ensures forall p: u32 :: QtyIn(r, p) == QtyIn(levels, p) + if p == price then qty else 0
  {
    var i := LowerBound(levels, side, price);
    HereOrNowhere(levels, side, price, i);
    if i < |levels| && levels[i].price == price {
      r := levels[i := PriceLevel(price, levels[i].qty + qty)];
      PutBack(levels, side, i, r[i], r);
    } else {
      r := levels[..i] + [PriceLevel(price, qty)] + levels[i..];
      PutBetween(levels, side, i, PriceLevel(price, qty), r);
    }
  }

  lemma PutBetween(levels: seq<PriceLevel>, side: Side, i: nat, x: PriceLevel, after: seq<PriceLevel>)
    requires Sorted(levels, side) && Splits(levels, side, x.price, i) && !Listed(levels, x.price)
    requires after == levels[..i] + [x] + levels[i..]
    ensures Sorted(after, side) && (Positive(levels) && x.qty > 0 ==> Positive(after))
    ensures forall p: u32 :: QtyIn(after, p) == QtyIn(levels, p) + if p == x.price then x.qty else 0
  {
    PutBetweenIsSorted(levels, side, i, x, after);
    PutBetweenAdds(levels[..i], x, levels[i..]);
    assert levels[..i] + levels[i..] == levels;
  }

  lemma PutBetweenIsSorted(levels: seq<PriceLevel>, side: Side, i: nat, x: PriceLevel, after: seq<PriceLevel>)
    requires Sorted(levels, side) && Splits(levels, side, x.price, i) && !Listed(levels, x.price)
    requires after == levels[..i] + [x] + levels[i..]
    ensures Sorted(after, side)
  {
    forall m, n | 0 <= m < n < |after| ensures Better(side, after[m].price, after[n].price) {
      assert after[m] == if m < i then levels[m] else if m == i then x else levels[m - 1];
      assert after[n] == if n < i then levels[n] else if n == i then x else levels[n - 1];
      assert n > i ==> levels[n - 1].price != x.price;
    }
  }

  lemma PutBetweenAdds(a: seq<PriceLevel>, x: PriceLevel, b: seq<PriceLevel>)
    requires !Listed(a + b, x.price)
    ensures forall p: u32 :: QtyIn(a + [x] + b, p) == QtyIn(a + b, p) + if p == x.price then x.qty else 0
  {
    assert forall k :: 0 <= k < |a| ==> (a + b)[k] == a[k];
    QtyInUnlisted(a + b, x.price);
    forall p: u32 ensures QtyIn(a + [x] + b, p) == QtyIn(a + b, p) + if p == x.price then x.qty else 0 {
      QtyInAround(a, x, b, p);
    }
  }

  lemma PutBack(levels: seq<PriceLevel>, side: Side, i: nat, x: PriceLevel, after: seq<PriceLevel>)
    requires Sorted(levels, side) && i < |levels| && levels[i].price == x.price && after == levels[i := x]
    ensures Sorted(after, side)
    ensures Positive(levels) && x.qty > 0 ==> Positive(after)
    ensures forall p: u32 :: QtyIn(after, p) == if p == x.price then x.qty else QtyIn(levels, p)
  {
    assert forall k :: 0 <= k < |levels| ==> after[k].price == levels[k].price;
    var a, b := levels[..i], levels[i + 1..];
    assert after == a + [x] + b && levels == a + [levels[i]] + b;
    forall p: u32 ensures QtyIn(after, p) == if p == x.price then x.qty else QtyIn(levels, p) {
      QtyInAround(a, x, b, p);
      QtyInAround(a, levels[i], b, p);
    }
  }

  lemma TakenOut(levels: seq<PriceLevel>, side: Side, i: nat, after: seq<PriceLevel>)
    requires Sorted(levels, side) && i < |levels| && after == levels[..i] + levels[i + 1..]
    ensures Sorted(after, side) && !Listed(after, levels[i].price) && !Listed(levels[..i], levels[i].price)
  {
    forall m | 0 <= m < |after| ensures after[m] == levels[if m < i then m else m + 1] {
    }
  }

  lemma TakeOut(levels: seq<PriceLevel>, side: Side, i: nat)
    requires Sorted(levels, side) && i < |levels|
    ensures Sorted(levels[..i] + levels[i + 1..], side)
    ensures forall p: u32 ::
      QtyIn(levels[..i] + levels[i + 1..], p) == if p == levels[i].price then 0 else QtyIn(levels, p)
  {
    var a, x, b := levels[..i], levels[i], levels[i + 1..];
    TakenOut(levels, side, i, a + b);
    assert levels == a + [x] + b;
    TakeOutDrops(a, x, b);
  }

  lemma TakeOutDrops(a: seq<PriceLevel>, x: PriceLevel, b: seq<PriceLevel>)
    requires !Listed(a, x.price) && !Listed(a + b, x.price)
    ensures forall p: u32 :: QtyIn(a + b, p) == if p == x.price then 0 else QtyIn(a + [x] + b, p)
  {
    QtyInUnlisted(a + b, x.price);
    forall p: u32 ensures QtyIn(a + b, p) == if p == x.price then 0 else QtyIn(a + [x] + b, p) {
      QtyInAround(a, x, b, p);
    }
  }

  function LeftOf(have: nat, taken: nat): nat {
    if have > taken then have - taken else 0
  }

  /** A level is reduced, and erased when nothing is left of it. */
  method ReduceQty(levels: seq<PriceLevel>, side: Side, price: u32, qty: nat) returns (r: seq<PriceLevel>)
    requires Sorted(levels, side)
    ensures Sorted(r, side) && (Positive(levels) ==> Positive(r))
    ensures forall p: u32 :: QtyIn(r, p) == LeftOf(QtyIn(levels, p), if p == price then qty else 0)
  {
    var i := LowerBound(levels, side, price);
    HereOrNowhere(levels, side, price, i);
    if i == |levels| || levels[i].price != price {
      return levels;
    }
    if levels[i].qty > qty {
      r := levels[i := PriceLevel(price, levels[i].qty - qty)];
      PutBack(levels, side, i, r[i], r);
    } else {
      r := levels[..i] + levels[i + 1..];
      TakeOut(levels, side, i);
    }
  }
}
