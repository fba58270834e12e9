/**
  The slab of order nodes behind the intrusive book, as a value: which node holds which live order,
  the doubly linked queue of every level, the free list, and the key index.
 */
module SlabModel {
  import opened Types
  import opened BookModel
  import opened OrderTables

  const NULL: u32 := 0xFFFF_FFFF

  datatype OrderNode = OrderNode(order: Order, prev: u32, next: u32, live: bool)

  datatype Level = Level(price: u32, qty: nat, head: u32, tail: u32)

  datatype SideBook = SideBook(levels: map<u32, Level>, bestPrice: u32, hasBest: bool)

  const BLANK_NODE: OrderNode := OrderNode(Order(0, LevelId(Ladder(Nasdaq, 0, Unknown), 0), 0), NULL, NULL, false)

  const EMPTY_SIDE: SideBook := SideBook(map[], 0, false)

  function SideBookAt(sides: map<Ladder, SideBook>, ladder: Ladder): SideBook {
    if ladder in sides then sides[ladder] else EMPTY_SIDE
  }

  function LevelAt(sides: map<Ladder, SideBook>, lv: LevelId): Option<Level> {
    var side := SideBookAt(sides, lv.ladder);
    if lv.price in side.levels then Some(side.levels[lv.price]) else None
  }

  // ---- The queue of a level: the nodes of its orders, in arrival order ----

  ghost function Pick(live: seq<Order>, at: seq<nat>, lv: LevelId): seq<nat>
    requires |live| == |at|
  {
    if live == [] then []
    else
      var n := |live| - 1;
      Pick(live[..n], at[..n], lv) + if live[n].level == lv then [at[n]] else []
  }

  lemma PickOfOneMore(live: seq<Order>, at: seq<nat>, o: Order, idx: nat, lv: LevelId)
    requires |live| == |at|
    ensures Pick(live + [o], at + [idx], lv) == Pick(live, at, lv) + if o.level == lv then [idx] else []
  {
    assert (live + [o])[..|live|] == live && (at + [idx])[..|at|] == at;
  }

  lemma {:induction false} PickOfConcat(a: seq<Order>, b: seq<Order>, x: seq<nat>, y: seq<nat>, lv: LevelId)
    requires |a| == |x| && |b| == |y|
    ensures Pick(a + b, x + y, lv) == Pick(a, x, lv) + Pick(b, y, lv)
  {
    if b == [] {
      assert a + b == a && x + y == x;
    } else {
      var n := |b| - 1;
      var b0, y0, own := b[..n], y[..n], if b[n].level == lv then [y[n]] else [];
      assert a + b == (a + b0) + [b[n]] && x + y == (x + y0) + [y[n]];
      PickOfOneMore(a + b0, x + y0, b[n], y[n], lv);
      PickOfConcat(a, b0, x, y0, lv);
      assert (Pick(a, x, lv) + Pick(b0, y0, lv)) + own == Pick(a, x, lv) + (Pick(b0, y0, lv) + own);
    }
  }

  /** Only the levels of the orders matter. */
  lemma {:induction false} PickByLevels(live: seq<Order>, other: seq<Order>, at: seq<nat>, lv: LevelId)
    requires |live| == |other| == |at|
    requires forall i :: 0 <= i < |live| ==> live[i].level == other[i].level
    ensures Pick(live, at, lv) == Pick(other, at, lv)
  {
    if live != [] {
      var n := |live| - 1;
      PickByLevels(live[..n], other[..n], at[..n], lv);
    }
  }

  lemma {:induction false} PickedFrom(live: seq<Order>, at: seq<nat>, lv: LevelId, j: nat) returns (i: nat)
    requires |live| == |at| && j < |Pick(live, at, lv)|
    ensures i < |at| && at[i] == Pick(live, at, lv)[j] && live[i].level == lv
  {
    var n := |live| - 1;
    if j < |Pick(live[..n], at[..n], lv)| {
      i := PickedFrom(live[..n], at[..n], lv, j);
    } else {
      i := n;
    }
  }

  function WithoutAt(at: seq<nat>, p: nat): seq<nat>
    requires p < |at|
  {
    at[..p] + at[p + 1..]
  }

  /** Around one order: its level's queue is the nodes before it, its own, and the nodes after it. */
  lemma PickAround(live: seq<Order>, at: seq<nat>, p: nat, lv: LevelId)
    requires |live| == |at| && p < |live|
    ensures var a, b := Pick(live[..p], at[..p], lv), Pick(live[p + 1..], at[p + 1..], lv);
            && Pick(live, at, lv) == a + (if live[p].level == lv then [at[p]] else []) + b
            && Pick(Without(live, p), WithoutAt(at, p), lv) == a + b
  {
    PickOfOneMore(live[..p], at[..p], live[p], at[p], lv);
    PickOfConcat(live[..p] + [live[p]], live[p + 1..], at[..p] + [at[p]], at[p + 1..], lv);
    PickOfConcat(live[..p], live[p + 1..], at[..p], at[p + 1..], lv);
    assert live == live[..p] + [live[p]] + live[p + 1..];
    assert at == at[..p] + [at[p]] + at[p + 1..];
  }

  // ---- What every tape keeps ----

  ghost predicate Distinct(s: seq<nat>) {
    forall i, j :: 0 <= i < j < |s| ==> s[i] != s[j]
  }

  /** Every live order has a node of its own, and every live node has an order. */
  ghost predicate Held(nodes: seq<OrderNode>, live: seq<Order>, at: seq<nat>) {
    && |live| == |at| && Distinct(at)
    && (forall i :: 0 <= i < |at| ==> at[i] < |nodes| && nodes[at[i]].live && nodes[at[i]].order == live[i])
    && (forall x :: 0 <= x < |nodes| && nodes[x].live ==> x in at)
  }

  /** Every node is free once or live once. */
  ghost predicate Partitioned(size: nat, free: seq<nat>, at: seq<nat>) {
    && Distinct(free) && |free| + |at| == size
    && (forall x :: x in free ==> x < size && x !in at)
    && (forall x :: 0 <= x < size ==> x in free || x in at)
  }

  ghost predicate LinkedAt(nodes: seq<OrderNode>, chain: seq<nat>, j: nat)
    requires j < |chain|
  {
    && chain[j] < |nodes|
    && nodes[chain[j]].prev == LastOf(chain[..j])
    && nodes[chain[j]].next == FirstOf(chain[j + 1..])
  }

  ghost predicate Threaded(nodes: seq<OrderNode>, chain: seq<nat>) {
    forall j :: 0 <= j < |chain| ==> LinkedAt(nodes, chain, j)
  }

  ghost function FirstOf(chain: seq<nat>): nat {
    if chain == [] then NULL else chain[0]
  }

  ghost function LastOf(chain: seq<nat>): nat {
    if chain == [] then NULL else chain[|chain| - 1]
  }

  ghost predicate Threads(nodes: seq<OrderNode>, live: seq<Order>, at: seq<nat>)
    requires |live| == |at|
  {
    forall lv: LevelId :: Threaded(nodes, Pick(live, at, lv))
  }

  /** A level exists exactly when its queue is not empty; then it holds the ends and the sum of the queue. */
  ghost predicate ShowsQueue(level: Option<Level>, price: u32, chain: seq<nat>, qty: nat) {
    if chain == [] then level == None
    else
      && level.Some? && level.value.price == price && level.value.qty == qty
      && level.value.head == FirstOf(chain) && level.value.tail == LastOf(chain)
  }

  ghost predicate LevelsHold(sides: map<Ladder, SideBook>, live: seq<Order>, at: seq<nat>)
    requires |live| == |at|
  {
    forall lv: LevelId :: LevelHolds(sides, live, at, lv)
  }

  ghost predicate LevelHolds(sides: map<Ladder, SideBook>, live: seq<Order>, at: seq<nat>, lv: LevelId)
    requires |live| == |at|
  {
    ShowsQueue(LevelAt(sides, lv), lv.price, Pick(live, at, lv), QtyAt(live, lv))
  }

  ghost predicate IndexHolds(index: map<u64, nat>, live: seq<Order>, at: seq<nat>)
    requires |live| == |at|
  {
    forall k :: k in index ==> exists p :: 0 <= p < |live| && live[p].key == k && at[p] == index[k]
  }

  ghost predicate Sound(nodes: seq<OrderNode>, free: seq<nat>, sides: map<Ladder, SideBook>,
                        index: map<u64, nat>, live: seq<Order>, at: seq<nat>) {
    SoundFacts(nodes, free, sides, index, live, at) == true
  }

  ghost predicate SoundFacts(nodes: seq<OrderNode>, free: seq<nat>, sides: map<Ladder, SideBook>,
                             index: map<u64, nat>, live: seq<Order>, at: seq<nat>) {
    forall u {:trigger Unsealed(u)} :: Unsealed(u) ==>
      && |nodes| <= NULL && Held(nodes, live, at) && Partitioned(|nodes|, free, at) && Threads(nodes, live, at)
      && LevelsHold(sides, live, at) && IndexHolds(index, live, at)
  }

  // ---- Appending a node to the queue of its level ----

  function Appended(nodes: seq<OrderNode>, tail: u32, idx: u32, o: Order): seq<OrderNode>
    requires idx < |nodes| && (tail == NULL || tail < |nodes|)
  {
    var linked := if tail == NULL then nodes else nodes[tail := nodes[tail].(next := idx)];
    linked[idx := OrderNode(o, tail, NULL, true)]
  }

  lemma Untouched(nodes: seq<OrderNode>, after: seq<OrderNode>, chain: seq<nat>)
    requires Threaded(nodes, chain) && |after| == |nodes|
    requires forall j :: 0 <= j < |chain| ==> chain[j] < |nodes|
    requires forall j :: 0 <= j < |chain| ==>
      after[chain[j]].prev == nodes[chain[j]].prev && after[chain[j]].next == nodes[chain[j]].next
    ensures Threaded(after, chain)
  {
    forall j | 0 <= j < |chain| ensures LinkedAt(after, chain, j) {
      assert LinkedAt(nodes, chain, j);
    }
  }

  lemma ChainsAreApart(live: seq<Order>, at: seq<nat>, lv: LevelId, p: nat, j: nat)
    requires |live| == |at| && Distinct(at) && p < |live| && live[p].level != lv && j < |Pick(live, at, lv)|
    ensures Pick(live, at, lv)[j] != at[p]
  {
    var i := PickedFrom(live, at, lv, j);
  }

  lemma {:induction false} PickIsDistinct(live: seq<Order>, at: seq<nat>, lv: LevelId)
    requires |live| == |at| && Distinct(at)
    ensures Distinct(Pick(live, at, lv))
  {
    if live != [] {
      var n := |live| - 1;
      PickIsDistinct(live[..n], at[..n], lv);
      forall j | 0 <= j < |Pick(live[..n], at[..n], lv)| ensures Pick(live[..n], at[..n], lv)[j] != at[n] {
        var i := PickedFrom(live[..n], at[..n], lv, j);
      }
    }
  }

  lemma AppendThreadsOwn(nodes: seq<OrderNode>, chain: seq<nat>, idx: u32, o: Order, tail: u32)
    requires Threaded(nodes, chain) && Distinct(chain) && idx < |nodes| <= NULL
    requires idx !in chain && tail == LastOf(chain)
    requires tail == NULL || tail < |nodes|
    ensures Threaded(Appended(nodes, tail, idx, o), chain + [idx])
  {
    var after, longer := Appended(nodes, tail, idx, o), chain + [idx];
    forall j | 0 <= j < |longer| ensures LinkedAt(after, longer, j) {
      if j == |chain| {
        assert longer[..j] == chain && longer[j + 1..] == [];
      } else {
        assert LinkedAt(nodes, chain, j);
        assert longer[..j] == chain[..j] && longer[j + 1..] == chain[j + 1..] + [idx];
        assert chain[j] in chain;
        assert j == |chain| - 1 <==> chain[j] == tail;
      }
    }
  }

  lemma AppendKeepsThreads(nodes: seq<OrderNode>, live: seq<Order>, at: seq<nat>, idx: u32, o: Order, tail: u32)
    requires Held(nodes, live, at) && Threads(nodes, live, at) && idx < |nodes| <= NULL && idx !in at
    requires tail == LastOf(Pick(live, at, o.level)) && (tail == NULL || tail < |nodes|)
    ensures Held(Appended(nodes, tail, idx, o), live + [o], at + [idx])
    ensures Threads(Appended(nodes, tail, idx, o), live + [o], at + [idx])
  {
    AppendKeepsHeld(nodes, live, at, idx, o, tail);
    forall lv: LevelId ensures Threaded(Appended(nodes, tail, idx, o), Pick(live + [o], at + [idx], lv)) {
      PickOfOneMore(live, at, o, idx, lv);
      var chain := Pick(live, at, lv);
      assert Threaded(nodes, chain);
      if lv == o.level {
        forall j | 0 <= j < |chain| ensures chain[j] != idx {
          ChainInRange(nodes, live, at, lv, j);
        }
        PickIsDistinct(live, at, lv);
        AppendThreadsOwn(nodes, chain, idx, o, tail);
      } else {
        assert chain + [] == chain;
        AppendMissesOthers(nodes, live, at, idx, o, tail, lv);
      }
    }
  }

  lemma ChainInRange(nodes: seq<OrderNode>, live: seq<Order>, at: seq<nat>, lv: LevelId, j: nat)
    requires Held(nodes, live, at) && j < |Pick(live, at, lv)|
    ensures Pick(live, at, lv)[j] in at && Pick(live, at, lv)[j] < |nodes|
  {
    var i := PickedFrom(live, at, lv, j);
  }

  lemma AppendMissesOthers(nodes: seq<OrderNode>, live: seq<Order>, at: seq<nat>, idx: u32, o: Order, tail: u32, lv: LevelId)
    requires Held(nodes, live, at) && Threaded(nodes, Pick(live, at, lv)) && idx < |nodes| <= NULL && idx !in at
    requires tail == LastOf(Pick(live, at, o.level)) && (tail == NULL || tail < |nodes|)
    requires lv != o.level
    ensures Threaded(Appended(nodes, tail, idx, o), Pick(live, at, lv))
  {
    var chain, own := Pick(live, at, lv), Pick(live, at, o.level);
    var q: nat := 0;
    if own != [] {
      q := PickedFrom(live, at, o.level, |own| - 1);
    }
    forall j | 0 <= j < |chain| ensures chain[j] < |nodes| && chain[j] != idx && chain[j] != tail {
      ChainInRange(nodes, live, at, lv, j);
      if own != [] {
        ChainsAreApart(live, at, lv, q, j);
      }
    }
    Untouched(nodes, Appended(nodes, tail, idx, o), chain);
  }

  lemma AppendKeepsHeld(nodes: seq<OrderNode>, live: seq<Order>, at: seq<nat>, idx: u32, o: Order, tail: u32)
    requires Held(nodes, live, at) && idx < |nodes| <= NULL && idx !in at
    requires tail == LastOf(Pick(live, at, o.level)) && (tail == NULL || tail < |nodes|)
    ensures Held(Appended(nodes, tail, idx, o), live + [o], at + [idx])
  {
    var after, orders, places := Appended(nodes, tail, idx, o), live + [o], at + [idx];
    if tail != NULL {
      var q := PickedFrom(live, at, o.level, |Pick(live, at, o.level)| - 1);
    }
    forall i | 0 <= i < |places|
      ensures places[i] < |after| && after[places[i]].live && after[places[i]].order == orders[i]
    {
      assert i < |at| ==> at[i] in at;
    }
    forall x | 0 <= x < |after| && after[x].live ensures x in places {
      if x != idx {
        assert nodes[x].live;
      } else {
        assert places[|at|] == idx;
      }
    }
  }

  // ---- Taking a node out of the queue of its level ----

  function Unlinked(nodes: seq<OrderNode>, idx: u32): seq<OrderNode>
    requires idx < |nodes|
    requires nodes[idx].prev == NULL || nodes[idx].prev < |nodes|
    requires nodes[idx].next == NULL || nodes[idx].next < |nodes|
  {
    var node := nodes[idx];
    var a := if node.prev == NULL then nodes else nodes[node.prev := nodes[node.prev].(next := node.next)];
    var b := if node.next == NULL then a else a[node.next := a[node.next].(prev := node.prev)];
    b[idx := BLANK_NODE]
  }

  lemma NeighboursOf(nodes: seq<OrderNode>, live: seq<Order>, at: seq<nat>, p: nat)
    requires Held(nodes, live, at) && Threads(nodes, live, at) && p < |live| && |nodes| <= NULL
    ensures var a := Pick(live[..p], at[..p], live[p].level);
            var b := Pick(live[p + 1..], at[p + 1..], live[p].level);
            && nodes[at[p]].prev == LastOf(a) && nodes[at[p]].next == FirstOf(b)
            && (if a == [] then nodes[at[p]].prev == NULL else nodes[at[p]].prev < |nodes|)
            && (if b == [] then nodes[at[p]].next == NULL else nodes[at[p]].next < |nodes|)
  {
    PickAround(live, at, p, live[p].level);
    var a := Pick(live[..p], at[..p], live[p].level);
    var b := Pick(live[p + 1..], at[p + 1..], live[p].level);
    var chain := Pick(live, at, live[p].level);
    assert Threaded(nodes, chain) && chain == a + [at[p]] + b;
    assert LinkedAt(nodes, chain, |a|);
    assert chain[..|a|] == a && chain[|a| + 1..] == b;
    if a != [] {
      assert LinkedAt(nodes, chain, |a| - 1);
    }
    if b != [] {
      assert LinkedAt(nodes, chain, |a| + 1);
    }
  }

  lemma UnlinkThreadsOwn(nodes: seq<OrderNode>, a: seq<nat>, idx: u32, b: seq<nat>)
    requires Threaded(nodes, a + [idx] + b) && Distinct(a + [idx] + b) && idx < |nodes| <= NULL
    requires nodes[idx].prev == LastOf(a) && nodes[idx].next == FirstOf(b)
    requires nodes[idx].prev == NULL || nodes[idx].prev < |nodes|
    requires nodes[idx].next == NULL || nodes[idx].next < |nodes|
    ensures Threaded(Unlinked(nodes, idx), a + b)
  {
    forall j | 0 <= j < |a + b| ensures LinkedAt(Unlinked(nodes, idx), a + b, j) {
      if j < |a| {
        UnlinkedBefore(nodes, a, idx, b, j);
      } else {
        UnlinkedAfter(nodes, a, idx, b, j - |a|);
      }
    }
  }

  lemma UnlinkedBefore(nodes: seq<OrderNode>, a: seq<nat>, idx: u32, b: seq<nat>, j: nat)
    requires Threaded(nodes, a + [idx] + b) && Distinct(a + [idx] + b) && idx < |nodes| <= NULL
    requires nodes[idx].prev == LastOf(a) && nodes[idx].next == FirstOf(b)
    requires nodes[idx].prev == NULL || nodes[idx].prev < |nodes|
    requires nodes[idx].next == NULL || nodes[idx].next < |nodes|
    requires j < |a|
    ensures LinkedAt(Unlinked(nodes, idx), a + b, j)
  {
    var chain, x := a + [idx] + b, a[j];
    assert LinkedAt(nodes, chain, j) && chain[j] == x && chain[|a|] == idx;
    assert chain[..j] == a[..j] == (a + b)[..j];
    assert chain[j + 1..] == a[j + 1..] + [idx] + b && (a + b)[j + 1..] == a[j + 1..] + b;
    assert chain[|a| - 1] == LastOf(a);
    assert x == LastOf(a) <==> j == |a| - 1;
    if b != [] {
      assert chain[|a| + 1] == FirstOf(b);
    } else {
      assert x != FirstOf(b);
    }
  }

  lemma UnlinkedAfter(nodes: seq<OrderNode>, a: seq<nat>, idx: u32, b: seq<nat>, j: nat)
    requires Threaded(nodes, a + [idx] + b) && Distinct(a + [idx] + b) && idx < |nodes| <= NULL
    requires nodes[idx].prev == LastOf(a) && nodes[idx].next == FirstOf(b)
    requires nodes[idx].prev == NULL || nodes[idx].prev < |nodes|
    requires nodes[idx].next == NULL || nodes[idx].next < |nodes|
    requires j < |b|
    ensures LinkedAt(Unlinked(nodes, idx), a + b, |a| + j)
  {
    var chain, x, was := a + [idx] + b, b[j], |a| + 1 + j;
    assert LinkedAt(nodes, chain, was) && chain[was] == x && chain[|a|] == idx && (a + b)[|a| + j] == x;
    assert chain[..was] == a + [idx] + b[..j] && (a + b)[..|a| + j] == a + b[..j];
    assert chain[was + 1..] == b[j + 1..] == (a + b)[|a| + j + 1..];
    assert chain[|a| + 1] == FirstOf(b);
    assert x == FirstOf(b) <==> j == 0;
    if a != [] {
      assert chain[|a| - 1] == LastOf(a);
    } else {
      assert x != LastOf(a);
    }
  }

  lemma UnlinkKeepsHeld(nodes: seq<OrderNode>, live: seq<Order>, at: seq<nat>, p: nat)
    requires Held(nodes, live, at) && p < |live| && |nodes| <= NULL
    requires nodes[at[p]].prev == NULL || nodes[at[p]].prev < |nodes|
    requires nodes[at[p]].next == NULL || nodes[at[p]].next < |nodes|
    ensures Held(Unlinked(nodes, at[p]), Without(live, p), WithoutAt(at, p))
  {
    var after, orders, places := Unlinked(nodes, at[p]), Without(live, p), WithoutAt(at, p);
    forall i | 0 <= i < |places|
      ensures places[i] < |after| && after[places[i]].live && after[places[i]].order == orders[i]
    {
      var was := if i < p then i else i + 1;
      assert places[i] == at[was] && at[was] != at[p] && orders[i] == live[was];
    }
    forall x | 0 <= x < |after| && after[x].live ensures x in places {
      assert x != at[p];
      StillPlaced(at, p, x);
    }
    WithoutIsDistinct(at, p);
  }

  lemma StillPlaced(at: seq<nat>, p: nat, x: nat)
    requires p < |at| && x in at && x != at[p]
    ensures x in WithoutAt(at, p)
  {
    var i :| 0 <= i < |at| && at[i] == x;
    assert WithoutAt(at, p)[if i < p then i else i - 1] == x;
  }

  lemma WithoutIsDistinct(at: seq<nat>, p: nat)
    requires Distinct(at) && p < |at|
    ensures Distinct(WithoutAt(at, p)) && at[p] !in WithoutAt(at, p)
  {
    var places := WithoutAt(at, p);
    forall i | 0 <= i < |places| ensures places[i] == at[if i < p then i else i + 1] && places[i] != at[p] {
    }
  }

  lemma UnlinkKeepsThreads(nodes: seq<OrderNode>, live: seq<Order>, at: seq<nat>, p: nat)
    requires Held(nodes, live, at) && Threads(nodes, live, at) && p < |live| && |nodes| <= NULL
    ensures nodes[at[p]].prev == NULL || nodes[at[p]].prev < |nodes|
    ensures nodes[at[p]].next == NULL || nodes[at[p]].next < |nodes|
    ensures Threads(Unlinked(nodes, at[p]), Without(live, p), WithoutAt(at, p))
  {
    NeighboursOf(nodes, live, at, p);
    forall lv: LevelId ensures Threaded(Unlinked(nodes, at[p]), Pick(Without(live, p), WithoutAt(at, p), lv)) {
      if lv == live[p].level {
        UnlinkKeepsOwn(nodes, live, at, p);
      } else {
        PickElsewhere(live, at, p, lv);
        UnlinkMissesOthers(nodes, live, at, p, lv);
      }
    }
  }

  lemma PickElsewhere(live: seq<Order>, at: seq<nat>, p: nat, lv: LevelId)
    requires |live| == |at| && p < |live| && lv != live[p].level
    ensures Pick(Without(live, p), WithoutAt(at, p), lv) == Pick(live, at, lv)
  {
    PickAround(live, at, p, lv);
    var a, b := Pick(live[..p], at[..p], lv), Pick(live[p + 1..], at[p + 1..], lv);
    assert a + [] + b == a + b;
  }

  lemma UnlinkKeepsOwn(nodes: seq<OrderNode>, live: seq<Order>, at: seq<nat>, p: nat)
    requires Held(nodes, live, at) && Threads(nodes, live, at) && p < |live| && |nodes| <= NULL
    ensures nodes[at[p]].prev == NULL || nodes[at[p]].prev < |nodes|
    ensures nodes[at[p]].next == NULL || nodes[at[p]].next < |nodes|
    ensures Threaded(Unlinked(nodes, at[p]), Pick(Without(live, p), WithoutAt(at, p), live[p].level))
  {
    var lv := live[p].level;
    NeighboursOf(nodes, live, at, p);
    PickAround(live, at, p, lv);
    assert Threaded(nodes, Pick(live, at, lv));
    PickIsDistinct(live, at, lv);
    UnlinkThreadsOwn(nodes, Pick(live[..p], at[..p], lv), at[p], Pick(live[p + 1..], at[p + 1..], lv));
  }

  lemma UnlinkMissesOthers(nodes: seq<OrderNode>, live: seq<Order>, at: seq<nat>, p: nat, lv: LevelId)
    requires Held(nodes, live, at) && Threads(nodes, live, at) && p < |live| && |nodes| <= NULL
    requires nodes[at[p]].prev == NULL || nodes[at[p]].prev < |nodes|
    requires nodes[at[p]].next == NULL || nodes[at[p]].next < |nodes|
    requires lv != live[p].level
    ensures Threaded(Unlinked(nodes, at[p]), Pick(live, at, lv))
  {
    var chain := Pick(live, at, lv);
    assert Threaded(nodes, chain);
    forall j | 0 <= j < |chain|
      ensures chain[j] < |nodes|
      ensures Unlinked(nodes, at[p])[chain[j]] == nodes[chain[j]]
    {
      OtherChainMissesNeighbours(nodes, live, at, p, lv, j);
    }
    Untouched(nodes, Unlinked(nodes, at[p]), chain);
  }

  /** The neighbours of a node hold orders of the same level. */
  lemma NeighboursAreOfLevel(nodes: seq<OrderNode>, live: seq<Order>, at: seq<nat>, p: nat)
    returns (before: nat, behind: nat)
    requires Held(nodes, live, at) && Threads(nodes, live, at) && p < |live| && |nodes| <= NULL
    ensures nodes[at[p]].prev != NULL ==>
      before < |live| && live[before].level == live[p].level && at[before] == nodes[at[p]].prev
    ensures nodes[at[p]].next != NULL ==>
      behind < |live| && live[behind].level == live[p].level && at[behind] == nodes[at[p]].next
  {
    NeighboursOf(nodes, live, at, p);
    before, behind := 0, 0;
    if nodes[at[p]].prev != NULL {
      before := PickedFrom(live[..p], at[..p], live[p].level, |Pick(live[..p], at[..p], live[p].level)| - 1);
    }
    if nodes[at[p]].next != NULL {
      var q := PickedFrom(live[p + 1..], at[p + 1..], live[p].level, 0);
      behind := p + 1 + q;
    }
  }

  lemma OtherChainMissesNeighbours(nodes: seq<OrderNode>, live: seq<Order>, at: seq<nat>, p: nat, lv: LevelId, j: nat)
    requires Held(nodes, live, at) && Threads(nodes, live, at) && p < |live| && |nodes| <= NULL
    requires lv != live[p].level && j < |Pick(live, at, lv)|
    ensures var x := Pick(live, at, lv)[j]; x != at[p] && x != nodes[at[p]].prev && x != nodes[at[p]].next && x < |nodes|
  {
    var before, behind := NeighboursAreOfLevel(nodes, live, at, p);
    ChainInRange(nodes, live, at, lv, j);
    ChainsAreApart(live, at, lv, p, j);
    if nodes[at[p]].prev != NULL {
      ChainsAreApart(live, at, lv, before, j);
    }
    if nodes[at[p]].next != NULL {
      ChainsAreApart(live, at, lv, behind, j);
    }
  }

  // ---- Reducing an order where it stands ----

  /** The order in a node loses a quantity. */
  function Resized(nodes: seq<OrderNode>, idx: nat, dec: nat): seq<OrderNode>
    requires idx < |nodes| && dec <= nodes[idx].order.qty
  {
    var o := nodes[idx].order;
    nodes[idx := nodes[idx].(order := o.(qty := o.qty - dec))]
  }

  lemma ShrinkKeepsThreads(nodes: seq<OrderNode>, live: seq<Order>, at: seq<nat>, p: nat, dec: nat)
    requires Held(nodes, live, at) && Threads(nodes, live, at) && p < |live| && dec <= live[p].qty
    ensures var after := nodes[at[p] := nodes[at[p]].(order := Shrunk(live, p, dec)[p])];
            Held(after, Shrunk(live, p, dec), at) && Threads(after, Shrunk(live, p, dec), at)
  {
    var after := nodes[at[p] := nodes[at[p]].(order := Shrunk(live, p, dec)[p])];
    forall lv: LevelId ensures Threaded(after, Pick(Shrunk(live, p, dec), at, lv)) {
      PickByLevels(live, Shrunk(live, p, dec), at, lv);
      assert Threaded(nodes, Pick(live, at, lv));
      forall j | 0 <= j < |Pick(live, at, lv)| ensures Pick(live, at, lv)[j] < |nodes| {
        ChainInRange(nodes, live, at, lv, j);
      }
      Untouched(nodes, after, Pick(live, at, lv));
    }
  }

  // ---- Levels ----

  /** The level that an order joins: the one there is, or a new empty one. */
  function LevelFor(sides: map<Ladder, SideBook>, lv: LevelId): Level {
    var level := LevelAt(sides, lv);
    if level == None then Level(lv.price, 0, NULL, NULL) else level.value
  }

  function Joined(level: Level, o: Order, idx: u32): Level {
    Level(level.price, level.qty + o.qty, if level.tail == NULL then idx else level.head, idx)
  }

  function Left(level: Level, node: OrderNode): Level {
    Level(level.price, if level.qty > node.order.qty then level.qty - node.order.qty else 0,
          if node.prev == NULL then node.next else level.head,
          if node.next == NULL then node.prev else level.tail)
  }

  ghost predicate OnlyLevel(was: map<Ladder, SideBook>, now: map<Ladder, SideBook>, lv: LevelId, level: Option<Level>) {
    forall other: LevelId :: LevelAt(now, other) == if other == lv then level else LevelAt(was, other)
  }

  lemma {:induction false} NoOrdersNoQty(live: seq<Order>, at: seq<nat>, lv: LevelId)
    requires |live| == |at| && Pick(live, at, lv) == []
    ensures QtyAt(live, lv) == 0
  {
    if live != [] {
      NoOrdersNoQty(live[..|live| - 1], at[..|live| - 1], lv);
    }
  }

  lemma LeaveShows(level: Level, price: u32, a: seq<nat>, idx: nat, b: seq<nat>, qty: nat, node: OrderNode)
    requires ShowsQueue(Some(level), price, a + [idx] + b, qty + node.order.qty)
    requires node.prev == LastOf(a) && node.next == FirstOf(b) && (a + b == [] ==> qty == 0)
    requires (a != [] ==> LastOf(a) < NULL && FirstOf(a) < NULL) && (b != [] ==> FirstOf(b) < NULL)
    ensures var left := Left(level, node);
            ShowsQueue(if left.head == NULL then None else Some(left), price, a + b, qty)
  {
    var chain, left := a + [idx] + b, Left(level, node);
    assert FirstOf(chain) == if a == [] then idx else FirstOf(a);
    assert LastOf(chain) == if b == [] then idx else LastOf(b);
    assert left.qty == qty;
    if a + b != [] {
      assert FirstOf(a + b) == if a == [] then FirstOf(b) else FirstOf(a);
      assert LastOf(a + b) == if b == [] then LastOf(a) else LastOf(b);
    }
  }

  lemma JoinKeepsLevels(nodes: seq<OrderNode>, sides: map<Ladder, SideBook>, now: map<Ladder, SideBook>,
                        live: seq<Order>, at: seq<nat>, o: Order, idx: u32)
    requires Held(nodes, live, at) && |nodes| <= NULL && LevelsHold(sides, live, at)
    requires OnlyLevel(sides, now, o.level, Some(Joined(LevelFor(sides, o.level), o, idx)))
    ensures LevelFor(sides, o.level).tail == LastOf(Pick(live, at, o.level))
    ensures LevelsHold(now, live + [o], at + [idx])
  {
    JoinShowsOwn(nodes, sides, live, at, o, idx);
    forall lv: LevelId ensures LevelHolds(now, live + [o], at + [idx], lv) {
      assert LevelHolds(sides, live, at, lv);
      assert LevelAt(now, lv) == if lv == o.level then Some(Joined(LevelFor(sides, lv), o, idx)) else LevelAt(sides, lv);
      JoinElsewhere(live, at, o, idx, lv);
    }
  }

  lemma JoinElsewhere(live: seq<Order>, at: seq<nat>, o: Order, idx: u32, lv: LevelId)
    requires |live| == |at|
    ensures lv != o.level ==>
      Pick(live + [o], at + [idx], lv) == Pick(live, at, lv) && QtyAt(live + [o], lv) == QtyAt(live, lv)
  {
    PickOfOneMore(live, at, o, idx, lv);
    QtyAtOfOneMore(live, o, lv);
    assert Pick(live, at, lv) + [] == Pick(live, at, lv);
  }

  lemma JoinShowsOwn(nodes: seq<OrderNode>, sides: map<Ladder, SideBook>, live: seq<Order>, at: seq<nat>,
                     o: Order, idx: u32)
    requires Held(nodes, live, at) && |nodes| <= NULL && LevelsHold(sides, live, at)
    ensures var joined := Joined(LevelFor(sides, o.level), o, idx);
            && LevelFor(sides, o.level).tail == LastOf(Pick(live, at, o.level))
            && ShowsQueue(Some(joined), o.level.price, Pick(live + [o], at + [idx], o.level), QtyAt(live + [o], o.level))
  {
    var own := Pick(live, at, o.level);
    if own == [] {
      NoOrdersNoQty(live, at, o.level);
    } else {
      ChainInRange(nodes, live, at, o.level, |own| - 1);
    }
    assert LevelHolds(sides, live, at, o.level);
    PickOfOneMore(live, at, o, idx, o.level);
    QtyAtOfOneMore(live, o, o.level);
  }

  lemma LeaveKeepsLevels(nodes: seq<OrderNode>, sides: map<Ladder, SideBook>, now: map<Ladder, SideBook>,
                         live: seq<Order>, at: seq<nat>, p: nat)
    requires Held(nodes, live, at) && Threads(nodes, live, at) && |nodes| <= NULL
    requires LevelsHold(sides, live, at) && p < |live|
    requires var left := Left(LevelFor(sides, live[p].level), nodes[at[p]]);
             OnlyLevel(sides, now, live[p].level, if left.head == NULL then None else Some(left))
    ensures LevelsHold(now, Without(live, p), WithoutAt(at, p))
  {
    LeaveShowsOwn(nodes, sides, live, at, p);
    var left := Left(LevelFor(sides, live[p].level), nodes[at[p]]);
    forall lv: LevelId ensures LevelHolds(now, Without(live, p), WithoutAt(at, p), lv) {
      assert LevelHolds(sides, live, at, lv);
      assert LevelAt(now, lv) ==
        if lv == live[p].level then (if left.head == NULL then None else Some(left)) else LevelAt(sides, lv);
      LeaveElsewhere(live, at, p, lv);
    }
  }

  lemma LeaveElsewhere(live: seq<Order>, at: seq<nat>, p: nat, lv: LevelId)
    requires |live| == |at| && p < |live|
    ensures lv != live[p].level ==>
      && Pick(Without(live, p), WithoutAt(at, p), lv) == Pick(live, at, lv)
      && QtyAt(Without(live, p), lv) == QtyAt(live, lv)
  {
    QtyAtWithout(live, p, lv);
    if lv != live[p].level {
      PickElsewhere(live, at, p, lv);
    }
  }

  lemma LeaveShowsOwn(nodes: seq<OrderNode>, sides: map<Ladder, SideBook>, live: seq<Order>, at: seq<nat>, p: nat)
    requires Held(nodes, live, at) && Threads(nodes, live, at) && |nodes| <= NULL
    requires LevelsHold(sides, live, at) && p < |live|
    ensures var lv := live[p].level;
            var left := Left(LevelFor(sides, lv), nodes[at[p]]);
            ShowsQueue(if left.head == NULL then None else Some(left), lv.price,
                       Pick(Without(live, p), WithoutAt(at, p), lv), QtyAt(Without(live, p), lv))
  {
    var lv := live[p].level;
    assert LevelHolds(sides, live, at, lv);
    PickAround(live, at, p, lv);
    NeighboursOf(nodes, live, at, p);
    QtyAtWithout(live, p, lv);
    var a, b := Pick(live[..p], at[..p], lv), Pick(live[p + 1..], at[p + 1..], lv);
    if a + b == [] {
      NoOrdersNoQty(Without(live, p), WithoutAt(at, p), lv);
    }
    if a != [] {
      ChainInRange(nodes, live, at, lv, 0);
      assert Pick(live, at, lv)[0] == a[0];
    }
    LeaveShows(LevelFor(sides, lv), lv.price, a, at[p], b, QtyAt(Without(live, p), lv), nodes[at[p]]);
  }

  lemma ShrinkKeepsLevels(sides: map<Ladder, SideBook>, now: map<Ladder, SideBook>, live: seq<Order>, at: seq<nat>,
                          p: nat, dec: nat)
    requires |live| == |at| && LevelsHold(sides, live, at) && p < |live| && dec < live[p].qty
    requires var level := LevelFor(sides, live[p].level);
             dec < level.qty ==> OnlyLevel(sides, now, live[p].level, Some(level.(qty := level.qty - dec)))
    ensures dec < LevelFor(sides, live[p].level).qty
    ensures LevelsHold(now, Shrunk(live, p, dec), at)
  {
    var own := live[p].level;
    assert LevelHolds(sides, live, at, own);
    PickAround(live, at, p, own);
    QtyAtCoversOrder(live, p);
    forall lv: LevelId ensures LevelHolds(now, Shrunk(live, p, dec), at, lv) {
      assert LevelHolds(sides, live, at, lv);
      PickByLevels(live, Shrunk(live, p, dec), at, lv);
      QtyAtShrunk(live, p, dec, lv);
    }
  }

  lemma QuotedIsPicked(live: seq<Order>, at: seq<nat>, lv: LevelId)
    requires |live| == |at|
    ensures Quoted(live, lv.ladder, lv.price) <==> Pick(live, at, lv) != []
  {
    if Pick(live, at, lv) != [] {
      var i := PickedFrom(live, at, lv, 0);
    }
    if Quoted(live, lv.ladder, lv.price) {
      var p :| 0 <= p < |live| && live[p].level == LevelId(lv.ladder, lv.price);
      PickAround(live, at, p, lv);
    }
  }

  // ---- The whole slab through one operation ----

  lemma AddKeepsSound(nodes: seq<OrderNode>, free: seq<nat>, sides: map<Ladder, SideBook>, index: map<u64, nat>,
                      live: seq<Order>, at: seq<nat>, o: Order, idx: u32, now: map<Ladder, SideBook>)
    requires Sound(nodes, free, sides, index, live, at) && free != [] && idx == free[|free| - 1]
    requires OnlyLevel(sides, now, o.level, Some(Joined(LevelFor(sides, o.level), o, idx)))
    ensures var tail := LevelFor(sides, o.level).tail;
            && idx < |nodes| && (tail == NULL || (tail < |nodes| && tail != idx))
            && Sound(Appended(nodes, tail, idx, o), free[..|free| - 1], now, index[o.key := idx], live + [o], at + [idx])
  {
    assert Unsealed(true);
    assert idx in free;
    JoinKeepsLevels(nodes, sides, now, live, at, o, idx);
    var chain := Pick(live, at, o.level);
    if chain != [] {
      ChainInRange(nodes, live, at, o.level, |chain| - 1);
    }
    AppendKeepsThreads(nodes, live, at, idx, o, LevelFor(sides, o.level).tail);
    AllocateKeepsPartition(|nodes|, free, at, idx);
    IndexAfterAdd(index, live, at, o, idx);
  }

  lemma AllocateKeepsPartition(size: nat, free: seq<nat>, at: seq<nat>, idx: u32)
    requires Partitioned(size, free, at) && free != [] && idx == free[|free| - 1]
    ensures Partitioned(size, free[..|free| - 1], at + [idx])
  {
    var fewer, more := free[..|free| - 1], at + [idx];
    forall x | x in fewer ensures x < size && x !in more {
      assert x in free;
    }
    forall x | 0 <= x < size ensures x in fewer || x in more {
      if x in free {
        var i :| 0 <= i < |free| && free[i] == x;
        assert i < |free| - 1 ==> fewer[i] == x;
        assert more[|at|] == idx;
      }
    }
  }

  lemma IndexAfterAdd(index: map<u64, nat>, live: seq<Order>, at: seq<nat>, o: Order, idx: nat)
    requires |live| == |at| && IndexHolds(index, live, at)
    ensures IndexHolds(index[o.key := idx], live + [o], at + [idx])
  {
    var after, orders, places := index[o.key := idx], live + [o], at + [idx];
    forall k | k in after ensures exists p :: 0 <= p < |orders| && orders[p].key == k && places[p] == after[k] {
      if k == o.key {
        assert orders[|live|].key == k && places[|live|] == after[k];
      } else {
        var p :| 0 <= p < |live| && live[p].key == k && at[p] == index[k];
        assert orders[p].key == k && places[p] == after[k];
      }
    }
  }

  lemma LeaveKeepsSound(nodes: seq<OrderNode>, free: seq<nat>, sides: map<Ladder, SideBook>, index: map<u64, nat>,
                        live: seq<Order>, at: seq<nat>, p: nat, now: map<Ladder, SideBook>)
    requires Sound(nodes, free, sides, index, live, at) && p < |live| && p < |at| && at[p] < |nodes|
    requires var left := Left(LevelFor(sides, live[p].level), nodes[at[p]]);
             OnlyLevel(sides, now, live[p].level, if left.head == NULL then None else Some(left))
    ensures at[p] < |nodes| <= NULL
    ensures nodes[at[p]].prev == NULL || nodes[at[p]].prev < |nodes|
    ensures nodes[at[p]].next == NULL || nodes[at[p]].next < |nodes|
    ensures Sound(Unlinked(nodes, at[p]), free + [at[p]], now, Removed(index, live[p].key),
                  Without(live, p), WithoutAt(at, p))
  {
    assert Unsealed(true);
    UnlinkKeepsThreads(nodes, live, at, p);
    UnlinkKeepsHeld(nodes, live, at, p);
    LeaveKeepsLevels(nodes, sides, now, live, at, p);
    ReleaseKeepsPartition(|nodes|, free, at, p);
    IndexAfterLeaving(index, live, at, p);
  }

  lemma ReleaseKeepsPartition(size: nat, free: seq<nat>, at: seq<nat>, p: nat)
    requires Partitioned(size, free, at) && Distinct(at) && p < |at| && at[p] < size
    ensures Partitioned(size, free + [at[p]], WithoutAt(at, p))
  {
    WithoutIsDistinct(at, p);
    assert at[p] in at;
    forall x | x in WithoutAt(at, p) ensures x in at {
    }
    forall x | 0 <= x < size ensures x in free + [at[p]] || x in WithoutAt(at, p) {
      if x in at && x != at[p] {
        StillPlaced(at, p, x);
      }
    }
  }

  lemma IndexAfterLeaving(index: map<u64, nat>, live: seq<Order>, at: seq<nat>, p: nat)
    requires |live| == |at| && IndexHolds(index, live, at) && p < |live|
    ensures IndexHolds(Removed(index, live[p].key), Without(live, p), WithoutAt(at, p))
  {
    var after, orders, places := Removed(index, live[p].key), Without(live, p), WithoutAt(at, p);
    forall k | k in after ensures exists q :: 0 <= q < |orders| && orders[q].key == k && places[q] == after[k] {
      var q :| 0 <= q < |live| && live[q].key == k && at[q] == index[k];
      var r := if q < p then q else q - 1;
      assert orders[r] == live[q] && places[r] == at[q];
    }
  }

  lemma ShrinkKeepsSound(nodes: seq<OrderNode>, free: seq<nat>, sides: map<Ladder, SideBook>, index: map<u64, nat>,
                         live: seq<Order>, at: seq<nat>, p: nat, dec: nat, now: map<Ladder, SideBook>)
    requires Sound(nodes, free, sides, index, live, at) && p < |live| && p < |at| && at[p] < |nodes|
    requires dec < live[p].qty
    requires var level := LevelFor(sides, live[p].level);
             dec < level.qty ==> OnlyLevel(sides, now, live[p].level, Some(level.(qty := level.qty - dec)))
    ensures dec < LevelFor(sides, live[p].level).qty
    ensures dec <= nodes[at[p]].order.qty
    ensures Sound(Resized(nodes, at[p], dec), free, now, index, Shrunk(live, p, dec), at)
  {
    assert Unsealed(true);
    assert nodes[at[p]].order == live[p];
    assert Resized(nodes, at[p], dec) == nodes[at[p] := nodes[at[p]].(order := Shrunk(live, p, dec)[p])];
    ShrinkKeepsThreads(nodes, live, at, p, dec);
    ShrinkKeepsLevels(sides, now, live, at, p, dec);
    var orders := Shrunk(live, p, dec);
    forall k | k in index ensures exists q :: 0 <= q < |orders| && orders[q].key == k && at[q] == index[k] {
      var q :| 0 <= q < |live| && live[q].key == k && at[q] == index[k];
      assert orders[q].key == k;
    }
  }

  /** What a lookup in the key index finds. */
  lemma IndexFinds(nodes: seq<OrderNode>, free: seq<nat>, sides: map<Ladder, SideBook>, index: map<u64, nat>,
                   live: seq<Order>, at: seq<nat>, key: u64)
    returns (p: nat)
    requires Sound(nodes, free, sides, index, live, at) && key in index
    ensures p < |live| && p < |at| && live[p].key == key && at[p] == index[key] < |nodes| <= NULL
    ensures nodes[at[p]].live && nodes[at[p]].order == live[p]
    ensures nodes[at[p]].prev == NULL || nodes[at[p]].prev < |nodes|
    ensures nodes[at[p]].next == NULL || nodes[at[p]].next < |nodes|
    ensures LevelAt(sides, live[p].level).Some? && LevelAt(sides, live[p].level).value.qty >= live[p].qty
    ensures LevelAt(sides, live[p].level).value.price == live[p].level.price
  {
    assert Unsealed(true);
    p :| 0 <= p < |live| && live[p].key == key && at[p] == index[key];
    NeighboursOf(nodes, live, at, p);
    PickAround(live, at, p, live[p].level);
    QtyAtCoversOrder(live, p);
    var lv := live[p].level;
    assert LevelHolds(sides, live, at, lv);
  }

  /**
    On every tape each node is either on the free list, once, or in the queue of one level, once: the
    level of its order.  The queue of a level is its orders' nodes in arrival order, linked both ways.
   */
  lemma EveryNodeIsFreeOrQueued(nodes: seq<OrderNode>, free: seq<nat>, sides: map<Ladder, SideBook>,
                                index: map<u64, nat>, live: seq<Order>, at: seq<nat>, x: nat)
    requires Sound(nodes, free, sides, index, live, at) && x < |nodes|
    ensures |free| + |live| == |nodes| == |free| + |at|
    ensures multiset(free)[x] == if nodes[x].live then 0 else 1
    ensures forall lv: LevelId ::
      multiset(Pick(live, at, lv))[x] == if nodes[x].live && nodes[x].order.level == lv then 1 else 0
    ensures forall lv: LevelId :: Threaded(nodes, Pick(live, at, lv))
  {
    assert Unsealed(true);
    DistinctCounts(free, x);
    forall lv: LevelId
      ensures multiset(Pick(live, at, lv))[x] == if nodes[x].live && nodes[x].order.level == lv then 1 else 0
    {
      PickIsDistinct(live, at, lv);
      DistinctCounts(Pick(live, at, lv), x);
      if x in at {
        var i :| 0 <= i < |at| && at[i] == x;
        PickAround(live, at, i, lv);
        if live[i].level == lv {
          assert Pick(live, at, lv)[|Pick(live[..i], at[..i], lv)|] == x;
        }
      }
      if x in Pick(live, at, lv) {
        var j :| 0 <= j < |Pick(live, at, lv)| && Pick(live, at, lv)[j] == x;
        var i := PickedFrom(live, at, lv, j);
      }
    }
  }

  lemma {:induction false} DistinctCounts(s: seq<nat>, x: nat)
    requires Distinct(s)
    ensures multiset(s)[x] == if x in s then 1 else 0
  {
    if s != [] {
      assert s == [s[0]] + s[1..];
      forall i | 0 <= i < |s[1..]| ensures s[1..][i] != s[0] {
        assert s[1..][i] == s[i + 1];
      }
      DistinctCounts(s[1..], x);
    }
  }

  // ---- What well-formed tapes keep ----

  function ShownBest(side: SideBook): Option<u32> {
    if side.hasBest then Some(side.bestPrice) else None
  }

  ghost predicate BestShown(sides: map<Ladder, SideBook>, live: seq<Order>) {
    forall l: Ladder :: ShownBest(SideBookAt(sides, l)) == BestOf(live, l)
  }

  ghost predicate Clean(sides: map<Ladder, SideBook>, index: map<u64, nat>, live: seq<Order>) {
    CleanFacts(sides, index, live) == true
  }

  ghost predicate CleanFacts(sides: map<Ladder, SideBook>, index: map<u64, nat>, live: seq<Order>) {
    forall u {:trigger Unsealed(u)} :: Unsealed(u) ==>
      GoodBook(live) && BestShown(sides, live) && forall p :: 0 <= p < |live| ==> live[p].key in index
  }

  function UpdateBestOnAdd(side: SideBook, dir: Side, price: u32): SideBook {
    if !side.hasBest || Better(dir, price, side.bestPrice) then side.(bestPrice := price, hasBest := true) else side
  }

  ghost predicate BestAmong(levels: map<u32, Level>, dir: Side, best: Option<u32>) {
    && (best == None ==> forall k :: k in levels ==> levels[k].qty == 0)
    && (best.Some? ==>
          && best.value in levels && levels[best.value].qty != 0
          && forall k :: k in levels && levels[k].qty != 0 ==> !Better(dir, k, best.value))
  }

  lemma BestAfterAdd(live: seq<Order>, o: Order, l: Ladder)
    ensures BestOf(live + [o], l) ==
      if o.level.ladder == l && (BestOf(live, l) == None || Better(l.side, o.level.price, BestOf(live, l).value))
      then Some(o.level.price) else BestOf(live, l)
    ensures Quoted(live, o.level.ladder, o.level.price) ==> BestOf(live + [o], l) == BestOf(live, l)
  {
    assert (live + [o])[..|live|] == live;
    BestOfIs(live, l);
    if Quoted(live, o.level.ladder, o.level.price) {
      var p :| 0 <= p < |live| && live[p].level == LevelId(o.level.ladder, o.level.price);
      assert live[p].level.ladder == o.level.ladder;
    }
  }

  lemma BestWithout(live: seq<Order>, p: nat, l: Ladder)
    requires p < |live|
    requires l == live[p].level.ladder ==>
      Quoted(Without(live, p), l, live[p].level.price) || BestOf(live, l) != Some(live[p].level.price)
    ensures BestOf(Without(live, p), l) == BestOf(live, l)
  {
    var after := Without(live, p);
    BestOfIs(live, l);
    BestOfIs(after, l);
    forall i | 0 <= i < |after| ensures after[i] == live[if i < p then i else i + 1] {
    }
    if BestOf(live, l).Some? {
      var best := BestOf(live, l).value;
      var q :| 0 <= q < |live| && live[q].level == LevelId(l, best);
      if q != p {
        assert after[if q < p then q else q - 1].level == LevelId(l, best);
      }
      assert Quoted(after, l, best);
      BestIsUnique(after, l, best);
    }
  }

  /** A recomputed best is the best of the orders. */
  lemma RecomputedIsBest(sides: map<Ladder, SideBook>, live: seq<Order>, at: seq<nat>, l: Ladder, best: Option<u32>)
    requires |live| == |at| && LevelsHold(sides, live, at) && AllPositive(live)
    requires BestAmong(SideBookAt(sides, l).levels, l.side, best)
    ensures BestOf(live, l) == best
  {
    var levels := SideBookAt(sides, l).levels;
    BestOfIs(live, l);
    forall p | 0 <= p < |live| && live[p].level.ladder == l
      ensures live[p].level.price in levels && levels[live[p].level.price].qty != 0
    {
      PickAround(live, at, p, live[p].level);
      QtyAtCoversOrder(live, p);
      var lv := live[p].level;
      assert LevelHolds(sides, live, at, lv);
    }
    if best.Some? {
      var lv := LevelId(l, best.value);
      assert LevelHolds(sides, live, at, lv);
      QuotedIsPicked(live, at, lv);
      BestIsUnique(live, l, best.value);
    }
  }
}
