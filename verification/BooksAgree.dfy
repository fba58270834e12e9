/** The two books on one tape. */
module BooksAgree {
  import opened Types
  import opened BookModel
  import opened HashBook
  import opened IntrusiveBook

  /** Every event is well-formed after the ones before it. */
  ghost predicate WellFormedTape(tape: seq<BookEvent>) {
    tape == [] ||
    var front, ev := tape[..|tape| - 1], tape[|tape| - 1];
    WellFormedTape(front) && WellFormed(Steps([], front), ev)
  }

  /** What the list of orders reports along a tape. */
  ghost function Reports(tape: seq<BookEvent>): seq<ApplyResult> {
    if tape == [] then []
    else
      var front, ev := tape[..|tape| - 1], tape[|tape| - 1];
      Reports(front) + [ResultOf(Steps([], front), ev)]
  }

  lemma OneMoreEvent(tape: seq<BookEvent>, n: nat)
    requires n < |tape|
    ensures var live := Steps([], tape[..n]);
            && Steps([], tape[..n + 1]) == Step(live, tape[n])
            && Reports(tape[..n + 1]) == Reports(tape[..n]) + [ResultOf(live, tape[n])]
            && (WellFormedTape(tape[..n + 1]) <==> WellFormedTape(tape[..n]) && WellFormed(live, tape[n]))
  {
    assert tape[..n + 1][..n] == tape[..n];
  }

  ghost predicate NoneDropped(results: seq<ApplyResult>) {
    forall k :: 0 <= k < |results| ==> !results[k].dropped
  }

  lemma NoneDroppedOfOneMore(results: seq<ApplyResult>, r: ApplyResult)
    ensures NoneDropped(results + [r]) <==> NoneDropped(results) && !r.dropped
  {
    var more := results + [r];
    assert forall k :: 0 <= k < |results| ==> more[k] == results[k];
    assert more[|results|] == r;
  }

  /** Both books on one event. */
  method ApplyBoth(reference: OrderBookEngine, fast: IntrusiveOrderBook, ev: BookEvent)
    returns (expected: ApplyResult, actual: ApplyResult)
    requires reference.Valid() && fast.Valid()
    modifies reference, reference.table, reference.table.slots, fast, fast.nodes
    ensures reference.Valid() && fast.Valid() && fast.dropped >= old(fast.dropped)
    ensures
      && old(reference.clean && fast.clean && reference.live == fast.live && WellFormed(fast.live, ev))
      && !expected.dropped && fast.dropped == old(fast.dropped)
      ==>
      && reference.clean && fast.clean && reference.live == fast.live == Step(old(fast.live), ev)
      && expected == actual == ResultOf(old(fast.live), ev)
  {
    expected := reference.OnEvent(ev);
    actual := fast.OnEvent(ev);
  }

  /**
    Both books over one tape: while it is well-formed and neither drops an insert, they report the
    same top, the same change of the top and the same queue ahead after every event.
   */
  method ReplayBoth(reference: OrderBookEngine, fast: IntrusiveOrderBook, tape: seq<BookEvent>)
    returns (expected: seq<ApplyResult>, actual: seq<ApplyResult>)
    requires reference.Valid() && reference.clean && reference.live == []
    requires fast.Valid() && fast.clean && fast.live == []
    modifies reference, reference.table, reference.table.slots, fast, fast.nodes
    ensures reference.Valid() && fast.Valid()
    ensures
      WellFormedTape(tape) && NoneDropped(expected) && fast.dropped == old(fast.dropped)
      ==>
      && reference.clean && fast.clean && reference.live == fast.live == Steps([], tape)
      && expected == actual == Reports(tape)
  {
    expected, actual := [], [];
    for n := 0 to |tape|
      invariant reference.Valid() && fast.Valid() && fast.dropped >= old(fast.dropped)
      invariant
        WellFormedTape(tape[..n]) && NoneDropped(expected) && fast.dropped == old(fast.dropped)
        ==>
        && reference.clean && fast.clean && reference.live == fast.live == Steps([], tape[..n])
        && expected == actual == Reports(tape[..n])
    {
      OneMoreEvent(tape, n);
      var wanted, got := ApplyBoth(reference, fast, tape[n]);
      NoneDroppedOfOneMore(expected, wanted);
      expected, actual := expected + [wanted], actual + [got];
    }
    assert tape[..|tape|] == tape;
  }

  lemma OneMoreFreshEvent(tape: seq<BookEvent>, capacity: nat, n: nat)
    requires n < |tape|
    ensures var live := SlabSteps(tape[..n], capacity);
            && SlabSteps(tape[..n + 1], capacity) == SlabStep(live, tape[n], capacity)
            && (FreshTape(tape[..n + 1], capacity) <==> FreshTape(tape[..n], capacity) && FreshId(live, tape[n]))
  {
    assert tape[..n + 1][..n] == tape[..n];
  }

  /**
    The slab book alone, on any tape: while ids are fresh its orders are those of the tape, whatever it
    refused, whichever symbols its reductions named; its best prices, tops and depths are then true.
   */
  method ReplayFresh(book: IntrusiveOrderBook, tape: seq<BookEvent>)
    requires book.Valid() && book.freshIds && book.live == []
    modifies book, book.nodes
    ensures book.Valid()
    ensures book.freshIds <==> FreshTape(tape, book.nodes.Length)
    ensures FreshTape(tape, book.nodes.Length) ==> book.live == SlabSteps(tape, book.nodes.Length)
  {
    for n := 0 to |tape|
      invariant book.Valid()
      invariant book.freshIds <==> FreshTape(tape[..n], book.nodes.Length)
      invariant book.freshIds ==> book.live == SlabSteps(tape[..n], book.nodes.Length)
    {
      OneMoreFreshEvent(tape, book.nodes.Length, n);
      var _ := book.OnEvent(tape[n]);
    }
    assert tape[..|tape|] == tape;
  }

  /** Then every snapshot, of every symbol on every venue, is the same in both. */
  method SnapshotsEqual(reference: OrderBookEngine, fast: IntrusiveOrderBook, venue: Venue, symbol: u64)
    returns (equal: bool)
    requires reference.Valid() && fast.Valid()
    ensures reference.clean && fast.clean && reference.live == fast.live ==> equal
  {
    var expected := reference.Snapshot(venue, symbol);
    var actual := fast.Snapshot(venue, symbol);
    if reference.clean && fast.clean && reference.live == fast.live {
      DepthIsDetermined(expected.bids, actual.bids, fast.live, Ladder(venue, symbol, Buy));
      DepthIsDetermined(expected.asks, actual.asks, fast.live, Ladder(venue, symbol, Sell));
    }
    equal := expected == actual;
  }

  lemma {:induction false} WellFormedTapesKeepGoodBooks(tape: seq<BookEvent>)
    requires WellFormedTape(tape)
    ensures GoodBook(Steps([], tape))
  {
    if tape != [] {
      var front, ev := tape[..|tape| - 1], tape[|tape| - 1];
      WellFormedTapesKeepGoodBooks(front);
      StepKeepsGoodBook(Steps([], front), ev);
    }
  }
}
