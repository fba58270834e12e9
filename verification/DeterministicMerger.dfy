/**
  The cross-venue merge: one FIFO queue per venue, and a drain that repeatedly takes the least
  front event.  The merged stream is a function of the queues alone.
 */
module DeterministicMerge {
  import opened Types

  type Queues = q: seq<seq<BookEvent>> | |q| == VENUE_SLOTS witness seq(VENUE_SLOTS, _ => [])

  const NO_EVENTS: Queues := seq(VENUE_SLOTS, _ => [])

  predicate LessEvent(a: BookEvent, b: BookEvent) {
    if a.exchangeTs != b.exchangeTs then a.exchangeTs < b.exchangeTs
    else if a.venue != b.venue then VenueIndex(a.venue) < VenueIndex(b.venue)
    else if a.sequence != b.sequence then a.sequence < b.sequence
    else a.rawType < b.rawType
  }

  /** By time, then venue, then number, then raw type. */
  lemma LessEventOnFields(a: BookEvent, b: BookEvent)
    ensures a.exchangeTs < b.exchangeTs ==> LessEvent(a, b) && !LessEvent(b, a)
    ensures a.exchangeTs == b.exchangeTs && VenueIndex(a.venue) < VenueIndex(b.venue) ==>
      LessEvent(a, b) && !LessEvent(b, a)
    ensures a.exchangeTs == b.exchangeTs && a.venue == b.venue && a.sequence < b.sequence ==>
      LessEvent(a, b) && !LessEvent(b, a)
    ensures a.exchangeTs == b.exchangeTs && a.venue == b.venue && a.sequence == b.sequence ==>
      (LessEvent(a, b) <==> a.rawType < b.rawType)
  {
    VenuesAreNumbered(a.venue, b.venue);
  }

  lemma VenuesAreNumbered(v: Venue, w: Venue)
    ensures VenueIndex(v) == VenueIndex(w) ==> v == w
  {
  }

  /** a comes no later than b: not later in time, and at the same time not behind it in venue order. */
  ghost predicate NoLater(a: BookEvent, b: BookEvent) {
    a.exchangeTs < b.exchangeTs || (a.exchangeTs == b.exchangeTs && VenueIndex(a.venue) <= VenueIndex(b.venue))
  }

  function Total(queues: seq<seq<BookEvent>>): nat {
    if queues == [] then 0 else Total(queues[..|queues| - 1]) + |queues[|queues| - 1]|
  }

  lemma {:induction false} TotalAfterPop(queues: seq<seq<BookEvent>>, i: nat)
    requires i < |queues| && queues[i] != []
    ensures Total(queues) == Total(queues[i := queues[i][1..]]) + 1
  {
    var n := |queues| - 1;
    if i < n {
      TotalAfterPop(queues[..n], i);
      assert queues[..n][i := queues[i][1..]] == queues[i := queues[i][1..]][..n];
    } else {
      assert queues[..n] == queues[i := queues[i][1..]][..n];
    }
  }

  lemma {:induction false} TotalAfterReplace(queues: seq<seq<BookEvent>>, i: nat, q: seq<BookEvent>)
    requires i < |queues|
    ensures Total(queues[i := q]) == Total(queues) - |queues[i]| + |q|
  {
    var n := |queues| - 1;
    if i < n {
      TotalAfterReplace(queues[..n], i, q);
      assert queues[..n][i := q] == queues[i := q][..n];
    } else {
      assert queues[..n] == queues[i := q][..n];
    }
  }

  /** Queue i is the choice of the drain: its front is least, the lowest index winning ties. */
  ghost predicate IsBest(queues: seq<seq<BookEvent>>, i: nat) {
    && i < |queues| && queues[i] != []
    && forall j :: 0 <= j < |queues| && j != i && queues[j] != [] ==>
         if j < i then LessEvent(queues[i][0], queues[j][0]) else !LessEvent(queues[j][0], queues[i][0])
  }

  lemma {:induction false} BestExists(queues: seq<seq<BookEvent>>) returns (i: nat)
    requires exists k :: 0 <= k < |queues| && queues[k] != []
    ensures IsBest(queues, i)
  {
    var n := |queues| - 1;
    if forall k :: 0 <= k < n ==> queues[k] == [] {
      i := n;
    } else {
      var k :| 0 <= k < n && queues[k] != [];
      assert queues[..n][k] != [];
      i := BestExists(queues[..n]);
      assert forall j :: 0 <= j < n ==> queues[..n][j] == queues[j];
      if queues[n] != [] && LessEvent(queues[n][0], queues[i][0]) {
        i := n;
      }
    }
  }

  lemma BestIsUnique(queues: seq<seq<BookEvent>>, i: nat, j: nat)
    requires IsBest(queues, i) && IsBest(queues, j)
    ensures i == j
  {
  }

  /** No front is earlier than the one the drain takes. */
  lemma BestIsEarliest(queues: seq<seq<BookEvent>>, b: nat)
    requires IsBest(queues, b)
    ensures forall j :: 0 <= j < |queues| && queues[j] != [] ==> NoLater(queues[b][0], queues[j][0])
  {
    forall j | 0 <= j < |queues| && queues[j] != [] ensures NoLater(queues[b][0], queues[j][0]) {
      LessEventOnFields(queues[b][0], queues[j][0]);
      LessEventOnFields(queues[j][0], queues[b][0]);
    }
  }

  ghost predicate Drained(queues: seq<seq<BookEvent>>) {
    forall k :: 0 <= k < |queues| ==> queues[k] == []
  }

  ghost function Best(queues: seq<seq<BookEvent>>): (i: nat)
    requires !Drained(queues)
    ensures IsBest(queues, i)
  {
    BestSomewhere(queues);
    var i: nat :| IsBest(queues, i);
    i
  }

  lemma BestSomewhere(queues: seq<seq<BookEvent>>)
    requires !Drained(queues)
    ensures exists i: nat :: IsBest(queues, i)
  {
    var i := BestExists(queues);
  }

  /** The merged stream. */
  ghost function Merge(queues: seq<seq<BookEvent>>): seq<BookEvent>
    decreases Total(queues)
  {
    if Drained(queues) then []
    else
      var i := Best(queues);
      TotalAfterPop(queues, i);
      [queues[i][0]] + Merge(queues[i := queues[i][1..]])
  }

  lemma MergeUnfold(queues: seq<seq<BookEvent>>, i: nat)
    requires IsBest(queues, i)
    ensures Merge(queues) == [queues[i][0]] + Merge(queues[i := queues[i][1..]])
  {
    BestIsUnique(queues, i, Best(queues));
  }

  /** One queue has lost its front, the others stand as they were. */
  ghost predicate TakenFrom(was: Queues, now: Queues, b: nat, e: BookEvent) {
    b < VENUE_SLOTS && was[b] == [e] + now[b] && forall j :: 0 <= j < VENUE_SLOTS && j != b ==> now[j] == was[j]
  }

  class DeterministicMerger {
    var queues: Queues

    constructor ()
      ensures queues == NO_EVENTS
    {
      queues := NO_EVENTS;
    }

    method Push(ev: BookEvent) returns (accepted: bool)
      modifies this
      ensures accepted
      ensures queues == old(queues)[VenueIndex(ev.venue) := old(queues)[VenueIndex(ev.venue)] + [ev]]
    {
      var i := VenueIndex(ev.venue);
      queues := queues[i := queues[i] + [ev]];
      return true;
    }

    method PopNext() returns (out: Option<BookEvent>)
      modifies this
      ensures out == None <==> Drained(old(queues))
      ensures out == None ==> queues == old(queues)
      ensures out.Some? ==> Merge(old(queues)) == [out.value] + Merge(queues)
      ensures out.Some? ==> Total(queues) < Total(old(queues))
      ensures out.Some? ==> forall j :: 0 <= j < VENUE_SLOTS && old(queues)[j] != [] ==> NoLater(out.value, old(queues)[j][0])
      ensures out.Some? ==> exists b :: 0 <= b < VENUE_SLOTS && old(queues)[b] != [] && TakenFrom(old(queues), queues, b, out.value)
    {
      var best: nat := |queues|;
      for i := 0 to |queues|
        invariant best == |queues| ==> forall j :: 0 <= j < i ==> queues[j] == []
        invariant best != |queues| ==> best < i && best < |queues| && queues[best] != []
        invariant best != |queues| ==> forall j :: 0 <= j < i && j != best && queues[j] != [] ==>
            if j < best then LessEvent(queues[best][0], queues[j][0])
            else !LessEvent(queues[j][0], queues[best][0])
      {
        if queues[i] == [] {
          continue;
        }
        if best == |queues| || LessEvent(queues[i][0], queues[best][0]) {
          best := i;
        }
      }
      if best == |queues| {
        return None;
      }
      assert IsBest(queues, best);
      MergeUnfold(queues, best);
      TotalAfterPop(queues, best);
      BestIsEarliest(queues, best);
      out := Some(queues[best][0]);
      queues := queues[best := queues[best][1..]];
      assert TakenFrom(old(queues), queues, best, out.value);
    }

    method QueuedCount() returns (n: nat)
      ensures n == Total(queues)
    {
      n := 0;
      for i := 0 to |queues|
        invariant n == Total(queues[..i])
      {
        assert queues[..i + 1][..i] == queues[..i];
        n := n + |queues[i]|;
      }
      assert queues[..|queues|] == queues;
    }
  }

  // ---- What the merged stream contains, and in which order ----

  /** The events of one venue, in stream order. */
  ghost function VenueEvents(s: seq<BookEvent>, i: nat): seq<BookEvent> {
    if s == [] then []
    else if VenueIndex(s[0].venue) == i then [s[0]] + VenueEvents(s[1..], i)
    else VenueEvents(s[1..], i)
  }

  lemma {:induction false} VenueEventsMember(s: seq<BookEvent>, i: nat, e: BookEvent)
    requires e in VenueEvents(s, i)
    ensures VenueIndex(e.venue) == i && e in s
  {
    if e != s[0] || VenueIndex(s[0].venue) != i {
      VenueEventsMember(s[1..], i, e);
    }
  }

  lemma {:induction false} VenueEventsOfConcat(a: seq<BookEvent>, b: seq<BookEvent>, i: nat)
    ensures VenueEvents(a + b, i) == VenueEvents(a, i) + VenueEvents(b, i)
  {
    if a == [] {
      assert a + b == b;
    } else {
      VenueEventsOfConcat(a[1..], b, i);
      assert (a + b)[1..] == a[1..] + b && (a + b)[0] == a[0];
    }
  }

  ghost predicate WellRouted(queues: seq<seq<BookEvent>>) {
    forall i, e :: 0 <= i < |queues| && e in queues[i] ==> VenueIndex(e.venue) == i
  }

  lemma PopKeepsRouting(queues: seq<seq<BookEvent>>, b: nat)
    requires WellRouted(queues) && b < |queues| && queues[b] != []
    ensures WellRouted(queues[b := queues[b][1..]])
    ensures VenueIndex(queues[b][0].venue) == b
  {
    assert queues[b][0] in queues[b];
    forall e | e in queues[b][1..] ensures e in queues[b] {
    }
  }

  /** Nothing is lost, invented or reordered within a venue. */
  lemma {:induction false} MergeKeepsEveryVenue(queues: seq<seq<BookEvent>>, i: nat)
    requires WellRouted(queues) && i < |queues|
    ensures VenueEvents(Merge(queues), i) == queues[i]
    decreases Total(queues)
  {
    if !Drained(queues) {
      var b := Best(queues);
      var rest := queues[b := queues[b][1..]];
      TotalAfterPop(queues, b);
      PopKeepsRouting(queues, b);
      MergeKeepsEveryVenue(rest, i);
      assert Merge(queues) == [queues[b][0]] + Merge(rest);
      VenueEventsOfConcat([queues[b][0]], Merge(rest), i);
      VenueEventsOfOne(queues[b][0], i);
      if i == b {
        assert queues[b] == [queues[b][0]] + rest[b];
      }
    }
  }

  lemma VenueEventsOfOne(e: BookEvent, i: nat)
    ensures VenueEvents([e], i) == if VenueIndex(e.venue) == i then [e] else []
  {
    assert [e][1..] == [];
  }

  lemma {:induction false} MergeLength(queues: seq<seq<BookEvent>>)
    ensures |Merge(queues)| == Total(queues)
    decreases Total(queues)
  {
    if Drained(queues) {
      TotalWhenDrained(queues);
    } else {
      var b := Best(queues);
      TotalAfterPop(queues, b);
      MergeLength(queues[b := queues[b][1..]]);
    }
  }

  lemma {:induction false} TotalWhenDrained(queues: seq<seq<BookEvent>>)
    requires Drained(queues)
    ensures Total(queues) == 0
  {
    if queues != [] {
      TotalWhenDrained(queues[..|queues| - 1]);
    }
  }

  /** No event is smaller than its predecessor: the test the sharded pipeline applies. */
  ghost predicate Ordered(s: seq<BookEvent>) {
    forall i :: 1 <= i < |s| ==> !LessEvent(s[i], s[i - 1])
  }

  lemma {:induction false} OrderedMeansNoInversion(s: seq<BookEvent>, i: nat, j: nat)
    requires Ordered(s) && i < j < |s|
    ensures !LessEvent(s[j], s[i])
    decreases j
  {
    if i + 1 < j {
      OrderedMeansNoInversion(s, i, j - 1);
    }
  }

  /** Merging queues that are each ordered gives an ordered stream. */
  lemma {:induction false} MergeIsOrdered(queues: seq<seq<BookEvent>>)
    requires forall i :: 0 <= i < |queues| ==> Ordered(queues[i])
    ensures Ordered(Merge(queues))
    decreases Total(queues)
  {
    if !Drained(queues) {
      var b := Best(queues);
      var rest := queues[b := queues[b][1..]];
      TotalAfterPop(queues, b);
      forall i | 0 <= i < |rest| ensures Ordered(rest[i]) {
        if i == b {
          assert forall k :: 1 <= k < |rest[b]| ==> rest[b][k] == queues[b][k + 1] && rest[b][k - 1] == queues[b][k];
        }
      }
      MergeIsOrdered(rest);
      if !Drained(rest) {
        var c := Best(rest);
        assert Merge(rest)[0] == rest[c][0];
        if c == b {
          assert rest[b][0] == queues[b][1];
        }
      }
    }
  }

  ghost predicate TimeNeverFalls(s: seq<BookEvent>) {
    forall i :: 1 <= i < |s| ==> s[i - 1].exchangeTs <= s[i].exchangeTs
  }

  lemma TailNeverFalls(s: seq<BookEvent>)
    requires TimeNeverFalls(s) && s != []
    ensures TimeNeverFalls(s[1..])
  {
    assert forall k :: 1 <= k < |s[1..]| ==> s[1..][k] == s[k + 1] && s[1..][k - 1] == s[k];
  }

  /** If time never falls within a queue, it never falls in the merged stream. */
  lemma {:induction false} MergeIsInTimeOrder(queues: seq<seq<BookEvent>>)
    requires forall i :: 0 <= i < |queues| ==> TimeNeverFalls(queues[i])
    ensures TimeNeverFalls(Merge(queues))
    decreases Total(queues)
  {
    if !Drained(queues) {
      var b := Best(queues);
      var rest := queues[b := queues[b][1..]];
      TotalAfterPop(queues, b);
      TailNeverFalls(queues[b]);
      MergeIsInTimeOrder(rest);
      BestIsEarliest(queues, b);
      if !Drained(rest) {
        var c := Best(rest);
        assert Merge(rest)[0] == rest[c][0];
        if c == b {
          assert rest[b][0] == queues[b][1];
        }
      }
    }
  }

  /** Neighbours of the merged stream with equal times come in venue order. */
  lemma {:induction false} MergeBreaksTiesByVenue(queues: seq<seq<BookEvent>>, k: nat)
    requires WellRouted(queues) && 1 <= k < |Merge(queues)|
    requires Merge(queues)[k - 1].exchangeTs == Merge(queues)[k].exchangeTs
    ensures VenueIndex(Merge(queues)[k - 1].venue) <= VenueIndex(Merge(queues)[k].venue)
    decreases k
  {
    var b := Best(queues);
    var rest := queues[b := queues[b][1..]];
    PopKeepsRouting(queues, b);
    if k > 1 {
      MergeBreaksTiesByVenue(rest, k - 1);
    } else {
      var c := Best(rest);
      assert Merge(rest)[0] == rest[c][0];
      BestIsEarliest(queues, b);
      if c == b {
        assert rest[b][0] == queues[b][1];
        assert queues[b][1] in queues[b];
      }
    }
  }

  ghost function Route(s: seq<BookEvent>): Queues {
    seq(VENUE_SLOTS, i requires 0 <= i => VenueEvents(s, i))
  }

  lemma FirstOfOrderedIsBest(s: seq<BookEvent>)
    requires Ordered(s) && s != []
    ensures IsBest(Route(s), VenueIndex(s[0].venue))
    ensures Route(s)[VenueIndex(s[0].venue)][0] == s[0]
  {
    var b := VenueIndex(s[0].venue);
    var queues := Route(s);
    forall j | 0 <= j < |queues| && j != b && queues[j] != []
      ensures LessEvent(s[0], queues[j][0])
    {
      var e := queues[j][0];
      VenueEventsMember(s, j, e);
      var k :| 0 <= k < |s| && s[k] == e;
      OrderedMeansNoInversion(s, 0, k);
    }
  }

  lemma TailOfOrderedStream(s: seq<BookEvent>)
    requires Ordered(s) && s != []
    ensures Ordered(s[1..])
    ensures var b := VenueIndex(s[0].venue);
      Route(s)[b] != [] && Route(s)[b := Route(s)[b][1..]] == Route(s[1..])
  {
    forall k | 1 <= k < |s[1..]| ensures !LessEvent(s[1..][k], s[1..][k - 1]) {
      assert !LessEvent(s[k + 1], s[k]);
    }
    var b := VenueIndex(s[0].venue);
    var popped := Route(s)[b := Route(s)[b][1..]];
    forall i | 0 <= i < VENUE_SLOTS ensures popped[i] == Route(s[1..])[i] {
    }
  }

  /**
    Splitting an ordered stream by venue and merging it back is the identity.  Events of
    different venues never compare equal, so the merge has no freedom left.
   */
  lemma {:induction false} MergeOfOrderedStream(s: seq<BookEvent>)
    requires Ordered(s)
    ensures Merge(Route(s)) == s
  {
    if s == [] {
      assert Drained(Route(s));
    } else {
      var b := VenueIndex(s[0].venue);
      FirstOfOrderedIsBest(s);
      MergeUnfold(Route(s), b);
      TailOfOrderedStream(s);
      MergeOfOrderedStream(s[1..]);
      assert s == [s[0]] + s[1..];
    }
  }
}
