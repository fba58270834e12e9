/**
  The replay store behind gap recovery: the last few events of each venue in arrival order,
  searched by halving as if they were sorted by sequence.
 */
module RecoveryStorage {
  import opened Types

  type Deques = q: seq<seq<BookEvent>> | |q| == VENUE_SLOTS witness seq(VENUE_SLOTS, _ => [])

  /** The store of one venue after one more event: the newest events, at most limit of them. */
  function Recorded(q: seq<BookEvent>, limit: nat, ev: BookEvent): seq<BookEvent> {
    if |q| + 1 > limit then (q + [ev])[|q| + 1 - limit..] else q + [ev]
  }

  /** Old events leave from the front only, and only while the front is old. */
  function Evicted(q: seq<BookEvent>, keepFrom: nat): seq<BookEvent> {
    if q != [] && q[0].sequence < keepFrom then Evicted(q[1..], keepFrom) else q
  }

  lemma {:induction false} EvictedKeeps(q: seq<BookEvent>, keepFrom: nat, e: BookEvent)
    ensures e in Evicted(q, keepFrom) ==> e in q
    ensures e in q && e.sequence >= keepFrom ==> e in Evicted(q, keepFrom)
    ensures |Evicted(q, keepFrom)| <= |q|
  {
    if q != [] && q[0].sequence < keepFrom {
      EvictedKeeps(q[1..], keepFrom, e);
    }
  }

  /** The newest events, the new one last, and as many as the limit allows. */
  lemma RecordedIsNewest(q: seq<BookEvent>, limit: nat, ev: BookEvent)
    ensures var n := |Recorded(q, limit, ev)|;
      && n == (if |q| + 1 <= limit then |q| + 1 else limit)
      && Recorded(q, limit, ev) == (q + [ev])[|q| + 1 - n..]
      && (limit > 0 ==> Recorded(q, limit, ev)[n - 1] == ev)
  {
  }

  /** What is left is a tail whose first event is not old; what is gone was old. */
  lemma {:induction false} EvictedIsTail(q: seq<BookEvent>, keepFrom: nat) returns (k: nat)
    ensures k <= |q| && Evicted(q, keepFrom) == q[k..]
    ensures forall j :: 0 <= j < k ==> q[j].sequence < keepFrom
    ensures k < |q| ==> q[k].sequence >= keepFrom
  {
    if q != [] && q[0].sequence < keepFrom {
      var m := EvictedIsTail(q[1..], keepFrom);
      k := m + 1;
      assert forall j :: 0 < j < k ==> q[j] == q[1..][j - 1];
    } else {
      k := 0;
    }
  }

  /** Where halving ends up: std::lower_bound over q[first..first + len]. */
  function LowerBound(q: seq<BookEvent>, first: nat, len: nat, num: nat): (r: nat)
    requires first + len <= |q|
    ensures first <= r <= first + len
    decreases len
  {
    if len == 0 then first
    else
      var half := len / 2;
      if q[first + half].sequence < num then LowerBound(q, first + half + 1, len - half - 1, num)
      else LowerBound(q, first, half, num)
  }

  function Lookup(q: seq<BookEvent>, num: nat): Option<BookEvent> {
    var at := LowerBound(q, 0, |q|, num);
    if at < |q| && q[at].sequence == num then Some(q[at]) else None
  }

  lemma {:induction false} LowerBoundIsFirst(q: seq<BookEvent>, first: nat, len: nat, num: nat)
    requires first + len <= |q| && SortedBySequence(q)
    requires forall i :: 0 <= i < first ==> q[i].sequence < num
    requires forall i :: first + len <= i < |q| ==> q[i].sequence >= num
    ensures forall i :: 0 <= i < LowerBound(q, first, len, num) ==> q[i].sequence < num
    ensures forall i :: LowerBound(q, first, len, num) <= i < |q| ==> q[i].sequence >= num
    decreases len
  {
    if len > 0 {
      var half := len / 2;
      if q[first + half].sequence < num {
        LowerBoundIsFirst(q, first + half + 1, len - half - 1, num);
      } else {
        LowerBoundIsFirst(q, first, half, num);
      }
    }
  }

  /** Halving finds a place with smaller numbers before it and none behind, sorted or not. */
  lemma {:induction false} LowerBoundIsDivide(q: seq<BookEvent>, first: nat, len: nat, num: nat, k: nat)
    requires first <= k <= first + len <= |q|
    requires forall i :: first <= i < k ==> q[i].sequence < num
    requires forall i :: k <= i < first + len ==> q[i].sequence >= num
    ensures LowerBound(q, first, len, num) == k
    decreases len
  {
    if len > 0 {
      var half := len / 2;
      if q[first + half].sequence < num {
        LowerBoundIsDivide(q, first + half + 1, len - half - 1, num, k);
      } else {
        LowerBoundIsDivide(q, first, half, num, k);
      }
    }
  }

  /** A hit is genuine on any store; on a sorted store a miss is genuine as well. */
  lemma LookupIsSound(q: seq<BookEvent>, num: nat)
    ensures Lookup(q, num).Some? ==> Lookup(q, num).value in q && Lookup(q, num).value.sequence == num
    ensures SortedBySequence(q) ==> (Lookup(q, num).Some? <==> exists e :: e in q && e.sequence == num)
  {
    if SortedBySequence(q) {
      LowerBoundIsFirst(q, 0, |q|, num);
    }
  }

  /** On any store, halving for a larger number ends no further left. */
  lemma {:induction false} LowerBoundGrows(q: seq<BookEvent>, first: nat, len: nat, a: nat, b: nat)
    requires first + len <= |q| && a <= b
    ensures LowerBound(q, first, len, a) <= LowerBound(q, first, len, b)
    decreases len
  {
    if len > 0 {
      var half := len / 2;
      if q[first + half].sequence < a {
        LowerBoundGrows(q, first + half + 1, len - half - 1, a, b);
      } else if q[first + half].sequence >= b {
        LowerBoundGrows(q, first, half, a, b);
      }
    }
  }

  ghost predicate NoRepeats(q: seq<BookEvent>) {
    forall i, j :: 0 <= i < j < |q| ==> q[i].sequence != q[j].sequence
  }

  lemma FoundInPlace(q: seq<BookEvent>, i: nat)
    requires NoRepeats(q) && i < |q| && Lookup(q, q[i].sequence).Some?
    ensures LowerBound(q, 0, |q|, q[i].sequence) == i
  {
    var at := LowerBound(q, 0, |q|, q[i].sequence);
    assert q[at].sequence == q[i].sequence;
  }

  /** A store without repeated numbers gives every event it holds if and only if it is sorted. */
  lemma FindsAllIffSorted(q: seq<BookEvent>)
    requires NoRepeats(q)
    ensures (forall e :: e in q ==> Lookup(q, e.sequence) == Some(e)) <==> SortedBySequence(q)
  {
    if SortedBySequence(q) {
      forall e | e in q ensures Lookup(q, e.sequence) == Some(e) {
        LookupIsSound(q, e.sequence);
      }
    } else if forall e :: e in q ==> Lookup(q, e.sequence) == Some(e) {
      forall i, j | 0 <= i < j < |q| ensures q[i].sequence <= q[j].sequence {
        assert q[i] in q && q[j] in q;
        FoundInPlace(q, i);
        FoundInPlace(q, j);
        if q[j].sequence < q[i].sequence {
          LowerBoundGrows(q, 0, |q|, q[j].sequence, q[i].sequence);
        }
      }
    }
  }

  /** The store keeps arrival order, so an event that is there can be missed. */
  lemma LookupCanMiss(a: BookEvent, b: BookEvent)
    requires a.sequence == 3 && b.sequence == 2
    ensures Recorded(Recorded([], 512, a), 512, b) == [a, b]
    ensures b in [a, b] && Lookup([a, b], 2) == None
  {
    var q := [a, b];
    assert LowerBound(q, 0, 2, 2) == LowerBound(q, 0 + 1 + 1, 2 - 1 - 1, 2) || LowerBound(q, 0, 2, 2) == LowerBound(q, 0, 1, 2);
  }

  class ReplayRecoveryStore {
    const maxEventsPerVenue: nat
    var byVenue: Deques

    ghost predicate Valid()
      reads this
    {
      forall i :: 0 <= i < VENUE_SLOTS ==> |byVenue[i]| <= maxEventsPerVenue
    }

    constructor (limit: nat)
      ensures Valid() && maxEventsPerVenue == limit && byVenue == seq(VENUE_SLOTS, _ => [])
    {
      maxEventsPerVenue := limit;
      byVenue := seq(VENUE_SLOTS, _ => []);
    }

    method RecordEvent(ev: BookEvent)
      requires Valid()
      modifies this
      ensures Valid()
      ensures byVenue == old(byVenue)[VenueIndex(ev.venue) := Recorded(old(byVenue)[VenueIndex(ev.venue)], maxEventsPerVenue, ev)]
      ensures var was, now := old(byVenue)[VenueIndex(ev.venue)], byVenue[VenueIndex(ev.venue)];
        now == (was + [ev])[if |was| + 1 > maxEventsPerVenue then |was| + 1 - maxEventsPerVenue else 0..]
    {
      var i := VenueIndex(ev.venue);
      ghost var pushed := byVenue[i] + [ev];
      var q := byVenue[i] + [ev];
      while |q| > maxEventsPerVenue
        invariant |q| <= |pushed| && q == pushed[|pushed| - |q|..]
        invariant |q| < |pushed| ==> |q| >= maxEventsPerVenue
      {
        q := q[1..];
      }
      byVenue := byVenue[i := q];
    }

    method EvictBefore(venue: Venue, keepFrom: nat)
      requires Valid()
      modifies this
      ensures Valid()
      ensures byVenue == old(byVenue)[VenueIndex(venue) := Evicted(old(byVenue)[VenueIndex(venue)], keepFrom)]
    {
      var i := VenueIndex(venue);
      var q := byVenue[i];
      while q != [] && q[0].sequence < keepFrom
        invariant |q| <= |byVenue[i]| && Evicted(q, keepFrom) == Evicted(byVenue[i], keepFrom)
      {
        q := q[1..];
      }
      byVenue := byVenue[i := q];
    }

    method LookupEvent(venue: Venue, num: nat) returns (r: Option<BookEvent>)
      ensures r == Lookup(byVenue[VenueIndex(venue)], num)
    {
      var q := byVenue[VenueIndex(venue)];
      var first: nat, len: nat := 0, |q|;
      while len > 0
        invariant first + len <= |q|
        invariant LowerBound(q, first, len, num) == LowerBound(q, 0, |q|, num)
      {
        var half := len / 2;
        if q[first + half].sequence < num {
          first, len := first + half + 1, len - half - 1;
        } else {
          len := half;
        }
      }
      if first < |q| && q[first].sequence == num {
        return Some(q[first]);
      }
      return None;
    }
  }

  /** The events found for a range of missing numbers, in ascending order. */
  function Hits(q: seq<BookEvent>, begin: nat, end: nat): seq<BookEvent>
    decreases end + 1 - begin
  {
    if begin > end then []
    else
      match Lookup(q, begin)
      case None => Hits(q, begin + 1, end)
      case Some(e) => [e] + Hits(q, begin + 1, end)
  }

  lemma {:induction false} HitsAreGenuine(q: seq<BookEvent>, begin: nat, end: nat, e: BookEvent)
    requires e in Hits(q, begin, end)
    ensures e in q && begin <= e.sequence <= end
    decreases end + 1 - begin
  {
    LookupIsSound(q, begin);
    if Lookup(q, begin) != Some(e) {
      HitsAreGenuine(q, begin + 1, end, e);
    }
  }

  /** Exactly the events that the lookup of a number of the range finds, in ascending order, once each. */
  ghost predicate RecoversExactly(found: seq<BookEvent>, q: seq<BookEvent>, begin: nat, end: nat) {
    && (forall e :: e in found <==> exists n: nat :: begin <= n <= end && Lookup(q, n) == Some(e))
    && forall i, j :: 0 <= i < j < |found| ==> found[i].sequence < found[j].sequence
  }

  lemma {:induction false} FoundIsHit(q: seq<BookEvent>, begin: nat, end: nat, n: nat)
    requires begin <= n <= end && Lookup(q, n).Some?
    ensures Lookup(q, n).value in Hits(q, begin, end)
    decreases n - begin
  {
    if begin < n {
      FoundIsHit(q, begin + 1, end, n);
    }
  }

  lemma {:induction false} HitIsFound(q: seq<BookEvent>, begin: nat, end: nat, e: BookEvent)
    requires e in Hits(q, begin, end)
    ensures begin <= e.sequence <= end && Lookup(q, e.sequence) == Some(e)
    decreases end + 1 - begin
  {
    LookupIsSound(q, begin);
    if Lookup(q, begin) != Some(e) {
      HitIsFound(q, begin + 1, end, e);
    }
  }

  lemma {:induction false} HitsAscend(q: seq<BookEvent>, begin: nat, end: nat, i: nat, j: nat)
    requires i < j < |Hits(q, begin, end)|
    ensures Hits(q, begin, end)[i].sequence < Hits(q, begin, end)[j].sequence
    decreases end + 1 - begin
  {
    LookupIsSound(q, begin);
    var rest := Hits(q, begin + 1, end);
    if Lookup(q, begin) == None {
      HitsAscend(q, begin + 1, end, i, j);
    } else if i > 0 {
      HitsAscend(q, begin + 1, end, i - 1, j - 1);
    } else {
      HitIsFound(q, begin + 1, end, rest[j - 1]);
    }
  }

  lemma HitsAreExactly(q: seq<BookEvent>, begin: nat, end: nat)
    ensures RecoversExactly(Hits(q, begin, end), q, begin, end)
  {
    var found := Hits(q, begin, end);
    forall e ensures e in found <==> exists n: nat :: begin <= n <= end && Lookup(q, n) == Some(e) {
      if e in found {
        HitIsFound(q, begin, end, e);
      }
      if n: nat :| begin <= n <= end && Lookup(q, n) == Some(e) {
        FoundIsHit(q, begin, end, n);
      }
    }
    forall i, j | 0 <= i < j < |found| ensures found[i].sequence < found[j].sequence {
      HitsAscend(q, begin, end, i, j);
    }
  }

  /** On a sorted store without repeated numbers these are all the stored events of the range. */
  lemma SortedStoreRecoversAll(q: seq<BookEvent>, begin: nat, end: nat, e: BookEvent)
    requires SortedBySequence(q) && NoRepeats(q)
    ensures e in Hits(q, begin, end) <==> e in q && begin <= e.sequence <= end
  {
    HitsAreExactly(q, begin, end);
    if e in Hits(q, begin, end) {
      HitsAreGenuine(q, begin, end, e);
    }
    if e in q && begin <= e.sequence <= end {
      FindsAllIffSorted(q);
      assert Lookup(q, e.sequence) == Some(e);
    }
  }

  lemma SuffixOfConcat<T>(a: seq<T>, b: seq<T>)
    ensures (a + b)[|a|..] == b
  {
  }

  class ReplayRecoverySimulator {
    const store: ReplayRecoveryStore?
    var pendingRecovered: seq<BookEvent>
    var requestsTotal: nat

    constructor (s: ReplayRecoveryStore?)
      ensures store == s && pendingRecovered == [] && requestsTotal == 0
    {
      store := s;
      pendingRecovered := [];
      requestsTotal := 0;
    }

    /** What a request brings back: nothing without a store, or for a span that is too large. */
    ghost function Found(venue: Venue, begin: nat, end: nat, tooLarge: bool): seq<BookEvent>
      reads this, store
    {
      if store == null || tooLarge then [] else Hits(store.byVenue[VenueIndex(venue)], begin, end)
    }

    /** Only detected gaps are searched for; spans that are too large are just counted. */
    method RequestRecovery(venue: Venue, begin: nat, end: nat, tooLarge: bool)
      modifies this
      ensures requestsTotal == old(requestsTotal) + 1
      ensures pendingRecovered == old(pendingRecovered) + Found(venue, begin, end, tooLarge)
      ensures |old(pendingRecovered)| <= |pendingRecovered|
      ensures var more := pendingRecovered[|old(pendingRecovered)|..];
        if store == null || tooLarge then more == []
        else RecoversExactly(more, store.byVenue[VenueIndex(venue)], begin, end)
    {
      requestsTotal := requestsTotal + 1;
      if store == null || tooLarge {
        return;
      }
      ghost var q := store.byVenue[VenueIndex(venue)];
      var num := begin;
      while num <= end
        invariant begin <= num && (num <= end + 1 || begin > end)
        invariant requestsTotal == old(requestsTotal) + 1
        invariant pendingRecovered + Hits(q, num, end) == old(pendingRecovered) + Hits(q, begin, end)
        decreases end + 1 - num
      {
        var found := store.LookupEvent(venue, num);
        if found.Some? {
          pendingRecovered := pendingRecovered + [found.value];
        }
        num := num + 1;
      }
      assert pendingRecovered + [] == pendingRecovered;
      SuffixOfConcat(old(pendingRecovered), Hits(q, begin, end));
      HitsAreExactly(q, begin, end);
    }

    method DrainRecovered() returns (out: seq<BookEvent>)
      modifies this
      ensures out == old(pendingRecovered) && pendingRecovered == [] && requestsTotal == old(requestsTotal)
    {
      out := pendingRecovered;
      pendingRecovered := [];
    }
  }
}
