/**
  A/B feed arbitration: the first copy of each number wins.  Numbers that arrive early are kept
  aside but never delivered from there: by the time their turn comes the gap window has already
  consumed them, so they are erased.
 */
module AbArbitration {
  import opened Types
  import opened SequenceTracking
  import opened GapSequencing
  import opened DeterministicMerge
  import opened PipelineSafety

  datatype FeedSide = A | B

  /** The arbiter on values: what was kept aside does not appear, because nothing depends on it. */
  datatype Arbiter = Arbiter(
    windows: seq<Window>,
    delivered: seq<BookEvent>,
    acceptedA: nat,
    acceptedB: nat,
    duplicateOrOld: nat,
    gapBuffered: nat,
    forcedAdvances: nat)

  const IDLE: Arbiter := Arbiter(
    [FRESH_WINDOW, FRESH_WINDOW, FRESH_WINDOW, FRESH_WINDOW, FRESH_WINDOW], [], 0, 0, 0, 0, 0)

  ghost function Offer(s: Arbiter, gap: nat, side: FeedSide, ev: BookEvent): (r: Arbiter)
    requires |s.windows| == VENUE_SLOTS
    ensures |r.windows| == VENUE_SLOTS
  {
    var v := VenueIndex(ev.venue);
    var w := s.windows[v];
    match StatusOf(w.next, gap, ev.sequence)
    case DuplicateOrOld => s.(duplicateOrOld := s.duplicateOrOld + 1)
    case GapBuffered => s.(windows := s.windows[v := Step(w, gap, ev.sequence)], gapBuffered := s.gapBuffered + 1)
    case GapTooLarge =>
      s.(windows := s.windows[v := Advance(w, ev.sequence)], forcedAdvances := s.forcedAdvances + 1)
    case InOrder =>
      s.(windows := s.windows[v := Step(w, gap, ev.sequence)],
         delivered := s.delivered + [ev],
         acceptedA := if side == A then s.acceptedA + 1 else s.acceptedA,
         acceptedB := if side == B then s.acceptedB + 1 else s.acceptedB)
  }

  type Arrival = (FeedSide, BookEvent)

  ghost function Arbitrate(gap: nat, arrivals: seq<Arrival>): (r: Arbiter)
    ensures |r.windows| == VENUE_SLOTS
  {
    if arrivals == [] then IDLE
    else
      var last := arrivals[|arrivals| - 1];
      Offer(Arbitrate(gap, arrivals[..|arrivals| - 1]), gap, last.0, last.1)
  }

  // ---- Every run ----

  ghost predicate WindowsOk(s: Arbiter, gap: nat) {
    && |s.windows| == VENUE_SLOTS
    && |s.delivered| == s.acceptedA + s.acceptedB
    && forall i :: 0 <= i < VENUE_SLOTS ==> WindowOk(s.windows[i], gap)
  }

  ghost predicate Fair(s: Arbiter, gap: nat) {
    && WindowsOk(s, gap)
    && forall i :: 0 <= i < VENUE_SLOTS ==> PublishedOk(VenueEvents(s.delivered, i), i, s.windows[i].next)
  }

  /** A release that runs off the end of the 64-bit range. */
  ghost predicate Wraps(w: Window, num: nat) {
    num == w.next && FirstFree(num + 1, w.live) > MAX64
  }

  /** No arrival wraps, the first n left aside. */
  ghost predicate NeverWrapsFrom(gap: nat, n: nat, arrivals: seq<Arrival>) {
    |arrivals| <= n ||
    var front, ev := arrivals[..|arrivals| - 1], arrivals[|arrivals| - 1].1;
    NeverWrapsFrom(gap, n, front) && !Wraps(Arbitrate(gap, front).windows[VenueIndex(ev.venue)], ev.sequence)
  }

  ghost predicate NeverWraps(gap: nat, arrivals: seq<Arrival>) {
    NeverWrapsFrom(gap, 0, arrivals)
  }

  lemma OfferKeepsWindows(s: Arbiter, gap: nat, side: FeedSide, ev: BookEvent)
    requires WindowsOk(s, gap)
    ensures WindowsOk(Offer(s, gap, side, ev), gap)
  {
    assert WindowOk(s.windows[VenueIndex(ev.venue)], gap);
  }

  /** Every arrival is delivered, dropped as old, kept aside or skipped to: exactly one of the four. */
  lemma {:induction false} EveryArrivalIsCounted(gap: nat, arrivals: seq<Arrival>)
    ensures var s := Arbitrate(gap, arrivals);
      && |s.delivered| == s.acceptedA + s.acceptedB
      && |s.delivered| + s.duplicateOrOld + s.gapBuffered + s.forcedAdvances == |arrivals|
  {
    if arrivals != [] {
      EveryArrivalIsCounted(gap, arrivals[..|arrivals| - 1]);
    }
  }

  /** Past a wrap as before it, every delivery is credited to one feed and what waits lies in the window. */
  lemma {:induction false} EveryRunKeepsWindows(gap: nat, arrivals: seq<Arrival>)
    ensures WindowsOk(Arbitrate(gap, arrivals), gap)
  {
    if arrivals != [] {
      var front, last := arrivals[..|arrivals| - 1], arrivals[|arrivals| - 1];
      EveryRunKeepsWindows(gap, front);
      OfferKeepsWindows(Arbitrate(gap, front), gap, last.0, last.1);
    }
  }

  lemma WindowStepOk(w: Window, gap: nat, num: nat)
    requires WindowOk(w, gap) && num <= MAX64 && !Wraps(w, num) && StatusOf(w.next, gap, num) != GapTooLarge
    ensures var w' := Step(w, gap, num);
      WindowOk(w', gap) && (num == w.next ==> w'.next > num) && (num != w.next ==> w'.next == w.next)
  {
  }

  lemma OfferIsFair(s: Arbiter, gap: nat, side: FeedSide, ev: BookEvent)
    requires Fair(s, gap) && !Wraps(s.windows[VenueIndex(ev.venue)], ev.sequence)
    ensures Fair(Offer(s, gap, side, ev), gap)
  {
    var v := VenueIndex(ev.venue);
    var w, after := s.windows[v], Offer(s, gap, side, ev);
    if StatusOf(w.next, gap, ev.sequence) == GapTooLarge {
      assert PublishedOk(VenueEvents(s.delivered, v), v, ev.sequence);
    } else {
      WindowStepOk(w, gap, ev.sequence);
    }
    if ev.sequence == w.next {
      forall i | 0 <= i < VENUE_SLOTS
        ensures VenueEvents(after.delivered, i) == VenueEvents(s.delivered, i) + if i == v then [ev] else []
      {
        VenueEventsOfConcat(s.delivered, [ev], i);
        VenueEventsOfOne(ev, i);
      }
      ConsecutiveStayPublished(VenueEvents(s.delivered, v), [ev], v, w.next);
      assert PublishedOk(VenueEvents(after.delivered, v), v, after.windows[v].next);
    }
  }

  /** Delivered streams strictly increase per venue and every delivery is credited to one feed. */
  lemma {:induction false} EveryRunIsFair(gap: nat, arrivals: seq<Arrival>)
    requires NeverWraps(gap, arrivals)
    ensures Fair(Arbitrate(gap, arrivals), gap)
  {
    if arrivals != [] {
      var front, last := arrivals[..|arrivals| - 1], arrivals[|arrivals| - 1];
      EveryRunIsFair(gap, front);
      OfferIsFair(Arbitrate(gap, front), gap, last.0, last.1);
    }
  }

  ghost predicate BelowWrap(arrivals: seq<Arrival>) {
    forall a :: a in arrivals ==> a.1.sequence < MAX64
  }

  /** Without the last number of the range nothing wraps. */
  lemma {:induction false} BelowWrapNeverWraps(gap: nat, arrivals: seq<Arrival>)
    requires BelowWrap(arrivals)
    ensures NeverWraps(gap, arrivals)
    ensures forall i :: 0 <= i < VENUE_SLOTS ==> MAX64 !in Arbitrate(gap, arrivals).windows[i].live
  {
    if arrivals != [] {
      var front, last := arrivals[..|arrivals| - 1], arrivals[|arrivals| - 1];
      assert last in arrivals && forall a :: a in front ==> a in arrivals;
      BelowWrapNeverWraps(gap, front);
    }
  }

  // ---- What is kept aside ----

  /** The number has been passed by or waits in the gap window, and its venue has not delivered it. */
  ghost predicate Forgone(s: Arbiter, v: nat, num: nat) {
    && v < |s.windows| && (num in s.windows[v].live || num < s.windows[v].next)
    && forall e :: e in s.delivered && VenueIndex(e.venue) == v ==> e.sequence != num
  }

  lemma DeliveredIsBehind(s: Arbiter, gap: nat, e: BookEvent)
    requires Fair(s, gap) && e in s.delivered
    ensures e.sequence < s.windows[VenueIndex(e.venue)].next
  {
    var m :| 0 <= m < |s.delivered| && s.delivered[m] == e;
    VenueEventsContain(s.delivered, VenueIndex(e.venue), m);
  }

  lemma OfferKeepsForgone(s: Arbiter, gap: nat, side: FeedSide, ev: BookEvent, v: nat, num: nat)
    requires Fair(s, gap) && Forgone(s, v, num) && !Wraps(s.windows[VenueIndex(ev.venue)], ev.sequence)
    ensures Forgone(Offer(s, gap, side, ev), v, num)
  {
    assert WindowOk(s.windows[v], gap);
  }

  lemma BufferingForgoes(s: Arbiter, gap: nat, side: FeedSide, ev: BookEvent)
    requires Fair(s, gap) && StatusOf(s.windows[VenueIndex(ev.venue)].next, gap, ev.sequence) == GapBuffered
    ensures Forgone(Offer(s, gap, side, ev), VenueIndex(ev.venue), ev.sequence)
  {
    forall e | e in s.delivered && VenueIndex(e.venue) == VenueIndex(ev.venue) ensures e.sequence != ev.sequence {
      DeliveredIsBehind(s, gap, e);
    }
  }

  lemma ForgoneStays(gap: nat, arrivals: seq<Arrival>, v: nat, num: nat)
    requires NeverWraps(gap, arrivals) && arrivals != []
    requires Forgone(Arbitrate(gap, arrivals[..|arrivals| - 1]), v, num)
    ensures Forgone(Arbitrate(gap, arrivals), v, num)
  {
    var front, last := arrivals[..|arrivals| - 1], arrivals[|arrivals| - 1];
    EveryRunIsFair(gap, front);
    OfferKeepsForgone(Arbitrate(gap, front), gap, last.0, last.1, v, num);
  }

  /** An event that is kept aside is never delivered, then or later, from either feed. */
  lemma {:induction false} KeptAsideIsNeverDelivered(gap: nat, arrivals: seq<Arrival>, k: nat)
    requires NeverWraps(gap, arrivals) && k < |arrivals|
    requires var ev := arrivals[k].1;
      StatusOf(Arbitrate(gap, arrivals[..k]).windows[VenueIndex(ev.venue)].next, gap, ev.sequence) == GapBuffered
    ensures Forgone(Arbitrate(gap, arrivals), VenueIndex(arrivals[k].1.venue), arrivals[k].1.sequence)
  {
    var n := |arrivals| - 1;
    var front, last := arrivals[..n], arrivals[n];
    if k == n {
      EveryRunIsFair(gap, front);
      BufferingForgoes(Arbitrate(gap, front), gap, last.0, last.1);
    } else {
      assert front[..k] == arrivals[..k];
      KeptAsideIsNeverDelivered(gap, front, k);
      ForgoneStays(gap, arrivals, VenueIndex(arrivals[k].1.venue), arrivals[k].1.sequence);
    }
  }

  /** The events of a venue still kept aside: an in-order arrival erases those it has passed by. */
  ghost function Aside(gap: nat, arrivals: seq<Arrival>, v: nat): seq<BookEvent>
    requires v < VENUE_SLOTS
  {
    if arrivals == [] then []
    else
      var front, ev := arrivals[..|arrivals| - 1], arrivals[|arrivals| - 1].1;
      AsideAfter(Aside(gap, front, v), Arbitrate(gap, front).windows[v], gap, ev, v)
  }

  ghost function AsideAfter(kept: seq<BookEvent>, w: Window, gap: nat, ev: BookEvent, v: nat): seq<BookEvent> {
    if VenueIndex(ev.venue) != v then kept
    else
      match StatusOf(w.next, gap, ev.sequence)
      case GapBuffered => kept + [ev]
      case InOrder => Beyond(kept, Step(w, gap, ev.sequence).next)
      case _ => kept
  }

  function Beyond(s: seq<BookEvent>, next: nat): seq<BookEvent> {
    if s == [] then []
    else (if s[0].sequence > next then [s[0]] else []) + Beyond(s[1..], next)
  }

  lemma {:induction false} BeyondMembers(s: seq<BookEvent>, next: nat, e: BookEvent)
    ensures e in Beyond(s, next) <==> e in s && e.sequence > next
  {
    if s != [] {
      BeyondMembers(s[1..], next, e);
    }
  }

  /** The last arrival is in order and finds an event kept aside whose turn has come. */
  ghost predicate Replays(gap: nat, arrivals: seq<Arrival>) {
    arrivals != [] &&
    var front, ev := arrivals[..|arrivals| - 1], arrivals[|arrivals| - 1].1;
    var v := VenueIndex(ev.venue);
    ReplaysFrom(Aside(gap, front, v), Arbitrate(gap, front).windows[v], gap, ev)
  }

  ghost predicate ReplaysFrom(kept: seq<BookEvent>, w: Window, gap: nat, ev: BookEvent) {
    StatusOf(w.next, gap, ev.sequence) == InOrder
    && exists e :: e in kept && e.sequence == Step(w, gap, ev.sequence).next
  }

  /** What is kept aside has been passed by, or waits in the gap window: its turn cannot come. */
  ghost predicate Behind(kept: seq<BookEvent>, w: Window) {
    forall e :: e in kept ==> e.sequence in w.live || e.sequence < w.next
  }

  ghost predicate AsideBehind(gap: nat, arrivals: seq<Arrival>, v: nat)
    requires v < VENUE_SLOTS
  {
    Behind(Aside(gap, arrivals, v), Arbitrate(gap, arrivals).windows[v])
  }

  ghost function WindowHeard(w: Window, gap: nat, ev: BookEvent): Window {
    if StatusOf(w.next, gap, ev.sequence) == GapTooLarge then Advance(w, ev.sequence) else Step(w, gap, ev.sequence)
  }

  /** A number passed by or waiting in the window is so after every arrival that does not wrap. */
  lemma StaysBehind(w: Window, gap: nat, ev: BookEvent, t: nat)
    requires WindowOk(w, gap) && !Wraps(w, ev.sequence) && (t in w.live || t < w.next)
    ensures t in WindowHeard(w, gap, ev).live || t < WindowHeard(w, gap, ev).next
  {
  }

  lemma BehindAfter(kept: seq<BookEvent>, w: Window, gap: nat, ev: BookEvent)
    requires Behind(kept, w) && WindowOk(w, gap) && !Wraps(w, ev.sequence)
    ensures Behind(AsideAfter(kept, w, gap, ev, VenueIndex(ev.venue)), WindowHeard(w, gap, ev))
  {
    forall e | e in AsideAfter(kept, w, gap, ev, VenueIndex(ev.venue))
      ensures e.sequence in WindowHeard(w, gap, ev).live || e.sequence < WindowHeard(w, gap, ev).next
    {
      BeyondMembers(kept, Step(w, gap, ev.sequence).next, e);
      if e in kept {
        StaysBehind(w, gap, ev, e.sequence);
      }
    }
  }

  lemma AsideStaysBehind(gap: nat, arrivals: seq<Arrival>, v: nat)
    requires arrivals != [] && v < VENUE_SLOTS && AsideBehind(gap, arrivals[..|arrivals| - 1], v)
    requires var ev := arrivals[|arrivals| - 1].1;
      VenueIndex(ev.venue) == v ==> !Wraps(Arbitrate(gap, arrivals[..|arrivals| - 1]).windows[v], ev.sequence)
    ensures AsideBehind(gap, arrivals, v)
  {
    var front, ev := arrivals[..|arrivals| - 1], arrivals[|arrivals| - 1].1;
    var w := Arbitrate(gap, front).windows[v];
    EveryRunKeepsWindows(gap, front);
    assert WindowOk(w, gap);
    if VenueIndex(ev.venue) == v {
      BehindAfter(Aside(gap, front, v), w, gap, ev);
      assert Arbitrate(gap, arrivals).windows[v] == WindowHeard(w, gap, ev);
    }
  }

  lemma BehindMeansNoReplay(gap: nat, arrivals: seq<Arrival>)
    requires arrivals != []
    requires var front, ev := arrivals[..|arrivals| - 1], arrivals[|arrivals| - 1].1;
      && AsideBehind(gap, front, VenueIndex(ev.venue))
      && !Wraps(Arbitrate(gap, front).windows[VenueIndex(ev.venue)], ev.sequence)
    ensures !Replays(gap, arrivals)
  {
  }

  lemma {:induction false} AsideIsBehind(gap: nat, arrivals: seq<Arrival>, v: nat)
    requires NeverWraps(gap, arrivals) && v < VENUE_SLOTS
    ensures AsideBehind(gap, arrivals, v)
  {
    if arrivals != [] {
      AsideIsBehind(gap, arrivals[..|arrivals| - 1], v);
      AsideStaysBehind(gap, arrivals, v);
    }
  }

  /** Until the range wraps, the replay of an event kept aside is dead code. */
  lemma NothingReplays(gap: nat, arrivals: seq<Arrival>)
    requires NeverWraps(gap, arrivals)
    ensures !Replays(gap, arrivals)
  {
    if arrivals != [] {
      AsideIsBehind(gap, arrivals[..|arrivals| - 1], VenueIndex(arrivals[|arrivals| - 1].1.venue));
      BehindMeansNoReplay(gap, arrivals);
    }
  }

  /** The window of a venue and whether an event is kept aside for it, after one more arrival of the venue. */
  lemma OneMoreOfVenue(gap: nat, arrivals: seq<Arrival>, a: Arrival, e: BookEvent)
    ensures var v := VenueIndex(a.1.venue);
      var w, w' := Arbitrate(gap, arrivals).windows[v], Arbitrate(gap, arrivals + [a]).windows[v];
      var status := StatusOf(w.next, gap, a.1.sequence);
      && w' == WindowHeard(w, gap, a.1)
      && (e in Aside(gap, arrivals + [a], v) <==>
            if status == GapBuffered then e in Aside(gap, arrivals, v) || e == a.1
            else e in Aside(gap, arrivals, v) && (status == InOrder ==> e.sequence > w'.next))
  {
    var v := VenueIndex(a.1.venue);
    assert (arrivals + [a])[..|arrivals|] == arrivals;
    BeyondMembers(Aside(gap, arrivals, v), Arbitrate(gap, arrivals + [a]).windows[v].next, e);
  }

  /** Kept aside, 3 survives a jump to the last number and the wrap behind it. */
  lemma AsideAcrossTheWrap(gap: nat, side: FeedSide, third: BookEvent, last: BookEvent)
    requires 2 <= gap < MAX64 - 1 && third.venue == last.venue && third.sequence == 3 && last.sequence == MAX64
    ensures var wrapped := [(side, third)] + [(side, last)] + [(side, last)];
      var v := VenueIndex(last.venue);
      Arbitrate(gap, wrapped).windows[v] == FRESH_WINDOW && third in Aside(gap, wrapped, v)
  {
    var start: seq<Arrival> := [];
    OneMoreOfVenue(gap, start, (side, third), third);
    assert start + [(side, third)] == [(side, third)];
    OneMoreOfVenue(gap, [(side, third)], (side, last), third);
    FirstFreeIs(MAX64 + 1, {}, MAX64 + 1);
    OneMoreOfVenue(gap, [(side, third)] + [(side, last)], (side, last), third);
  }

  /** Afterwards it is not: 3 kept aside, the last number skipped to and taken, then 1 and 2. */
  lemma ReplaysAfterTheWrap(gap: nat, side: FeedSide, third: BookEvent, last: BookEvent, first: BookEvent, second: BookEvent)
    requires 2 <= gap < MAX64 - 1 && third.venue == last.venue == first.venue == second.venue
    requires third.sequence == 3 && last.sequence == MAX64 && first.sequence == 1 && second.sequence == 2
    ensures Replays(gap, [(side, third)] + [(side, last)] + [(side, last)] + [(side, first)] + [(side, second)])
  {
    AsideAcrossTheWrap(gap, side, third, last);
    var wrapped := [(side, third)] + [(side, last)] + [(side, last)];
    FirstFreeIs(2, {}, 2);
    OneMoreOfVenue(gap, wrapped, (side, first), third);
    var front := wrapped + [(side, first)];
    FirstFreeIs(3, {}, 3);
    assert (front + [(side, second)])[..|front|] == front;
    assert third in Aside(gap, front, VenueIndex(third.venue));
  }

  /** Only numbers above the next one wanted are kept aside. */
  lemma {:induction false} AsideIsAboveOne(gap: nat, arrivals: seq<Arrival>, v: nat, e: BookEvent)
    requires v < VENUE_SLOTS && e in Aside(gap, arrivals, v)
    ensures e.sequence >= 2
  {
    var front := arrivals[..|arrivals| - 1];
    EveryRunKeepsWindows(gap, front);
    assert WindowOk(Arbitrate(gap, front).windows[v], gap);
    BeyondMembers(Aside(gap, front, v), Arbitrate(gap, arrivals).windows[v].next, e);
    if e in Aside(gap, front, v) {
      AsideIsAboveOne(gap, front, v, e);
    }
  }

  /** The arrival at the end is the first to wrap, on its venue. */
  ghost predicate EndsInWrap(gap: nat, arrivals: seq<Arrival>) {
    arrivals != [] &&
    var front, ev := arrivals[..|arrivals| - 1], arrivals[|arrivals| - 1].1;
    NeverWraps(gap, front) && Wraps(Arbitrate(gap, front).windows[VenueIndex(ev.venue)], ev.sequence)
  }

  lemma WrapStartsAfresh(gap: nat, arrivals: seq<Arrival>)
    requires EndsInWrap(gap, arrivals)
    ensures Arbitrate(gap, arrivals).windows[VenueIndex(arrivals[|arrivals| - 1].1.venue)] == FRESH_WINDOW
  {
    var front, ev := arrivals[..|arrivals| - 1], arrivals[|arrivals| - 1].1;
    EveryRunKeepsWindows(gap, front);
    assert WindowOk(Arbitrate(gap, front).windows[VenueIndex(ev.venue)], gap);
  }

  lemma {:induction false} NothingLeftNothingReplays(gap: nat, arrivals: seq<Arrival>, more: seq<Arrival>, v: nat)
    requires EndsInWrap(gap, arrivals) && NeverWrapsFrom(gap, |arrivals|, arrivals + more) && v < VENUE_SLOTS
    requires Aside(gap, arrivals, VenueIndex(arrivals[|arrivals| - 1].1.venue)) == []
    ensures AsideBehind(gap, arrivals + more, v)
    decreases |more|
  {
    var all := arrivals + more;
    if more == [] {
      assert all == arrivals;
      AsideIsBehind(gap, arrivals[..|arrivals| - 1], v);
    } else {
      assert all[..|all| - 1] == arrivals + more[..|more| - 1];
      NothingLeftNothingReplays(gap, arrivals, more[..|more| - 1], v);
      AsideStaysBehind(gap, all, v);
    }
  }

  /** The numbers 1 .. k of one venue. */
  function Climb(ev: BookEvent, k: nat): seq<Arrival>
    requires k <= MAX64
  {
    seq(k, j requires 0 <= j < k => (A, ev.(sequence := j + 1)))
  }

  lemma ClimbsOne(gap: nat, arrivals: seq<Arrival>, a: Arrival, e: BookEvent)
    requires var v := VenueIndex(a.1.venue);
      && Arbitrate(gap, arrivals).windows[v] == Window(a.1.sequence, {}) && 0 < a.1.sequence < MAX64
      && e in Aside(gap, arrivals, v) && a.1.sequence + 1 < e.sequence
    ensures var v := VenueIndex(a.1.venue);
      && Arbitrate(gap, arrivals + [a]).windows[v] == Window(a.1.sequence + 1, {}) && e in Aside(gap, arrivals + [a], v)
      && !Wraps(Arbitrate(gap, arrivals).windows[v], a.1.sequence)
  {
    FirstFreeIs(a.1.sequence + 1, {}, a.1.sequence + 1);
    OneMoreOfVenue(gap, arrivals, a, e);
  }

  lemma {:induction false} ClimbsTo(gap: nat, arrivals: seq<Arrival>, ev: BookEvent, e: BookEvent, k: nat)
    requires var v := VenueIndex(ev.venue);
      Arbitrate(gap, arrivals).windows[v] == FRESH_WINDOW && e in Aside(gap, arrivals, v) && k + 1 < e.sequence
    ensures var v := VenueIndex(ev.venue); var all := arrivals + Climb(ev, k);
      && Arbitrate(gap, all).windows[v] == Window(k + 1, {}) && e in Aside(gap, all, v)
      && NeverWrapsFrom(gap, |arrivals|, all)
  {
    if k == 0 {
      assert arrivals + Climb(ev, 0) == arrivals;
    } else {
      var front, a := arrivals + Climb(ev, k - 1), (A, ev.(sequence := k));
      assert front + [a] == arrivals + Climb(ev, k);
      assert (front + [a])[..|front|] == front;
      ClimbsTo(gap, arrivals, ev, e, k - 1);
      ClimbsOne(gap, front, a, e);
    }
  }

  lemma SomethingLeftReplays(gap: nat, arrivals: seq<Arrival>, e: BookEvent) returns (more: seq<Arrival>)
    requires EndsInWrap(gap, arrivals) && e in Aside(gap, arrivals, VenueIndex(arrivals[|arrivals| - 1].1.venue))
    ensures NeverWrapsFrom(gap, |arrivals|, arrivals + more) && Replays(gap, arrivals + more)
  {
    var ev := arrivals[|arrivals| - 1].1;
    AsideIsAboveOne(gap, arrivals, VenueIndex(ev.venue), e);
    WrapStartsAfresh(gap, arrivals);
    var k := e.sequence - 1;
    ClimbsTo(gap, arrivals, ev, e, k - 1);
    var front, a := arrivals + Climb(ev, k - 1), (A, ev.(sequence := k));
    ReplaysNow(gap, front, a, e);
    more := Climb(ev, k - 1) + [a];
    assert arrivals + more == front + [a];
    assert (front + [a])[..|front|] == front;
  }

  lemma ReplaysNow(gap: nat, arrivals: seq<Arrival>, a: Arrival, e: BookEvent)
    requires var v := VenueIndex(a.1.venue);
      && Arbitrate(gap, arrivals).windows[v] == Window(a.1.sequence, {}) && 0 < a.1.sequence < MAX64
      && e in Aside(gap, arrivals, v) && e.sequence == a.1.sequence + 1
    ensures Replays(gap, arrivals + [a])
    ensures !Wraps(Arbitrate(gap, arrivals).windows[VenueIndex(a.1.venue)], a.1.sequence)
  {
    FirstFreeIs(a.1.sequence + 1, {}, a.1.sequence + 1);
    assert (arrivals + [a])[..|arrivals|] == arrivals;
  }

  /** A wrap leads to a replay, short of a second wrap, if and only if it leaves something kept aside. */
  lemma ReplaysIffSomethingIsLeft(gap: nat, arrivals: seq<Arrival>)
    requires EndsInWrap(gap, arrivals)
    ensures (exists more: seq<Arrival> ::
               NeverWrapsFrom(gap, |arrivals|, arrivals + more) && Replays(gap, arrivals + more))
        <==> Aside(gap, arrivals, VenueIndex(arrivals[|arrivals| - 1].1.venue)) != []
  {
    var front, ev := arrivals[..|arrivals| - 1], arrivals[|arrivals| - 1].1;
    var v := VenueIndex(ev.venue);
    if Aside(gap, arrivals, v) != [] {
      var more := SomethingLeftReplays(gap, arrivals, Aside(gap, arrivals, v)[0]);
    } else {
      forall more: seq<Arrival> | NeverWrapsFrom(gap, |arrivals|, arrivals + more)
        ensures !Replays(gap, arrivals + more)
      {
        NothingReplaysAfter(gap, arrivals, more);
      }
    }
  }

  lemma NothingReplaysAfter(gap: nat, arrivals: seq<Arrival>, more: seq<Arrival>)
    requires EndsInWrap(gap, arrivals) && NeverWrapsFrom(gap, |arrivals|, arrivals + more)
    requires Aside(gap, arrivals, VenueIndex(arrivals[|arrivals| - 1].1.venue)) == []
    ensures !Replays(gap, arrivals + more)
  {
    var all := arrivals + more;
    if more == [] {
      assert all == arrivals;
      WrapDoesNotReplay(gap, arrivals);
    } else {
      assert all[..|all| - 1] == arrivals + more[..|more| - 1];
      NothingLeftNothingReplays(gap, arrivals, more[..|more| - 1], VenueIndex(all[|all| - 1].1.venue));
      BehindMeansNoReplay(gap, all);
    }
  }

  /** The wrap itself replays nothing: 1 is never kept aside. */
  lemma WrapDoesNotReplay(gap: nat, arrivals: seq<Arrival>)
    requires EndsInWrap(gap, arrivals)
    ensures !Replays(gap, arrivals)
  {
    var front, ev := arrivals[..|arrivals| - 1], arrivals[|arrivals| - 1].1;
    var v := VenueIndex(ev.venue);
    if Replays(gap, arrivals) {
      var e :| e in Aside(gap, front, v) && e.sequence == Step(Arbitrate(gap, front).windows[v], gap, ev.sequence).next;
      AsideIsAboveOne(gap, front, v, e);
      assert false;
    }
  }

  // ---- First arrivals ----

  ghost predicate Seen(s: seq<BookEvent>, ev: BookEvent) {
    exists k :: 0 <= k < |s| && s[k].venue == ev.venue && s[k].sequence == ev.sequence
  }

  /** The first arrival of each number of each venue, whichever feed brought it; 0 is no number. */
  ghost function Firsts(arrivals: seq<Arrival>): seq<BookEvent> {
    if arrivals == [] then []
    else
      var front, ev := Firsts(arrivals[..|arrivals| - 1]), arrivals[|arrivals| - 1].1;
      if ev.sequence == 0 || Seen(front, ev) then front else front + [ev]
  }

  // ---- Two lossy copies of one source ----

  /** How the copies of one event race: even numbers lead on feed A, odd ones on feed B. */
  function Copies(ev: BookEvent, keepA: bool, keepB: bool): seq<Arrival> {
    if keepA && keepB then
      (if ev.sequence % 2 == 0 then [(A, ev), (B, ev)] else [(B, ev), (A, ev)])
    else if keepA then [(A, ev)]
    else if keepB then [(B, ev)]
    else []
  }

  function RaceStream(source: seq<BookEvent>, keepA: seq<bool>, keepB: seq<bool>): seq<Arrival>
    requires |source| == |keepA| == |keepB|
  {
    if source == [] then []
    else
      var n := |source| - 1;
      RaceStream(source[..n], keepA[..n], keepB[..n]) + Copies(source[n], keepA[n], keepB[n])
  }

  method MakeDualFeedRaceStream(source: seq<BookEvent>, keepA: seq<bool>, keepB: seq<bool>)
    returns (out: seq<Arrival>, droppedA: nat, droppedB: nat)
    requires |source| == |keepA| == |keepB|
    ensures out == RaceStream(source, keepA, keepB)
    ensures droppedA == Count(keepA, false) && droppedB == Count(keepB, false)
  {
    out, droppedA, droppedB := [], 0, 0;
    for i := 0 to |source|
      invariant out == RaceStream(source[..i], keepA[..i], keepB[..i])
      invariant droppedA == Count(keepA[..i], false) && droppedB == Count(keepB[..i], false)
    {
      assert source[..i + 1][..i] == source[..i] && keepA[..i + 1][..i] == keepA[..i] && keepB[..i + 1][..i] == keepB[..i];
      if !keepA[i] {
        droppedA := droppedA + 1;
      }
      if !keepB[i] {
        droppedB := droppedB + 1;
      }
      if !keepA[i] && !keepB[i] {
        continue;
      }
      var aFirst := source[i].sequence % 2 == 0;
      if keepA[i] && keepB[i] {
        if aFirst {
          out := out + [(A, source[i]), (B, source[i])];
        } else {
          out := out + [(B, source[i]), (A, source[i])];
        }
      } else if keepA[i] {
        out := out + [(A, source[i])];
      } else {
        out := out + [(B, source[i])];
      }
    }
    assert source[..|source|] == source && keepA[..|source|] == keepA && keepB[..|source|] == keepB;
  }

  function Count(s: seq<bool>, b: bool): nat {
    if s == [] then 0 else Count(s[..|s| - 1], b) + if s[|s| - 1] == b then 1 else 0
  }

  /** Every venue numbers its events 1, 2, 3, ... in source order. */
  ghost predicate Contiguous(source: seq<BookEvent>) {
    forall i :: 0 <= i < VENUE_SLOTS ==> Numbered(VenueEvents(source, i))
  }

  ghost predicate Numbered(s: seq<BookEvent>) {
    forall j :: 0 <= j < |s| ==> s[j].sequence == j + 1
  }

  /** The arbiter after it has delivered exactly source, with nothing kept aside. */
  ghost predicate CaughtUp(s: Arbiter, source: seq<BookEvent>) {
    && |s.windows| == VENUE_SLOTS
    && s.delivered == source && s.gapBuffered == 0 && s.forcedAdvances == 0
    && forall i :: 0 <= i < VENUE_SLOTS ==> s.windows[i] == Window(|VenueEvents(source, i)| + 1, {})
  }

  lemma ContiguousSplits(front: seq<BookEvent>, ev: BookEvent)
    requires Contiguous(front + [ev])
    ensures Contiguous(front)
    ensures ev.sequence == |VenueEvents(front, VenueIndex(ev.venue))| + 1
    ensures forall i :: 0 <= i < VENUE_SLOTS ==>
      VenueEvents(front + [ev], i) == VenueEvents(front, i) + if i == VenueIndex(ev.venue) then [ev] else []
  {
    forall i | 0 <= i < VENUE_SLOTS
      ensures VenueEvents(front + [ev], i) == VenueEvents(front, i) + if i == VenueIndex(ev.venue) then [ev] else []
      ensures Numbered(VenueEvents(front, i))
    {
      VenueEventsOfConcat(front, [ev], i);
      VenueEventsOfOne(ev, i);
      assert Numbered(VenueEvents(front + [ev], i));
      assert forall j :: 0 <= j < |VenueEvents(front, i)| ==> VenueEvents(front, i)[j] == VenueEvents(front + [ev], i)[j];
    }
    var v := VenueIndex(ev.venue);
    assert VenueEvents(front + [ev], v)[|VenueEvents(front, v)|] == ev;
  }

  lemma ContiguousExtends(front: seq<BookEvent>, ev: BookEvent)
    requires Contiguous(front) && ev.sequence == |VenueEvents(front, VenueIndex(ev.venue))| + 1
    ensures Contiguous(front + [ev])
  {
    forall i | 0 <= i < VENUE_SLOTS ensures Numbered(VenueEvents(front + [ev], i)) {
      VenueEventsOfConcat(front, [ev], i);
      VenueEventsOfOne(ev, i);
      assert Numbered(VenueEvents(front, i));
    }
  }

  /** A contiguous stream has seen exactly the numbers up to its count. */
  lemma SeenIsCounted(s: seq<BookEvent>, ev: BookEvent)
    requires Contiguous(s) && ev.sequence > 0
    ensures Seen(s, ev) <==> ev.sequence <= |VenueEvents(s, VenueIndex(ev.venue))|
  {
    var v := VenueIndex(ev.venue);
    var mine := VenueEvents(s, v);
    assert Numbered(mine);
    if Seen(s, ev) {
      var k :| 0 <= k < |s| && s[k].venue == ev.venue && s[k].sequence == ev.sequence;
      VenueEventsContain(s, v, k);
    } else if ev.sequence <= |mine| {
      var e := mine[ev.sequence - 1];
      VenueEventsMember(s, v, e);
    }
  }

  lemma FirstCopyIsTaken(s: Arbiter, gap: nat, front: seq<BookEvent>, side: FeedSide, ev: BookEvent)
    requires CaughtUp(s, front) && Contiguous(front + [ev])
    requires !Wraps(s.windows[VenueIndex(ev.venue)], ev.sequence)
    ensures CaughtUp(Offer(s, gap, side, ev), front + [ev])
  {
    ContiguousSplits(front, ev);
    FirstFreeIs(ev.sequence + 1, {}, ev.sequence + 1);
    var v := VenueIndex(ev.venue);
    assert Offer(s, gap, side, ev).windows[v] == Window(ev.sequence + 1, {});
  }

  lemma LaterCopyIsDropped(s: Arbiter, gap: nat, front: seq<BookEvent>, side: FeedSide, ev: BookEvent)
    requires CaughtUp(s, front) && Contiguous(front) && (ev.sequence == 0 || Seen(front, ev))
    ensures CaughtUp(Offer(s, gap, side, ev), front)
  {
    if ev.sequence > 0 {
      SeenIsCounted(front, ev);
    }
  }

  lemma {:induction false} ContiguousFirstsAreTaken(gap: nat, arrivals: seq<Arrival>)
    requires NeverWraps(gap, arrivals) && Contiguous(Firsts(arrivals))
    ensures CaughtUp(Arbitrate(gap, arrivals), Firsts(arrivals))
  {
    if arrivals != [] {
      var rest, last := arrivals[..|arrivals| - 1], arrivals[|arrivals| - 1];
      var front, ev := Firsts(rest), last.1;
      if ev.sequence == 0 || Seen(front, ev) {
        ContiguousFirstsAreTaken(gap, rest);
        LaterCopyIsDropped(Arbitrate(gap, rest), gap, front, last.0, ev);
      } else {
        ContiguousSplits(front, ev);
        ContiguousFirstsAreTaken(gap, rest);
        FirstCopyIsTaken(Arbitrate(gap, rest), gap, front, last.0, ev);
      }
    }
  }

  /** If nothing was kept aside and nothing skipped, each first copy came right after its predecessor. */
  lemma {:induction false} UndisturbedRunIsContiguous(gap: nat, arrivals: seq<Arrival>)
    requires NeverWraps(gap, arrivals)
    requires Arbitrate(gap, arrivals).gapBuffered == 0 && Arbitrate(gap, arrivals).forcedAdvances == 0
    ensures Contiguous(Firsts(arrivals))
  {
    if arrivals != [] {
      var rest, ev := arrivals[..|arrivals| - 1], arrivals[|arrivals| - 1].1;
      UndisturbedRunIsContiguous(gap, rest);
      ContiguousFirstsAreTaken(gap, rest);
      if ev.sequence > 0 {
        SeenIsCounted(Firsts(rest), ev);
        if !Seen(Firsts(rest), ev) {
          ContiguousExtends(Firsts(rest), ev);
        }
      }
    }
  }

  lemma {:induction false} SomethingWasKeptAside(gap: nat, arrivals: seq<Arrival>) returns (k: nat)
    requires Arbitrate(gap, arrivals).gapBuffered > 0
    ensures k < |arrivals|
    ensures var ev := arrivals[k].1;
      StatusOf(Arbitrate(gap, arrivals[..k]).windows[VenueIndex(ev.venue)].next, gap, ev.sequence) == GapBuffered
  {
    var n := |arrivals| - 1;
    if Arbitrate(gap, arrivals[..n]).gapBuffered > 0 {
      k := SomethingWasKeptAside(gap, arrivals[..n]);
      assert arrivals[..n][..k] == arrivals[..k];
    } else {
      k := n;
    }
  }

  lemma {:induction false} ArrivedIsSeen(arrivals: seq<Arrival>, k: nat)
    requires k < |arrivals| && arrivals[k].1.sequence > 0
    ensures Seen(Firsts(arrivals), arrivals[k].1)
  {
    var n := |arrivals| - 1;
    var front, ev := Firsts(arrivals[..n]), arrivals[n].1;
    if k < n {
      ArrivedIsSeen(arrivals[..n], k);
      var m :| 0 <= m < |front| && front[m].venue == arrivals[k].1.venue && front[m].sequence == arrivals[k].1.sequence;
      assert Firsts(arrivals)[m] == front[m];
    } else if !Seen(front, ev) {
      assert (front + [ev])[|front|] == ev;
    }
  }

  /**
    Whatever the two feeds bring, in whatever interleaving: the arbiter delivers exactly the first
    arrivals, in order and without a forced advance, if and only if each of them comes right after its
    predecessor; and that is so if and only if nothing is kept aside and nothing skipped.
   */
  lemma ArbitrationDeliversTheFirsts(gap: nat, arrivals: seq<Arrival>)
    requires NeverWraps(gap, arrivals)
    ensures var s := Arbitrate(gap, arrivals);
      && (Contiguous(Firsts(arrivals)) ==> CaughtUp(s, Firsts(arrivals)))
      && (Contiguous(Firsts(arrivals)) <==> s.gapBuffered == 0 && s.forcedAdvances == 0)
      && (Contiguous(Firsts(arrivals)) <==> s.delivered == Firsts(arrivals) && s.forcedAdvances == 0)
  {
    var s := Arbitrate(gap, arrivals);
    if Contiguous(Firsts(arrivals)) {
      ContiguousFirstsAreTaken(gap, arrivals);
    } else if s.gapBuffered == 0 && s.forcedAdvances == 0 {
      UndisturbedRunIsContiguous(gap, arrivals);
    } else if s.gapBuffered > 0 {
      var k := SomethingWasKeptAside(gap, arrivals);
      KeptAsideIsNeverDelivered(gap, arrivals, k);
      ArrivedIsSeen(arrivals, k);
      var m :| 0 <= m < |Firsts(arrivals)| && Firsts(arrivals)[m].venue == arrivals[k].1.venue
               && Firsts(arrivals)[m].sequence == arrivals[k].1.sequence;
      assert Firsts(arrivals)[m] in Firsts(arrivals);
    }
  }

  /** A race between two copies brings every event that survives on a feed first to its turn. */
  lemma {:induction false} FirstsOfRace(source: seq<BookEvent>, keepA: seq<bool>, keepB: seq<bool>)
    requires |source| == |keepA| == |keepB| && Contiguous(source)
    requires forall n :: 0 <= n < |source| ==> keepA[n] || keepB[n]
    ensures Firsts(RaceStream(source, keepA, keepB)) == source
  {
    if source != [] {
      var n := |source| - 1;
      var front, ev := source[..n], source[n];
      assert source == front + [ev];
      ContiguousSplits(front, ev);
      FirstsOfRace(front, keepA[..n], keepB[..n]);
      SeenIsCounted(front, ev);
      FirstsOfCopies(RaceStream(front, keepA[..n], keepB[..n]), front, ev, keepA[n], keepB[n]);
    }
  }

  lemma FirstsOfCopies(stream: seq<Arrival>, front: seq<BookEvent>, ev: BookEvent, keepA: bool, keepB: bool)
    requires Firsts(stream) == front && !Seen(front, ev) && ev.sequence > 0 && (keepA || keepB)
    ensures Firsts(stream + Copies(ev, keepA, keepB)) == front + [ev]
  {
    var copies := Copies(ev, keepA, keepB);
    FirstsOfNew(stream, copies[0]);
    if |copies| == 2 {
      FirstsOfRepeat(stream + [copies[0]], front, copies[1]);
      assert stream + [copies[0]] + [copies[1]] == stream + copies;
    } else {
      assert stream + [copies[0]] == stream + copies;
    }
  }

  lemma FirstsOfNew(stream: seq<Arrival>, a: Arrival)
    requires !Seen(Firsts(stream), a.1) && a.1.sequence > 0
    ensures Firsts(stream + [a]) == Firsts(stream) + [a.1]
  {
    assert (stream + [a])[..|stream|] == stream;
  }

  lemma FirstsOfRepeat(stream: seq<Arrival>, front: seq<BookEvent>, a: Arrival)
    requires Firsts(stream) == front + [a.1]
    ensures Firsts(stream + [a]) == Firsts(stream)
  {
    assert (stream + [a])[..|stream|] == stream;
    assert (front + [a.1])[|front|] == a.1;
  }

  lemma {:induction false} DeliveredArrived(gap: nat, arrivals: seq<Arrival>, e: BookEvent)
    requires e in Arbitrate(gap, arrivals).delivered
    ensures exists a :: a in arrivals && a.1 == e
  {
    var front, last := arrivals[..|arrivals| - 1], arrivals[|arrivals| - 1];
    if e in Arbitrate(gap, front).delivered {
      DeliveredArrived(gap, front, e);
      var a :| a in front && a.1 == e;
      assert a in arrivals;
    } else {
      assert last in arrivals && last.1 == e;
    }
  }

  lemma {:induction false} ArrivedWasKept(source: seq<BookEvent>, keepA: seq<bool>, keepB: seq<bool>, a: Arrival)
    requires |source| == |keepA| == |keepB| && a in RaceStream(source, keepA, keepB)
    ensures exists n :: 0 <= n < |source| && source[n] == a.1 && (keepA[n] || keepB[n])
  {
    var n := |source| - 1;
    if a in Copies(source[n], keepA[n], keepB[n]) {
      assert source[n] == a.1;
    } else {
      ArrivedWasKept(source[..n], keepA[..n], keepB[..n], a);
      var m :| 0 <= m < n && source[..n][m] == a.1 && (keepA[..n][m] || keepB[..n][m]);
      assert source[m] == a.1 && (keepA[m] || keepB[m]);
    }
  }

  lemma {:induction false} ContiguousHasNoRepeats(source: seq<BookEvent>, m: nat, n: nat)
    requires Contiguous(source) && m < n < |source|
    ensures source[m] != source[n]
  {
    var k := |source| - 1;
    var front, ev := source[..k], source[k];
    assert source == front + [ev];
    ContiguousSplits(front, ev);
    if n < k {
      ContiguousHasNoRepeats(front, m, n);
    } else {
      VenueEventsContain(front, VenueIndex(source[m].venue), m);
      assert Numbered(VenueEvents(front, VenueIndex(source[m].venue)));
    }
  }

  lemma {:induction false} VenueEventsContain(s: seq<BookEvent>, i: nat, m: nat)
    requires m < |s| && VenueIndex(s[m].venue) == i
    ensures s[m] in VenueEvents(s, i)
  {
    if m > 0 {
      VenueEventsContain(s[1..], i, m - 1);
    }
  }

  lemma {:induction false} RaceStaysBelow(source: seq<BookEvent>, keepA: seq<bool>, keepB: seq<bool>)
    requires |source| == |keepA| == |keepB| && forall e :: e in source ==> e.sequence < MAX64
    ensures BelowWrap(RaceStream(source, keepA, keepB))
  {
    forall a | a in RaceStream(source, keepA, keepB) ensures a.1.sequence < MAX64 {
      ArrivedWasKept(source, keepA, keepB, a);
    }
  }

  /**
    Whatever each feed drops, the arbiter delivers the source, whole and in order, exactly when no
    event was dropped by both feeds.
   */
  lemma ArbitrationRestoresTheSource(gap: nat, source: seq<BookEvent>, keepA: seq<bool>, keepB: seq<bool>)
    requires |source| == |keepA| == |keepB| && Contiguous(source)
    requires forall e :: e in source ==> e.sequence < MAX64
    ensures Arbitrate(gap, RaceStream(source, keepA, keepB)).delivered == source
        <==> forall n :: 0 <= n < |source| ==> keepA[n] || keepB[n]
    ensures (forall n :: 0 <= n < |source| ==> keepA[n] || keepB[n]) ==>
      Arbitrate(gap, RaceStream(source, keepA, keepB)).forcedAdvances == 0
  {
    var stream := RaceStream(source, keepA, keepB);
    if forall n :: 0 <= n < |source| ==> keepA[n] || keepB[n] {
      FirstsOfRace(source, keepA, keepB);
      RaceStaysBelow(source, keepA, keepB);
      BelowWrapNeverWraps(gap, stream);
      ArbitrationDeliversTheFirsts(gap, stream);
    } else {
      var n :| 0 <= n < |source| && !keepA[n] && !keepB[n];
      LostEventIsNotDelivered(gap, source, keepA, keepB, n);
      assert source[n] in source;
    }
  }

  /** How many events feed A brings first: those it keeps, if their number is even or feed B drops them. */
  function LedByA(source: seq<BookEvent>, keepA: seq<bool>, keepB: seq<bool>): nat
    requires |source| == |keepA| == |keepB|
  {
    if source == [] then 0
    else
      var n := |source| - 1;
      LedByA(source[..n], keepA[..n], keepB[..n])
      + if keepA[n] && (!keepB[n] || source[n].sequence % 2 == 0) then 1 else 0
  }

  lemma CreditOfOne(gap: nat, stream: seq<Arrival>, front: seq<BookEvent>, a: Arrival)
    requires CaughtUp(Arbitrate(gap, stream), front) && Contiguous(front + [a.1]) && a.1.sequence < MAX64
    ensures var s, t := Arbitrate(gap, stream), Arbitrate(gap, stream + [a]);
      && CaughtUp(t, front + [a.1])
      && t.acceptedA == s.acceptedA + (if a.0 == A then 1 else 0)
      && t.acceptedB == s.acceptedB + (if a.0 == B then 1 else 0)
  {
    assert (stream + [a])[..|stream|] == stream;
    ContiguousSplits(front, a.1);
    FirstFreeIs(a.1.sequence + 1, {}, a.1.sequence + 1);
    FirstCopyIsTaken(Arbitrate(gap, stream), gap, front, a.0, a.1);
  }

  lemma NoCreditForRepeat(gap: nat, stream: seq<Arrival>, front: seq<BookEvent>, a: Arrival)
    requires CaughtUp(Arbitrate(gap, stream), front + [a.1]) && Contiguous(front + [a.1])
    ensures var s, t := Arbitrate(gap, stream), Arbitrate(gap, stream + [a]);
      CaughtUp(t, front + [a.1]) && t.acceptedA == s.acceptedA && t.acceptedB == s.acceptedB
  {
    assert (stream + [a])[..|stream|] == stream;
    ContiguousSplits(front, a.1);
  }

  lemma CreditOfPair(gap: nat, stream: seq<Arrival>, front: seq<BookEvent>, a: Arrival, b: Arrival)
    requires CaughtUp(Arbitrate(gap, stream), front) && Contiguous(front + [a.1]) && a.1.sequence < MAX64 && b.1 == a.1
    ensures var s, t := Arbitrate(gap, stream), Arbitrate(gap, stream + [a, b]);
      && CaughtUp(t, front + [a.1])
      && t.acceptedA == s.acceptedA + (if a.0 == A then 1 else 0)
      && t.acceptedB == s.acceptedB + (if a.0 == B then 1 else 0)
  {
    CreditOfOne(gap, stream, front, a);
    NoCreditForRepeat(gap, stream + [a], front, b);
    assert stream + [a] + [b] == stream + [a, b];
  }

  lemma CreditOfCopies(gap: nat, stream: seq<Arrival>, front: seq<BookEvent>, ev: BookEvent, keepA: bool, keepB: bool)
    requires CaughtUp(Arbitrate(gap, stream), front) && Contiguous(front + [ev]) && ev.sequence < MAX64 && (keepA || keepB)
    ensures var s, t := Arbitrate(gap, stream), Arbitrate(gap, stream + Copies(ev, keepA, keepB));
      var led := keepA && (!keepB || ev.sequence % 2 == 0);
      && CaughtUp(t, front + [ev])
      && t.acceptedA == s.acceptedA + (if led then 1 else 0) && t.acceptedB == s.acceptedB + (if led then 0 else 1)
  {
    if keepA && keepB {
      if ev.sequence % 2 == 0 {
        CreditOfPair(gap, stream, front, (A, ev), (B, ev));
      } else {
        CreditOfPair(gap, stream, front, (B, ev), (A, ev));
      }
    } else if keepA {
      CreditOfOne(gap, stream, front, (A, ev));
    } else {
      CreditOfOne(gap, stream, front, (B, ev));
    }
  }

  /** In a race that loses nothing the feed that leads is credited: A for even numbers, B for odd ones, unless it drops them. */
  lemma {:induction false} CreditGoesToTheLeader(gap: nat, source: seq<BookEvent>, keepA: seq<bool>, keepB: seq<bool>)
    requires |source| == |keepA| == |keepB| && Contiguous(source)
    requires forall n :: 0 <= n < |source| ==> source[n].sequence < MAX64 && (keepA[n] || keepB[n])
    ensures var s := Arbitrate(gap, RaceStream(source, keepA, keepB));
      && CaughtUp(s, source) && s.acceptedA == LedByA(source, keepA, keepB) && s.acceptedA + s.acceptedB == |source|
  {
    if source == [] {
      assert forall i :: 0 <= i < VENUE_SLOTS ==> VenueEvents(source, i) == [];
    } else {
      var n := |source| - 1;
      assert source == source[..n] + [source[n]];
      ContiguousSplits(source[..n], source[n]);
      CreditGoesToTheLeader(gap, source[..n], keepA[..n], keepB[..n]);
      CreditOfCopies(gap, RaceStream(source[..n], keepA[..n], keepB[..n]), source[..n], source[n], keepA[n], keepB[n]);
    }
  }

  lemma LostEventIsNotDelivered(gap: nat, source: seq<BookEvent>, keepA: seq<bool>, keepB: seq<bool>, n: nat)
    requires |source| == |keepA| == |keepB| && Contiguous(source)
    requires n < |source| && !keepA[n] && !keepB[n]
    ensures source[n] !in Arbitrate(gap, RaceStream(source, keepA, keepB)).delivered
  {
    var stream := RaceStream(source, keepA, keepB);
    if source[n] in Arbitrate(gap, stream).delivered {
      DeliveredArrived(gap, stream, source[n]);
      var a :| a in stream && a.1 == source[n];
      ArrivedWasKept(source, keepA, keepB, a);
      var m :| 0 <= m < |source| && source[m] == a.1 && (keepA[m] || keepB[m]);
      if m < n {
        ContiguousHasNoRepeats(source, m, n);
      } else {
        ContiguousHasNoRepeats(source, n, m);
      }
    }
  }

  // ---- The arbiter as an object ----

  datatype AbArbiterResult = AbArbiterResult(accepted: bool, status: Status, recovery: Option<RecoveryRequest>)

  /** Some ordering by sequence; equal numbers come in no particular order. */
  method SortBySequence(s: seq<BookEvent>) returns (r: seq<BookEvent>)
    ensures SortedBySequence(r) && multiset(r) == multiset(s)
    ensures forall e :: e in r <==> e in s
  {
    r := [];
    for i := 0 to |s|
      invariant SortedBySequence(r) && multiset(r) == multiset(s[..i])
    {
      r := InsertSorted(r, s[i]);
      assert s[..i + 1] == s[..i] + [s[i]];
    }
    assert s[..|s|] == s;
    SameMembers(r, s);
  }

  lemma SameMembers(a: seq<BookEvent>, b: seq<BookEvent>)
    requires multiset(a) == multiset(b)
    ensures forall e :: e in a <==> e in b
  {
    forall e ensures e in a <==> e in b {
      assert e in a <==> e in multiset(a);
      assert e in b <==> e in multiset(b);
    }
  }

  method EraseAt(s: seq<BookEvent>, at: nat) returns (r: seq<BookEvent>)
    requires at < |s|
    ensures |r| == |s| - 1 && forall j :: 0 <= j < at ==> r[j] == s[j]
    ensures multiset(r) == multiset(s) - multiset{s[at]}
    ensures SortedBySequence(s) ==> SortedBySequence(r)
  {
    r := s[..at] + s[at + 1..];
    assert s == s[..at] + [s[at]] + s[at + 1..];
  }

  /** Of the events kept aside exactly those beyond a number are still kept, each as often as before. */
  ghost predicate KeepsBeyond(kept: seq<BookEvent>, rest: seq<BookEvent>, next: nat) {
    KeepsExactly(kept, rest, next) == true
  }

  ghost predicate KeepsExactly(kept: seq<BookEvent>, rest: seq<BookEvent>, next: nat) {
    forall u {:trigger Unsealed(u)} :: Unsealed(u) ==>
      forall e: BookEvent :: multiset(rest)[e] == if e.sequence > next then multiset(kept)[e] else 0
  }

  /** Part-way through the erasing: nothing beyond the number is lost, and nothing is invented. */
  ghost predicate Erasing(kept: seq<BookEvent>, rest: seq<BookEvent>, next: nat) {
    forall u {:trigger Unsealed(u)} :: Unsealed(u) ==>
      && SortedBySequence(rest) && multiset(rest) <= multiset(kept)
      && forall e: BookEvent :: e.sequence > next ==> multiset(rest)[e] == multiset(kept)[e]
  }

  lemma ErasingStarts(kept: seq<BookEvent>, rest: seq<BookEvent>, next: nat)
    requires SortedBySequence(rest) && multiset(rest) == multiset(kept)
    ensures Erasing(kept, rest, next)
  {
  }

  lemma ErasingGoesOn(kept: seq<BookEvent>, was: seq<BookEvent>, at: nat, rest: seq<BookEvent>, next: nat)
    requires Erasing(kept, was, next) && at < |was| && was[at].sequence <= next
    requires multiset(rest) == multiset(was) - multiset{was[at]} && (SortedBySequence(was) ==> SortedBySequence(rest))
    ensures Erasing(kept, rest, next)
  {
    assert Unsealed(true);
  }

  lemma StillKept(kept: seq<BookEvent>, rest: seq<BookEvent>, at: nat, next: nat)
    requires Erasing(kept, rest, next) && at < |rest|
    ensures rest[at] in kept
  {
    assert Unsealed(true);
    assert rest[at] in multiset(rest) && rest[at] in multiset(kept);
  }

  lemma ErasingEnds(kept: seq<BookEvent>, rest: seq<BookEvent>, next: nat)
    requires Erasing(kept, rest, next) && forall j :: 0 <= j < |rest| ==> rest[j].sequence > next
    ensures SortedBySequence(rest) && KeepsBeyond(kept, rest, next)
  {
    assert Unsealed(true);
    forall e: BookEvent ensures multiset(rest)[e] == if e.sequence > next then multiset(kept)[e] else 0 {
      if e.sequence <= next {
        assert e !in rest;
        assert e !in multiset(rest);
      }
    }
    assert KeepsExactly(kept, rest, next);
  }

  lemma NothingToErase(next: nat)
    ensures KeepsBeyond([], [], next)
  {
    assert KeepsExactly([], [], next);
  }

  method InsertSorted(s: seq<BookEvent>, e: BookEvent) returns (r: seq<BookEvent>)
    requires SortedBySequence(s)
    ensures SortedBySequence(r) && multiset(r) == multiset(s) + multiset{e}
  {
    var at := 0;
    while at < |s| && s[at].sequence <= e.sequence
      invariant 0 <= at <= |s|
      invariant forall j :: 0 <= j < at ==> s[j].sequence <= e.sequence
    {
      at := at + 1;
    }
    r := s[..at] + [e] + s[at..];
    InsertedMembers(s, at, e);
  }

  lemma InsertedMembers(s: seq<BookEvent>, at: nat, e: BookEvent)
    requires at <= |s|
    ensures multiset(s[..at] + [e] + s[at..]) == multiset(s) + multiset{e}
  {
    assert s == s[..at] + s[at..];
  }

  lemma {:induction false} BeyondCounts(s: seq<BookEvent>, next: nat, e: BookEvent)
    ensures multiset(Beyond(s, next))[e] == if e.sequence > next then multiset(s)[e] else 0
  {
    if s != [] {
      BeyondCounts(s[1..], next, e);
      assert s == [s[0]] + s[1..];
    }
  }

  /** What the object keeps aside for a venue, in whatever order, is what the run has kept aside. */
  ghost predicate Mirrors(kept: seq<BookEvent>, aside: seq<BookEvent>) {
    MirrorsExactly(kept, aside) == true
  }

  ghost predicate MirrorsExactly(kept: seq<BookEvent>, aside: seq<BookEvent>) {
    forall u {:trigger Unsealed(u)} :: Unsealed(u) ==> multiset(kept) == multiset(aside)
  }

  /** For every venue. */
  ghost predicate AllMirror(pending: seq<seq<BookEvent>>, gap: nat, heard: seq<Arrival>) {
    EachMirrors(pending, gap, heard) == true
  }

  ghost predicate EachMirrors(pending: seq<seq<BookEvent>>, gap: nat, heard: seq<Arrival>) {
    forall u {:trigger Unsealed(u)} :: Unsealed(u) ==>
      && |pending| == VENUE_SLOTS
      && forall i :: 0 <= i < VENUE_SLOTS ==> Mirrors(pending[i], Aside(gap, heard, i))
  }

  /** The model and the lists kept aside are those of the arrivals heard. */
  ghost predicate Follows(model: Arbiter, pending: seq<seq<BookEvent>>, gap: nat, heard: seq<Arrival>) {
    FollowsFacts(model, pending, gap, heard) == true
  }

  ghost predicate FollowsFacts(model: Arbiter, pending: seq<seq<BookEvent>>, gap: nat, heard: seq<Arrival>) {
    forall u {:trigger Unsealed(u)} :: Unsealed(u) ==> model == Arbitrate(gap, heard) && AllMirror(pending, gap, heard)
  }

  lemma FollowsIs(model: Arbiter, pending: seq<seq<BookEvent>>, gap: nat, heard: seq<Arrival>)
    requires Follows(model, pending, gap, heard)
    ensures model == Arbitrate(gap, heard) && AllMirror(pending, gap, heard)
    ensures WindowsOk(model, gap) && |pending| == VENUE_SLOTS
  {
    assert Unsealed(true);
    EveryRunKeepsWindows(gap, heard);
  }

  lemma FollowsMore(model: Arbiter, was: seq<seq<BookEvent>>, gap: nat, heard: seq<Arrival>, side: FeedSide,
                    ev: BookEvent, pending: seq<seq<BookEvent>>)
    requires Follows(model, was, gap, heard) && |model.windows| == VENUE_SLOTS
    requires AllMirror(pending, gap, heard + [(side, ev)])
    ensures Follows(Offer(model, gap, side, ev), pending, gap, heard + [(side, ev)])
  {
    FollowsIs(model, was, gap, heard);
    OneMoreHeard(gap, heard, side, ev);
    assert FollowsFacts(Offer(model, gap, side, ev), pending, gap, heard + [(side, ev)]);
  }

  lemma NothingAside(gap: nat)
    ensures AllMirror([[], [], [], [], []], gap, [])
  {
    assert MirrorsExactly([], []);
    assert EachMirrors([[], [], [], [], []], gap, []);
  }

  lemma MirrorsOne(pending: seq<seq<BookEvent>>, gap: nat, heard: seq<Arrival>, i: nat)
    requires AllMirror(pending, gap, heard) && i < VENUE_SLOTS
    ensures |pending| == VENUE_SLOTS && Mirrors(pending[i], Aside(gap, heard, i))
  {
    assert Unsealed(true);
  }

  lemma AsideOfOneMore(gap: nat, heard: seq<Arrival>, a: Arrival, i: nat)
    requires i < VENUE_SLOTS
    ensures Aside(gap, heard + [a], i) == AsideAfter(Aside(gap, heard, i), Arbitrate(gap, heard).windows[i], gap, a.1, i)
  {
    assert (heard + [a])[..|heard|] == heard;
  }

  /** One more arrival changes what is kept aside for its venue, and for no other. */
  lemma MirrorsMore(was: seq<seq<BookEvent>>, gap: nat, heard: seq<Arrival>, side: FeedSide, ev: BookEvent,
                    kept: seq<BookEvent>)
    requires AllMirror(was, gap, heard) && |was| == VENUE_SLOTS
    requires var v := VenueIndex(ev.venue);
      Mirrors(kept, AsideAfter(Aside(gap, heard, v), Arbitrate(gap, heard).windows[v], gap, ev, v))
    ensures AllMirror(was[VenueIndex(ev.venue) := kept], gap, heard + [(side, ev)])
  {
    assert Unsealed(true);
    var now := was[VenueIndex(ev.venue) := kept];
    forall i | 0 <= i < VENUE_SLOTS ensures Mirrors(now[i], Aside(gap, heard + [(side, ev)], i)) {
      AsideOfOneMore(gap, heard, (side, ev), i);
    }
    assert EachMirrors(now, gap, heard + [(side, ev)]);
  }

  lemma AsideGrows(kept: seq<BookEvent>, aside: seq<BookEvent>, ev: BookEvent)
    requires Mirrors(kept, aside)
    ensures Mirrors(kept + [ev], aside + [ev])
  {
    assert Unsealed(true);
    assert MirrorsExactly(kept + [ev], aside + [ev]);
  }

  lemma AsideShrinks(kept: seq<BookEvent>, aside: seq<BookEvent>, rest: seq<BookEvent>, next: nat)
    requires Mirrors(kept, aside) && KeepsBeyond(kept, rest, next)
    ensures Mirrors(rest, Beyond(aside, next))
  {
    assert Unsealed(true);
    forall e: BookEvent ensures multiset(rest)[e] == multiset(Beyond(aside, next))[e] {
      BeyondCounts(aside, next, e);
    }
    assert MirrorsExactly(rest, Beyond(aside, next));
  }

  lemma SameAside(kept: seq<BookEvent>, aside: seq<BookEvent>)
    requires Mirrors(kept, aside)
    ensures forall e :: e in kept <==> e in aside
  {
    assert Unsealed(true);
    SameMembers(kept, aside);
  }

  /** An arrival that is dropped or skipped to leaves the lists as they are. */
  lemma SameAsideKept(model: Arbiter, pending: seq<seq<BookEvent>>, gap: nat, heard: seq<Arrival>, side: FeedSide,
                      ev: BookEvent)
    requires Follows(model, pending, gap, heard) && |model.windows| == |pending| == VENUE_SLOTS
    requires StatusOf(model.windows[VenueIndex(ev.venue)].next, gap, ev.sequence) in {DuplicateOrOld, GapTooLarge}
    ensures Follows(Offer(model, gap, side, ev), pending, gap, heard + [(side, ev)])
  {
    var v := VenueIndex(ev.venue);
    FollowsIs(model, pending, gap, heard);
    MirrorsOne(pending, gap, heard, v);
    MirrorsMore(pending, gap, heard, side, ev, pending[v]);
    assert pending[v := pending[v]] == pending;
    FollowsMore(model, pending, gap, heard, side, ev, pending);
  }

  lemma OneMoreKept(model: Arbiter, pending: seq<seq<BookEvent>>, gap: nat, heard: seq<Arrival>, side: FeedSide,
                    ev: BookEvent)
    requires Follows(model, pending, gap, heard) && |model.windows| == |pending| == VENUE_SLOTS
    requires StatusOf(model.windows[VenueIndex(ev.venue)].next, gap, ev.sequence) == GapBuffered
    ensures var v := VenueIndex(ev.venue);
      Follows(Offer(model, gap, side, ev), pending[v := pending[v] + [ev]], gap, heard + [(side, ev)])
  {
    var v := VenueIndex(ev.venue);
    FollowsIs(model, pending, gap, heard);
    MirrorsOne(pending, gap, heard, v);
    AsideGrows(pending[v], Aside(gap, heard, v), ev);
    MirrorsMore(pending, gap, heard, side, ev, pending[v] + [ev]);
    FollowsMore(model, pending, gap, heard, side, ev, pending[v := pending[v] + [ev]]);
  }

  lemma NoneHasItsTurn(model: Arbiter, pending: seq<seq<BookEvent>>, gap: nat, heard: seq<Arrival>, side: FeedSide,
                       ev: BookEvent)
    requires Follows(model, pending, gap, heard) && |model.windows| == |pending| == VENUE_SLOTS
    requires !Replays(gap, heard + [(side, ev)])
    requires StatusOf(model.windows[VenueIndex(ev.venue)].next, gap, ev.sequence) == InOrder
    ensures var v := VenueIndex(ev.venue);
      forall e :: e in pending[v] ==> e.sequence != Step(model.windows[v], gap, ev.sequence).next
  {
    var v := VenueIndex(ev.venue);
    FollowsIs(model, pending, gap, heard);
    OneMoreHeard(gap, heard, side, ev);
    MirrorsOne(pending, gap, heard, v);
    SameAside(pending[v], Aside(gap, heard, v));
  }

  lemma ReleasedAreGone(model: Arbiter, was: seq<seq<BookEvent>>, gap: nat, heard: seq<Arrival>, side: FeedSide,
                        ev: BookEvent, now: seq<seq<BookEvent>>)
    requires Follows(model, was, gap, heard) && |model.windows| == |was| == |now| == VENUE_SLOTS
    requires var v := VenueIndex(ev.venue);
      && StatusOf(model.windows[v].next, gap, ev.sequence) == InOrder
      && KeepsBeyond(was[v], now[v], Step(model.windows[v], gap, ev.sequence).next)
      && forall i :: 0 <= i < VENUE_SLOTS && i != v ==> now[i] == was[i]
    ensures Follows(Offer(model, gap, side, ev), now, gap, heard + [(side, ev)])
  {
    var v := VenueIndex(ev.venue);
    FollowsIs(model, was, gap, heard);
    MirrorsOne(was, gap, heard, v);
    AsideShrinks(was[v], Aside(gap, heard, v), now[v], Step(model.windows[v], gap, ev.sequence).next);
    MirrorsMore(was, gap, heard, side, ev, now[v]);
    assert was[v := now[v]] == now;
    FollowsMore(model, was, gap, heard, side, ev, now);
  }

  lemma WindowStaysBelow(w: Window, gap: nat, num: nat)
    requires WindowOk(w, gap) && StatusOf(w.next, gap, num) == GapTooLarge
    ensures num !in w.live && Step(w, gap, num) == w
  {
  }

  /** One more arrival, and whether it replays. */
  lemma OneMoreHeard(gap: nat, heard: seq<Arrival>, side: FeedSide, ev: BookEvent)
    ensures Arbitrate(gap, heard + [(side, ev)]) == Offer(Arbitrate(gap, heard), gap, side, ev)
    ensures Replays(gap, heard + [(side, ev)])
        <==> ReplaysFrom(Aside(gap, heard, VenueIndex(ev.venue)), Arbitrate(gap, heard).windows[VenueIndex(ev.venue)], gap, ev)
  {
    assert (heard + [(side, ev)])[..|heard|] == heard;
  }

  lemma NothingHeard(gap: nat)
    ensures Arbitrate(gap, []) == IDLE && WindowsOk(IDLE, gap)
    ensures forall i :: 0 <= i < VENUE_SLOTS ==> IDLE.windows[i] == FRESH_WINDOW && Aside(gap, [], i) == []
  {
  }

  class AbArbiter {
    const gap: u64
    const sequencer: GapAwareSequencer
    var pending: seq<seq<BookEvent>>
    var ready: seq<BookEvent>
    var accepted: nat
    var acceptedA: nat
    var acceptedB: nat
    var duplicateOrOld: nat
    var gapBuffered: nat
    var gapTooLarge: nat
    var forcedAdvances: nat

    /** Every arrival so far, what they come to, and what has been drained of it. */
    ghost var heard: seq<Arrival>
    ghost var model: Arbiter
    ghost var drained: seq<BookEvent>
    ghost const Repr: set<object>

    ghost predicate Wired() {
      && this in Repr && sequencer.Repr <= Repr && this !in sequencer.Repr
      && sequencer.trackers.gap == gap && sequencer.recoveryHandler == null
    }

    /** The counters and the deliveries are those of the model. */
    ghost predicate Counted()
      reads this
    {
      && model.delivered == drained + ready
      && model.acceptedA == acceptedA && model.acceptedB == acceptedB && accepted == acceptedA + acceptedB
      && model.duplicateOrOld == duplicateOrOld && model.gapBuffered == gapBuffered
      && model.forcedAdvances == forcedAdvances == gapTooLarge
    }

    ghost predicate Valid()
      reads Repr
    {
      && Wired() && sequencer.Valid() && Counted()
      && |model.windows| == |pending| == VENUE_SLOTS && Follows(model, pending, gap, heard)
      && forall i :: 0 <= i < VENUE_SLOTS ==> sequencer.trackers.At(i) == model.windows[i]
    }

    constructor (gapWindow: u64)
      ensures fresh(Repr) && gap == gapWindow && heard == [] && model == IDLE && drained == []
      ensures Valid() <==> gapWindow < MAX64
    {
      gap := gapWindow;
      var s := new GapAwareSequencer(gapWindow, null);
      sequencer := s;
      pending := [[], [], [], [], []];
      ready := [];
      accepted, acceptedA, acceptedB, duplicateOrOld := 0, 0, 0, 0;
      gapBuffered, gapTooLarge, forcedAdvances := 0, 0, 0;
      heard, model, drained := [], IDLE, [];
      Repr := {this} + s.Repr;
      new;
      NothingHeard(gapWindow);
      NothingAside(gapWindow);
      assert FollowsFacts(model, pending, gap, heard);
    }

    /** Left out is only an arrival that finds an event kept aside whose turn has come. */
    method OnEvent(side: FeedSide, ev: BookEvent) returns (out: AbArbiterResult)
      requires Valid() && !Replays(gap, heard + [(side, ev)])
      modifies Repr
      ensures Valid() && heard == old(heard) + [(side, ev)] && drained == old(drained)
      ensures model == Offer(old(model), gap, side, ev)
      ensures out.status == StatusOf(old(model).windows[VenueIndex(ev.venue)].next, gap, ev.sequence)
      ensures out.accepted <==> out.status == InOrder
    {
      var s := Sequence(ev);
      match s.update.status {
        case DuplicateOrOld => DropRepeat(side, ev);
        case GapBuffered => KeepAside(side, ev);
        case GapTooLarge => SkipAhead(side, ev);
        case InOrder => Accept(side, ev);
      }
      out := AbArbiterResult(s.update.status == InOrder, s.update.status, s.recovery);
    }

    ghost function StatusHere(ev: BookEvent): Status
      requires |model.windows| == VENUE_SLOTS
      reads this
    {
      StatusOf(model.windows[VenueIndex(ev.venue)].next, gap, ev.sequence)
    }

    method DropRepeat(side: FeedSide, ev: BookEvent)
      requires Sequenced(ev) && StatusHere(ev) == DuplicateOrOld
      modifies this
      ensures Valid() && heard == old(heard) + [(side, ev)] && drained == old(drained)
      ensures model == Offer(old(model), gap, side, ev)
    {
      SameAsideKept(model, pending, gap, heard, side, ev);
      duplicateOrOld := duplicateOrOld + 1;
      Commit(side, ev);
    }

    method KeepAside(side: FeedSide, ev: BookEvent)
      requires Sequenced(ev) && StatusHere(ev) == GapBuffered
      modifies this
      ensures Valid() && heard == old(heard) + [(side, ev)] && drained == old(drained)
      ensures model == Offer(old(model), gap, side, ev)
    {
      var v := VenueIndex(ev.venue);
      OneMoreKept(model, pending, gap, heard, side, ev);
      pending := pending[v := pending[v] + [ev]];
      gapBuffered := gapBuffered + 1;
      Commit(side, ev);
    }

    method SkipAhead(side: FeedSide, ev: BookEvent)
      requires Sequenced(ev) && StatusHere(ev) == GapTooLarge
      modifies Repr
      ensures Valid() && heard == old(heard) + [(side, ev)] && drained == old(drained)
      ensures model == Offer(old(model), gap, side, ev)
    {
      SameAsideKept(model, pending, gap, heard, side, ev);
      FollowsIs(model, pending, gap, heard);
      gapTooLarge := gapTooLarge + 1;
      WindowStaysBelow(model.windows[VenueIndex(ev.venue)], gap, ev.sequence);
      sequencer.ForceAdvance(ev.venue, ev.sequence);
      forcedAdvances := forcedAdvances + 1;
      Commit(side, ev);
    }

    method Accept(side: FeedSide, ev: BookEvent)
      requires Sequenced(ev) && StatusHere(ev) == InOrder && !Replays(gap, heard + [(side, ev)])
      modifies this
      ensures Valid() && heard == old(heard) + [(side, ev)] && drained == old(drained)
      ensures model == Offer(old(model), gap, side, ev)
    {
      Deliver(side, ev);
      ReleasedAreGone(model, old(pending), gap, heard, side, ev, pending);
      assert drained + (old(ready) + [ev]) == drained + old(ready) + [ev];
      Commit(side, ev);
    }

    /** All parts have moved to where the model says they should be: move the model too. */
    ghost method Commit(side: FeedSide, ev: BookEvent)
      requires Wired() && sequencer.Valid()
      requires |model.windows| == |pending| == VENUE_SLOTS
      requires Follows(Offer(model, gap, side, ev), pending, gap, heard + [(side, ev)])
      requires var after := Offer(model, gap, side, ev);
        && (forall i :: 0 <= i < VENUE_SLOTS ==> sequencer.trackers.At(i) == after.windows[i])
        && after.delivered == drained + ready
        && after.acceptedA == acceptedA && after.acceptedB == acceptedB && accepted == acceptedA + acceptedB
        && after.duplicateOrOld == duplicateOrOld && after.gapBuffered == gapBuffered
        && after.forcedAdvances == forcedAdvances == gapTooLarge
      modifies this`model, this`heard
      ensures Valid() && heard == old(heard) + [(side, ev)] && drained == old(drained)
      ensures model == Offer(old(model), gap, side, ev)
    {
      model := Offer(model, gap, side, ev);
      heard := heard + [(side, ev)];
    }

    /** The sequencer has moved on; everything else still matches the model. */
    ghost predicate Sequenced(ev: BookEvent)
      reads Repr
    {
      && Wired() && sequencer.Valid() && Counted()
      && |model.windows| == |pending| == VENUE_SLOTS && Follows(model, pending, gap, heard)
      && (forall i :: 0 <= i < VENUE_SLOTS && i != VenueIndex(ev.venue) ==> sequencer.trackers.At(i) == model.windows[i])
      && sequencer.trackers.At(VenueIndex(ev.venue)) == Step(model.windows[VenueIndex(ev.venue)], gap, ev.sequence)
    }

    method Sequence(ev: BookEvent) returns (s: SequencerResult)
      requires Valid()
      modifies Repr
      ensures Sequenced(ev) && model == old(model) && heard == old(heard) && drained == old(drained)
      ensures s.update == UpdateOf(model.windows[VenueIndex(ev.venue)], gap, ev.sequence)
    {
      s := sequencer.OnSequence(ev.venue, ev.sequence);
    }

    method Deliver(side: FeedSide, ev: BookEvent)
      requires Sequenced(ev) && StatusHere(ev) == InOrder && !Replays(gap, heard + [(side, ev)])
      modifies this`ready, this`accepted, this`acceptedA, this`acceptedB, this`pending
      ensures ready == old(ready) + [ev] && accepted == old(accepted) + 1
      ensures acceptedA == old(acceptedA) + (if side == A then 1 else 0)
      ensures acceptedB == old(acceptedB) + (if side == B then 1 else 0)
      ensures |pending| == VENUE_SLOTS
      ensures forall i :: 0 <= i < VENUE_SLOTS && i != VenueIndex(ev.venue) ==> pending[i] == old(pending)[i]
      ensures var v := VenueIndex(ev.venue);
        SortedBySequence(pending[v]) && KeepsBeyond(old(pending)[v], pending[v], sequencer.trackers.At(v).next)
    {
      var v := VenueIndex(ev.venue);
      NoneHasItsTurn(model, pending, gap, heard, side, ev);
      Credit(side, ev);
      var next := sequencer.NextExpected(ev.venue);
      var kept := EraseReleased(pending[v], next);
      pending := pending[v := kept];
    }

    method Credit(side: FeedSide, ev: BookEvent)
      modifies this`ready, this`accepted, this`acceptedA, this`acceptedB
      ensures ready == old(ready) + [ev] && accepted == old(accepted) + 1
      ensures acceptedA == old(acceptedA) + (if side == A then 1 else 0)
      ensures acceptedB == old(acceptedB) + (if side == B then 1 else 0)
    {
      ready := ready + [ev];
      accepted := accepted + 1;
      if side == A {
        acceptedA := acceptedA + 1;
      } else {
        acceptedB := acceptedB + 1;
      }
    }

    /** Erase what the release has passed by, unless the turn of an event kept aside has just come. */
    static method EraseReleased(kept: seq<BookEvent>, next: u64) returns (rest: seq<BookEvent>)
      requires forall e :: e in kept ==> e.sequence != next
      ensures SortedBySequence(rest) && KeepsBeyond(kept, rest, next)
    {
      if kept == [] {
        NothingToErase(next);
        return kept;
      }
      rest := SortBySequence(kept);
      ErasingStarts(kept, rest, next);
      var it: nat := 0;
      while it < |rest|
        invariant 0 <= it <= |rest|
        invariant Erasing(kept, rest, next)
        invariant forall j :: 0 <= j < it ==> rest[j].sequence > next
        decreases |rest| - it
      {
        if rest[it].sequence < next {
          ghost var was := rest;
          rest := EraseAt(rest, it);
          ErasingGoesOn(kept, was, it, rest, next);
          continue;
        }
        StillKept(kept, rest, it, next);
        if rest[it].sequence == next {
          assert false;
        }
        it := it + 1;
      }
      ErasingEnds(kept, rest, next);
    }

    method DrainReady() returns (out: seq<BookEvent>)
      requires Valid()
      modifies this
      ensures Valid() && model == old(model) && heard == old(heard)
      ensures out == old(ready) && ready == [] && drained == old(drained) + out
    {
      out := ready;
      drained := drained + ready;
      ready := [];
    }
  }
}
