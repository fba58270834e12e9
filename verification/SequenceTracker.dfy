/**
  Per-venue gap window.  The tracker remembers out-of-order sequence numbers in a ring of
  tags addressed modulo the ring size; abstractly the ring is just a set of numbers.
 */
module SequenceTracking {
  import opened Types

  datatype Status = InOrder | DuplicateOrOld | GapBuffered | GapTooLarge

  datatype GapRange = GapRange(begin: nat, end: nat)

  datatype Update = Update(
    status: Status,
    input: nat,
    expectedBefore: nat,
    expectedAfter: nat,
    released: nat,
    missing: Option<GapRange>)

  /** What the ring means: the next number wanted, and the later numbers already seen. */
  datatype Window = Window(next: nat, live: set<nat>)

  const FRESH_WINDOW := Window(1, {})

  ghost predicate WindowOk(w: Window, gap: nat) {
    && 1 <= w.next <= MAX64
    && forall t :: t in w.live ==> w.next < t <= w.next + gap && t <= MAX64
  }

  /** Least number at or above n that is not in s. */
  ghost function FirstFree(n: nat, s: set<nat>): (r: nat)
    ensures n <= r && r !in s
    ensures forall t :: n <= t < r ==> t in s
    decreases s
  {
    if n in s then FirstFree(n + 1, s - {n}) else n
  }

  lemma {:induction false} FirstFreeIs(n: nat, s: set<nat>, r: nat)
    requires n <= r && r !in s && forall t :: n <= t < r ==> t in s
    ensures FirstFree(n, s) == r
    decreases r - n
  {
    if n < r {
      FirstFreeIs(n + 1, s - {n}, r);
    }
  }

  function StatusOf(next: nat, gap: nat, num: nat): Status {
    if num == 0 || num < next then DuplicateOrOld
    else if num == next then InOrder
    else if num - next > gap then GapTooLarge
    else GapBuffered
  }

  /**
    The abstract effect of one sequence number.  An in-order number is released together with
    the run of numbers that follows it.  When that run reaches 2^64 - 1 the counter wraps to 0,
    an empty slot (tag 0) is mistaken for a buffered 0, and the window restarts at 1.
   */
  ghost function Step(w: Window, gap: nat, num: nat): Window {
    match StatusOf(w.next, gap, num)
    case DuplicateOrOld => w
    case GapTooLarge => w
    case GapBuffered => w.(live := w.live + {num})
    case InOrder =>
      var r := FirstFree(num + 1, w.live);
      if r > MAX64 then FRESH_WINDOW else Window(r, set t | t in w.live && t > r)
  }

  ghost function Released(w: Window, gap: nat, num: nat): nat {
    if StatusOf(w.next, gap, num) != InOrder then 0
    else
      var r := FirstFree(num + 1, w.live);
      if r > MAX64 then r - num + 1 else r - num
  }

  ghost function UpdateOf(w: Window, gap: nat, num: nat): Update {
    var status := StatusOf(w.next, gap, num);
    Update(
      status, num, w.next,
      if status == InOrder then Step(w, gap, num).next else w.next,
      Released(w, gap, num),
      if status == GapBuffered || status == GapTooLarge then Some(GapRange(w.next, num - 1)) else None)
  }

  /** The report of one number, by plain comparisons with the number wanted next. */
  ghost predicate Reports(u: Update, next: nat, live: set<nat>, gap: nat, num: nat) {
    && u.input == num && u.expectedBefore == next
    && (num < next ==> u.status == DuplicateOrOld)
    && (num == next ==> u.status == InOrder)
    && (next < num <= next + gap ==> u.status == GapBuffered)
    && (num > next + gap ==> u.status == GapTooLarge)
    && u.missing == (if num > next then Some(GapRange(next, num - 1)) else None)
    && (num != next ==> u.released == 0 && u.expectedAfter == next)
    && (num == next ==> ReportsRun(u, next, live))
  }

  /** The run released goes up to the first hole, or through 2^64 - 1 and one empty slot beyond. */
  ghost predicate ReportsRun(u: Update, next: nat, live: set<nat>) {
    && u.released > 0 && next + u.released !in live
    && (forall t :: next < t < next + u.released && t <= MAX64 ==> t in live)
    && (if next + u.released <= MAX64 then u.expectedAfter == next + u.released
        else u.expectedAfter == 1 && next + u.released == MAX64 + 2)
  }

  lemma UpdateReports(w: Window, gap: nat, num: u64)
    requires WindowOk(w, gap)
    ensures Reports(UpdateOf(w, gap, num), w.next, w.live, gap, num)
  {
    if num == w.next {
      var r := FirstFree(num + 1, w.live);
      assert r > num + 1 ==> r - 1 in w.live;
    }
  }

  ghost function Advance(w: Window, newNext: nat): Window {
    if newNext <= w.next then w else Window(newNext, set t | t in w.live && t >= newNext)
  }

  lemma ProductAtLeast(size: int, k: int)
    requires size > 0
    requires size * k > 0
    ensures size * k >= size
  {
    if k >= 1 {
      assert size * k == size + size * (k - 1);
    }
  }

  lemma SlotsRepeatEverySize(a: int, b: int, size: int)
    requires size > 0 && a % size == b % size && a < b
    ensures a + size <= b
  {
    var qa, qb := a / size, b / size;
    assert a == size * qa + a % size;
    assert b == size * qb + b % size;
    assert b - a == size * (qb - qa);
    ProductAtLeast(size, qb - qa);
  }

  /** The ring stores exactly the set: each number in the slot of its own residue, 0 elsewhere. */
  ghost predicate RingHolds(tags: seq<u64>, live: set<nat>) {
    && |tags| > 0
    && (forall i :: 0 <= i < |tags| && tags[i] != 0 ==> tags[i] in live && tags[i] % |tags| == i)
    && (forall t :: t in live ==> t > 0 && tags[t % |tags|] == t)
  }

  /** Numbers less than a ring apart. */
  ghost predicate WithinOneRing(live: set<nat>, size: nat) {
    forall a, b :: a in live && b in live ==> a < b + size
  }

  lemma LiveSlotsDiffer(a: nat, b: nat, live: set<nat>, size: nat)
    requires size > 0 && WithinOneRing(live, size) && a in live && b in live && a != b
    ensures a % size != b % size
  {
    assert a < b + size && b < a + size;
    if a % size == b % size {
      if a < b {
        SlotsRepeatEverySize(a, b, size);
      } else {
        SlotsRepeatEverySize(b, a, size);
      }
    }
  }

  /** Remembering a number displaces whatever shares its slot. */
  ghost function Marked(live: set<nat>, size: nat, num: nat): set<nat>
    requires size > 0
  {
    (set t | t in live && t % size != num % size) + {num}
  }

  /** In a ring larger than the gap window that is nothing. */
  lemma MarkDisplacesNothing(w: Window, gap: nat, size: nat, num: nat)
    requires WindowOk(w, gap) && size > gap && w.next < num <= w.next + gap
    ensures Marked(w.live, size, num) == w.live + {num}
  {
    forall t | t in w.live && t != num ensures t % size != num % size {
      LiveSlotsDiffer(t, num, w.live + {num}, size);
    }
  }

  /** One sequence number on a ring of any size. */
  ghost function RingStep(w: Window, gap: nat, size: nat, num: nat): Window
    requires size > 0
  {
    if StatusOf(w.next, gap, num) == GapBuffered then w.(live := Marked(w.live, size, num)) else Step(w, gap, num)
  }

  ghost function RingAdvance(w: Window, size: nat, newNext: nat): Window {
    if newNext <= w.next then w
    else if newNext - w.next >= size then Window(newNext, {})
    else Advance(w, newNext)
  }

  /** A ring larger than the gap window is the set it stands for. */
  lemma RingIsWindow(w: Window, gap: nat, size: nat, num: nat)
    requires WindowOk(w, gap) && size > gap
    ensures RingStep(w, gap, size, num) == Step(w, gap, num) && RingAdvance(w, size, num) == Advance(w, num)
  {
    if StatusOf(w.next, gap, num) == GapBuffered {
      MarkDisplacesNothing(w, gap, size, num);
    }
    if num > w.next && num - w.next >= size {
      assert Advance(w, num).live == {};
    }
  }

  lemma PopKeepsRing(tags: seq<u64>, live: set<nat>, num: u64)
    requires RingHolds(tags, live) && num > 0 && tags[num % |tags|] == num
    ensures num in live && RingHolds(tags[num % |tags| := 0], live - {num})
  {
  }

  /** In a ring of two slots, the wrapped size, remembering 4 displaces 2. */
  lemma TwoSlotsForget()
    ensures RingStep(Window(1, {2}), MAX64, 2, 4) == Window(1, {4})
    ensures Step(Window(1, {2}), MAX64, 4) == Window(1, {2, 4})
  {
  }

  lemma MarkKeepsRing(tags: seq<u64>, live: set<nat>, num: u64)
    requires RingHolds(tags, live) && num > 0
    ensures RingHolds(tags[num % |tags| := num], Marked(live, |tags|, num))
  {
  }

  /** Part-way through a release: everything from w.next up to reached (exclusive) is consumed. */
  ghost predicate Releasing(w: Window, reached: nat, next: nat, live: set<nat>, tags: seq<u64>) {
    && w.next < reached <= MAX64 + 2
    && (forall t :: w.next < t < reached && t <= MAX64 ==> t in w.live)
    && live == (set t | t in w.live && t >= reached)
    && next == (if reached <= MAX64 then reached else reached - MAX64 - 1)
    && RingHolds(tags, live)
  }

  lemma ReleaseStep(w: Window, gap: nat, reached: nat, next: u64, live: set<nat>, tags: seq<u64>)
    requires WindowOk(w, gap) && Releasing(w, reached, next, live, tags)
    requires tags[next % |tags|] == next
    ensures reached <= MAX64 + 1
    ensures Releasing(w, reached + 1, Inc64(next), live - {reached}, tags[next % |tags| := 0])
  {
    if reached <= MAX64 {
      PopKeepsRing(tags, live, next);
    } else {
      assert live == {};
      assert forall i :: 0 <= i < |tags| ==> tags[i] == 0;
      assert tags[next % |tags| := 0] == tags;
    }
  }

  lemma ReleaseDone(w: Window, gap: nat, reached: nat, next: u64, live: set<nat>, tags: seq<u64>)
    requires WindowOk(w, gap) && Releasing(w, reached, next, live, tags)
    requires tags[next % |tags|] != next
    ensures Window(next, live) == Step(w, gap, w.next) && reached - w.next == Released(w, gap, w.next)
    ensures WindowOk(Window(next, live), gap)
  {
    if reached > MAX64 {
      assert live == {};
      assert forall i :: 0 <= i < |tags| ==> tags[i] == 0;
      FirstFreeIs(w.next + 1, w.live, MAX64 + 1);
    } else {
      assert reached !in w.live;
      FirstFreeIs(w.next + 1, w.live, reached);
      assert live == set t | t in w.live && t > reached;
    }
  }

  class SequenceTracker {
    var nextExpected: u64
    const gapWindow: u64
    const tags: array<u64>

    /** The numbers held in the ring. */
    ghost var live: set<nat>

    ghost predicate RingSizeOk() {
      tags.Length == if gapWindow + 1 < 2 then 2 else gapWindow + 1
    }

    /** The ring holds the numbers of a window, whatever its size. */
    ghost predicate RingOk()
      reads this, tags
    {
      tags.Length > 0 && WindowOk(View(), gapWindow) && RingHolds(tags[..], live)
    }

    ghost predicate Valid()
      reads this, tags
    {
      RingSizeOk() && RingOk()
    }

    ghost function View(): Window
      reads this
    {
      Window(nextExpected, live)
    }

    /** At a gap window of 2^64 - 1 the size of the ring wraps to the minimum. */
    constructor (gap: u64)
      ensures RingOk() && (Valid() <==> gap < MAX64)
      ensures View() == FRESH_WINDOW && gapWindow == gap && fresh(tags)
      ensures tags.Length == if 2 <= gap + 1 <= MAX64 then gap + 1 else 2
    {
      nextExpected := 1;
      gapWindow := gap;
      tags := new u64[if Inc64(gap) < 2 then 2 else Inc64(gap)](_ => 0);
      live := {};
    }

    /** What shares the slot is displaced; in a ring of the proper size nothing does. */
    method MarkBuffered(num: u64)
      requires RingOk() && nextExpected < num <= nextExpected + gapWindow
      modifies this`live, tags
      ensures RingOk() && live == Marked(old(live), tags.Length, num)
      ensures tags.Length > gapWindow ==> live == old(live) + {num}
    {
      if tags.Length > gapWindow {
        MarkDisplacesNothing(View(), gapWindow, tags.Length, num);
      }
      MarkKeepsRing(tags[..], live, num);
      var slot := num % tags.Length;
      tags[slot] := num;
      live := Marked(live, tags.Length, num);
    }

    method PopBuffered(num: u64) returns (popped: bool)
      requires tags.Length > 0
      modifies tags
      ensures popped == (old(tags[num % tags.Length]) == num)
      ensures popped ==> tags[..] == old(tags[..])[num % tags.Length := 0]
      ensures !popped ==> tags[..] == old(tags[..])
    {
      var slot := num % tags.Length;
      if tags[slot] != num {
        return false;
      }
      tags[slot] := 0;
      return true;
    }

    /** On every ring; on one of the proper size the numbers behave as a set. */
    method OnSequence(num: u64) returns (out: Update)
      requires RingOk()
      modifies this, tags
      ensures RingOk() && View() == RingStep(old(View()), gapWindow, tags.Length, num)
      ensures old(Valid()) ==> Valid() && View() == Step(old(View()), gapWindow, num)
      ensures out == UpdateOf(old(View()), gapWindow, num)
      ensures Reports(out, old(nextExpected), old(live), gapWindow, num)
    {
      UpdateReports(View(), gapWindow, num);
      if Valid() {
        RingIsWindow(View(), gapWindow, tags.Length, num);
      }
      out := Update(DuplicateOrOld, num, nextExpected, nextExpected, 0, None);
      if num == 0 || num < nextExpected {
        return;
      }
      if num == nextExpected {
        var released := ReleaseRun(num);
        return out.(status := InOrder, expectedAfter := nextExpected, released := released);
      }
      var ahead := num - nextExpected;
      var missing := Some(GapRange(nextExpected, num - 1));
      if ahead > gapWindow {
        return out.(status := GapTooLarge, missing := missing);
      }
      MarkBuffered(num);
      out := out.(status := GapBuffered, missing := missing);
    }

    /** The in-order branch: consume num and the run of buffered numbers behind it. */
    method ReleaseRun(num: u64) returns (released: nat)
      requires RingOk() && num == nextExpected
      modifies this, tags
      ensures RingOk()
      ensures View() == Step(old(View()), gapWindow, num)
      ensures released == Released(old(View()), gapWindow, num)
    {
      ghost var w := View();
      ghost var reached: nat := num + 1;
      nextExpected := Inc64(nextExpected);
      released := 1;
      assert live == set t | t in w.live && t >= reached;
      while true
        invariant released == reached - num
        invariant Releasing(w, reached, nextExpected, live, tags[..])
        decreases MAX64 + 2 - reached
      {
        ghost var before := tags[..];
        var popped := PopBuffered(nextExpected);
        if !popped {
          ReleaseDone(w, gapWindow, reached, nextExpected, live, before);
          break;
        }
        ReleaseStep(w, gapWindow, reached, nextExpected, live, before);
        live := live - {reached};
        nextExpected := Inc64(nextExpected);
        released := released + 1;
        reached := reached + 1;
      }
    }

    /** Drops the tags below the new base.  A tag at the new base itself would stay behind. */
    method ForceAdvance(newNext: u64)
      requires RingOk()
      modifies this, tags
      ensures View() == RingAdvance(old(View()), tags.Length, newNext) && RingHolds(tags[..], live)
      ensures RingOk() <==> newNext !in live
      ensures old(Valid()) ==> View() == Advance(old(View()), newNext) && (Valid() <==> newNext !in old(live))
    {
      if Valid() {
        RingIsWindow(View(), gapWindow, tags.Length, newNext);
      }
      if newNext <= nextExpected {
        return;
      }
      var span := newNext - nextExpected;
      if span >= tags.Length {
        forall i | 0 <= i < tags.Length {
          tags[i] := 0;
        }
        live := {};
      } else {
        ClearBelow(newNext);
      }
      nextExpected := newNext;
      assert newNext in live ==> !WindowOk(View(), gapWindow);
    }

    /** Clear, number by number, the tags that fall behind the new base. */
    method ClearBelow(newNext: u64)
      requires RingOk() && nextExpected <= newNext
      modifies this`live, tags
      ensures RingHolds(tags[..], live) && live == set t | t in old(live) && t >= newNext
    {
      var s := nextExpected;
      while s < newNext
        invariant nextExpected <= s <= newNext
        invariant live == set t | t in old(live) && t >= s
        invariant RingHolds(tags[..], live)
      {
        var slot := s % tags.Length;
        if tags[slot] == s {
          PopKeepsRing(tags[..], live, s);
          tags[slot] := 0;
        }
        live := live - {s};
        s := s + 1;
      }
    }
  }

  /** Three calls to a stale tag: 2 is buffered, and then forced to be the next number. */
  method ForcedOntoBuffered(gap: u64) returns (t: SequenceTracker)
    requires 1 <= gap < MAX64
    ensures fresh(t) && t.gapWindow == gap && t.nextExpected == 2 && t.live == {2} && !t.Valid()
  {
    t := new SequenceTracker(gap);
    var _ := t.OnSequence(2);
    t.ForceAdvance(2);
  }

  // ---- Whole runs of one tracker ----

  ghost function Run(gap: nat, nums: seq<nat>): Window {
    if nums == [] then FRESH_WINDOW
    else Step(Run(gap, nums[..|nums| - 1]), gap, nums[|nums| - 1])
  }

  ghost function TotalReleased(gap: nat, nums: seq<nat>): nat {
    if nums == [] then 0
    else
      TotalReleased(gap, nums[..|nums| - 1])
      + Released(Run(gap, nums[..|nums| - 1]), gap, nums[|nums| - 1])
  }

  ghost predicate NeverTooFarAhead(gap: nat, nums: seq<nat>) {
    nums == [] ||
    (NeverTooFarAhead(gap, nums[..|nums| - 1])
     && StatusOf(Run(gap, nums[..|nums| - 1]).next, gap, nums[|nums| - 1]) != GapTooLarge)
  }

  ghost function Received(nums: seq<nat>): set<nat> {
    set n | n in nums
  }

  /** The window summarises the set received so far: its least missing number and what lies beyond. */
  ghost predicate Summarises(w: Window, received: set<nat>) {
    && w.next == FirstFree(1, received)
    && w.live == set t | t in received && t > w.next
  }

  lemma LeastMissingAfter(w: Window, num: nat, received: set<nat>)
    requires Summarises(w, received)
    ensures FirstFree(1, received + {num}) == if num == w.next then FirstFree(num + 1, w.live) else w.next
  {
    var received' := received + {num};
    if num == w.next {
      var r := FirstFree(num + 1, w.live);
      forall t: nat | 1 <= t < r ensures t in received' {
        if t > num {
          assert t in w.live;
        }
      }
      FirstFreeIs(1, received', r);
    } else {
      assert w.next !in received && forall t :: 1 <= t < w.next ==> t in received;
      FirstFreeIs(1, received', w.next);
    }
  }

  lemma StepKeepsSummary(w: Window, gap: nat, num: nat, received: set<nat>)
    requires Summarises(w, received)
    requires StatusOf(w.next, gap, num) != GapTooLarge
    requires FirstFree(1, received + {num}) <= MAX64
    ensures Summarises(Step(w, gap, num), received + {num})
    ensures Released(w, gap, num) == Step(w, gap, num).next - w.next
    ensures Step(w, gap, num).next <= MAX64
  {
    var received' := received + {num};
    if num == w.next {
      var r := FirstFree(num + 1, w.live);
      assert forall t :: 1 <= t < num ==> t in received;
      FirstFreeIs(1, received', r);
      assert Step(w, gap, num).live == set t | t in received' && t > r;
    } else {
      FirstFreeIs(1, received', w.next);
      if num < w.next {
        assert w.live == set t | t in received' && t > w.next;
      } else {
        assert w.live + {num} == set t | t in received' && t > w.next;
      }
    }
  }

  lemma FirstFreeGrows(n: nat, a: set<nat>, b: set<nat>)
    requires a <= b
    ensures FirstFree(n, a) <= FirstFree(n, b)
  {
    var r := FirstFree(n, b);
    assert r < FirstFree(n, a) ==> r in a;
  }

  lemma {:induction false} NextStaysInRange(gap: nat, nums: seq<nat>)
    requires forall n :: n in nums ==> n <= MAX64
    ensures 1 <= Run(gap, nums).next <= MAX64
  {
    if nums != [] {
      var front, num := nums[..|nums| - 1], nums[|nums| - 1];
      assert nums == front + [num] && forall n :: n in front ==> n in nums;
      NextStaysInRange(gap, front);
      assert Run(gap, nums) == Step(Run(gap, front), gap, num);
    }
  }

  /**
    While no number is refused as too far ahead, the window is a function of the set of numbers
    received, whatever their order and repetitions, exactly until all of 1 .. 2^64 - 1 are in.
   */
  lemma {:induction false} WindowIsLeastMissing(gap: nat, nums: seq<nat>)
    requires NeverTooFarAhead(gap, nums)
    requires forall n :: n in nums ==> n <= MAX64
    ensures Summarises(Run(gap, nums), Received(nums)) <==> FirstFree(1, Received(nums)) <= MAX64
    ensures FirstFree(1, Received(nums)) <= MAX64 ==> TotalReleased(gap, nums) == Run(gap, nums).next - 1
  {
    NextStaysInRange(gap, nums);
    if nums == [] {
      FirstFreeIs(1, Received(nums), 1);
    } else if FirstFree(1, Received(nums)) <= MAX64 {
      var front, num := nums[..|nums| - 1], nums[|nums| - 1];
      assert nums == front + [num] && forall n :: n in front ==> n in nums;
      assert Received(nums) == Received(front) + {num};
      FirstFreeGrows(1, Received(front), Received(nums));
      WindowIsLeastMissing(gap, front);
      StepKeepsSummary(Run(gap, front), gap, num, Received(front));
    }
  }

  /** The one place where the counter goes backwards, and exactly when it does. */
  lemma WrapsExactlyAtTheEnd(w: Window, gap: nat, num: nat)
    requires WindowOk(w, gap) && num <= MAX64
    ensures Step(w, gap, num).next < w.next
        <==> num == w.next && num > 1 && forall t :: num < t <= MAX64 ==> t in w.live
    ensures Step(w, gap, num).next < w.next ==> Step(w, gap, num) == FRESH_WINDOW
  {
    if num == w.next {
      var r := FirstFree(num + 1, w.live);
      if forall t :: num < t <= MAX64 ==> t in w.live {
        FirstFreeIs(num + 1, w.live, MAX64 + 1);
      }
    }
  }
}
