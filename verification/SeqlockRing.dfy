/**
  The single-producer ring read by any number of consumers, as a state machine: the writer and the
  readers take interleaved steps, each touching one version or one word of a slot.
 */
module SeqlockRing {
  import opened Types
  import ByteCodec
  import SequenceTracking

  type Word = u64
  type Item = seq<Word>

  /** The sequence that marks a slot as never written: 2^63 - 1. */
  const NEVER_WRITTEN: nat := MAX64 / 2

  datatype Slot = Slot(version: u64, words: Item)

  datatype WriterPc = Idle | Copying(copied: set<nat>) | Versioned

  datatype Cursor = Cursor(next: u64, observed: u64, tornRetries: nat, overruns: nat)

  datatype Receipt = Receipt(num: u64, item: Item)

  /** A read in progress knows its retries left, its torn retries so far, and what it has copied. */
  datatype ReaderPc =
    | Resting
    | Trying(left: nat, torn: nat)
    | Reading(left: nat, torn: nat, before: u64, candidate: map<nat, Word>)

  datatype Reader = Reader(start: u64, cursor: Cursor, pc: ReaderPc, log: seq<Receipt>)

  /** History holds every item whose publication has begun, by sequence. */
  datatype State = State(
    width: nat, slots: seq<Slot>, published: u64, nextSequence: u64, writer: WriterPc,
    history: seq<Item>, readers: seq<Reader>)

  datatype Step =
    | WriteBegin(item: Item)
    | WriteWord(i: nat)
    | WriteVersion
    | WritePublish
    | ReadBegin(r: nat, maxRetries: nat)
    | ReadVersion(r: nat)
    | ReadWord(r: nat, i: nat)
    | ReadRecheck(r: nat)

  // ---- Versions ----

  function EncodeVersion(num: u64, inProgress: bool): u64 {
    2 * num % (MAX64 + 1) + if inProgress then 1 else 0
  }

  function SequenceOf(version: u64): u64 {
    version / 2
  }

  predicate InProgress(version: u64) {
    version % 2 == 1
  }

  lemma VersionRoundTrip(num: u64, inProgress: bool)
    requires num <= NEVER_WRITTEN
    ensures SequenceOf(EncodeVersion(num, inProgress)) == num
    ensures InProgress(EncodeVersion(num, inProgress)) <==> inProgress
  {
  }

  /** A sequence can be read off its version exactly below 2^63. */
  lemma VersionReadsBackIff(num: u64, inProgress: bool)
    ensures SequenceOf(EncodeVersion(num, inProgress)) == num <==> num <= NEVER_WRITTEN
  {
    if num > NEVER_WRITTEN {
      VersionsWrap(num - NEVER_WRITTEN - 1, inProgress);
    }
  }

  /** From 2^63 on versions repeat. */
  lemma VersionsWrap(num: u64, inProgress: bool)
    requires num <= NEVER_WRITTEN
    ensures EncodeVersion(num + NEVER_WRITTEN + 1, inProgress) == EncodeVersion(num, inProgress)
  {
  }

  // ---- Steps ----

  function SlotOf(s: State, num: u64): (j: nat)
    requires |s.slots| > 0
    ensures j < |s.slots|
  {
    num % |s.slots|
  }

  predicate Enabled(s: State, step: Step) {
    |s.slots| > 0 &&
    match step
    case WriteBegin(item) => s.writer == Idle && |item| == s.width
    case WriteWord(i) =>
      s.writer.Copying? && i < s.width && s.history != [] && i < |s.history[|s.history| - 1]|
      && i < |s.slots[SlotOf(s, s.nextSequence)].words|
    case WriteVersion => s.writer.Copying? && forall i :: 0 <= i < s.width ==> i in s.writer.copied
    case WritePublish => s.writer == Versioned
    case ReadBegin(r, _) => r < |s.readers| && s.readers[r].pc == Resting
    case ReadVersion(r) => r < |s.readers| && s.readers[r].pc.Trying?
    case ReadWord(r, i) =>
      r < |s.readers| && s.readers[r].pc.Reading? && i < s.width
      && i < |s.slots[SlotOf(s, s.readers[r].cursor.next)].words|
    case ReadRecheck(r) =>
      r < |s.readers| && s.readers[r].pc.Reading? && s.readers[r].pc.left > 0
      && forall i :: 0 <= i < s.width ==> i in s.readers[r].pc.candidate
  }

  function After(s: State, step: Step): State
    requires Enabled(s, step)
  {
    var mine := SlotOf(s, s.nextSequence);
    match step
    case WriteBegin(item) =>
      s.(slots := s.slots[mine := s.slots[mine].(version := EncodeVersion(s.nextSequence, true))],
         writer := Copying({}), history := s.history + [item])
    case WriteWord(i) =>
      var words := s.slots[mine].words[i := s.history[|s.history| - 1][i]];
      s.(slots := s.slots[mine := s.slots[mine].(words := words)], writer := Copying(s.writer.copied + {i}))
    case WriteVersion =>
      s.(slots := s.slots[mine := s.slots[mine].(version := EncodeVersion(s.nextSequence, false))],
         writer := Versioned)
    case WritePublish =>
      s.(nextSequence := Inc64(s.nextSequence), published := Inc64(s.nextSequence), writer := Idle)
    case ReadBegin(r, maxRetries) => WithReader(s, r, Begun(s.readers[r], s.published, |s.slots|, maxRetries))
    case ReadVersion(r) =>
      WithReader(s, r, VersionSeen(s.readers[r], s.slots[SlotOf(s, s.readers[r].cursor.next)].version))
    case ReadWord(r, i) =>
      var reader := s.readers[r];
      var candidate: map<nat, Word> := reader.pc.candidate[i := s.slots[SlotOf(s, reader.cursor.next)].words[i]];
      WithReader(s, r, reader.(pc := reader.pc.(candidate := candidate)))
    case ReadRecheck(r) =>
      WithReader(s, r, Rechecked(s.readers[r], s.width, s.slots[SlotOf(s, s.readers[r].cursor.next)].version))
  }

  function WithReader(s: State, r: nat, reader: Reader): State
    requires r < |s.readers|
  {
    s.(readers := s.readers[r := reader])
  }

  /** The published count is loaded only when the cursor has caught up with the last one seen. */
  function Begun(reader: Reader, published: u64, size: nat, maxRetries: nat): Reader {
    var c := reader.cursor;
    var seen := if c.next == c.observed then c.(observed := published) else c;
    if seen.next == seen.observed then
      reader.(cursor := seen)
    else if seen.observed > seen.next && seen.observed - seen.next > size then
      var lost := seen.observed - seen.next - size;
      reader.(cursor := seen.(overruns := seen.overruns + lost, next := seen.observed - size))
    else
      reader.(cursor := seen, pc := Trying(maxRetries, 0))
  }

  predicate Wanted(version: u64, num: u64) {
    !InProgress(version) && SequenceOf(version) == num
  }

  function VersionSeen(reader: Reader, version: u64): Reader
    requires reader.pc.Trying?
  {
    if reader.pc.left == 0 then GivenUp(reader)
    else if !Wanted(version, reader.cursor.next) then reader.(pc := Trying(reader.pc.left - 1, reader.pc.torn + 1))
    else reader.(pc := Reading(reader.pc.left, reader.pc.torn, version, map[]))
  }

  function GivenUp(reader: Reader): Reader
    requires reader.pc.Trying?
  {
    reader.(pc := Resting,
            cursor := reader.cursor.(tornRetries := reader.cursor.tornRetries + reader.pc.torn))
  }

  function Rechecked(reader: Reader, width: nat, version: u64): Reader
    requires reader.pc.Reading? && reader.pc.left > 0
    requires forall i :: 0 <= i < width ==> i in reader.pc.candidate
  {
    var c, pc := reader.cursor, reader.pc;
    if pc.before == version && Wanted(version, c.next) then
      reader.(pc := Resting,
              cursor := c.(next := Inc64(c.next), tornRetries := c.tornRetries + pc.torn),
              log := reader.log + [Receipt(c.next, Assembled(pc.candidate, width))])
    else
      reader.(pc := Trying(pc.left - 1, pc.torn + 1))
  }

  function Assembled(candidate: map<nat, Word>, width: nat): Item
    requires forall i :: 0 <= i < width ==> i in candidate
  {
    seq(width, i requires 0 <= i < width => candidate[i])
  }

  // ---- The invariant ----

  /** The slot holds one whole item under the item's version, or has never been written. */
  ghost predicate Settled(s: State, slot: Slot) {
    || slot.version == EncodeVersion(NEVER_WRITTEN, false)
    || (!InProgress(slot.version) && SequenceOf(slot.version) < s.nextSequence <= |s.history|
        && slot.words == s.history[SequenceOf(slot.version)])
  }

  ghost predicate SlotOk(s: State, j: nat)
    requires |s.slots| > 0 && j < |s.slots|
  {
    var slot := s.slots[j];
    && |slot.words| == s.width
    && if s.writer == Idle || j != SlotOf(s, s.nextSequence) then Settled(s, slot)
       else
         && s.nextSequence < |s.history| && |s.history[s.nextSequence]| == s.width
         && slot.version == EncodeVersion(s.nextSequence, s.writer.Copying?)
         && (s.writer.Copying? ==>
               forall i :: 0 <= i < s.width && i in s.writer.copied ==> slot.words[i] == s.history[s.nextSequence][i])
         && (s.writer.Versioned? ==> slot.words == s.history[s.nextSequence])
  }

  ghost predicate WriterOk(s: State) {
    && |s.slots| > 0 && s.published == s.nextSequence
    && |s.history| == s.nextSequence + (if s.writer == Idle then 0 else 1)
    && (forall n :: 0 <= n < |s.history| ==> |s.history[n]| == s.width)
  }

  /** While the version a reader saw still stands, what it has copied is the item of its sequence. */
  ghost predicate ReadingOk(s: State, reader: Reader)
    requires |s.slots| > 0 && reader.pc.Reading?
  {
    var target := reader.cursor.next;
    && Wanted(reader.pc.before, target) && reader.pc.left > 0
    && (target != NEVER_WRITTEN ==>
          && target < |s.history| && |s.history[target]| == s.width
          && (target < s.nextSequence || s.writer == Versioned)
          && (s.slots[SlotOf(s, target)].version == reader.pc.before ==>
                forall i :: i in reader.pc.candidate && 0 <= i < s.width ==>
                  reader.pc.candidate[i] == s.history[target][i]))
  }

  ghost predicate ReceiptOk(s: State, receipt: Receipt) {
    receipt.num != NEVER_WRITTEN ==> receipt.num < |s.history| && receipt.item == s.history[receipt.num]
  }

  ghost predicate ReaderOk(s: State, reader: Reader)
    requires |s.slots| > 0
  {
    && (reader.pc.Reading? ==> ReadingOk(s, reader))
    && (forall k :: 0 <= k < |reader.log| ==> ReceiptOk(s, reader.log[k]) && reader.log[k].num < reader.cursor.next)
    && (forall k, m :: 0 <= k < m < |reader.log| ==> reader.log[k].num < reader.log[m].num)
    && reader.cursor.next == reader.start + |reader.log| + reader.cursor.overruns
  }

  ghost predicate Inv(s: State) {
    && WriterOk(s)
    && (forall j :: 0 <= j < |s.slots| ==> SlotOk(s, j))
    && (forall r :: 0 <= r < |s.readers| ==> ReaderOk(s, s.readers[r]))
  }

  /** Fewer than 2^63 publications have begun, so versions have not wrapped. */
  ghost predicate Within(s: State) {
    |s.history| <= NEVER_WRITTEN
  }

  // ---- Every step keeps it ----

  /** A version that a reader wants is over the whole item, already complete. */
  lemma WantedSlotIsWhole(s: State, num: u64)
    requires Inv(s) && Within(s) && num != NEVER_WRITTEN
    requires Wanted(s.slots[SlotOf(s, num)].version, num)
    ensures num < |s.history| && s.slots[SlotOf(s, num)].words == s.history[num]
    ensures num < s.nextSequence || s.writer == Versioned
  {
    assert SlotOk(s, SlotOf(s, num));
    VersionRoundTrip(NEVER_WRITTEN, false);
    if s.writer != Idle {
      VersionRoundTrip(s.nextSequence, s.writer.Copying?);
    }
  }

  lemma WriteBeginKeepsInv(s: State, item: Item)
    requires Inv(s) && Enabled(s, WriteBegin(item)) && Within(After(s, WriteBegin(item)))
    ensures Inv(After(s, WriteBegin(item)))
  {
    var t := After(s, WriteBegin(item));
    VersionRoundTrip(s.nextSequence, true);
    assert forall n :: 0 <= n < |s.history| ==> t.history[n] == s.history[n];
    forall j | 0 <= j < |t.slots| ensures SlotOk(t, j) {
      assert SlotOk(s, j);
    }
    forall r | 0 <= r < |t.readers| ensures ReaderOk(t, t.readers[r]) {
      assert ReaderOk(s, s.readers[r]);
      forall k | 0 <= k < |s.readers[r].log| ensures ReceiptOk(t, s.readers[r].log[k]) {
        assert ReceiptOk(s, s.readers[r].log[k]);
      }
    }
  }

  lemma WriteWordKeepsInv(s: State, i: nat)
    requires Inv(s) && Enabled(s, WriteWord(i)) && Within(s)
    ensures Inv(After(s, WriteWord(i)))
  {
    var t, mine := After(s, WriteWord(i)), SlotOf(s, s.nextSequence);
    assert SlotOk(s, mine);
    forall j | 0 <= j < |t.slots| ensures SlotOk(t, j) {
      assert SlotOk(s, j);
    }
    forall r | 0 <= r < |t.readers| ensures ReaderOk(t, t.readers[r]) {
      assert ReaderOk(s, s.readers[r]);
      forall k | 0 <= k < |s.readers[r].log| ensures ReceiptOk(t, s.readers[r].log[k]) {
        assert ReceiptOk(s, s.readers[r].log[k]);
      }
    }
  }

  lemma WriteVersionKeepsInv(s: State)
    requires Inv(s) && Enabled(s, WriteVersion) && Within(s)
    ensures Inv(After(s, WriteVersion))
  {
    var t, mine := After(s, WriteVersion), SlotOf(s, s.nextSequence);
    VersionRoundTrip(s.nextSequence, false);
    assert SlotOk(s, mine);
    assert s.slots[mine].words == s.history[s.nextSequence];
    forall j | 0 <= j < |t.slots| ensures SlotOk(t, j) {
      assert SlotOk(s, j);
    }
    forall r | 0 <= r < |t.readers| ensures ReaderOk(t, t.readers[r]) {
      assert ReaderOk(s, s.readers[r]);
      forall k | 0 <= k < |s.readers[r].log| ensures ReceiptOk(t, s.readers[r].log[k]) {
        assert ReceiptOk(s, s.readers[r].log[k]);
      }
    }
  }

  lemma WritePublishKeepsInv(s: State)
    requires Inv(s) && Enabled(s, WritePublish) && Within(s)
    ensures Inv(After(s, WritePublish))
  {
    var t := After(s, WritePublish);
    VersionRoundTrip(s.nextSequence, false);
    forall j | 0 <= j < |t.slots| ensures SlotOk(t, j) {
      assert SlotOk(s, j);
    }
    forall r | 0 <= r < |t.readers| ensures ReaderOk(t, t.readers[r]) {
      assert ReaderOk(s, s.readers[r]);
      forall k | 0 <= k < |s.readers[r].log| ensures ReceiptOk(t, s.readers[r].log[k]) {
        assert ReceiptOk(s, s.readers[r].log[k]);
      }
    }
  }

  /** A reader's step changes that reader alone. */
  lemma ReaderStepKeepsInv(s: State, r: nat, reader: Reader)
    requires Inv(s) && r < |s.readers| && ReaderOk(s, reader)
    ensures Inv(WithReader(s, r, reader))
  {
    var t := WithReader(s, r, reader);
    forall j | 0 <= j < |t.slots| ensures SlotOk(t, j) {
      assert SlotOk(s, j);
    }
    forall q | 0 <= q < |t.readers| ensures ReaderOk(t, t.readers[q]) {
      assert ReaderOk(s, t.readers[q]);
      forall k | 0 <= k < |t.readers[q].log| ensures ReceiptOk(t, t.readers[q].log[k]) {
        assert ReceiptOk(s, t.readers[q].log[k]);
      }
    }
  }

  lemma ReadVersionIsOk(s: State, r: nat)
    requires Inv(s) && Within(s) && Enabled(s, ReadVersion(r))
    ensures ReaderOk(s, After(s, ReadVersion(r)).readers[r])
  {
    assert ReaderOk(s, s.readers[r]);
    var target := s.readers[r].cursor.next;
    if Wanted(s.slots[SlotOf(s, target)].version, target) && target != NEVER_WRITTEN {
      WantedSlotIsWhole(s, target);
    }
  }

  lemma ReadWordIsOk(s: State, r: nat, i: nat)
    requires Inv(s) && Within(s) && Enabled(s, ReadWord(r, i))
    ensures ReaderOk(s, After(s, ReadWord(r, i)).readers[r])
  {
    assert ReaderOk(s, s.readers[r]);
    var target := s.readers[r].cursor.next;
    if Wanted(s.slots[SlotOf(s, target)].version, target) && target != NEVER_WRITTEN {
      WantedSlotIsWhole(s, target);
    }
  }

  lemma ReadRecheckIsOk(s: State, r: nat)
    requires Inv(s) && Within(s) && Enabled(s, ReadRecheck(r))
    ensures ReaderOk(s, After(s, ReadRecheck(r)).readers[r])
  {
    var was, now := s.readers[r], After(s, ReadRecheck(r)).readers[r];
    assert ReaderOk(s, was);
    var target := was.cursor.next;
    if now.log != was.log && target != NEVER_WRITTEN {
      assert Assembled(was.pc.candidate, s.width) == s.history[target];
    }
  }

  lemma StepKeepsInv(s: State, step: Step)
    requires Inv(s) && Enabled(s, step) && Within(After(s, step))
    ensures Inv(After(s, step)) && Within(s)
  {
    match step
    case WriteBegin(item) => WriteBeginKeepsInv(s, item);
    case WriteWord(i) => WriteWordKeepsInv(s, i);
    case WriteVersion => WriteVersionKeepsInv(s);
    case WritePublish => WritePublishKeepsInv(s);
    case ReadBegin(r, _) =>
      assert ReaderOk(s, s.readers[r]);
      ReaderStepKeepsInv(s, r, After(s, step).readers[r]);
    case ReadVersion(r) =>
      ReadVersionIsOk(s, r);
      ReaderStepKeepsInv(s, r, After(s, step).readers[r]);
    case ReadWord(r, i) =>
      ReadWordIsOk(s, r, i);
      ReaderStepKeepsInv(s, r, After(s, step).readers[r]);
    case ReadRecheck(r) =>
      ReadRecheckIsOk(s, r);
      ReaderStepKeepsInv(s, r, After(s, step).readers[r]);
  }

  // ---- Whole runs ----

  /** A new ring, with readers whose cursors may start anywhere. */
  ghost predicate Initial(s: State) {
    && |s.slots| > 0 && s.published == s.nextSequence == 0 && s.writer == Idle && s.history == []
    && (forall j :: 0 <= j < |s.slots| ==>
          s.slots[j].version == EncodeVersion(NEVER_WRITTEN, false) && |s.slots[j].words| == s.width)
    && (forall r :: 0 <= r < |s.readers| ==>
          && s.readers[r].pc == Resting && s.readers[r].log == []
          && s.readers[r].cursor.next == s.readers[r].start && s.readers[r].cursor.overruns == 0)
  }

  /** Each state follows from the one before by one enabled step. */
  ghost predicate Continues(states: seq<State>, steps: seq<Step>) {
    && |states| == |steps| + 1
    && forall n :: 0 <= n < |steps| ==> Enabled(states[n], steps[n]) && states[n + 1] == After(states[n], steps[n])
  }

  /** An interleaving from a new ring on. */
  ghost predicate IsRun(states: seq<State>, steps: seq<Step>) {
    Continues(states, steps) && Initial(states[0])
  }

  lemma {:induction false} ContinuingKeepsInv(states: seq<State>, steps: seq<Step>)
    requires Continues(states, steps) && Inv(states[0]) && Within(states[|steps|])
    ensures Inv(states[|steps|])
    decreases |steps|
  {
    var n := |steps|;
    if n > 0 {
      assert states[n] == After(states[n - 1], steps[n - 1]);
      ContinuingKeepsInv(states[..n], steps[..n - 1]);
      StepKeepsInv(states[n - 1], steps[n - 1]);
    }
  }

  lemma EveryRunKeepsInv(states: seq<State>, steps: seq<Step>)
    requires IsRun(states, steps) && Within(states[|steps|])
    ensures Inv(states[|steps|])
  {
    InitialIsInv(states[0]);
    ContinuingKeepsInv(states, steps);
  }

  lemma InitialIsInv(s: State)
    requires Initial(s)
    ensures Inv(s)
  {
  }

  /** A cursor that started at the default never runs ahead of what is published. */
  ghost predicate Behind(s: State, reader: Reader) {
    && reader.cursor.next <= reader.cursor.observed <= s.published
    && (reader.pc != Resting ==> reader.cursor.next < reader.cursor.observed)
    && forall k :: 0 <= k < |reader.log| ==> reader.log[k].num < s.published
  }

  /** The reader that takes a step, if a reader does. */
  function ReaderOf(step: Step): Option<nat> {
    match step
    case ReadBegin(r, _) => Some(r)
    case ReadVersion(r) => Some(r)
    case ReadWord(r, _) => Some(r)
    case ReadRecheck(r) => Some(r)
    case _ => None
  }

  lemma OtherStepKeepsBehind(s: State, step: Step, r: nat)
    requires Inv(s) && Enabled(s, step) && Within(After(s, step)) && ReaderOf(step) != Some(r)
    requires r < |s.readers| && Behind(s, s.readers[r])
    ensures Behind(After(s, step), After(s, step).readers[r])
  {
    assert After(s, step).readers[r] == s.readers[r];
  }

  lemma OwnStepKeepsBehind(s: State, step: Step, r: nat)
    requires Inv(s) && Enabled(s, step) && ReaderOf(step) == Some(r)
    requires r < |s.readers| && Behind(s, s.readers[r])
    ensures Behind(After(s, step), After(s, step).readers[r])
  {
    var was, now := s.readers[r], After(s, step).readers[r];
    assert ReaderOk(s, was);
    assert forall k :: 0 <= k < |now.log| && k < |was.log| ==> now.log[k] == was.log[k];
  }

  lemma StepKeepsBehind(s: State, step: Step, r: nat)
    requires Inv(s) && Enabled(s, step) && Within(After(s, step))
    requires r < |s.readers| && Behind(s, s.readers[r])
    ensures Behind(After(s, step), After(s, step).readers[r])
  {
    if ReaderOf(step) == Some(r) {
      OwnStepKeepsBehind(s, step, r);
    } else {
      OtherStepKeepsBehind(s, step, r);
    }
  }

  lemma {:induction false} DefaultCursorStaysBehind(states: seq<State>, steps: seq<Step>, r: nat)
    requires IsRun(states, steps) && Within(states[|steps|])
    requires r < |states[0].readers| && states[0].readers[r].cursor == Cursor(0, 0, 0, 0)
    ensures r < |states[|steps|].readers| && Behind(states[|steps|], states[|steps|].readers[r])
    decreases |steps|
  {
    var n := |steps|;
    if n > 0 {
      assert states[n] == After(states[n - 1], steps[n - 1]);
      EveryRunKeepsInv(states[..n], steps[..n - 1]);
      DefaultCursorStaysBehind(states[..n], steps[..n - 1], r);
      StepKeepsBehind(states[n - 1], steps[n - 1], r);
    }
  }

  /**
    In every interleaving, whatever position a cursor starts at, each successful read returned exactly
    the item published under the cursor's sequence, the marker of unwritten slots aside; sequences
    increase; and the cursor's position is its start plus its successes plus what it lost to overruns.
    A cursor that starts at the default reads only what is published.
   */
  lemma ReadersReceiveWhatWasPublished(states: seq<State>, steps: seq<Step>, r: nat)
    requires IsRun(states, steps) && Within(states[|steps|]) && r < |states[0].readers|
    ensures var s := states[|steps|];
            && r < |s.readers|
            && var reader := s.readers[r];
            && (forall k :: 0 <= k < |reader.log| && reader.log[k].num != NEVER_WRITTEN ==>
                  reader.log[k].num < |s.history| && reader.log[k].item == s.history[reader.log[k].num])
            && (forall k, m :: 0 <= k < m < |reader.log| ==> reader.log[k].num < reader.log[m].num)
            && reader.cursor.next == states[0].readers[r].cursor.next + |reader.log| + reader.cursor.overruns
            && (states[0].readers[r].cursor == Cursor(0, 0, 0, 0) ==>
                  forall k :: 0 <= k < |reader.log| ==> reader.log[k].num < s.published <= NEVER_WRITTEN)
  {
    EveryRunKeepsInv(states, steps);
    StartIsKept(states, steps, r);
    var s := states[|steps|];
    assert ReaderOk(s, s.readers[r]);
    forall k | 0 <= k < |s.readers[r].log| && s.readers[r].log[k].num != NEVER_WRITTEN
      ensures s.readers[r].log[k].num < |s.history| && s.readers[r].log[k].item == s.history[s.readers[r].log[k].num]
    {
      assert ReceiptOk(s, s.readers[r].log[k]);
    }
    if states[0].readers[r].cursor == Cursor(0, 0, 0, 0) {
      DefaultCursorStaysBehind(states, steps, r);
    }
  }

  lemma {:induction false} StartIsKept(states: seq<State>, steps: seq<Step>, r: nat)
    requires IsRun(states, steps) && r < |states[0].readers|
    ensures r < |states[|steps|].readers| && states[|steps|].readers[r].start == states[0].readers[r].start
    decreases |steps|
  {
    var n := |steps|;
    if n > 0 {
      assert states[n] == After(states[n - 1], steps[n - 1]);
      StartIsKept(states[..n], steps[..n - 1], r);
    }
  }

  // ---- What an overrun skips ----

  /** On plain numbers: the slot of n shows the version of n, complete. */
  ghost predicate ShowsItem(s: State, n: nat)
    requires |s.slots| > 0
  {
    s.slots[n % |s.slots|].version == 2 * n
  }

  /** The newest items, as many as the ring has slots and one less during a write, are all there. */
  ghost predicate Newest(s: State) {
    |s.slots| > 0 && forall n: nat ::
      n < s.nextSequence <= n + |s.slots| && (s.writer == Idle || s.nextSequence < n + |s.slots|) ==> ShowsItem(s, n)
  }

  /** No slot falls back behind what was published in it. */
  ghost predicate Rising(s: State) {
    |s.slots| > 0 && forall n: nat :: n < s.nextSequence ==> s.slots[n % |s.slots|].version >= 2 * n
  }

  lemma StepRaises(s: State, step: Step, n: nat)
    requires Inv(s) && Enabled(s, step) && Within(After(s, step)) && n < s.nextSequence
    ensures var j := n % |s.slots|;
      After(s, step).slots[j].version >= s.slots[j].version || After(s, step).slots[j].version >= 2 * s.nextSequence
  {
  }

  lemma PublishedShows(s: State)
    requires Inv(s) && Within(s) && s.writer == Versioned
    ensures ShowsItem(s, s.nextSequence)
  {
    assert SlotOk(s, SlotOf(s, s.nextSequence));
  }

  lemma StepKeepsRising(s: State, step: Step)
    requires Inv(s) && Enabled(s, step) && Within(After(s, step)) && Rising(s)
    ensures Rising(After(s, step))
  {
    var t := After(s, step);
    forall n: nat | n < t.nextSequence ensures t.slots[n % |t.slots|].version >= 2 * n {
      if n < s.nextSequence {
        StepRaises(s, step, n);
      } else {
        PublishedShows(s);
      }
    }
  }

  /** Only the oldest of the newest items is in the writer's way. */
  lemma WriterSpares(s: State, n: nat)
    requires |s.slots| > 0 && n < s.nextSequence < n + |s.slots|
    ensures n % |s.slots| != SlotOf(s, s.nextSequence)
  {
    if n % |s.slots| == SlotOf(s, s.nextSequence) {
      SequenceTracking.SlotsRepeatEverySize(n, s.nextSequence, |s.slots|);
    }
  }

  lemma StepShows(s: State, step: Step, n: nat)
    requires Inv(s) && Enabled(s, step) && Within(After(s, step)) && n < s.nextSequence && ShowsItem(s, n)
    requires s.nextSequence < n + |s.slots| || ReaderOf(step).Some? || step.WritePublish?
    ensures ShowsItem(After(s, step), n)
  {
    if s.nextSequence < n + |s.slots| {
      WriterSpares(s, n);
    }
  }

  lemma StepKeepsNewest(s: State, step: Step)
    requires Inv(s) && Enabled(s, step) && Within(After(s, step)) && Newest(s)
    ensures Newest(After(s, step))
  {
    var t := After(s, step);
    forall n: nat | n < t.nextSequence <= n + |t.slots| && (t.writer == Idle || t.nextSequence < n + |t.slots|)
      ensures ShowsItem(t, n)
    {
      if n < s.nextSequence {
        assert ShowsItem(s, n);
        StepShows(s, step, n);
      } else {
        PublishedShows(s);
      }
    }
  }

  lemma {:induction false} EveryRunKeepsNewest(states: seq<State>, steps: seq<Step>)
    requires IsRun(states, steps) && Within(states[|steps|])
    ensures Newest(states[|steps|]) && Rising(states[|steps|])
    decreases |steps|
  {
    var n := |steps|;
    if n > 0 {
      assert states[n] == After(states[n - 1], steps[n - 1]);
      EveryRunKeepsInv(states[..n], steps[..n - 1]);
      EveryRunKeepsNewest(states[..n], steps[..n - 1]);
      StepKeepsNewest(states[n - 1], steps[n - 1]);
      StepKeepsRising(states[n - 1], steps[n - 1]);
    }
  }

  lemma SameSlotOneRingOn(n: nat, size: nat)
    requires size > 0
    ensures (n + size) % size == n % size
  {
    var q, d := n / size, (n + size) / size;
    ByteCodec.NextMultiple(q + 1, size);
    ByteCodec.MultiplesApart(d, q + 1, size);
    ByteCodec.MultiplesApart(q + 1, d, size);
    assert n == q * size + n % size && n + size == d * size + (n + size) % size;
  }

  /**
    A reader that starts at the default and finds more published than the ring holds is set exactly one
    ring behind the count it sees and charged with what lies between; none of that could be read any
    more, and if the count is fresh and no write is going on, the item it is set to can be.
   */
  lemma OverrunSkipsTheOverwritten(states: seq<State>, steps: seq<Step>, r: nat, maxRetries: nat)
    requires IsRun(states, steps) && Within(states[|steps|]) && r < |states[0].readers|
    requires states[0].readers[r].cursor == Cursor(0, 0, 0, 0) && Enabled(states[|steps|], ReadBegin(r, maxRetries))
    ensures var s := states[|steps|];
      var was, size, now := s.readers[r].cursor, |s.slots|, After(s, ReadBegin(r, maxRetries)).readers[r];
      var seen := if was.next == was.observed then s.published else was.observed;
      && was.next <= seen <= s.published && now.cursor.observed == seen && now.log == s.readers[r].log
      && (now.pc == Trying(maxRetries, 0) <==> 0 < seen - was.next <= size)
      && (seen - was.next <= size ==> now.cursor.next == was.next && now.cursor.overruns == was.overruns)
      && (seen - was.next > size ==>
            && now.cursor.next == seen - size && now.cursor.overruns == was.overruns + (seen - size - was.next)
            && (forall n: nat :: was.next <= n < seen - size ==> s.slots[n % size].version != 2 * n)
            && (seen == s.published && s.writer == Idle ==> ShowsItem(s, now.cursor.next)))
  {
    var s := states[|steps|];
    EveryRunKeepsInv(states, steps);
    EveryRunKeepsNewest(states, steps);
    DefaultCursorStaysBehind(states, steps, r);
    var size := |s.slots|;
    forall n: nat | n + size < s.nextSequence ensures s.slots[n % size].version != 2 * n {
      SameSlotOneRingOn(n, size);
      assert s.slots[(n + size) % size].version >= 2 * (n + size);
    }
  }

  ghost function TornSoFar(reader: Reader): nat {
    reader.cursor.tornRetries + if reader.pc == Resting then 0 else reader.pc.torn
  }

  /**
    A try is torn exactly when a version it reads is not the complete one wanted, or changed while it
    copied; each torn try uses up one of the retries, and without any left the reader gives up.
   */
  lemma TornTriesAreCounted(s: State, step: Step, r: nat)
    requires Inv(s) && Within(s) && Enabled(s, step) && ReaderOf(step) == Some(r)
    requires s.readers[r].cursor.next < NEVER_WRITTEN
    ensures var was := s.readers[r];
      var version := s.slots[was.cursor.next % |s.slots|].version;
      TornSoFar(After(s, step).readers[r]) == TornSoFar(was) +
        if step.ReadVersion? && was.pc.left > 0 && version != 2 * was.cursor.next then 1
        else if step.ReadRecheck? && version != was.pc.before then 1
        else 0
    ensures var was, now := s.readers[r], After(s, step).readers[r];
      && (was.pc != Resting && now.pc != Resting ==> now.pc.left + now.pc.torn == was.pc.left + was.pc.torn)
      && (step.ReadVersion? ==> (now.pc == Resting <==> was.pc.left == 0) && now.log == was.log)
  {
    assert ReaderOk(s, s.readers[r]);
  }

  // ---- Where the guarantee ends ----

  /** A cursor placed at 2^63 - 1 reads a slot of a new ring although nothing was published. */
  lemma NeverWrittenCanBeRead(s: State) returns (states: seq<State>, steps: seq<Step>)
    requires Initial(s) && s.width == 1 && |s.readers| == 1 && s.readers[0].cursor == Cursor(NEVER_WRITTEN, 0, 0, 0)
    ensures IsRun(states, steps) && states[0] == s && |steps| == 4
    ensures |states[4].readers| == 1 && |states[4].readers[0].log| == 1 && states[4].history == []
  {
    VersionRoundTrip(NEVER_WRITTEN, false);
    var j := SlotOf(s, NEVER_WRITTEN);
    assert s.slots[j].version == EncodeVersion(NEVER_WRITTEN, false);
    assert s.readers[0].pc == Resting;
    var a := After(s, ReadBegin(0, 1));
    assert a.readers[0].pc == Trying(1, 0) && a.readers[0].cursor.next == NEVER_WRITTEN;
    var b := After(a, ReadVersion(0));
    assert b.readers[0].pc == Reading(1, 0, s.slots[j].version, map[]);
    var c := After(b, ReadWord(0, 0));
    assert 0 in c.readers[0].pc.candidate;
    var d := After(c, ReadRecheck(0));
    states, steps := [s, a, b, c, d], [ReadBegin(0, 1), ReadVersion(0), ReadWord(0, 0), ReadRecheck(0)];
  }

  /** The reader has not caught up, sees no overrun, and its slot has been overwritten. */
  ghost predicate Lapped(s: State, reader: Reader)
    requires |s.slots| > 0
  {
    var c := reader.cursor;
    && c.next < c.observed && c.observed - c.next <= |s.slots|
    && !reader.pc.Reading?
    && s.nextSequence > c.next && !Wanted(s.slots[SlotOf(s, c.next)].version, c.next)
  }

  /** Such a reader never succeeds again, whatever happens: the published count it cached is never refreshed. */
  lemma LappedForever(s: State, step: Step, r: nat)
    requires Inv(s) && Enabled(s, step) && Within(After(s, step))
    requires r < |s.readers| && Lapped(s, s.readers[r])
    ensures Lapped(After(s, step), After(s, step).readers[r])
    ensures After(s, step).readers[r].log == s.readers[r].log
    ensures After(s, step).readers[r].cursor.next == s.readers[r].cursor.next
  {
    VersionRoundTrip(s.nextSequence, true);
    VersionRoundTrip(s.nextSequence, false);
  }

  /** A lapped reader stays lapped over every continuation: no read of it ever succeeds. */
  lemma {:induction false} LappedReadersStay(states: seq<State>, steps: seq<Step>, r: nat)
    requires Continues(states, steps) && Inv(states[0]) && Within(states[|steps|])
    requires r < |states[0].readers| && Lapped(states[0], states[0].readers[r])
    ensures r < |states[|steps|].readers| && |states[|steps|].slots| > 0
    ensures Lapped(states[|steps|], states[|steps|].readers[r])
    ensures states[|steps|].readers[r].log == states[0].readers[r].log
    decreases |steps|
  {
    var n := |steps|;
    if n > 0 {
      assert states[n] == After(states[n - 1], steps[n - 1]);
      ContinuingBackWithin(states, steps);
      LappedReadersStay(states[..n], steps[..n - 1], r);
      ContinuingKeepsInv(states[..n], steps[..n - 1]);
      LappedForever(states[n - 1], steps[n - 1], r);
    }
  }

  lemma ContinuingBackWithin(states: seq<State>, steps: seq<Step>)
    requires Continues(states, steps) && steps != [] && Within(states[|steps|])
    ensures Within(states[|steps| - 1]) && Continues(states[..|steps|], steps[..|steps| - 1])
  {
    assert states[|steps|] == After(states[|steps| - 1], steps[|steps| - 1]);
  }

  /** One item goes through a ring of one slot. */
  lemma PublishesOne(s: State, a: Word) returns (states: seq<State>, steps: seq<Step>)
    requires Initial(s) && |s.slots| == 1 && s.width == 1
    ensures IsRun(states, steps) && states[0] == s && |steps| == 4
    ensures states[4] == s.(slots := [Slot(EncodeVersion(0, false), [a])], published := 1, nextSequence := 1,
                            history := [[a]])
  {
    var s1 := After(s, WriteBegin([a]));
    var s2 := After(s1, WriteWord(0));
    var s3 := After(s2, WriteVersion);
    var s4 := After(s3, WritePublish);
    assert |s.slots[0].words| == 1;
    assert s4.slots[0].words == [a];
    assert s4.history == [[a]];
    states, steps := [s, s1, s2, s3, s4], [WriteBegin([a]), WriteWord(0), WriteVersion, WritePublish];
  }

  /** Six steps to a lapped reader: it sees the first item published, and the second overwrites it. */
  lemma ReadersCanBeLapped(s: State, a: Word, b: Word, maxRetries: nat) returns (states: seq<State>, steps: seq<Step>)
    requires Initial(s) && |s.slots| == 1 && s.width == 1
    requires |s.readers| == 1 && s.readers[0].cursor == Cursor(0, 0, 0, 0)
    ensures IsRun(states, steps) && states[0] == s && |steps| == 6
    ensures |states[6].readers| == 1 && |states[6].slots| == 1 && Lapped(states[6], states[6].readers[0])
  {
    VersionRoundTrip(1, true);
    var before, first := PublishesOne(s, a);
    var s4 := before[4];
    var s5 := After(s4, ReadBegin(0, maxRetries));
    var s6 := After(s5, WriteBegin([b]));
    states, steps := before + [s5, s6], first + [ReadBegin(0, maxRetries), WriteBegin([b])];
  }

  // ---- Which readers can still succeed ----

  /** Some continuation, by whatever steps, lets the reader succeed once more. */
  ghost predicate CanComplete(s: State, r: nat) {
    exists states, steps :: Continues(states, steps) && states[0] == s && Within(states[|steps|])
      && Completes(states, steps, r)
  }

  ghost predicate Completes(states: seq<State>, steps: seq<Step>, r: nat)
    requires Continues(states, steps)
  {
    && r < |states[0].readers| && r < |states[|steps|].readers|
    && |states[|steps|].readers[r].log| > |states[0].readers[r].log|
  }

  /** At rest behind the count it has seen, by no more than the ring holds. */
  ghost predicate RestsBehind(s: State, r: nat) {
    && |s.slots| > 0 && r < |s.readers| && s.readers[r].pc == Resting
    && var c := s.readers[r].cursor;
    && c.next < c.observed && c.observed - c.next <= |s.slots| && c.next < s.nextSequence
  }

  lemma StepBefore(s: State, step: Step, states: seq<State>, steps: seq<Step>)
    requires Enabled(s, step) && Continues(states, steps) && states[0] == After(s, step)
    ensures Continues([s] + states, [step] + steps)
  {
  }

  /** Alone with an undisturbed slot, a reader copies the words it lacks and succeeds. */
  lemma {:induction false} CopiesAndCompletes(s: State, r: nat, i: nat) returns (states: seq<State>, steps: seq<Step>)
    requires |s.slots| > 0 && r < |s.readers| && s.readers[r].pc.Reading? && s.readers[r].pc.left > 0 && i <= s.width
    requires var slot := s.slots[SlotOf(s, s.readers[r].cursor.next)];
      && |slot.words| == s.width && slot.version == s.readers[r].pc.before && Wanted(slot.version, s.readers[r].cursor.next)
    requires forall k :: 0 <= k < i ==> k in s.readers[r].pc.candidate
    ensures Continues(states, steps) && states[0] == s && Within(states[|steps|]) == Within(s)
    ensures r < |states[|steps|].readers| && |states[|steps|].readers[r].log| == |s.readers[r].log| + 1
    decreases s.width - i
  {
    if i == s.width {
      var done := After(s, ReadRecheck(r));
      states, steps := [s, done], [ReadRecheck(r)];
    } else {
      var next := After(s, ReadWord(r, i));
      assert forall k :: 0 <= k < i + 1 ==> k in next.readers[r].pc.candidate;
      states, steps := CopiesAndCompletes(next, r, i + 1);
      StepBefore(s, ReadWord(r, i), states, steps);
      states, steps := [s] + states, [ReadWord(r, i)] + steps;
    }
  }

  lemma WantedReaderCompletes(s: State, r: nat)
    requires Inv(s) && Within(s) && RestsBehind(s, r)
    requires Wanted(s.slots[SlotOf(s, s.readers[r].cursor.next)].version, s.readers[r].cursor.next)
    ensures CanComplete(s, r)
  {
    assert SlotOk(s, SlotOf(s, s.readers[r].cursor.next));
    var begun := After(s, ReadBegin(r, 1));
    var seen := After(begun, ReadVersion(r));
    var states, steps := CopiesAndCompletes(seen, r, 0);
    StepBefore(begun, ReadVersion(r), states, steps);
    states, steps := [begun] + states, [ReadVersion(r)] + steps;
    StepBefore(s, ReadBegin(r, 1), states, steps);
    states, steps := [s] + states, [ReadBegin(r, 1)] + steps;
    assert Completes(states, steps, r);
  }

  /**
    A reader at rest behind the count it has seen can still succeed if and only if its slot still shows
    the version it wants.
   */
  lemma CompletesIffWanted(s: State, r: nat)
    requires Inv(s) && Within(s) && RestsBehind(s, r)
    ensures CanComplete(s, r)
        <==> Wanted(s.slots[SlotOf(s, s.readers[r].cursor.next)].version, s.readers[r].cursor.next)
  {
    if Wanted(s.slots[SlotOf(s, s.readers[r].cursor.next)].version, s.readers[r].cursor.next) {
      WantedReaderCompletes(s, r);
    } else {
      assert Lapped(s, s.readers[r]);
      forall states, steps | Continues(states, steps) && states[0] == s && Within(states[|steps|])
        ensures !Completes(states, steps, r)
      {
        LappedReadersStay(states, steps, r);
      }
    }
  }
}
