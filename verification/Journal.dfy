/** The journal writer, with its two buffers, and the journal reader. */
module Journal {
  import opened Types
  import opened ByteCodec
  import opened Crc32
  import opened JournalFormat

  /** An append-only file. */
  class JournalFile {
    var data: Bytes

    constructor ()
      ensures data == []
    {
      data := [];
    }
  }

  /** The file starts with "MFJN" and version 1. */
  predicate HeaderAccepted(data: Bytes): (ok: bool)
    ensures ok <==> |data| >= 8 && data[..8] == [0x4D, 0x46, 0x4A, 0x4E, 1, 0, 0, 0]
  {
    |data| >= FILE_HEADER_BYTES && data[..FILE_HEADER_BYTES] == FILE_HEADER
  }

  /** The number after the records that fit into the file. */
  function NumberAfter(data: Bytes): nat
    requires |data| >= FILE_HEADER_BYTES
  {
    (|data| - FILE_HEADER_BYTES) / RECORD_BYTES + 1
  }

  class JournalWriter {
    const bufferBytes: nat
    const bufA: array<Byte>
    const bufB: array<Byte>
    var usingA: bool
    var activeUsed: nat
    var nextSeq: u64
    var file: JournalFile?

    ghost predicate Valid()
      reads this
    {
      && bufA != bufB && bufA.Length == bufB.Length == bufferBytes >= RECORD_BYTES
      && activeUsed <= bufferBytes && (file == null ==> activeUsed == 0)
    }

    constructor (size: nat)
      requires size >= RECORD_BYTES
      ensures Valid() && fresh(bufA) && fresh(bufB) && file == null && nextSeq == 1
    {
      bufferBytes := size;
      bufA := new Byte[size];
      bufB := new Byte[size];
      usingA, activeUsed, nextSeq, file := true, 0, 1, null;
    }

    function Active(): array<Byte>
      reads this
    {
      if usingA then bufA else bufB
    }

    /** What the file will hold once the active buffer is flushed. */
    ghost function Image(): Bytes
      requires Valid() && file != null
      reads this, bufA, bufB, file
    {
      file.data + Active()[..activeUsed]
    }

    /** One memcpy into the active buffer. */
    method CopyIn(off: nat, bytes: Bytes) returns (next: nat)
      requires Valid() && off + |bytes| <= bufferBytes
      modifies Active()
      ensures next == off + |bytes| && Active()[..next] == old(Active()[..off]) + bytes
    {
      var active := Active();
      forall i | 0 <= i < |bytes| {
        active[off + i] := bytes[i];
      }
      next := off + |bytes|;
      assert active[off..next] == bytes;
      assert active[..next] == active[..off] + active[off..next];
    }

    /** The operating system may take a part at a time. */
    method FlushActiveBuffer()
      requires Valid()
      modifies this, file
      ensures Valid() && file == old(file) && nextSeq == old(nextSeq) && activeUsed == 0
      ensures file != null ==> file.data == old(Image())
    {
      if file == null || activeUsed == 0 {
        return;
      }
      var active, written := Active(), 0;
      ghost var start := file.data;
      while written < activeUsed
        invariant written <= activeUsed == old(activeUsed) && file == old(file) && nextSeq == old(nextSeq)
        invariant active == Active() && usingA == old(usingA)
        invariant file.data == start + active[..written]
      {
        var n: nat :| 1 <= n <= activeUsed - written;
        file.data := file.data + active[written..written + n];
        assert active[..written + n] == active[..written] + active[written..written + n];
        written := written + n;
      }
      usingA := !usingA;
      activeUsed := 0;
    }

    method Append(payload: Bytes, ingestTs: u64)
      requires Valid() && |payload| == PAYLOAD_BYTES
      modifies this, bufA, bufB, file
      ensures Valid() && file == old(file)
      ensures file == null ==> nextSeq == old(nextSeq)
      ensures file != null ==> nextSeq == Inc64(old(nextSeq))
      ensures file != null ==> Image() == old(Image()) + RecordBytes(Record(old(nextSeq), ingestTs, payload))
    {
      if file == null {
        return;
      }
      var crc := Crc32Update(0, payload);
      ghost var image := Image();
      if activeUsed + RECORD_BYTES > bufferBytes {
        FlushActiveBuffer();
        assert Active()[..0] == [];
      }
      assert Image() == image;
      WriteRecord(Record(nextSeq, ingestTs, payload), crc);
      nextSeq := Inc64(nextSeq);
    }

    method WriteRecord(r: Record, crc: bv32)
      requires Valid() && file != null && GoodRecord(r) && crc == Crc(0, r.payload)
      requires activeUsed + RECORD_BYTES <= bufferBytes
      modifies this`activeUsed, Active()
      ensures Valid() && Image() == old(Image()) + RecordBytes(r)
    {
      ghost var before := Active()[..activeUsed];
      var off := CopyIn(activeUsed, LittleEndian(r.num, 8));
      off := CopyIn(off, LittleEndian(r.ingestTs, 8));
      off := CopyIn(off, LittleEndian(PAYLOAD_BYTES, 4));
      off := CopyIn(off, CrcField(crc));
      off := CopyIn(off, r.payload);
      activeUsed := off;
      FieldsMakeRecord(before, r);
      JoinedLeftOrRight(file.data, before, RecordBytes(r));
    }

    method Flush()
      requires Valid()
      modifies this, file
      ensures Valid() && file == old(file) && nextSeq == old(nextSeq)
      ensures file != null ==> file.data == old(Image()) == Image()
    {
      FlushActiveBuffer();
      assert Active()[..0] == [];
    }

    method Close()
      requires Valid()
      modifies this, file
      ensures Valid() && file == null && nextSeq == old(nextSeq)
      ensures old(file) != null ==> old(file).data == old(Image())
    {
      FlushActiveBuffer();
      file := null;
      activeUsed := 0;
      usingA := true;
    }

    /** What a file holds once this writer is closed. */
    ghost function Settled(f: JournalFile): Bytes
      requires Valid()
      reads this, bufA, bufB, file, f
    {
      if file == f then Image() else f.data
    }

    /**
      Closes the current file first.  A new file gets a header; an existing one must have it, and its
      records are counted.
     */
    method Open(f: JournalFile) returns (ok: bool)
      requires Valid()
      modifies this, file, f
      ensures Valid()
      ensures ok <==> old(Settled(f)) == [] || HeaderAccepted(old(Settled(f)))
      ensures ok ==> file == f && Image() == if old(Settled(f)) == [] then FILE_HEADER else old(Settled(f))
      ensures ok ==>
        nextSeq == if old(Settled(f)) == [] then old(nextSeq) else NumberAfter(old(Settled(f))) % (MAX64 + 1)
      ensures !ok ==> file == null && f.data == old(Settled(f))
    {
      Close();
      if f.data == [] {
        f.data := FILE_HEADER;
      } else if !HeaderAccepted(f.data) {
        return false;
      } else {
        nextSeq := NumberAfter(f.data) % (MAX64 + 1);
      }
      file := f;
      assert Active()[..0] == [];
      return true;
    }
  }

  lemma FieldsMakeRecord(before: Bytes, r: Record)
    ensures ((((before + LittleEndian(r.num, 8)) + LittleEndian(r.ingestTs, 8)) + LittleEndian(PAYLOAD_BYTES, 4))
             + CrcField(Crc(0, r.payload))) + r.payload
            == before + RecordBytes(r)
  {
  }

  // ---- Sessions ----

  datatype Op = Append(payload: Bytes, ingestTs: u64) | Flush

  datatype Session = Session(bufferBytes: nat, ops: seq<Op>)

  /** The records that a run of operations appends, numbered from num. */
  function LoggedFrom(num: u64, ops: seq<Op>): seq<Record>
    decreases |ops|
  {
    if ops == [] then []
    else match ops[0]
      case Append(payload, ts) => [Record(num, ts, payload)] + LoggedFrom(Inc64(num), ops[1..])
      case Flush => LoggedFrom(num, ops[1..])
  }

  function AllOps(sessions: seq<Session>): seq<Op> {
    if sessions == [] then [] else AllOps(sessions[..|sessions| - 1]) + sessions[|sessions| - 1].ops
  }

  ghost predicate GoodOps(ops: seq<Op>) {
    forall i :: 0 <= i < |ops| && ops[i].Append? ==> |ops[i].payload| == PAYLOAD_BYTES
  }

  lemma {:induction false} LoggedAreGood(num: u64, ops: seq<Op>)
    requires GoodOps(ops)
    ensures GoodRecords(LoggedFrom(num, ops))
    decreases |ops|
  {
    if ops != [] {
      assert forall i :: 0 <= i < |ops[1..]| ==> ops[1..][i] == ops[i + 1];
      match ops[0]
      case Append(payload, ts) => LoggedAreGood(Inc64(num), ops[1..]);
      case Flush => LoggedAreGood(num, ops[1..]);
    }
  }

  /** The records are numbered consecutively. */
  lemma {:induction false} LoggedNumbers(num: u64, ops: seq<Op>, i: nat)
    requires i < |LoggedFrom(num, ops)| && num + |LoggedFrom(num, ops)| <= MAX64 + 1
    ensures LoggedFrom(num, ops)[i].num == num + i
    decreases |ops|
  {
    match ops[0]
    case Append(payload, ts) =>
      if i > 0 {
        LoggedNumbers(Inc64(num), ops[1..], i - 1);
      }
    case Flush => LoggedNumbers(num, ops[1..], i);
  }

  lemma {:induction false} LoggedOfConcat(num: u64, a: seq<Op>, b: seq<Op>)
    requires num + |LoggedFrom(num, a)| <= MAX64
    ensures LoggedFrom(num, a + b) == LoggedFrom(num, a) + LoggedFrom(num + |LoggedFrom(num, a)|, b)
    decreases |a|
  {
    if a == [] {
      assert a + b == b;
    } else {
      assert (a + b)[1..] == a[1..] + b;
      match a[0]
      case Append(payload, ts) => LoggedOfConcat(Inc64(num), a[1..], b);
      case Flush => LoggedOfConcat(num, a[1..], b);
    }
  }

  /** One operation after the others. */
  lemma LoggedOfOneMore(num: u64, ops: seq<Op>, op: Op)
    requires num + |LoggedFrom(num, ops)| <= MAX64
    ensures LoggedFrom(num, ops + [op]) ==
      LoggedFrom(num, ops)
      + if op.Append? then [Record(num + |LoggedFrom(num, ops)|, op.ingestTs, op.payload)] else []
  {
    LoggedOfConcat(num, ops, [op]);
    assert [op][1..] == [];
  }

  /** The number of the first record appended to a file. */
  function FirstNumber(data: Bytes): nat
    requires data == [] || |data| >= FILE_HEADER_BYTES
  {
    if data == [] then 1 else NumberAfter(data)
  }

  /** One writer's life on a file: open, append and flush, close. */
  method RunSession(f: JournalFile, session: Session) returns (ok: bool)
    requires session.bufferBytes >= RECORD_BYTES && GoodOps(session.ops)
    requires f.data == [] || HeaderAccepted(f.data)
    requires FirstNumber(f.data) <= MAX64
    requires FirstNumber(f.data) + |LoggedFrom(FirstNumber(f.data), session.ops)| <= MAX64
    modifies f
    ensures ok
    ensures f.data == (if old(f.data) == [] then FILE_HEADER else old(f.data))
                      + AllBytes(LoggedFrom(FirstNumber(old(f.data)), session.ops))
  {
    var writer := new JournalWriter(session.bufferBytes);
    ok := writer.Open(f);
    RunOps(writer, session.ops);
    writer.Close();
  }

  ghost predicate Holds(image: Bytes, start: Bytes, logged: seq<Record>) {
    forall u {:trigger Unsealed(u)} :: Unsealed(u) ==> image == start + AllBytes(logged)
  }

  lemma HoldsNothingYet(start: Bytes)
    ensures Holds(start, start, [])
  {
    assert start + [] == start;
  }

  lemma HoldsIs(image: Bytes, start: Bytes, logged: seq<Record>)
    requires Holds(image, start, logged)
    ensures image == start + AllBytes(logged)
  {
    assert Unsealed(true);
  }

  method RunOps(writer: JournalWriter, ops: seq<Op>)
    requires writer.Valid() && writer.file != null && GoodOps(ops)
    requires writer.nextSeq + |LoggedFrom(writer.nextSeq, ops)| <= MAX64
    modifies writer, writer.bufA, writer.bufB, writer.file
    ensures writer.Valid() && writer.file == old(writer.file)
    ensures writer.Image() == old(writer.Image()) + AllBytes(LoggedFrom(old(writer.nextSeq), ops))
  {
    ghost var first, start := writer.nextSeq, writer.Image();
    ghost var logged: seq<Record> := [];
    HoldsNothingYet(start);
    for i := 0 to |ops|
      invariant writer.Valid() && writer.file == old(writer.file)
      invariant logged == LoggedFrom(first, ops[..i])
      invariant writer.nextSeq == first + |logged|
      invariant Holds(writer.Image(), start, logged)
    {
      OneMoreOp(first, ops, i);
      NumbersLeft(first, ops, i);
      ghost var more := if ops[i].Append? then [Record(writer.nextSeq, ops[i].ingestTs, ops[i].payload)] else [];
      ApplyOp(writer, ops[i], start, logged);
      logged := logged + more;
    }
    assert ops[..|ops|] == ops;
    HoldsIs(writer.Image(), start, logged);
  }

  lemma NumbersLeft(first: u64, ops: seq<Op>, i: nat)
    requires i < |ops| && first + |LoggedFrom(first, ops)| <= MAX64
    ensures first + |LoggedFrom(first, ops[..i])| + (if ops[i].Append? then 1 else 0) <= MAX64
  {
    OneMoreOp(first, ops, i);
  }

  lemma OneMoreOp(first: u64, ops: seq<Op>, i: nat)
    requires i < |ops| && first + |LoggedFrom(first, ops)| <= MAX64
    ensures |LoggedFrom(first, ops[..i])| <= |LoggedFrom(first, ops[..i + 1])| <= |LoggedFrom(first, ops)|
    ensures LoggedFrom(first, ops[..i + 1]) ==
      LoggedFrom(first, ops[..i])
      + if ops[i].Append? then [Record(first + |LoggedFrom(first, ops[..i])|, ops[i].ingestTs, ops[i].payload)] else []
  {
    LoggedIsShorter(first, ops, i);
    LoggedIsShorter(first, ops, i + 1);
    assert ops[..i + 1] == ops[..i] + [ops[i]];
    LoggedOfOneMore(first, ops[..i], ops[i]);
  }

  lemma {:induction false} LoggedIsShorter(num: u64, ops: seq<Op>, i: nat)
    requires i <= |ops|
    ensures |LoggedFrom(num, ops[..i])| <= |LoggedFrom(num, ops)|
    decreases i
  {
    if i > 0 {
      assert ops[..i][1..] == ops[1..][..i - 1];
      match ops[0]
      case Append(payload, ts) => LoggedIsShorter(Inc64(num), ops[1..], i - 1);
      case Flush => LoggedIsShorter(num, ops[1..], i - 1);
    }
  }

  method ApplyOp(writer: JournalWriter, op: Op, ghost start: Bytes, ghost logged: seq<Record>)
    requires writer.Valid() && writer.file != null && (op.Append? ==> |op.payload| == PAYLOAD_BYTES)
    requires Holds(writer.Image(), start, logged) && writer.nextSeq + (if op.Append? then 1 else 0) <= MAX64
    modifies writer, writer.bufA, writer.bufB, writer.file
    ensures writer.Valid() && writer.file == old(writer.file)
    ensures writer.nextSeq == old(writer.nextSeq) + if op.Append? then 1 else 0
    ensures var more := if op.Append? then [Record(old(writer.nextSeq), op.ingestTs, op.payload)] else [];
            Holds(writer.Image(), start, logged + more)
  {
    assert Unsealed(true);
    match op
    case Append(payload, ts) =>
      ghost var r := Record(writer.nextSeq, ts, payload);
      writer.Append(payload, ts);
      FlattenOfOneMore(RecordBytes, logged, r);
      JoinedLeftOrRight(start, AllBytes(logged), RecordBytes(r));
    case Flush =>
      assert logged + [] == logged;
      writer.Flush();
  }

  lemma {:induction false} AllOpsPrefix(sessions: seq<Session>, i: nat)
    requires i <= |sessions|
    ensures |AllOps(sessions[..i])| <= |AllOps(sessions)|
    ensures AllOps(sessions)[..|AllOps(sessions[..i])|] == AllOps(sessions[..i])
    decreases |sessions|
  {
    if i == |sessions| {
      assert sessions[..i] == sessions;
    } else {
      var front := sessions[..|sessions| - 1];
      assert front[..i] == sessions[..i];
      AllOpsPrefix(front, i);
    }
  }

  /** The operations of one more session continue the numbering. */
  lemma OneMoreSession(sessions: seq<Session>, i: nat)
    requires i < |sessions| && |LoggedFrom(1, AllOps(sessions))| < MAX64
    ensures AllOps(sessions[..i + 1]) == AllOps(sessions[..i]) + sessions[i].ops
    ensures |LoggedFrom(1, AllOps(sessions[..i + 1]))| <= |LoggedFrom(1, AllOps(sessions))|
    ensures |LoggedFrom(1, AllOps(sessions[..i]))| < MAX64
    ensures LoggedFrom(1, AllOps(sessions[..i + 1])) ==
      LoggedFrom(1, AllOps(sessions[..i]))
      + LoggedFrom(1 + |LoggedFrom(1, AllOps(sessions[..i]))|, sessions[i].ops)
  {
    AllOpsPrefix(sessions, i);
    AllOpsPrefix(sessions, i + 1);
    LoggedIsShorter(1, AllOps(sessions), |AllOps(sessions[..i])|);
    LoggedIsShorter(1, AllOps(sessions), |AllOps(sessions[..i + 1])|);
    assert sessions[..i + 1][..i] == sessions[..i];
    LoggedOfConcat(1, AllOps(sessions[..i]), sessions[i].ops);
  }

  /** A fresh writer finds the next number from the size of the file. */
  lemma CountedFromFile(data: Bytes, rs: seq<Record>)
    requires data == FILE_HEADER + AllBytes(rs) && GoodRecords(rs)
    ensures HeaderAccepted(data) && NumberAfter(data) == |rs| + 1
  {
    RecordLengths(rs);
  }

  /**
    A session on a journal cut off anywhere numbers its records behind the whole ones; all of them read
    back exactly when the file ends with a whole record, which its length shows.
   */
  lemma SessionAfterCut(rs: seq<Record>, n: nat, ops: seq<Op>)
    requires GoodRecords(rs) && n <= |AllBytes(rs)| && GoodOps(ops) && |rs| < MAX64
    ensures var data := FILE_HEADER + AllBytes(rs)[..n];
      var first := FirstNumber(data);
      && HeaderAccepted(data) && first == n / RECORD_BYTES + 1 <= |rs| + 1
      && var after := data + AllBytes(LoggedFrom(first, ops));
         Scan(after[FILE_HEADER_BYTES..]) == Scanned(rs[..first - 1] + LoggedFrom(first, ops), 0, true)
         <==> (|data| - FILE_HEADER_BYTES) % RECORD_BYTES == 0
  {
    var body := AllBytes(rs)[..n];
    RecordLengths(rs);
    var first := n / RECORD_BYTES + 1;
    assert n / RECORD_BYTES <= |rs|;
    LoggedAreGood(first, ops);
    ContinuedReadsBackIff(rs, n, LoggedFrom(first, ops));
    JoinedLeftOrRight(FILE_HEADER, body, AllBytes(LoggedFrom(first, ops)));
    assert (FILE_HEADER + (body + AllBytes(LoggedFrom(first, ops))))[FILE_HEADER_BYTES..]
           == body + AllBytes(LoggedFrom(first, ops));
  }

  /** The journal after some sessions: nothing yet, or a header and their records. */
  ghost predicate HoldsSessions(data: Bytes, sessions: seq<Session>) {
    if sessions == [] then data == []
    else data == FILE_HEADER + AllBytes(LoggedFrom(1, AllOps(sessions)))
  }

  method RunNextSession(f: JournalFile, sessions: seq<Session>, i: nat)
    requires i < |sessions| && HoldsSessions(f.data, sessions[..i]) && GoodOps(AllOps(sessions[..i]))
    requires sessions[i].bufferBytes >= RECORD_BYTES && GoodOps(sessions[i].ops)
    requires |LoggedFrom(1, AllOps(sessions))| < MAX64
    modifies f
    ensures HoldsSessions(f.data, sessions[..i + 1]) && GoodOps(AllOps(sessions[..i + 1]))
  {
    ghost var first := FirstNumberIsNext(f.data, sessions, i);
    ghost var more := NextSession(sessions, i, first);
    ghost var was := f.data;
    var _ := RunSession(f, sessions[i]);
    SessionEnds(was, sessions, i, more, f.data);
    OpsStayGood(sessions, i);
  }

  lemma OpsStayGood(sessions: seq<Session>, i: nat)
    requires i < |sessions| && GoodOps(AllOps(sessions[..i])) && GoodOps(sessions[i].ops)
    ensures GoodOps(AllOps(sessions[..i + 1]))
  {
    assert sessions[..i + 1][..i] == sessions[..i];
  }

  lemma FirstNumberIsNext(data: Bytes, sessions: seq<Session>, i: nat) returns (first: nat)
    requires i < |sessions| && HoldsSessions(data, sessions[..i]) && GoodOps(AllOps(sessions[..i]))
    ensures (data == [] <==> i == 0) && (data != [] ==> HeaderAccepted(data))
    ensures FirstNumber(data) == first == 1 + |LoggedFrom(1, AllOps(sessions[..i]))|
  {
    LoggedAreGood(1, AllOps(sessions[..i]));
    if i > 0 {
      CountedFromFile(data, LoggedFrom(1, AllOps(sessions[..i])));
    }
    first := 1 + |LoggedFrom(1, AllOps(sessions[..i]))|;
  }

  /** The records that the next session will write. */
  lemma NextSession(sessions: seq<Session>, i: nat, first: nat) returns (more: seq<Record>)
    requires i < |sessions| && first == 1 + |LoggedFrom(1, AllOps(sessions[..i]))|
    requires |LoggedFrom(1, AllOps(sessions))| < MAX64
    ensures first + |more| <= MAX64 && more == LoggedFrom(first, sessions[i].ops)
    ensures LoggedFrom(1, AllOps(sessions[..i + 1])) == LoggedFrom(1, AllOps(sessions[..i])) + more
  {
    OneMoreSession(sessions, i);
    more := LoggedFrom(first, sessions[i].ops);
  }

  lemma SessionEnds(was: Bytes, sessions: seq<Session>, i: nat, more: seq<Record>, data: Bytes)
    requires i < |sessions| && HoldsSessions(was, sessions[..i]) && (was == [] <==> i == 0)
    requires data == (if was == [] then FILE_HEADER else was) + AllBytes(more)
    requires LoggedFrom(1, AllOps(sessions[..i + 1])) == LoggedFrom(1, AllOps(sessions[..i])) + more
    ensures HoldsSessions(data, sessions[..i + 1])
  {
    var logged := LoggedFrom(1, AllOps(sessions[..i]));
    if i == 0 {
      assert sessions[..i] == [] && logged == [];
      assert logged + more == more;
    } else {
      SessionsJoin(logged, more);
    }
  }

  lemma SessionsJoin(logged: seq<Record>, more: seq<Record>)
    ensures FILE_HEADER + AllBytes(logged) + AllBytes(more) == FILE_HEADER + AllBytes(logged + more)
  {
    FlattenOfConcat(RecordBytes, logged, more);
    JoinedLeftOrRight(FILE_HEADER, AllBytes(logged), AllBytes(more));
  }

  /**
    Any number of writers one after the other, each with its own buffer size and its own flushes,
    leave one journal, which reads back as all the records, numbered 1, 2, 3, ...
   */
  method RunSessions(f: JournalFile, sessions: seq<Session>)
    requires f.data == [] && sessions != []
    requires forall i :: 0 <= i < |sessions| ==> sessions[i].bufferBytes >= RECORD_BYTES && GoodOps(sessions[i].ops)
    requires |LoggedFrom(1, AllOps(sessions))| < MAX64
    modifies f
    ensures HeaderAccepted(f.data) && |f.data| == 8 + 112 * |LoggedFrom(1, AllOps(sessions))|
    ensures Scan(f.data[FILE_HEADER_BYTES..]) == Scanned(LoggedFrom(1, AllOps(sessions)), 0, true)
  {
    for i := 0 to |sessions|
      invariant HoldsSessions(f.data, sessions[..i]) && GoodOps(AllOps(sessions[..i]))
    {
      RunNextSession(f, sessions, i);
    }
    assert sessions[..|sessions|] == sessions;
    LoggedAreGood(1, AllOps(sessions));
    RoundTrip(LoggedFrom(1, AllOps(sessions)));
    assert f.data[FILE_HEADER_BYTES..] == AllBytes(LoggedFrom(1, AllOps(sessions)));
    RecordLengths(LoggedFrom(1, AllOps(sessions)));
  }

  // ---- The reader ----

  datatype ErrorReason = RecordDecode | UnexpectedEof | HeaderMagic | HeaderVersion | RecordSize | RecordCrc

  datatype ReadError = ReadError(reason: ErrorReason, offset: nat)

  /** Why a file is not accepted: it is missing, too short, no journal, or of another version. */
  function HeaderError(data: Option<Bytes>): (reason: ErrorReason)
    ensures data == None ==> reason == RecordDecode
    ensures data.Some? && |data.value| < 8 ==> reason == UnexpectedEof
    ensures data.Some? && |data.value| >= 8 && data.value[..4] != [0x4D, 0x46, 0x4A, 0x4E] ==> reason == HeaderMagic
    ensures data.Some? && |data.value| >= 8 && data.value[..4] == [0x4D, 0x46, 0x4A, 0x4E] ==> reason == HeaderVersion
  {
    if data == None then RecordDecode
    else if |data.value| < FILE_HEADER_BYTES then UnexpectedEof
    else if data.value[..4] != FILE_HEADER[..4] then HeaderMagic
    else HeaderVersion
  }

  /** One turn of the reading loop: a record, a record skipped, or the end of what can be read. */
  datatype Attempt = Got(record: Record) | Skipped | Stopped

  class JournalReader {
    var base: Option<Bytes>
    var off: nat
    var recordsRead: nat
    var crcFailures: nat
    var bytesRead: nat
    var error: Option<ReadError>

    ghost predicate Valid()
      reads this
    {
      base.Some? ==> off <= |base.value|
    }

    constructor ()
      ensures Valid() && base == None
    {
      base, error := None, None;
      off, recordsRead, crcFailures, bytesRead := 0, 0, 0, 0;
    }

    /** The bytes not yet read. */
    ghost function Rest(): Bytes
      requires Valid() && base.Some?
      reads this
    {
      base.value[off..]
    }

    /** The file is mapped and its header checked; no file is an error too. */
    method Open(data: Option<Bytes>) returns (ok: bool)
      modifies this
      ensures Valid()
      ensures ok <==> data.Some? && HeaderAccepted(data.value)
      ensures ok ==> base == data && Rest() == data.value[FILE_HEADER_BYTES..] && error == None
      ensures ok ==> recordsRead == crcFailures == bytesRead == 0
      ensures !ok ==> base == None && error == Some(ReadError(HeaderError(data), 0))
    {
      base, off, error := None, 0, None;
      if data == None {
        error := Some(ReadError(RecordDecode, 0));
        return false;
      }
      if |data.value| < FILE_HEADER_BYTES {
        error := Some(ReadError(UnexpectedEof, 0));
        return false;
      }
      assert data.value[..FILE_HEADER_BYTES] == data.value[..4] + data.value[4..8];
      assert FILE_HEADER == FILE_HEADER[..4] + FILE_HEADER[4..8];
      assert data.value[..FILE_HEADER_BYTES][..4] == data.value[..4];
      if data.value[..4] != FILE_HEADER[..4] {
        error := Some(ReadError(HeaderMagic, 0));
        return false;
      }
      if data.value[4..8] != FILE_HEADER[4..8] {
        assert data.value[..FILE_HEADER_BYTES][4..8] == data.value[4..8];
        error := Some(ReadError(HeaderVersion, 0));
        return false;
      }
      base, off := data, FILE_HEADER_BYTES;
      recordsRead, crcFailures, bytesRead := 0, 0, 0;
      return true;
    }

    /**
      The next record that is intact, if any: records, failures and errors are those of the scan, none
      skipped and none reported twice.
     */
    method Next() returns (r: Option<Record>)
      requires Valid()
      modifies this
      ensures Valid() && base == old(base)
      ensures base == None ==> r == None
      ensures base.Some? ==>
        && Scan(old(Rest())).records == (if r.Some? then [r.value] else []) + Scan(Rest()).records
        && old(crcFailures) + Scan(old(Rest())).failures == crcFailures + Scan(Rest()).failures
        && crcFailures >= old(crcFailures)
        && recordsRead == old(recordsRead) + if r.Some? then 1 else 0
      ensures base.Some? ==> (old(error == None && Scan(Rest()).clean) <==> error == None && Scan(Rest()).clean)
      ensures base.Some? && r == None ==>
        |Rest()| < RECORD_HEADER_BYTES && (error == None ==> Rest() == []) && |Rest()| <= |old(Rest())|
      ensures base.Some? && r == None && Rest() != [] ==> error == Some(ReadError(UnexpectedEof, off))
      ensures base.Some? && r.Some? ==> |Rest()| < |old(Rest())|
    {
      if base == None {
        return None;
      }
      while off + RECORD_HEADER_BYTES <= |base.value|
        invariant Valid() && base == old(base) && |Rest()| <= |old(Rest())|
        invariant Scan(old(Rest())).records == Scan(Rest()).records
        invariant old(crcFailures) + Scan(old(Rest())).failures == crcFailures + Scan(Rest()).failures
        invariant recordsRead == old(recordsRead) && crcFailures >= old(crcFailures)
        invariant old(error == None && Scan(Rest()).clean) <==> error == None && Scan(Rest()).clean
        decreases |base.value| - off
      {
        var attempt := TryRecord();
        if attempt.Got? {
          return Some(attempt.record);
        }
        if attempt.Stopped? {
          return None;
        }
      }
      if off != |base.value| {
        error := Some(ReadError(UnexpectedEof, off));
      }
      return None;
    }

    method TryRecord() returns (a: Attempt)
      requires Valid() && base.Some? && off + RECORD_HEADER_BYTES <= |base.value|
      modifies this
      ensures Valid() && base == old(base) && off > old(off)
      ensures recordsRead == old(recordsRead) + if a.Got? then 1 else 0
      ensures crcFailures == old(crcFailures) + if a.Got? then 0 else 1
      ensures if a.Got? then error == old(error) else error.Some?
      ensures a.Stopped? <==> LenOf(old(Rest())) != 88 || |old(Rest())| < 112
      ensures a.Stopped? ==>
        && Rest() == [] && bytesRead == old(bytesRead)
        && error == Some(ReadError(if LenOf(old(Rest())) != 88 then RecordSize else UnexpectedEof, old(off)))
      ensures !a.Stopped? ==> off == old(off) + 112 && bytesRead == old(bytesRead) + 112
      ensures a.Skipped? ==> error == Some(ReadError(RecordCrc, old(off)))
      ensures Scan(old(Rest())) ==
        match a
        case Got(r) => Prepended([r], Scan(Rest()))
        case Skipped => Scanned(Scan(Rest()).records, Scan(Rest()).failures + 1, false)
        case Stopped => Scanned([], 1, false)
    {
      var rest := base.value[off..];
      if LenOf(rest) != PAYLOAD_BYTES || off + RECORD_BYTES > |base.value| {
        crcFailures := crcFailures + 1;
        error := Some(ReadError(if LenOf(rest) != PAYLOAD_BYTES then RecordSize else UnexpectedEof, off));
        off := |base.value|;
        return Stopped;
      }
      var got := Crc32Update(0, PayloadOf(rest));
      assert rest[RECORD_BYTES..] == base.value[off + RECORD_BYTES..];
      off := off + RECORD_BYTES;
      bytesRead := bytesRead + RECORD_BYTES;
      if got != StoredCrc(rest) {
        crcFailures := crcFailures + 1;
        error := Some(ReadError(RecordCrc, off - RECORD_BYTES));
        return Skipped;
      }
      recordsRead := recordsRead + 1;
      return Got(RecordAt(rest));
    }

    /** Reading until nothing comes gives the scan of the file. */
    method ReadAll() returns (rs: seq<Record>)
      requires Valid() && base.Some? && error == None
      modifies this
      ensures Valid() && rs == Scan(old(Rest())).records
      ensures crcFailures == old(crcFailures) + Scan(old(Rest())).failures
      ensures error == None <==> Scan(old(Rest())).clean
      ensures recordsRead == old(recordsRead) + |rs|
    {
      ghost var total := Scan(Rest());
      ghost var before := crcFailures;
      rs := [];
      AccountsAtStart(Rest());
      while true
        invariant Valid() && base == old(base)
        invariant crcFailures >= before
        invariant Accounts(total, rs, crcFailures - before, error == None, Rest())
        invariant recordsRead == old(recordsRead) + |rs|
        decreases |Rest()|
      {
        ghost var rest, failures, clean := Rest(), crcFailures - before, error == None;
        var r := Next();
        AccountsAfter(total, rs, failures, clean, rest, r, crcFailures - before, error == None, Rest());
        if r == None {
          AccountsAtEnd(total, rs, crcFailures - before, error == None, Rest());
          return;
        }
        rs := rs + [r.value];
      }
    }
  }

  /** The records, failures and errors so far, with those still to come, make up the whole scan. */
  ghost predicate Accounts(total: Scanned, rs: seq<Record>, failures: nat, clean: bool, rest: Bytes) {
    forall u {:trigger Unsealed(u)} :: Unsealed(u) ==>
      total == Scanned(rs + Scan(rest).records, failures + Scan(rest).failures, clean && Scan(rest).clean)
  }

  lemma AccountsAtStart(rest: Bytes)
    ensures Accounts(Scan(rest), [], 0, true, rest)
  {
    assert [] + Scan(rest).records == Scan(rest).records;
  }

  lemma AccountsAfter(total: Scanned, rs: seq<Record>, failures: nat, clean: bool, rest: Bytes,
                      r: Option<Record>, failures': int, clean': bool, rest': Bytes)
    requires Accounts(total, rs, failures, clean, rest)
    requires Scan(rest).records == (if r.Some? then [r.value] else []) + Scan(rest').records
    requires failures + Scan(rest).failures == failures' + Scan(rest').failures && failures' >= 0
    requires (clean && Scan(rest).clean) <==> (clean' && Scan(rest').clean)
    ensures Accounts(total, if r.Some? then rs + [r.value] else rs, failures', clean', rest')
  {
    assert Unsealed(true);
    if r.Some? {
      assert rs + ([r.value] + Scan(rest').records) == (rs + [r.value]) + Scan(rest').records;
    } else {
      assert [] + Scan(rest').records == Scan(rest').records;
    }
  }

  lemma AccountsAtEnd(total: Scanned, rs: seq<Record>, failures: nat, clean: bool, rest: Bytes)
    requires Accounts(total, rs, failures, clean, rest) && |rest| < RECORD_HEADER_BYTES && (clean ==> rest == [])
    ensures total == Scanned(rs, failures, clean)
  {
    assert Unsealed(true);
    assert rs + [] == rs;
  }
}
