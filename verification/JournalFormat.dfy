/** The journal as bytes: a header, then fixed-size records that each carry a checksum of their payload. */
module JournalFormat {
  import opened Types
  import opened ByteCodec
  import opened Crc32

  /** The size of a book event's image. */
  const PAYLOAD_BYTES: nat := 88

  const RECORD_HEADER_BYTES: nat := 24

  const RECORD_BYTES: nat := 112

  const FILE_HEADER_BYTES: nat := 8

  /** The magic "MFJN" and version 1, little-endian. */
  const FILE_HEADER: Bytes := [0x4D, 0x46, 0x4A, 0x4E, 1, 0, 0, 0]

  datatype Record = Record(num: u64, ingestTs: u64, payload: Bytes)

  ghost predicate GoodRecord(r: Record) {
    |r.payload| == PAYLOAD_BYTES
  }

  ghost predicate GoodRecords(rs: seq<Record>) {
    forall i :: 0 <= i < |rs| ==> GoodRecord(rs[i])
  }

  // ---- The checksum field ----

  function CrcField(crc: bv32): (f: Bytes)
    ensures |f| == 4
  {
    [(crc & 0xFF) as Byte, ((crc >> 8) & 0xFF) as Byte, ((crc >> 16) & 0xFF) as Byte, ((crc >> 24) & 0xFF) as Byte]
  }

  /** Byte i of the field is the digit of weight 256 to the i. */
  lemma CrcFieldLayout(crc: bv32)
    ensures CrcField(crc)[0] as bv32 == crc & 0xFF && CrcField(crc)[1] as bv32 == (crc >> 8) & 0xFF
    ensures CrcField(crc)[2] as bv32 == (crc >> 16) & 0xFF && CrcField(crc)[3] as bv32 == crc >> 24
    ensures CrcField(0x1234_5678) == [0x78, 0x56, 0x34, 0x12]
  {
  }

  function JoinBytes(a: Byte, b: Byte, c: Byte, d: Byte): bv32 {
    (a as bv32) | ((b as bv32) << 8) | ((c as bv32) << 16) | ((d as bv32) << 24)
  }

  function FieldCrc(f: Bytes): bv32
    requires |f| == 4
  {
    JoinBytes(f[0], f[1], f[2], f[3])
  }

  lemma CrcFieldRoundTrip(crc: bv32)
    ensures FieldCrc(CrcField(crc)) == crc
  {
  }

  lemma FieldCrcIsInjective(f: Bytes, g: Bytes)
    requires |f| == |g| == 4 && FieldCrc(f) == FieldCrc(g)
    ensures f == g
  {
  }

  // ---- One record ----

  function RecordBytes(r: Record): (b: Bytes) {
    LittleEndian(r.num, 8) + LittleEndian(r.ingestTs, 8) + LittleEndian(PAYLOAD_BYTES, 4)
    + CrcField(Crc(0, r.payload)) + r.payload
  }

  function ReadU64(b: Bytes): u64
    requires |b| == 8
  {
    LittleEndianBound(b);
    Powers();
    FromLittleEndian(b)
  }

  function NumOf(rest: Bytes): u64
    requires |rest| >= RECORD_HEADER_BYTES
  {
    ReadU64(rest[0..8])
  }

  function TsOf(rest: Bytes): u64
    requires |rest| >= RECORD_HEADER_BYTES
  {
    ReadU64(rest[8..16])
  }

  function LenOf(rest: Bytes): nat
    requires |rest| >= RECORD_HEADER_BYTES
  {
    FromLittleEndian(rest[16..20])
  }

  function StoredCrc(rest: Bytes): bv32
    requires |rest| >= RECORD_HEADER_BYTES
  {
    FieldCrc(rest[20..24])
  }

  function PayloadOf(rest: Bytes): (p: Bytes)
    requires |rest| >= RECORD_BYTES
    ensures |p| == PAYLOAD_BYTES
  {
    rest[RECORD_HEADER_BYTES..RECORD_BYTES]
  }

  predicate Whole(rest: Bytes) {
    |rest| >= RECORD_BYTES && LenOf(rest) == PAYLOAD_BYTES
  }

  predicate Intact(rest: Bytes)
    requires |rest| >= RECORD_BYTES
  {
    Crc(0, PayloadOf(rest)) == StoredCrc(rest)
  }

  function RecordAt(rest: Bytes): Record
    requires |rest| >= RECORD_BYTES
  {
    Record(NumOf(rest), TsOf(rest), PayloadOf(rest))
  }

  /** A record byte by byte: numbers little-endian, the length always 88, and then checksum and payload. */
  lemma RecordOnBytes(r: Record)
    requires GoodRecord(r)
    ensures var b := RecordBytes(r);
      && |b| == 112
      && (forall i :: 0 <= i < 8 ==> ValueOf(b[i]) == r.num / Power256(i) % 256)
      && (forall i :: 0 <= i < 8 ==> ValueOf(b[8 + i]) == r.ingestTs / Power256(i) % 256)
      && b[16..20] == [88, 0, 0, 0] && b[20..24] == CrcField(Crc(0, r.payload)) && b[24..112] == r.payload
  {
    var b := RecordBytes(r);
    forall i | 0 <= i < 8
      ensures ValueOf(b[i]) == r.num / Power256(i) % 256 && ValueOf(b[8 + i]) == r.ingestTs / Power256(i) % 256
    {
      LittleEndianDigit(r.num, 8, i);
      LittleEndianDigit(r.ingestTs, 8, i);
    }
    LengthField();
  }

  lemma LengthField()
    ensures LittleEndian(PAYLOAD_BYTES, 4) == [88, 0, 0, 0]
  {
    ByteOfIs(88);
    assert LittleEndian(0, 3) == [0, 0, 0];
  }

  /** The fixed places of the fields. */
  lemma RecordLayout(r: Record, post: Bytes)
    requires GoodRecord(r)
    ensures var b := RecordBytes(r) + post;
            && |RecordBytes(r)| == RECORD_BYTES && |b| >= RECORD_BYTES
            && b[0..8] == LittleEndian(r.num, 8) && b[8..16] == LittleEndian(r.ingestTs, 8)
            && b[16..20] == LittleEndian(PAYLOAD_BYTES, 4) && b[20..24] == CrcField(Crc(0, r.payload))
            && b[24..112] == r.payload && b[112..] == post
  {
    FieldPlaces(LittleEndian(r.num, 8), LittleEndian(r.ingestTs, 8), LittleEndian(PAYLOAD_BYTES, 4),
                CrcField(Crc(0, r.payload)), r.payload, post);
  }

  lemma FieldPlaces(num: Bytes, ts: Bytes, len: Bytes, crc: Bytes, payload: Bytes, post: Bytes)
    requires |num| == |ts| == 8 && |len| == |crc| == 4 && |payload| == PAYLOAD_BYTES
    ensures var record := num + ts + len + crc + payload; var b := record + post;
            && |record| == RECORD_BYTES && |b| >= RECORD_BYTES
            && b[0..8] == num && b[8..16] == ts && b[16..20] == len && b[20..24] == crc
            && b[24..112] == payload && b[112..] == post
  {
  }

  lemma RecordReadsBack(r: Record, post: Bytes)
    requires GoodRecord(r)
    ensures var b := RecordBytes(r) + post;
            Whole(b) && Intact(b) && RecordAt(b) == r && b[RECORD_BYTES..] == post
  {
    RecordLayout(r, post);
    Powers();
    LittleEndianRoundTrip(r.num, 8);
    LittleEndianRoundTrip(r.ingestTs, 8);
    LittleEndianRoundTrip(PAYLOAD_BYTES, 4);
    CrcFieldRoundTrip(Crc(0, r.payload));
  }

  // ---- Reading a run of records ----

  datatype Scanned = Scanned(records: seq<Record>, failures: nat, clean: bool)

  /** What a reader makes of the bytes after the header: records, checksum failures, and whether any error was met. */
  function Scan(rest: Bytes): Scanned {
    if |rest| < RECORD_HEADER_BYTES then Scanned([], 0, rest == [])
    else if !Whole(rest) then Scanned([], 1, false)
    else
      var tail := Scan(rest[RECORD_BYTES..]);
      if Intact(rest) then Scanned([RecordAt(rest)] + tail.records, tail.failures, tail.clean)
      else Scanned(tail.records, tail.failures + 1, false)
  }

  function Prepended(rs: seq<Record>, s: Scanned): Scanned {
    Scanned(rs + s.records, s.failures, s.clean)
  }

  function AllBytes(rs: seq<Record>): Bytes {
    Flatten(RecordBytes, rs)
  }

  lemma RecordLengths(rs: seq<Record>)
    requires GoodRecords(rs)
    ensures forall i :: 0 <= i < |rs| ==> |RecordBytes(rs[i])| == RECORD_BYTES
    ensures |AllBytes(rs)| == |rs| * RECORD_BYTES
  {
    forall i | 0 <= i < |rs| ensures |RecordBytes(rs[i])| == RECORD_BYTES {
      RecordLayout(rs[i], []);
    }
    FlattenLength(RecordBytes, rs, RECORD_BYTES);
  }

  /** If each record is read back in front of anything, so is a run of records. */
  lemma {:induction false} RunReadsBack(encode: Record -> Bytes, scan: Bytes -> Scanned, rs: seq<Record>, post: Bytes)
    requires forall r, after: Bytes :: r in rs ==> scan(encode(r) + after) == Prepended([r], scan(after))
    ensures scan(Flatten(encode, rs) + post) == Prepended(rs, scan(post))
    decreases |rs|
  {
    if rs == [] {
      assert Flatten(encode, rs) + post == post;
    } else {
      var front, r := rs[..|rs| - 1], rs[|rs| - 1];
      assert Flatten(encode, rs) + post == Flatten(encode, front) + (encode(r) + post);
      RunReadsBack(encode, scan, front, encode(r) + post);
      assert front + ([r] + scan(post).records) == rs + scan(post).records;
    }
  }

  lemma ScanPastOne(r: Record, post: Bytes)
    requires GoodRecord(r)
    ensures Scan(RecordBytes(r) + post) == Prepended([r], Scan(post))
  {
    RecordReadsBack(r, post);
  }

  /** Whole records in front are read in order, whatever comes after them. */
  lemma ScanPastRecords(rs: seq<Record>, post: Bytes)
    requires GoodRecords(rs)
    ensures Scan(AllBytes(rs) + post) == Prepended(rs, Scan(post))
  {
    forall r, after: Bytes | r in rs ensures Scan(RecordBytes(r) + after) == Prepended([r], Scan(after)) {
      ScanPastOne(r, after);
    }
    RunReadsBack(RecordBytes, Scan, rs, post);
  }

  /** What was written is what is read. */
  lemma RoundTrip(rs: seq<Record>)
    requires GoodRecords(rs)
    ensures Scan(AllBytes(rs)) == Scanned(rs, 0, true)
  {
    ScanPastRecords(rs, []);
    assert AllBytes(rs) + [] == AllBytes(rs) && rs + [] == rs;
  }

  /**
    A file cut off anywhere gives exactly its whole records, and an error exactly when a part of one
    remains; the part counts as a failure once it has a record header.
   */
  lemma TruncationKeepsWholeRecords(rs: seq<Record>, n: nat)
    requires GoodRecords(rs) && n <= |AllBytes(rs)|
    ensures n / RECORD_BYTES <= |rs|
    ensures Scan(AllBytes(rs)[..n]) ==
      Scanned(rs[..n / RECORD_BYTES], if n % RECORD_BYTES >= RECORD_HEADER_BYTES then 1 else 0, n % RECORD_BYTES == 0)
  {
    var k, extra := n / RECORD_BYTES, n % RECORD_BYTES;
    assert n == k * RECORD_BYTES + extra;
    CutAfter(rs, k, extra);
  }

  lemma CutAfter(rs: seq<Record>, k: nat, extra: nat)
    requires GoodRecords(rs) && extra < RECORD_BYTES && k * RECORD_BYTES + extra <= |AllBytes(rs)|
    ensures k <= |rs|
    ensures Scan(AllBytes(rs)[..k * RECORD_BYTES + extra]) ==
      Scanned(rs[..k], if extra >= RECORD_HEADER_BYTES then 1 else 0, extra == 0)
  {
    var part := RecordsCut(rs, k, extra);
    RecordsAndPart(rs[..k], part);
  }

  /** What is read without any error is a number of whole records. */
  lemma {:induction false} CleanIsWhole(rest: Bytes)
    ensures Scan(rest).clean ==> |rest| == |Scan(rest).records| * RECORD_BYTES
    decreases |rest|
  {
    if |rest| >= RECORD_HEADER_BYTES && Whole(rest) {
      CleanIsWhole(rest[RECORD_BYTES..]);
    }
  }

  /**
    A journal cut off anywhere and then continued gives its whole records first; it gives all the new
    ones behind them, without an error, exactly when it was cut between two records.
   */
  lemma ContinuedReadsBackIff(rs: seq<Record>, n: nat, more: seq<Record>)
    requires GoodRecords(rs) && GoodRecords(more) && n <= |AllBytes(rs)|
    ensures n / RECORD_BYTES <= |rs|
    ensures var s := Scan(AllBytes(rs)[..n] + AllBytes(more));
      && rs[..n / RECORD_BYTES] <= s.records
      && (s == Scanned(rs[..n / RECORD_BYTES] + more, 0, true) <==> n % RECORD_BYTES == 0)
      && (s.clean <==> n % RECORD_BYTES == 0)
  {
    var k, extra := n / RECORD_BYTES, n % RECORD_BYTES;
    assert n == k * RECORD_BYTES + extra;
    var part := RecordsCut(rs, k, extra);
    ContinuedAfterPart(rs[..k], part, more);
  }

  lemma ContinuedAfterPart(rs: seq<Record>, part: Bytes, more: seq<Record>)
    requires GoodRecords(rs) && GoodRecords(more) && |part| < RECORD_BYTES
    ensures var s := Scan(AllBytes(rs) + part + AllBytes(more));
      && rs <= s.records && (s == Scanned(rs + more, 0, true) <==> part == []) && (s.clean <==> part == [])
  {
    JoinedLeftOrRight(AllBytes(rs), part, AllBytes(more));
    ScanPastRecords(rs, part + AllBytes(more));
    PartMisaligns(part, more);
    if part == [] {
      assert part + AllBytes(more) == AllBytes(more);
      RoundTrip(more);
    }
  }

  lemma PartMisaligns(part: Bytes, more: seq<Record>)
    requires GoodRecords(more) && |part| < RECORD_BYTES
    ensures part != [] ==> !Scan(part + AllBytes(more)).clean
  {
    if part != [] {
      RecordLengths(more);
      CleanIsWhole(part + AllBytes(more));
      var s := Scan(part + AllBytes(more));
      if s.clean {
        NoMultipleBetween(|part|, |more|, |s.records|);
      }
    }
  }

  lemma NoMultipleBetween(part: nat, more: nat, all: nat)
    requires 0 < part < RECORD_BYTES
    ensures part + more * RECORD_BYTES != all * RECORD_BYTES
  {
  }

  lemma RecordsCut(rs: seq<Record>, k: nat, extra: nat) returns (part: Bytes)
    requires GoodRecords(rs) && extra < RECORD_BYTES && k * RECORD_BYTES + extra <= |AllBytes(rs)|
    ensures k <= |rs| && |part| == extra && AllBytes(rs)[..k * RECORD_BYTES + extra] == AllBytes(rs[..k]) + part
  {
    RecordLengths(rs);
    part := FlattenCut(RecordBytes, rs, RECORD_BYTES, k, extra);
  }

  lemma RecordsAndPart(rs: seq<Record>, part: Bytes)
    requires GoodRecords(rs) && |part| < RECORD_BYTES
    ensures Scan(AllBytes(rs) + part) == Scanned(rs, if |part| >= RECORD_HEADER_BYTES then 1 else 0, part == [])
  {
    ScanPastRecords(rs, part);
    assert rs + [] == rs;
  }

  // ---- Corruption ----

  /** A record with one byte of its checksum or its payload changed. */
  function Corrupted(r: Record, at: nat, b: Byte): Bytes
    requires |RecordBytes(r)| > at
  {
    RecordBytes(r)[at := b]
  }

  lemma CorruptionShows(r: Record, at: nat, b: Byte, post: Bytes)
    requires GoodRecord(r) && 20 <= at < RECORD_BYTES && |RecordBytes(r)| == RECORD_BYTES
    requires RecordBytes(r)[at] != b
    ensures var bad := Corrupted(r, at, b) + post;
            Whole(bad) && !Intact(bad) && bad[RECORD_BYTES..] == post
  {
    CorruptedLayout(r, at, b, post);
    Powers();
    LittleEndianRoundTrip(PAYLOAD_BYTES, 4);
    if at < RECORD_HEADER_BYTES {
      ChecksumMismatch(r.payload, at - 20, b);
    } else {
      PayloadMismatch(r.payload, at - RECORD_HEADER_BYTES, b);
    }
  }

  lemma CorruptedLayout(r: Record, at: nat, b: Byte, post: Bytes)
    requires GoodRecord(r) && 20 <= at < RECORD_BYTES && |RecordBytes(r)| == RECORD_BYTES
    ensures var good, bad := RecordBytes(r), Corrupted(r, at, b) + post;
            && |bad| >= RECORD_BYTES && bad[16..20] == LittleEndian(PAYLOAD_BYTES, 4) && bad[RECORD_BYTES..] == post
            && if at < RECORD_HEADER_BYTES then
                 && bad[20..24] == CrcField(Crc(0, r.payload))[at - 20 := b] && bad[24..112] == r.payload
                 && CrcField(Crc(0, r.payload))[at - 20] == good[at]
               else
                 && bad[20..24] == CrcField(Crc(0, r.payload)) && bad[24..112] == r.payload[at - 24 := b]
                 && r.payload[at - 24] == good[at]
  {
    RecordLayout(r, []);
    assert RecordBytes(r) + [] == RecordBytes(r);
  }

  lemma ChecksumMismatch(payload: Bytes, at: nat, b: Byte)
    requires at < 4 && CrcField(Crc(0, payload))[at] != b
    ensures FieldCrc(CrcField(Crc(0, payload))[at := b]) != Crc(0, payload)
  {
    var crc := Crc(0, payload);
    CrcFieldRoundTrip(crc);
    var bad := CrcField(crc)[at := b];
    assert bad[at] != CrcField(crc)[at];
    if FieldCrc(bad) == FieldCrc(CrcField(crc)) {
      FieldCrcIsInjective(bad, CrcField(crc));
    }
  }

  lemma PayloadMismatch(payload: Bytes, at: nat, b: Byte)
    requires at < |payload| && payload[at] != b
    ensures Crc(0, payload[at := b]) != FieldCrc(CrcField(Crc(0, payload)))
  {
    CrcFieldRoundTrip(Crc(0, payload));
    ByteCorruptionDetected(0, payload, at, b);
  }

  /** One corrupted byte costs exactly its record: one failure, and all the others are still read in order. */
  lemma CorruptionSkipsOneRecord(before: seq<Record>, r: Record, at: nat, b: Byte, behind: seq<Record>)
    requires GoodRecords(before) && GoodRecord(r) && GoodRecords(behind)
    requires 20 <= at < RECORD_BYTES && |RecordBytes(r)| == RECORD_BYTES && RecordBytes(r)[at] != b
    ensures Scan(AllBytes(before) + (Corrupted(r, at, b) + AllBytes(behind))) == Scanned(before + behind, 1, false)
  {
    CorruptionShows(r, at, b, AllBytes(behind));
    RoundTrip(behind);
    ScanPastRecords(before, Corrupted(r, at, b) + AllBytes(behind));
  }

  // ---- Where the checksum does not look ----

  function WithByte(n: u64, at: nat, b: Byte): u64
    requires at < 8
  {
    ReadU64(LittleEndian(n, 8)[at := b])
  }

  /** A record with one byte of its number or its timestamp changed. */
  function Misread(r: Record, at: nat, b: Byte): Record
    requires at < 16
  {
    if at < 8 then r.(num := WithByte(r.num, at, b)) else r.(ingestTs := WithByte(r.ingestTs, at - 8, b))
  }

  lemma WithByteIsWritten(n: u64, at: nat, b: Byte)
    requires at < 8
    ensures LittleEndian(WithByte(n, at, b), 8) == LittleEndian(n, 8)[at := b]
    ensures LittleEndian(n, 8)[at] != b ==> WithByte(n, at, b) != n
  {
    LittleEndianReadBack(LittleEndian(n, 8)[at := b]);
  }

  lemma FirstChanged(first: Bytes, second: Bytes, c: Bytes, d: Bytes, e: Bytes, at: nat, b: Byte)
    requires at < |first|
    ensures (first + second + c + d + e)[at] == first[at]
    ensures (first + second + c + d + e)[at := b] == first[at := b] + second + c + d + e
  {
  }

  lemma SecondChanged(first: Bytes, second: Bytes, c: Bytes, d: Bytes, e: Bytes, at: nat, b: Byte)
    requires at < |second|
    ensures (first + second + c + d + e)[|first| + at] == second[at]
    ensures (first + second + c + d + e)[|first| + at := b] == first + second[at := b] + c + d + e
  {
  }

  lemma NumberChanged(r: Record, at: nat, b: Byte)
    requires at < 8 && |RecordBytes(r)| > at && RecordBytes(r)[at] != b
    ensures RecordBytes(r)[at := b] == RecordBytes(r.(num := WithByte(r.num, at, b))) && WithByte(r.num, at, b) != r.num
  {
    FirstChanged(LittleEndian(r.num, 8), LittleEndian(r.ingestTs, 8), LittleEndian(PAYLOAD_BYTES, 4),
                 CrcField(Crc(0, r.payload)), r.payload, at, b);
    WithByteIsWritten(r.num, at, b);
  }

  lemma TimestampChanged(r: Record, at: nat, b: Byte)
    requires at < 8 && |RecordBytes(r)| > 8 + at && RecordBytes(r)[8 + at] != b
    ensures RecordBytes(r)[8 + at := b] == RecordBytes(r.(ingestTs := WithByte(r.ingestTs, at, b)))
    ensures WithByte(r.ingestTs, at, b) != r.ingestTs
  {
    SecondChanged(LittleEndian(r.num, 8), LittleEndian(r.ingestTs, 8), LittleEndian(PAYLOAD_BYTES, 4),
                  CrcField(Crc(0, r.payload)), r.payload, at, b);
    WithByteIsWritten(r.ingestTs, at, b);
  }

  lemma MisreadIsWritten(r: Record, at: nat, b: Byte)
    requires at < 16 && |RecordBytes(r)| > at && RecordBytes(r)[at] != b
    ensures Corrupted(r, at, b) == RecordBytes(Misread(r, at, b)) && Misread(r, at, b) != r
  {
    if at < 8 {
      NumberChanged(r, at, b);
    } else {
      TimestampChanged(r, at - 8, b);
    }
  }

  /** In the number or the timestamp it goes unnoticed: the record is given with that field changed. */
  lemma CorruptionMisreadsOneRecord(before: seq<Record>, r: Record, at: nat, b: Byte, behind: seq<Record>)
    requires GoodRecords(before) && GoodRecord(r) && GoodRecords(behind)
    requires at < 16 && |RecordBytes(r)| == RECORD_BYTES && RecordBytes(r)[at] != b
    ensures Misread(r, at, b) != r
    ensures Scan(AllBytes(before) + (Corrupted(r, at, b) + AllBytes(behind)))
            == Scanned(before + [Misread(r, at, b)] + behind, 0, true)
  {
    MisreadIsWritten(r, at, b);
    ScanPastRecords(before, RecordBytes(Misread(r, at, b)) + AllBytes(behind));
    ScanPastOne(Misread(r, at, b), AllBytes(behind));
    RoundTrip(behind);
    ThreeParts(before, [Misread(r, at, b)], behind);
  }

  lemma ThreeParts(a: seq<Record>, b: seq<Record>, c: seq<Record>)
    ensures a + (b + c) == a + b + c
  {
  }

  lemma LengthMismatch(r: Record, at: nat, b: Byte, post: Bytes)
    requires GoodRecord(r) && 16 <= at < 20 && |RecordBytes(r)| == RECORD_BYTES && RecordBytes(r)[at] != b
    ensures var bad := Corrupted(r, at, b) + post; |bad| >= RECORD_HEADER_BYTES && !Whole(bad)
  {
    var good, bad := RecordBytes(r), Corrupted(r, at, b) + post;
    RecordLayout(r, []);
    assert good + [] == good;
    var field := LittleEndian(PAYLOAD_BYTES, 4);
    assert good[16..20] == field && good[at] == good[16..20][at - 16];
    assert bad[16..20] == field[at - 16 := b];
    LittleEndianReadBack(bad[16..20]);
    assert bad[16..20][at - 16] != field[at - 16];
  }

  /** In the length it ends the reading: the record and all behind it are lost. */
  lemma CorruptionEndsReading(before: seq<Record>, r: Record, at: nat, b: Byte, behind: seq<Record>)
    requires GoodRecords(before) && GoodRecord(r)
    requires 16 <= at < 20 && |RecordBytes(r)| == RECORD_BYTES && RecordBytes(r)[at] != b
    ensures Scan(AllBytes(before) + (Corrupted(r, at, b) + AllBytes(behind))) == Scanned(before, 1, false)
  {
    LengthMismatch(r, at, b, AllBytes(behind));
    ScanPastRecords(before, Corrupted(r, at, b) + AllBytes(behind));
    assert before + [] == before;
  }
}
