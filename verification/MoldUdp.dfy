/**
  MoldUDP64 downstream packets, as in the "Downstream Packet" section of the MoldUDP64 Protocol
  Specification: a 20-byte header of session, first sequence number and message count, then
  length-prefixed messages.
 */
module MoldUdp {
  import opened Types
  import opened ByteCodec

  const HEADER_BYTES: nat := 20

  const SESSION_BYTES: nat := 10

  const SPACE: Byte := 0x20

  const COUNT_WRAP: nat := 0x1_0000

  datatype FrameSlice = FrameSlice(payload: Bytes, num: u64)

  // ---- Wrapping numbers ----

  /** A 64-bit number n increments later. */
  function PlusWrapping(num: u64, n: nat): u64
    decreases n
  {
    if n == 0 then num else PlusWrapping(Inc64(num), n - 1)
  }

  lemma {:induction false} PlusWrappingIs(num: u64, n: nat)
    requires n <= MAX64
    ensures PlusWrapping(num, n) == if num + n <= MAX64 then num + n else num + n - MAX64 - 1
    decreases n
  {
    if n > 0 {
      PlusWrappingIs(Inc64(num), n - 1);
    }
  }

  lemma {:induction false} PlusWrappingAdds(num: u64, a: nat, b: nat)
    ensures PlusWrapping(PlusWrapping(num, a), b) == PlusWrapping(num, a + b)
    decreases a
  {
    if a > 0 {
      PlusWrappingAdds(Inc64(num), a - 1, b);
    }
  }

  lemma NextNumber(num: u64, i: nat)
    ensures Inc64(PlusWrapping(num, i)) == PlusWrapping(num, i + 1)
  {
    PlusWrappingAdds(num, i, 1);
    assert PlusWrapping(PlusWrapping(num, i), 1) == PlusWrapping(Inc64(PlusWrapping(num, i)), 0);
  }

  method AddWrapping(num: u64, n: nat) returns (sum: u64)
    requires n <= MAX64
    ensures sum == PlusWrapping(num, n)
  {
    PlusWrappingIs(num, n);
    sum := if num + n <= MAX64 then num + n else num + n - MAX64 - 1;
  }

  /** A count kept in 16 bits. */
  function Wrap16(n: nat): (w: nat)
    ensures w < COUNT_WRAP && w <= n && (w == n <==> n < COUNT_WRAP)
    ensures w == n % 0x1_0000
  {
    if n < COUNT_WRAP then n else Wrap16(n - COUNT_WRAP)
  }

  // ---- Network-order numbers ----

  /** A number shifted right by whole bytes. */
  function ShiftBytes(v: nat, bytes: nat): nat {
    if bytes == 0 then v else ShiftBytes(v, bytes - 1) / 256
  }

  method WriteBe64(v: u64) returns (p: Bytes)
    ensures p == BigEndian(v, 8)
  {
    p := [];
    var i: nat := 8;
    while i > 0
      invariant i <= 8 && p == BigEndian(ShiftBytes(v, i), 8 - i)
    {
      i := i - 1;
      assert ShiftBytes(v, i + 1) == ShiftBytes(v, i) / 256;
      p := p + [ByteOf(ShiftBytes(v, i) % 256)];
    }
  }

  method ReadBe(p: Bytes) returns (v: nat)
    ensures v == FromBigEndian(p)
  {
    v := 0;
    for i := 0 to |p|
      invariant v == FromBigEndian(p[..i])
    {
      v := 256 * v + ValueOf(p[i]);
      assert p[..i + 1][..i] == p[..i];
    }
    assert p[..|p|] == p;
  }

  lemma {:induction false} BigEndianBound(bytes: Bytes)
    ensures FromBigEndian(bytes) < Power256(|bytes|)
  {
    if bytes != [] {
      BigEndianBound(bytes[..|bytes| - 1]);
    }
  }

  function ReadBe16(p: Bytes): (n: nat)
    ensures n < COUNT_WRAP
  {
    if |p| < 2 then 0 else 256 * ValueOf(p[0]) + ValueOf(p[1])
  }

  function WriteBe16(n: nat): (p: Bytes)
    requires n < COUNT_WRAP
    ensures |p| == 2 && ReadBe16(p) == n
  {
    ByteRoundTrip(n / 256);
    ByteRoundTrip(n % 256);
    [ByteOf(n / 256), ByteOf(n % 256)]
  }

  /** Most significant byte first. */
  lemma WriteBe16Layout(n: nat)
    requires n < COUNT_WRAP
    ensures ValueOf(WriteBe16(n)[0]) == n / 256 && ValueOf(WriteBe16(n)[1]) == n % 256
  {
    ByteRoundTrip(n / 256);
    ByteRoundTrip(n % 256);
  }

  lemma SameNumberSameBytes(p: Bytes, q: Bytes)
    requires |p| == |q| == 2 && ReadBe16(p) == ReadBe16(q)
    ensures p == q
  {
    assert ValueOf(p[0]) == ValueOf(q[0]) && ValueOf(p[1]) == ValueOf(q[1]);
    ValueRoundTrip(p[0]);
    ValueRoundTrip(q[0]);
    ValueRoundTrip(p[1]);
    ValueRoundTrip(q[1]);
  }

  // ---- Length-prefixed messages ----

  /** How a message is framed, and how the length in front of it is read. */
  datatype Code = Code(frame: Bytes -> Bytes, lengthAt: Bytes -> nat)

  /** A message with its length in front. */
  function Framed(m: Bytes): (b: Bytes)
    ensures |b| == 2 + |m|
  {
    WriteBe16(Wrap16(|m|)) + m
  }

  const BE16: Code := Code(Framed, ReadBe16)

  /** What is framed reads back, and what reads as a message is one framed. */
  ghost predicate GoodCode(c: Code) {
    GoodCodeFacts(c) == true
  }

  ghost predicate GoodCodeFacts(c: Code) {
    forall u {:trigger Unsealed(u)} :: Unsealed(u) ==>
      && (forall m: Bytes, post: Bytes :: |m| < COUNT_WRAP ==> FramesMessage(c, m, post))
      && (forall p: Bytes :: ReadsMessage(c, p))
  }

  ghost predicate ReadsMessage(c: Code, p: Bytes) {
    && c.lengthAt(p) < COUNT_WRAP
    && (2 + c.lengthAt(p) <= |p| ==> p == c.frame(p[2..2 + c.lengthAt(p)]) + p[2 + c.lengthAt(p)..])
  }

  lemma FrameIsRead(c: Code, m: Bytes, post: Bytes)
    requires GoodCode(c) && |m| < COUNT_WRAP
    ensures FramesMessage(c, m, post)
  {
    assert Unsealed(true);
  }

  lemma ReadIsFrame(c: Code, p: Bytes)
    requires GoodCode(c)
    ensures ReadsMessage(c, p)
  {
    assert Unsealed(true);
  }

  ghost predicate FramesMessage(c: Code, m: Bytes, post: Bytes) {
    && |c.frame(m)| == 2 + |m| && c.lengthAt(c.frame(m) + post) == |m|
    && (c.frame(m) + post)[2..2 + |m|] == m && (c.frame(m) + post)[2 + |m|..] == post
  }

  lemma Be16IsGood()
    ensures GoodCode(BE16)
  {
    forall m: Bytes, post: Bytes | |m| < COUNT_WRAP ensures FramesMessage(BE16, m, post) {
      assert Framed(m) + post == WriteBe16(|m|) + (m + post);
    }
    forall p: Bytes ensures ReadsMessage(BE16, p) {
      if 2 + ReadBe16(p) <= |p| {
        assert ReadBe16(p[..2]) == ReadBe16(p);
        SameNumberSameBytes(WriteBe16(ReadBe16(p)), p[..2]);
        assert p == p[..2] + p[2..2 + ReadBe16(p)] + p[2 + ReadBe16(p)..];
      }
    }
  }

  ghost predicate Message(m: Bytes) {
    0 < |m| < COUNT_WRAP
  }

  ghost predicate Messages(ms: seq<Bytes>) {
    forall i :: 0 <= i < |ms| ==> Message(ms[i])
  }

  /** No message starts here: too few bytes, an empty message, or an incomplete one. */
  predicate Stuck(c: Code, tail: Bytes) {
    |tail| < 2 || c.lengthAt(tail) == 0 || 2 + c.lengthAt(tail) > |tail|
  }

  /** The messages at the front of the input, up to the first that is empty or incomplete. */
  function Split(c: Code, data: Bytes): seq<Bytes>
    decreases |data|
  {
    if Stuck(c, data) then []
    else [data[2..2 + c.lengthAt(data)]] + Split(c, data[2 + c.lengthAt(data)..])
  }

  /** The input is these messages, framed, and a tail where no message starts. */
  ghost predicate IsSplit(c: Code, data: Bytes, ms: seq<Bytes>, tail: Bytes) {
    data == Flatten(c.frame, ms) + tail && Stuck(c, tail) && Messages(ms)
  }

  lemma FlattenOfSingle<T>(encode: T -> Bytes, x: T)
    ensures Flatten(encode, [x]) == encode(x)
  {
    assert [x][..0] == [];
  }

  lemma FlattenFromFront<T>(encode: T -> Bytes, xs: seq<T>, post: Bytes)
    requires xs != []
    ensures Flatten(encode, xs) + post == encode(xs[0]) + (Flatten(encode, xs[1..]) + post)
  {
    assert xs == [xs[0]] + xs[1..];
    FlattenOfConcat(encode, [xs[0]], xs[1..]);
    FlattenOfSingle(encode, xs[0]);
    JoinedLeftOrRight(encode(xs[0]), Flatten(encode, xs[1..]), post);
  }

  /** What the front of split input looks like. */
  lemma FrontOfSplit(c: Code, data: Bytes, ms: seq<Bytes>, tail: Bytes)
    requires GoodCode(c) && IsSplit(c, data, ms, tail)
    ensures ms == [] <==> Stuck(c, data)
    ensures ms != [] ==>
      && |data| >= 2 + |ms[0]| && c.lengthAt(data) == |ms[0]|
      && data[2..2 + |ms[0]|] == ms[0] && IsSplit(c, data[2 + |ms[0]|..], ms[1..], tail)
  {
    if ms == [] {
      assert data == tail;
    } else {
      assert Message(ms[0]);
      FlattenFromFront(c.frame, ms, tail);
      FrameIsRead(c, ms[0], Flatten(c.frame, ms[1..]) + tail);
      assert forall i :: 0 <= i < |ms[1..]| ==> ms[1..][i] == ms[i + 1];
    }
  }

  lemma {:induction false} SplitIs(c: Code, data: Bytes) returns (tail: Bytes)
    requires GoodCode(c)
    ensures IsSplit(c, data, Split(c, data), tail)
    decreases |data|
  {
    if Stuck(c, data) {
      tail := data;
    } else {
      var n := c.lengthAt(data);
      tail := SplitIs(c, data[2 + n..]);
      ReadIsFrame(c, data);
      FlattenFromFront(c.frame, Split(c, data), tail);
      assert Split(c, data)[1..] == Split(c, data[2 + n..]);
    }
  }

  /** There is only one way to split the input. */
  lemma {:induction false} SplitIsUnique(c: Code, data: Bytes, ms: seq<Bytes>, tail: Bytes)
    requires GoodCode(c) && IsSplit(c, data, ms, tail)
    ensures Split(c, data) == ms
    decreases |ms|
  {
    FrontOfSplit(c, data, ms, tail);
    if ms != [] {
      SplitIsUnique(c, data[2 + |ms[0]|..], ms[1..], tail);
      assert ms == [ms[0]] + ms[1..];
    }
  }

  lemma SplitAfter(c: Code, data: Bytes, ms: seq<Bytes>, tail: Bytes, k: nat)
    requires IsSplit(c, data, ms, tail) && k <= |ms|
    ensures var body := Flatten(c.frame, ms[..k]);
            |body| <= |data| && data[..|body|] == body && IsSplit(c, data[|body|..], ms[k..], tail)
  {
    assert ms == ms[..k] + ms[k..];
    FlattenOfConcat(c.frame, ms[..k], ms[k..]);
    JoinedLeftOrRight(Flatten(c.frame, ms[..k]), Flatten(c.frame, ms[k..]), tail);
  }

  // ---- Framing ----

  /** What the framer makes of the bytes after the header. */
  function Frames(c: Code, num: u64, count: nat, body: Bytes): seq<FrameSlice>
    decreases count
  {
    if count == 0 || |body| < 2 || 2 + c.lengthAt(body) > |body| then []
    else
      [FrameSlice(body[2..2 + c.lengthAt(body)], num)]
      + Frames(c, Inc64(num), count - 1, body[2 + c.lengthAt(body)..])
  }

  function Numbered(num: u64, ms: seq<Bytes>): seq<FrameSlice>
    decreases |ms|
  {
    if ms == [] then [] else [FrameSlice(ms[0], num)] + Numbered(Inc64(num), ms[1..])
  }

  /** The slices carry consecutive sequences, in 64 bits. */
  lemma {:induction false} FramesAreNumbered(c: Code, num: u64, count: nat, body: Bytes, i: nat)
    requires i < |Frames(c, num, count, body)|
    ensures i < count && Frames(c, num, count, body)[i].num == (num + i) % 0x1_0000_0000_0000_0000
    decreases i
  {
    if i > 0 {
      FramesAreNumbered(c, Inc64(num), count - 1, body[2 + c.lengthAt(body)..], i - 1);
      NextModulo(num, i - 1);
    }
  }

  lemma NextModulo(num: u64, i: nat)
    ensures (Inc64(num) + i) % 0x1_0000_0000_0000_0000 == (num + i + 1) % 0x1_0000_0000_0000_0000
  {
  }

  /** Framing undoes packing, message by message, for as many messages as the header counts. */
  lemma {:induction false} FramesOfMessages(c: Code, num: u64, ms: seq<Bytes>, count: nat, post: Bytes)
    requires GoodCode(c) && Messages(ms) && count <= |ms|
    ensures Frames(c, num, count, Flatten(c.frame, ms) + post) == Numbered(num, ms[..count])
    decreases count
  {
    if count > 0 {
      var rest := Flatten(c.frame, ms[1..]) + post;
      FlattenFromFront(c.frame, ms, post);
      assert Message(ms[0]);
      FrameIsRead(c, ms[0], rest);
      assert forall i :: 0 <= i < |ms[1..]| ==> ms[1..][i] == ms[i + 1];
      FramesOfMessages(c, Inc64(num), ms[1..], count - 1, post);
      assert ms[..count][1..] == ms[1..][..count - 1];
    }
  }

  function FirstSequence(datagram: Bytes): u64
    requires |datagram| >= HEADER_BYTES
  {
    BigEndianBound(datagram[10..18]);
    Powers();
    FromBigEndian(datagram[10..18])
  }

  /** What the framer makes of a datagram. */
  ghost function FramesOf(datagram: Bytes): seq<FrameSlice> {
    if |datagram| < HEADER_BYTES then []
    else Frames(BE16, FirstSequence(datagram), ReadBe16(datagram[18..20]), datagram[HEADER_BYTES..])
  }

  method Frame(datagram: Bytes) returns (slices: seq<FrameSlice>)
    ensures slices == FramesOf(datagram)
  {
    if |datagram| < HEADER_BYTES {
      return [];
    }
    var first := ReadBe(datagram[10..18]);
    assert first == FirstSequence(datagram);
    slices := FrameMessages(BE16, datagram[HEADER_BYTES..], first, ReadBe16(datagram[18..20]));
  }

  method FrameMessages(c: Code, body: Bytes, first: u64, count: nat) returns (slices: seq<FrameSlice>)
    ensures slices == Frames(c, first, count, body)
  {
    slices := [];
    var off: nat, i: nat := 0, 0;
    ghost var total := Frames(c, first, count, body);
    FramingStarts(c, body, first, count);
    while i < count && off + 2 <= |body|
      invariant i <= count && off <= |body|
      invariant Framing(c, body, first, i, count, off, slices, total)
    {
      var len := c.lengthAt(body[off..]);
      if off + 2 + len > |body| {
        FramingEnds(c, body, first, i, count, off, slices, total);
        return;
      }
      FramingGoesOn(c, body, first, i, count, off, slices, total);
      slices := slices + [FrameSlice(body[off + 2..off + 2 + len], PlusWrapping(first, i))];
      off, i := off + 2 + len, i + 1;
    }
    FramingEnds(c, body, first, i, count, off, slices, total);
  }

  /** The slices so far and those still to come are all of them. */
  ghost predicate Framing(c: Code, body: Bytes, first: u64, i: nat, count: nat, off: nat, slices: seq<FrameSlice>,
                          total: seq<FrameSlice>) {
    forall u {:trigger Unsealed(u)} :: Unsealed(u) ==>
      i <= count && off <= |body| && slices + Frames(c, PlusWrapping(first, i), count - i, body[off..]) == total
  }

  lemma FramingStarts(c: Code, body: Bytes, first: u64, count: nat)
    ensures Framing(c, body, first, 0, count, 0, [], Frames(c, first, count, body))
  {
    assert body[0..] == body;
    assert [] + Frames(c, first, count, body) == Frames(c, first, count, body);
  }

  lemma FramingEnds(c: Code, body: Bytes, first: u64, i: nat, count: nat, off: nat, slices: seq<FrameSlice>,
                    total: seq<FrameSlice>)
    requires Framing(c, body, first, i, count, off, slices, total) && off <= |body|
    requires i == count || off + 2 > |body| || off + 2 + c.lengthAt(body[off..]) > |body|
    ensures slices == total
  {
    assert Unsealed(true);
    assert slices + [] == slices;
  }

  lemma FramingGoesOn(c: Code, body: Bytes, first: u64, i: nat, count: nat, off: nat, slices: seq<FrameSlice>,
                      total: seq<FrameSlice>)
    requires Framing(c, body, first, i, count, off, slices, total) && i < count
    requires off + 2 <= |body| && off + 2 + c.lengthAt(body[off..]) <= |body|
    ensures var len := c.lengthAt(body[off..]);
            Framing(c, body, first, i + 1, count, off + 2 + len,
                    slices + [FrameSlice(body[off + 2..off + 2 + len], PlusWrapping(first, i))], total)
  {
    assert Unsealed(true);
    var len := c.lengthAt(body[off..]);
    NextNumber(first, i);
    assert body[off..][2..2 + len] == body[off + 2..off + 2 + len];
    assert body[off..][2 + len..] == body[off + 2 + len..];
  }

  // ---- Packing ----

  /** The session, cut or padded with spaces to ten bytes. */
  function SessionField(session: Bytes): (f: Bytes)
    ensures |f| == SESSION_BYTES
  {
    if |session| >= SESSION_BYTES then session[..SESSION_BYTES]
    else session + seq(SESSION_BYTES - |session|, _ => SPACE)
  }

  function Header(session: Bytes, num: u64, count: nat): (h: Bytes)
    requires count < COUNT_WRAP
    ensures |h| == HEADER_BYTES
  {
    SessionField(session) + BigEndian(num, 8) + WriteBe16(count)
  }

  /**
    The header byte by byte: the session padded with spaces, the sequence and the count with the most
    significant byte first.
   */
  lemma HeaderLayout(session: Bytes, num: u64, count: nat)
    requires count < COUNT_WRAP
    ensures var h := Header(session, num, count);
      && |h| == 20
      && (forall i :: 0 <= i < 10 ==> h[i] == if i < |session| then session[i] else 0x20)
      && (forall i :: 0 <= i < 8 ==> ValueOf(h[17 - i]) == num / Power256(i) % 256)
      && ValueOf(h[18]) == count / 256 && ValueOf(h[19]) == count % 256
  {
    var h := Header(session, num, count);
    WriteBe16Layout(count);
    forall i | 0 <= i < 8 ensures ValueOf(h[17 - i]) == num / Power256(i) % 256 {
      BigEndianDigit(num, 8, i);
      assert h[17 - i] == BigEndian(num, 8)[8 - 1 - i];
    }
  }

  /** A framed message is its length, most significant byte first, and then the message. */
  lemma FramedLayout(m: Bytes)
    requires |m| < COUNT_WRAP
    ensures ValueOf(Framed(m)[0]) == |m| / 256 && ValueOf(Framed(m)[1]) == |m| % 256 && Framed(m)[2..] == m
  {
    WriteBe16Layout(|m|);
    assert Framed(m) == WriteBe16(|m|) + m;
  }

  /** The 16-bit count never reaches a limit above 65535. */
  function Room(maxMessages: nat, available: nat): nat {
    if maxMessages >= COUNT_WRAP then available else maxMessages
  }

  /** How many messages one datagram takes, given its size so far and the messages it has room for. */
  function Taken(ms: seq<Bytes>, size: nat, room: nat, maxBytes: nat): nat {
    if ms == [] || room == 0 || size + 4 + |ms[0]| > maxBytes then 0
    else 1 + Taken(ms[1..], size + 2 + |ms[0]|, room - 1, maxBytes)
  }

  lemma {:induction false} TakenFits(c: Code, ms: seq<Bytes>, size: nat, room: nat, maxBytes: nat)
    requires GoodCode(c) && Messages(ms)
    ensures Taken(ms, size, room, maxBytes) <= |ms| && Taken(ms, size, room, maxBytes) <= room
    ensures var k := Taken(ms, size, room, maxBytes);
            k > 0 ==> k <= |Flatten(c.frame, ms[..k])| && size + |Flatten(c.frame, ms[..k])| + 2 <= maxBytes
    decreases |ms|
  {
    var k := Taken(ms, size, room, maxBytes);
    if k > 0 {
      assert Message(ms[0]);
      FrameIsRead(c, ms[0], []);
      assert forall i :: 0 <= i < |ms[1..]| ==> ms[1..][i] == ms[i + 1];
      TakenFits(c, ms[1..], size + 2 + |ms[0]|, room - 1, maxBytes);
      assert ms[..k] == [ms[0]] + ms[1..][..k - 1];
      FlattenOfConcat(c.frame, [ms[0]], ms[1..][..k - 1]);
      FlattenOfSingle(c.frame, ms[0]);
      if k == 1 {
        assert ms[1..][..0] == [];
      }
    }
  }

  lemma {:induction false} TakenIsSome(ms: seq<Bytes>, size: nat, room: nat, maxBytes: nat)
    ensures Taken(ms, size, room, maxBytes) <= |ms|
    decreases |ms|
  {
    if Taken(ms, size, room, maxBytes) > 0 {
      TakenIsSome(ms[1..], size + 2 + |ms[0]|, room - 1, maxBytes);
    }
  }

  function PackCount(ms: seq<Bytes>, maxMessages: nat, maxBytes: nat): (k: nat)
    ensures k <= |ms|
  {
    TakenIsSome(ms, HEADER_BYTES, Room(maxMessages, |ms|), maxBytes);
    Taken(ms, HEADER_BYTES, Room(maxMessages, |ms|), maxBytes)
  }

  /** The messages that go into one datagram. */
  function PackedMessages(data: Bytes, maxMessages: nat, maxBytes: nat): seq<Bytes> {
    Split(BE16, data)[..PackCount(Split(BE16, data), maxMessages, maxBytes)]
  }

  class ItchMoldUdpFramer {
    const session: Bytes
    var nextSeq: u64

    constructor (name: Bytes)
      ensures session == name && nextSeq == 1
    {
      session, nextSeq := name, 1;
    }

    /**
      Packs as many whole messages as fit.  The count is kept in 16 bits; when it wraps to zero the
      messages packed are thrown away.
     */
    method PackDatagram(data: Bytes, maxMessages: nat, maxBytes: nat) returns (out: Bytes, consumed: nat)
      modifies this
      ensures out == PackedDatagram(session, old(nextSeq), data, maxMessages, maxBytes)
      ensures var packed := PackedMessages(data, maxMessages, maxBytes);
              var count := Wrap16(|packed|);
              if count == 0 then out == [] && consumed == 0 && nextSeq == old(nextSeq)
              else
                && out == Header(session, old(nextSeq), count) + Flatten(Framed, packed)
                && consumed == |Flatten(Framed, packed)| <= |data|
                && data[..consumed] == Flatten(Framed, packed)
                && nextSeq == PlusWrapping(old(nextSeq), count)
    {
      ghost var ms := Split(BE16, data);
      Be16IsGood();
      ghost var tail := SplitIs(BE16, data);
      PackingStarts(BE16, data, ms, tail, Room(maxMessages, |ms|), maxBytes);
      var body, off, n := PackMessages(BE16, data, maxMessages, maxBytes, ms, tail, PackCount(ms, maxMessages, maxBytes));
      var msgCount := Wrap16(n);
      if msgCount == 0 {
        return [], 0;
      }
      var header := WriteHeader(msgCount);
      out := header + body;
      nextSeq := AddWrapping(nextSeq, msgCount);
      consumed := off;
    }

    method WriteHeader(count: nat) returns (h: Bytes)
      requires count < COUNT_WRAP
      ensures h == Header(session, nextSeq, count)
    {
      var be64 := WriteBe64(nextSeq);
      h := SessionField(session) + be64 + WriteBe16(count);
    }
  }

  /** The packing loop; n counts the messages without wrapping. */
  method PackMessages(c: Code, data: Bytes, maxMessages: nat, maxBytes: nat, ghost ms: seq<Bytes>, ghost tail: Bytes,
                      ghost k: nat)
    returns (body: Bytes, off: nat, n: nat)
    requires GoodCode(c) && Packing(c, data, ms, tail, 0, 0, [], k, Room(maxMessages, |ms|), maxBytes)
    ensures n == k <= |ms| && body == Flatten(c.frame, ms[..k]) && off == |body| <= |data| && data[..off] == body
  {
    ghost var room := Room(maxMessages, |ms|);
    body, off, n := [], 0, 0;
    while off + 2 <= |data| && Wrap16(n) < maxMessages
      invariant off <= |data| && n <= room
      invariant Packing(c, data, ms, tail, n, off, body, k, room, maxBytes)
      decreases |data| - off
    {
      var len := c.lengthAt(data[off..]);
      var needed := HEADER_BYTES + 2 + off + 2 + len;
      if len == 0 || off + 2 + len > |data| || needed > maxBytes {
        PackingStops(c, data, ms, tail, n, off, body, k, room, maxBytes);
        return;
      }
      StillRoom(c, data, ms, tail, n, off, body, k, maxMessages, maxBytes);
      PackingTakesOne(c, data, ms, tail, n, off, body, k, room, maxBytes);
      body := body + c.frame(data[off + 2..off + 2 + len]);
      off, n := off + 2 + len, n + 1;
    }
    PackingStops(c, data, ms, tail, n, off, body, k, room, maxBytes);
  }

  /** Part of the input is packed, and the rest will bring the count to k. */
  ghost predicate Packing(c: Code, data: Bytes, ms: seq<Bytes>, tail: Bytes, n: nat, off: nat, body: Bytes, k: nat,
                          room: nat, maxBytes: nat) {
    PackingFacts(c, data, ms, tail, n, off, body, k, room, maxBytes) == true
  }

  ghost predicate PackingFacts(c: Code, data: Bytes, ms: seq<Bytes>, tail: Bytes, n: nat, off: nat, body: Bytes,
                               k: nat, room: nat, maxBytes: nat) {
    forall u {:trigger Unsealed(u)} :: Unsealed(u) ==>
      && n <= |ms| && n <= room && off == |body| <= |data| && body == Flatten(c.frame, ms[..n]) == data[..off]
      && IsSplit(c, data[off..], ms[n..], tail)
      && k == n + Taken(ms[n..], HEADER_BYTES + off, room - n, maxBytes)
  }

  lemma PackingStarts(c: Code, data: Bytes, ms: seq<Bytes>, tail: Bytes, room: nat, maxBytes: nat)
    requires IsSplit(c, data, ms, tail)
    ensures Packing(c, data, ms, tail, 0, 0, [], Taken(ms, HEADER_BYTES, room, maxBytes), room, maxBytes)
  {
    assert data[0..] == data && ms[0..] == ms && ms[..0] == [] && data[..0] == [];
  }

  lemma PackingStops(c: Code, data: Bytes, ms: seq<Bytes>, tail: Bytes, n: nat, off: nat, body: Bytes, k: nat,
                     room: nat, maxBytes: nat)
    requires GoodCode(c) && Packing(c, data, ms, tail, n, off, body, k, room, maxBytes) && off <= |data|
    requires
      || n == room || Stuck(c, data[off..])
      || HEADER_BYTES + off + 4 + c.lengthAt(data[off..]) > maxBytes
    ensures n == k <= |ms| && body == Flatten(c.frame, ms[..k]) == data[..off] && off == |body|
  {
    assert Unsealed(true);
    FrontOfSplit(c, data[off..], ms[n..], tail);
  }

  lemma StillRoom(c: Code, data: Bytes, ms: seq<Bytes>, tail: Bytes, n: nat, off: nat, body: Bytes, k: nat,
                  maxMessages: nat, maxBytes: nat)
    requires GoodCode(c) && Packing(c, data, ms, tail, n, off, body, k, Room(maxMessages, |ms|), maxBytes)
    requires Wrap16(n) < maxMessages && off <= |data| && !Stuck(c, data[off..])
    ensures n < Room(maxMessages, |ms|)
  {
    assert Unsealed(true);
    FrontOfSplit(c, data[off..], ms[n..], tail);
  }

  lemma PackingTakesOne(c: Code, data: Bytes, ms: seq<Bytes>, tail: Bytes, n: nat, off: nat, body: Bytes, k: nat,
                        room: nat, maxBytes: nat)
    requires GoodCode(c) && Packing(c, data, ms, tail, n, off, body, k, room, maxBytes) && n < room
    requires off <= |data| && !Stuck(c, data[off..]) && HEADER_BYTES + off + 4 + c.lengthAt(data[off..]) <= maxBytes
    ensures var len := c.lengthAt(data[off..]);
            Packing(c, data, ms, tail, n + 1, off + 2 + len, body + c.frame(data[off + 2..off + 2 + len]), k, room,
                    maxBytes)
  {
    assert Unsealed(true);
    var rest := data[off..];
    var len := c.lengthAt(rest);
    FrontOfSplit(c, rest, ms[n..], tail);
    assert ms[n..][0] == ms[n] && ms[n..][1..] == ms[n + 1..] && ms[..n + 1] == ms[..n] + [ms[n]];
    SliceOfRest(data, off, 2, 2 + len);
    FlattenOfOneMore(c.frame, ms[..n], ms[n]);
    ReadIsFrame(c, rest);
    PrefixJoins(data, off, 2 + len);
    assert rest[..2 + len] == c.frame(ms[n]);
  }

  lemma PrefixJoins<T>(data: seq<T>, m: nat, n: nat)
    requires m + n <= |data|
    ensures data[..m + n] == data[..m] + data[m..][..n]
  {
  }

  lemma SliceOfRest(data: Bytes, off: nat, m: nat, n: nat)
    requires m <= n && off + n <= |data|
    ensures data[off..][m..n] == data[off + m..off + n] && data[off..][n..] == data[off + n..]
  {
  }

  // ---- Packing and framing together ----

  lemma HeaderReadsBack(session: Bytes, num: u64, count: nat, body: Bytes)
    requires count < COUNT_WRAP
    ensures var datagram := Header(session, num, count) + body;
            && FirstSequence(datagram) == num && ReadBe16(datagram[18..20]) == count && datagram[HEADER_BYTES..] == body
  {
    var datagram := Header(session, num, count) + body;
    assert datagram[10..18] == BigEndian(num, 8);
    assert datagram[18..20] == WriteBe16(count);
    Powers();
    BigEndianRoundTrip(num, 8);
  }

  /**
    Framing a packed datagram yields the first messages of the input, in order and numbered from the
    datagram's sequence: as many as the 16-bit count says.
   */
  lemma PackedFramesBack(session: Bytes, num: u64, data: Bytes, maxMessages: nat, maxBytes: nat)
    ensures var packed := PackedMessages(data, maxMessages, maxBytes);
            var count := Wrap16(|packed|);
            FramesOf(Header(session, num, count) + Flatten(Framed, packed)) == Numbered(num, packed[..count])
  {
    Be16IsGood();
    var ms := Split(BE16, data);
    var tail := SplitIs(BE16, data);
    FramesOfPrefix(session, num, ms, PackCount(ms, maxMessages, maxBytes));
  }

  lemma FramesOfPrefix(session: Bytes, num: u64, ms: seq<Bytes>, k: nat)
    requires Messages(ms) && k <= |ms|
    ensures FramesOf(Header(session, num, Wrap16(k)) + Flatten(Framed, ms[..k])) == Numbered(num, ms[..k][..Wrap16(k)])
  {
    Be16IsGood();
    var body := Flatten(Framed, ms[..k]);
    HeaderReadsBack(session, num, Wrap16(k), body);
    assert body + [] == body;
    FramesOfMessages(BE16, num, ms[..k], Wrap16(k), []);
  }

  /** What a packing sends: nothing when its 16-bit count is zero. */
  ghost function PackedDatagram(session: Bytes, num: u64, data: Bytes, maxMessages: nat, maxBytes: nat): Bytes {
    var packed := PackedMessages(data, maxMessages, maxBytes);
    if Wrap16(|packed|) == 0 then [] else Header(session, num, Wrap16(|packed|)) + Flatten(Framed, packed)
  }

  /** The limits and the input let 65536 messages into one datagram. */
  ghost predicate CountOverflows(data: Bytes, maxMessages: nat, maxBytes: nat) {
    && maxMessages >= COUNT_WRAP && |Split(BE16, data)| >= COUNT_WRAP
    && HEADER_BYTES + |Flatten(Framed, Split(BE16, data)[..COUNT_WRAP])| + 2 <= maxBytes
  }

  lemma {:induction false} TakenReaches(c: Code, ms: seq<Bytes>, size: nat, room: nat, maxBytes: nat, k: nat)
    requires GoodCode(c) && Messages(ms) && 0 < k <= |ms|
    ensures Taken(ms, size, room, maxBytes) >= k <==> k <= room && size + |Flatten(c.frame, ms[..k])| + 2 <= maxBytes
    decreases k
  {
    assert Message(ms[0]);
    FrameIsRead(c, ms[0], []);
    assert forall i :: 0 <= i < |ms[1..]| ==> ms[1..][i] == ms[i + 1];
    assert ms[..k] == [ms[0]] + ms[1..][..k - 1];
    FlattenOfConcat(c.frame, [ms[0]], ms[1..][..k - 1]);
    FlattenOfSingle(c.frame, ms[0]);
    if k > 1 && room > 0 {
      TakenReaches(c, ms[1..], size + 2 + |ms[0]|, room - 1, maxBytes, k - 1);
    } else {
      assert ms[1..][..0] == [];
    }
  }

  lemma OverflowIsTaken(data: Bytes, maxMessages: nat, maxBytes: nat)
    ensures |PackedMessages(data, maxMessages, maxBytes)| >= COUNT_WRAP <==> CountOverflows(data, maxMessages, maxBytes)
  {
    Be16IsGood();
    var ms := Split(BE16, data);
    var tail := SplitIs(BE16, data);
    if |ms| >= COUNT_WRAP {
      TakenReaches(BE16, ms, HEADER_BYTES, Room(maxMessages, |ms|), maxBytes, COUNT_WRAP);
    }
  }

  /** All the messages that fit come back if and only if the count does not overflow. */
  lemma NothingLostIffCountFits(session: Bytes, num: u64, data: Bytes, maxMessages: nat, maxBytes: nat)
    ensures FramesOf(PackedDatagram(session, num, data, maxMessages, maxBytes))
            == Numbered(num, PackedMessages(data, maxMessages, maxBytes))
            <==> !CountOverflows(data, maxMessages, maxBytes)
  {
    var packed := PackedMessages(data, maxMessages, maxBytes);
    OverflowIsTaken(data, maxMessages, maxBytes);
    PackedFramesBack(session, num, data, maxMessages, maxBytes);
    ShorterNumbering(num, packed, Wrap16(|packed|));
    if Wrap16(|packed|) == 0 {
      NumberedLength(num, packed);
    }
  }

  /** The smallest message there is. */
  const SMALL: Bytes := [0]

  lemma SmallMessages(c: Code, n: nat)
    requires GoodCode(c)
    ensures Split(c, Flatten(c.frame, seq(n, _ => SMALL))) == seq(n, _ => SMALL)
    ensures |Flatten(c.frame, seq(n, _ => SMALL))| == 3 * n
  {
    var ms := seq(n, _ => SMALL);
    FrameIsRead(c, SMALL, []);
    FlattenLength(c.frame, ms, 3);
    assert Flatten(c.frame, ms) + [] == Flatten(c.frame, ms);
    SplitIsUnique(c, Flatten(c.frame, ms), ms, []);
  }

  /** An input that overflows the count: 65536 messages of one byte, in a datagram with room for them. */
  lemma SmallMessagesOverflow(maxMessages: nat, maxBytes: nat) returns (data: Bytes)
    requires maxMessages >= COUNT_WRAP && maxBytes >= OVERFLOW_BYTES
    ensures CountOverflows(data, maxMessages, maxBytes)
  {
    Be16IsGood();
    var ms := seq(COUNT_WRAP, _ => SMALL);
    data := Flatten(Framed, ms);
    SmallMessages(BE16, COUNT_WRAP);
    assert ms[..COUNT_WRAP] == ms;
  }

  /** The least datagram that holds 65536 messages, with the two bytes the size test adds. */
  const OVERFLOW_BYTES: nat := HEADER_BYTES + 3 * COUNT_WRAP + 2

  /** Limits under which the count overflows on no input. */
  predicate SafeLimits(maxMessages: nat, maxBytes: nat) {
    maxMessages < COUNT_WRAP || maxBytes < OVERFLOW_BYTES
  }

  lemma {:induction false} MessagesTakeThreeBytes(c: Code, ms: seq<Bytes>)
    requires GoodCode(c) && Messages(ms)
    ensures |Flatten(c.frame, ms)| >= 3 * |ms|
  {
    if ms != [] {
      var front, m := ms[..|ms| - 1], ms[|ms| - 1];
      assert Message(m) && forall i :: 0 <= i < |front| ==> front[i] == ms[i];
      MessagesTakeThreeBytes(c, front);
      FrameIsRead(c, m, []);
    }
  }

  lemma SafeLimitsNeverOverflow(data: Bytes, maxMessages: nat, maxBytes: nat)
    requires SafeLimits(maxMessages, maxBytes)
    ensures !CountOverflows(data, maxMessages, maxBytes)
  {
    Be16IsGood();
    var ms := Split(BE16, data);
    var tail := SplitIs(BE16, data);
    if |ms| >= COUNT_WRAP {
      assert forall i :: 0 <= i < COUNT_WRAP ==> ms[..COUNT_WRAP][i] == ms[i];
      MessagesTakeThreeBytes(BE16, ms[..COUNT_WRAP]);
    }
  }

  /** And under no others. */
  lemma LimitsAreSafeIffNoOverflow(maxMessages: nat, maxBytes: nat)
    ensures SafeLimits(maxMessages, maxBytes) <==> forall data: Bytes :: !CountOverflows(data, maxMessages, maxBytes)
  {
    if SafeLimits(maxMessages, maxBytes) {
      forall data: Bytes ensures !CountOverflows(data, maxMessages, maxBytes) {
        SafeLimitsNeverOverflow(data, maxMessages, maxBytes);
      }
    } else {
      var data := SmallMessagesOverflow(maxMessages, maxBytes);
    }
  }

  lemma ShorterNumbering(num: u64, ms: seq<Bytes>, k: nat)
    requires k <= |ms|
    ensures Numbered(num, ms[..k]) == Numbered(num, ms) <==> k == |ms|
  {
    NumberedLength(num, ms);
    NumberedLength(num, ms[..k]);
    if k == |ms| {
      assert ms[..k] == ms;
    }
  }

  lemma {:induction false} NumberedLength(num: u64, ms: seq<Bytes>)
    ensures |Numbered(num, ms)| == |ms|
    decreases |ms|
  {
    if ms != [] {
      NumberedLength(Inc64(num), ms[1..]);
    }
  }

  /** A datagram stays two bytes under the limit. */
  lemma SizeLimitHolds(session: Bytes, num: u64, data: Bytes, maxMessages: nat, maxBytes: nat)
    ensures var packed := PackedMessages(data, maxMessages, maxBytes);
            packed != [] ==>
              |Header(session, num, Wrap16(|packed|)) + Flatten(Framed, packed)| + 2 <= maxBytes
  {
    Be16IsGood();
    var ms := Split(BE16, data);
    var tail := SplitIs(BE16, data);
    TakenFits(BE16, ms, HEADER_BYTES, Room(maxMessages, |ms|), maxBytes);
  }

  lemma {:induction false} NumberedOfConcat(num: u64, a: seq<Bytes>, b: seq<Bytes>)
    ensures Numbered(num, a + b) == Numbered(num, a) + Numbered(PlusWrapping(num, |a|), b)
    decreases |a|
  {
    if a == [] {
      assert a + b == b;
    } else {
      NumberedOfConcat(Inc64(num), a[1..], b);
      assert (a + b)[1..] == a[1..] + b && (a + b)[0] == a[0];
    }
  }

  /** The frames of all the datagrams, one after the other. */
  ghost function AllFrames(frames: Bytes -> seq<FrameSlice>, datagrams: seq<Bytes>): seq<FrameSlice> {
    if datagrams == [] then []
    else AllFrames(frames, datagrams[..|datagrams| - 1]) + frames(datagrams[|datagrams| - 1])
  }

  lemma FramesOfOneMore(frames: Bytes -> seq<FrameSlice>, datagrams: seq<Bytes>, out: Bytes)
    ensures AllFrames(frames, datagrams + [out]) == AllFrames(frames, datagrams) + frames(out)
  {
    assert (datagrams + [out])[..|datagrams|] == datagrams;
  }

  /**
    Packing datagram after datagram until nothing more fits delivers a prefix of the messages, whole
    and in order, with consecutive numbers across datagrams.
   */
  method PackAll(framer: ItchMoldUdpFramer, data: Bytes, maxMessages: nat, maxBytes: nat)
    returns (datagrams: seq<Bytes>, consumed: nat, ghost n: nat)
    requires SafeLimits(maxMessages, maxBytes)
    modifies framer
    ensures consumed <= |data| && PackedMessages(data[consumed..], maxMessages, maxBytes) == []
    ensures n <= |Split(BE16, data)| && data[..consumed] == Flatten(Framed, Split(BE16, data)[..n])
    ensures AllFrames(FramesOf, datagrams) == Numbered(old(framer.nextSeq), Split(BE16, data)[..n])
    ensures framer.nextSeq == PlusWrapping(old(framer.nextSeq), n)
  {
    ghost var ms, first := Split(BE16, data), framer.nextSeq;
    Be16IsGood();
    ghost var tail := SplitIs(BE16, data);
    datagrams, consumed, n := PackRest(framer, data, maxMessages, maxBytes, BE16, FramesOf, ms, tail);
    DeliveredIs(BE16, FramesOf, datagrams, data, ms, consumed, n, first, framer.nextSeq);
    assert Unsealed(true);
  }

  /** The code and the framer are the ones of this module. */
  ghost predicate Standard(c: Code, frames: Bytes -> seq<FrameSlice>) {
    StandardFacts(c, frames) == true
  }

  ghost predicate StandardFacts(c: Code, frames: Bytes -> seq<FrameSlice>) {
    forall u {:trigger Unsealed(u)} :: Unsealed(u) ==> c == BE16 && frames == FramesOf
  }

  /** Nothing more can be packed. */
  ghost predicate Exhausted(rest: Bytes, maxMessages: nat, maxBytes: nat) {
    ExhaustedFacts(rest, maxMessages, maxBytes) == true
  }

  ghost predicate ExhaustedFacts(rest: Bytes, maxMessages: nat, maxBytes: nat) {
    forall u {:trigger Unsealed(u)} :: Unsealed(u) ==> PackedMessages(rest, maxMessages, maxBytes) == []
  }

  method PackRest(framer: ItchMoldUdpFramer, data: Bytes, maxMessages: nat, maxBytes: nat, ghost c: Code,
                  ghost frames: Bytes -> seq<FrameSlice>, ghost ms: seq<Bytes>, ghost tail: Bytes)
    returns (datagrams: seq<Bytes>, consumed: nat, ghost n: nat)
    requires SafeLimits(maxMessages, maxBytes) && Standard(c, frames) && IsSplit(c, data, ms, tail)
    modifies framer
    ensures consumed <= |data| && Exhausted(data[consumed..], maxMessages, maxBytes)
    ensures Delivered(c, frames, datagrams, data, ms, consumed, n, old(framer.nextSeq), framer.nextSeq)
  {
    datagrams, consumed, n := [], 0, 0;
    ghost var first := framer.nextSeq;
    DeliveredNothing(c, frames, data, ms, first);
    while true
      invariant consumed <= |data|
      invariant Delivered(c, frames, datagrams, data, ms, consumed, n, first, framer.nextSeq)
      decreases |data| - consumed
    {
      ghost var was := framer.nextSeq;
      var out, used, packed := PackNext(framer, data[consumed..], maxMessages, maxBytes, c, frames);
      if out == [] {
        return;
      }
      ghost var more := n + |packed|;
      StepDelivers(c, frames, datagrams, data, ms, tail, consumed, n, first, was, packed, out, used, more, framer.nextSeq);
      datagrams := datagrams + [out];
      consumed, n := consumed + used, more;
    }
  }

  /** One datagram, and the messages it carries. */
  method PackNext(framer: ItchMoldUdpFramer, rest: Bytes, maxMessages: nat, maxBytes: nat, ghost c: Code,
                  ghost frames: Bytes -> seq<FrameSlice>)
    returns (out: Bytes, used: nat, ghost packed: seq<Bytes>)
    requires SafeLimits(maxMessages, maxBytes) && Standard(c, frames)
    modifies framer
    ensures GoodCode(c)
    ensures out == [] ==> Exhausted(rest, maxMessages, maxBytes) && framer.nextSeq == old(framer.nextSeq)
    ensures out != [] ==>
      && 0 < |packed| <= |Split(c, rest)| && packed == Split(c, rest)[..|packed|]
      && frames(out) == Numbered(old(framer.nextSeq), packed)
      && 0 < used <= |rest| && rest[..used] == Flatten(c.frame, packed)
      && framer.nextSeq == PlusWrapping(old(framer.nextSeq), |packed|)
  {
    assert Unsealed(true);
    packed := PackedMessages(rest, maxMessages, maxBytes);
    CountStaysSmall(rest, maxMessages, maxBytes);
    PackedFramesBack(framer.session, framer.nextSeq, rest, maxMessages, maxBytes);
    assert packed[..|packed|] == packed;
    Be16IsGood();
    out, used := framer.PackDatagram(rest, maxMessages, maxBytes);
  }

  lemma CountStaysSmall(data: Bytes, maxMessages: nat, maxBytes: nat)
    requires SafeLimits(maxMessages, maxBytes)
    ensures |PackedMessages(data, maxMessages, maxBytes)| < COUNT_WRAP
    ensures PackedMessages(data, maxMessages, maxBytes) != [] ==>
      |Flatten(Framed, PackedMessages(data, maxMessages, maxBytes))| > 0
  {
    SafeLimitsNeverOverflow(data, maxMessages, maxBytes);
    OverflowIsTaken(data, maxMessages, maxBytes);
    Be16IsGood();
    var ms := Split(BE16, data);
    var tail := SplitIs(BE16, data);
    TakenFits(BE16, ms, HEADER_BYTES, Room(maxMessages, |ms|), maxBytes);
  }

  /** So far the datagrams carry the first n messages, numbered from first. */
  ghost predicate Delivered(c: Code, frames: Bytes -> seq<FrameSlice>, datagrams: seq<Bytes>, data: Bytes,
                            ms: seq<Bytes>, consumed: nat, n: nat, first: u64, next: u64) {
    DeliveredFacts(c, frames, datagrams, data, ms, consumed, n, first, next) == true
  }

  ghost predicate DeliveredFacts(c: Code, frames: Bytes -> seq<FrameSlice>, datagrams: seq<Bytes>, data: Bytes,
                                 ms: seq<Bytes>, consumed: nat, n: nat, first: u64, next: u64) {
    forall u {:trigger Unsealed(u)} :: Unsealed(u) ==>
      && n <= |ms| && consumed <= |data|
      && AllFrames(frames, datagrams) == Numbered(first, ms[..n])
      && next == PlusWrapping(first, n)
      && data[..consumed] == Flatten(c.frame, ms[..n])
  }

  lemma DeliveredIs(c: Code, frames: Bytes -> seq<FrameSlice>, datagrams: seq<Bytes>, data: Bytes, ms: seq<Bytes>,
                    consumed: nat, n: nat, first: u64, next: u64)
    requires Delivered(c, frames, datagrams, data, ms, consumed, n, first, next)
    ensures n <= |ms| && consumed <= |data| && data[..consumed] == Flatten(c.frame, ms[..n])
    ensures AllFrames(frames, datagrams) == Numbered(first, ms[..n]) && next == PlusWrapping(first, n)
  {
    assert Unsealed(true);
  }

  lemma DeliveredNothing(c: Code, frames: Bytes -> seq<FrameSlice>, data: Bytes, ms: seq<Bytes>, first: u64)
    ensures Delivered(c, frames, [], data, ms, 0, 0, first, first)
  {
    assert data[..0] == [] && ms[..0] == [];
  }

  lemma OneMoreDatagram(c: Code, frames: Bytes -> seq<FrameSlice>, datagrams: seq<Bytes>, data: Bytes, ms: seq<Bytes>,
                        consumed: nat, n: nat, first: u64, next: u64, packed: seq<Bytes>, out: Bytes, upTo: nat,
                        more: nat, after: u64)
    requires consumed <= upTo <= |data| && more == n + |packed| <= |ms| && after == PlusWrapping(next, |packed|)
    requires Delivered(c, frames, datagrams, data, ms, consumed, n, first, next)
    requires packed == ms[n..][..|packed|] && frames(out) == Numbered(next, packed)
    requires data[consumed..][..upTo - consumed] == Flatten(c.frame, packed)
    ensures Delivered(c, frames, datagrams + [out], data, ms, upTo, more, first, after)
  {
    DeliveredIs(c, frames, datagrams, data, ms, consumed, n, first, next);
    assert ms[..more] == ms[..n] + packed by {
      PrefixJoins(ms, n, |packed|);
    }
    FramesGrow(frames, datagrams, out, ms[..n], packed, first, next);
    PlusWrappingAdds(first, n, |packed|);
    ConsumedGrows(c, data, ms[..n], packed, consumed, upTo);
  }

  lemma FramesGrow(frames: Bytes -> seq<FrameSlice>, datagrams: seq<Bytes>, out: Bytes, some: seq<Bytes>,
                   packed: seq<Bytes>, first: u64, next: u64)
    requires AllFrames(frames, datagrams) == Numbered(first, some) && next == PlusWrapping(first, |some|)
    requires frames(out) == Numbered(next, packed)
    ensures AllFrames(frames, datagrams + [out]) == Numbered(first, some + packed)
  {
    NumberedOfConcat(first, some, packed);
    FramesOfOneMore(frames, datagrams, out);
  }

  lemma ConsumedGrows(c: Code, data: Bytes, some: seq<Bytes>, packed: seq<Bytes>, consumed: nat, upTo: nat)
    requires consumed <= upTo <= |data| && data[..consumed] == Flatten(c.frame, some)
    requires data[consumed..][..upTo - consumed] == Flatten(c.frame, packed)
    ensures data[..upTo] == Flatten(c.frame, some + packed)
  {
    FlattenOfConcat(c.frame, some, packed);
    PrefixJoins(data, consumed, upTo - consumed);
  }

  lemma StepDelivers(c: Code, frames: Bytes -> seq<FrameSlice>, datagrams: seq<Bytes>, data: Bytes, ms: seq<Bytes>,
                     tail: Bytes, consumed: nat, n: nat, first: u64, next: u64, packed: seq<Bytes>, out: Bytes,
                     used: nat, more: nat, after: u64)
    requires more == n + |packed| && after == PlusWrapping(next, |packed|) && GoodCode(c) && IsSplit(c, data, ms, tail) && consumed + used <= |data|
    requires Delivered(c, frames, datagrams, data, ms, consumed, n, first, next)
    requires |packed| <= |Split(c, data[consumed..])| && packed == Split(c, data[consumed..])[..|packed|]
    requires frames(out) == Numbered(next, packed) && data[consumed..][..used] == Flatten(c.frame, packed)
    ensures Delivered(c, frames, datagrams + [out], data, ms, consumed + used, more, first, after)
  {
    RestOf(c, frames, datagrams, data, ms, tail, consumed, n, first, next);
    OneMoreDatagram(c, frames, datagrams, data, ms, consumed, n, first, next, packed, out, consumed + used, more, after);
  }

  /** What is not consumed yet holds the messages not delivered yet. */
  lemma RestOf(c: Code, frames: Bytes -> seq<FrameSlice>, datagrams: seq<Bytes>, data: Bytes, ms: seq<Bytes>,
               tail: Bytes, consumed: nat, n: nat, first: u64, next: u64)
    requires GoodCode(c) && IsSplit(c, data, ms, tail) && consumed <= |data|
    requires Delivered(c, frames, datagrams, data, ms, consumed, n, first, next)
    ensures n <= |ms| && Split(c, data[consumed..]) == ms[n..]
  {
    DeliveredIs(c, frames, datagrams, data, ms, consumed, n, first, next);
    SplitAfter(c, data, ms, tail, n);
    assert |data[..consumed]| == consumed;
    SplitIsUnique(c, data[consumed..], ms[n..], tail);
  }
}
