/** The checksum of a book event, and of a stream of them, used to compare runs. */
module EventChecksum {
  import opened Types
  import opened ByteCodec
  import opened Crc32

  function VenueByte(v: Venue): Byte {
    match v
    case Nasdaq => 0
    case Iex => 1
    case Cboe => 2
    case Cme => 3
    case Bitfinex => 4
  }

  function KindByte(k: EventType): Byte {
    match k
    case Add => 0
    case AddMpid => 1
    case Execute => 2
    case ExecutePrice => 3
    case Cancel => 4
    case Delete => 5
    case Replace => 6
    case Trade => 7
    case CrossTrade => 8
    case Imbalance => 9
    case System => 10
    case StockDirectory => 11
    case UnknownType => 255
  }

  /** The checksummed fields of an event in checksum order; the ingest timestamp is not one of them. */
  function EventBytes(ev: BookEvent): Bytes {
    [VenueByte(ev.venue)] + [KindByte(ev.kind)] + LittleEndian(ev.sequence, 8)
    + LittleEndian(ev.exchangeTs, 8) + BigEndian(ev.symbol, 8) + LittleEndian(ev.orderId, 8)
    + LittleEndian(ev.qty, 4) + LittleEndian(ev.price, 4)
  }

  method UpdateCrcFromBookEvent(crc: bv32, ev: BookEvent) returns (r: bv32)
    ensures r == EventCrc(crc, ev)
  {
    r := Crc32Update(crc, [VenueByte(ev.venue)]);
    r := ExtendCrc(crc, [VenueByte(ev.venue)], r, [KindByte(ev.kind)]);
    ghost var done := [VenueByte(ev.venue)] + [KindByte(ev.kind)];
    r := ExtendCrc(crc, done, r, LittleEndian(ev.sequence, 8));
    done := done + LittleEndian(ev.sequence, 8);
    r := ExtendCrc(crc, done, r, LittleEndian(ev.exchangeTs, 8));
    done := done + LittleEndian(ev.exchangeTs, 8);
    r := ExtendCrc(crc, done, r, BigEndian(ev.symbol, 8));
    done := done + BigEndian(ev.symbol, 8);
    r := ExtendCrc(crc, done, r, LittleEndian(ev.orderId, 8));
    done := done + LittleEndian(ev.orderId, 8);
    r := ExtendCrc(crc, done, r, LittleEndian(ev.qty, 4));
    done := done + LittleEndian(ev.qty, 4);
    r := ExtendCrc(crc, done, r, LittleEndian(ev.price, 4));
  }

  /** One more crc32_update of the chain. */
  method ExtendCrc(ghost seed: bv32, ghost done: Bytes, crc: bv32, more: Bytes) returns (r: bv32)
    requires crc == Crc(seed, done)
    ensures r == Crc(seed, done + more)
  {
    r := Crc32Update(crc, more);
    CrcChains(seed, done, more);
  }

  function EventCrc(crc: bv32, ev: BookEvent): bv32 {
    Crc(crc, EventBytes(ev))
  }

  // ---- What the checksum covers ----

  /** The eight fields and nothing else, each at its place: numbers little-endian, the symbol as its characters. */
  lemma EventLayout(ev: BookEvent)
    ensures var b := EventBytes(ev);
      && |b| == 42 && b[0] == VenueByte(ev.venue) && b[1] == KindByte(ev.kind)
      && b[2..10] == LittleEndian(ev.sequence, 8) && b[10..18] == LittleEndian(ev.exchangeTs, 8)
      && b[18..26] == BigEndian(ev.symbol, 8) && b[26..34] == LittleEndian(ev.orderId, 8)
      && b[34..38] == LittleEndian(ev.qty, 4) && b[38..42] == LittleEndian(ev.price, 4)
  {
  }

  /** The codes of venues and kinds. */
  lemma CodesOfEvents()
    ensures VenueByte(Nasdaq) == 0 && VenueByte(Iex) == 1 && VenueByte(Cboe) == 2 && VenueByte(Cme) == 3
    ensures VenueByte(Bitfinex) == 4
    ensures VenueIndex(Nasdaq) == 0 && VenueIndex(Iex) == 1 && VenueIndex(Cboe) == 2 && VenueIndex(Cme) == 3
    ensures VenueIndex(Bitfinex) == 4
    ensures KindByte(Add) == 0 && KindByte(AddMpid) == 1 && KindByte(Execute) == 2 && KindByte(ExecutePrice) == 3
    ensures KindByte(Cancel) == 4 && KindByte(Delete) == 5 && KindByte(Replace) == 6 && KindByte(Trade) == 7
    ensures KindByte(CrossTrade) == 8 && KindByte(Imbalance) == 9 && KindByte(System) == 10
    ensures KindByte(StockDirectory) == 11 && KindByte(UnknownType) == 255
  {
  }

  ghost predicate SameEight(a: BookEvent, b: BookEvent) {
    && a.venue == b.venue && a.kind == b.kind && a.sequence == b.sequence && a.exchangeTs == b.exchangeTs
    && a.symbol == b.symbol && a.orderId == b.orderId && a.qty == b.qty && a.price == b.price
  }

  lemma SameNumber(m: nat, n: nat, width: nat)
    requires m < Power256(width) && n < Power256(width)
    ensures LittleEndian(m, width) == LittleEndian(n, width) ==> m == n
    ensures BigEndian(m, width) == BigEndian(n, width) ==> m == n
  {
    LittleEndianRoundTrip(m, width);
    LittleEndianRoundTrip(n, width);
    BigEndianRoundTrip(m, width);
    BigEndianRoundTrip(n, width);
  }

  lemma SameCodes(a: BookEvent, b: BookEvent)
    ensures VenueByte(a.venue) == VenueByte(b.venue) ==> a.venue == b.venue
    ensures KindByte(a.kind) == KindByte(b.kind) ==> a.kind == b.kind
  {
  }

  /** The bytes of two events are equal exactly when the eight fields are. */
  lemma EventBytesEqualIff(a: BookEvent, b: BookEvent)
    ensures EventBytes(a) == EventBytes(b) <==> SameEight(a, b)
  {
    EventLayout(a);
    EventLayout(b);
    Powers();
    SameCodes(a, b);
    SameNumber(a.sequence, b.sequence, 8);
    SameNumber(a.exchangeTs, b.exchangeTs, 8);
    SameNumber(a.symbol, b.symbol, 8);
    SameNumber(a.orderId, b.orderId, 8);
    SameNumber(a.qty, b.qty, 4);
    SameNumber(a.price, b.price, 4);
  }

  /** Events that agree in the eight fields have one checksum, whatever their other fields. */
  lemma OtherFieldsDoNotCount(seed: bv32, a: BookEvent, b: BookEvent)
    requires SameEight(a, b)
    ensures EventCrc(seed, a) == EventCrc(seed, b)
  {
    EventBytesEqualIff(a, b);
  }

  ghost predicate DifferInOneByte(x: Bytes, y: Bytes) {
    |x| == |y| && exists at :: 0 <= at < |x| && x[at] != y[at] && y == x[at := y[at]]
  }

  /** The events differ in one byte of one of the eight fields, and in nothing else. */
  ghost predicate OneFieldByteDiffers(a: BookEvent, b: BookEvent) {
    || (a.venue != b.venue && b == a.(venue := b.venue))
    || (a.kind != b.kind && b == a.(kind := b.kind))
    || (b == a.(sequence := b.sequence) && DifferInOneByte(LittleEndian(a.sequence, 8), LittleEndian(b.sequence, 8)))
    || (b == a.(exchangeTs := b.exchangeTs) && DifferInOneByte(LittleEndian(a.exchangeTs, 8), LittleEndian(b.exchangeTs, 8)))
    || (b == a.(symbol := b.symbol) && DifferInOneByte(BigEndian(a.symbol, 8), BigEndian(b.symbol, 8)))
    || (b == a.(orderId := b.orderId) && DifferInOneByte(LittleEndian(a.orderId, 8), LittleEndian(b.orderId, 8)))
    || (b == a.(qty := b.qty) && DifferInOneByte(LittleEndian(a.qty, 4), LittleEndian(b.qty, 4)))
    || (b == a.(price := b.price) && DifferInOneByte(LittleEndian(a.price, 4), LittleEndian(b.price, 4)))
  }

  lemma FieldIsSeen(seed: bv32, front: Bytes, x: Bytes, y: Bytes, back: Bytes)
    requires DifferInOneByte(x, y)
    ensures Crc(seed, front + x + back) != Crc(seed, front + y + back)
  {
    var at :| 0 <= at < |x| && x[at] != y[at] && y == x[at := y[at]];
    var good := front + x + back;
    assert good[|front| + at := y[at]] == front + y + back;
    ByteCorruptionDetected(seed, good, |front| + at, y[at]);
  }

  /** An event as the bytes before, of and after one field. */
  lemma AroundField(a: Bytes, b: Bytes, c: Bytes, d: Bytes, e: Bytes, f: Bytes, g: Bytes, h: Bytes)
    ensures a + b + c + d + e + f + g + h == [] + a + (b + c + d + e + f + g + h)
    ensures a + b + c + d + e + f + g + h == a + b + (c + d + e + f + g + h)
    ensures a + b + c + d + e + f + g + h == (a + b) + c + (d + e + f + g + h)
    ensures a + b + c + d + e + f + g + h == (a + b + c) + d + (e + f + g + h)
    ensures a + b + c + d + e + f + g + h == (a + b + c + d) + e + (f + g + h)
    ensures a + b + c + d + e + f + g + h == (a + b + c + d + e) + f + (g + h)
    ensures a + b + c + d + e + f + g + h == (a + b + c + d + e + f) + g + h
    ensures a + b + c + d + e + f + g + h == (a + b + c + d + e + f + g) + h + []
  {
  }

  lemma CodeDiffers(x: Byte, y: Byte)
    requires x != y
    ensures DifferInOneByte([x], [y])
  {
    assert [y] == [x][0 := [y][0]];
  }

  /** Every listed field counts: one changed byte of it changes the checksum, from every seed. */
  lemma FieldByteChangesChecksum(seed: bv32, a: BookEvent, b: BookEvent)
    requires OneFieldByteDiffers(a, b)
    ensures EventCrc(seed, a) != EventCrc(seed, b)
  {
    var v, k, n, t := [VenueByte(a.venue)], [KindByte(a.kind)], LittleEndian(a.sequence, 8), LittleEndian(a.exchangeTs, 8);
    var y, o, q, p := BigEndian(a.symbol, 8), LittleEndian(a.orderId, 8), LittleEndian(a.qty, 4), LittleEndian(a.price, 4);
    var v', k', n', t' := [VenueByte(b.venue)], [KindByte(b.kind)], LittleEndian(b.sequence, 8), LittleEndian(b.exchangeTs, 8);
    var y', o', q', p' := BigEndian(b.symbol, 8), LittleEndian(b.orderId, 8), LittleEndian(b.qty, 4), LittleEndian(b.price, 4);
    AroundField(v, k, n, t, y, o, q, p);
    AroundField(v', k', n', t', y', o', q', p');
    SameCodes(a, b);
    if a.venue != b.venue {
      CodeDiffers(VenueByte(a.venue), VenueByte(b.venue));
      FieldIsSeen(seed, [], v, v', k + n + t + y + o + q + p);
    } else if a.kind != b.kind {
      CodeDiffers(KindByte(a.kind), KindByte(b.kind));
      FieldIsSeen(seed, v, k, k', n + t + y + o + q + p);
    } else if a.sequence != b.sequence {
      FieldIsSeen(seed, v + k, n, n', t + y + o + q + p);
    } else if a.exchangeTs != b.exchangeTs {
      FieldIsSeen(seed, v + k + n, t, t', y + o + q + p);
    } else if a.symbol != b.symbol {
      FieldIsSeen(seed, v + k + n + t, y, y', o + q + p);
    } else if a.orderId != b.orderId {
      FieldIsSeen(seed, v + k + n + t + y, o, o', q + p);
    } else if a.qty != b.qty {
      FieldIsSeen(seed, v + k + n + t + y + o, q, q', p);
    } else {
      FieldIsSeen(seed, v + k + n + t + y + o + q, p, p', []);
    }
  }

  function FoldEvents<W>(step: (W, BookEvent) -> W, w: W, s: seq<BookEvent>): W {
    if s == [] then w else FoldEvents(step, step(w, s[0]), s[1..])
  }

  lemma {:induction false} FoldOfOneMore<W>(step: (W, BookEvent) -> W, w: W, s: seq<BookEvent>, ev: BookEvent)
    ensures FoldEvents(step, w, s + [ev]) == step(FoldEvents(step, w, s), ev)
  {
    if s == [] {
      assert [ev][1..] == [];
    } else {
      FoldOfOneMore(step, step(w, s[0]), s[1..], ev);
      assert (s + [ev])[1..] == s[1..] + [ev];
    }
  }

  /** The checksum after a stream of events. */
  function StreamCrc(seed: bv32, s: seq<BookEvent>): bv32 {
    FoldEvents(EventCrc, seed, s)
  }

  lemma StreamCrcOfOneMore(seed: bv32, s: seq<BookEvent>, ev: BookEvent)
    ensures StreamCrc(seed, []) == seed
    ensures StreamCrc(seed, s + [ev]) == EventCrc(StreamCrc(seed, s), ev)
  {
    FoldOfOneMore(EventCrc, seed, s, ev);
  }

  lemma StreamCrcFromFront(seed: bv32, ev: BookEvent, s: seq<BookEvent>)
    ensures StreamCrc(seed, [ev] + s) == StreamCrc(EventCrc(seed, ev), s)
  {
    assert ([ev] + s)[1..] == s;
  }
}
