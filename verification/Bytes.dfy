/** Bytes, and fixed-width numbers laid out in bytes. */
module ByteCodec {
  type Byte = bv8
  type Bytes = seq<Byte>

  /** The byte with a value, found by counting: conversions stay out of the proofs that use it. */
  function ByteOf(n: nat): Byte
    requires n < 256
  {
    if n == 0 then 0 else ByteOf(n - 1) + 1
  }

  function CountTo(b: Byte): nat
    decreases b as nat
  {
    if b == 0 then 0
    else
      CountTo(b - 1) + 1
  }

  function ValueOf(b: Byte): (n: nat)
    ensures n < 256
  {
    if CountTo(b) < 256 then CountTo(b) else 0
  }

  lemma {:induction false} ByteOfIs(n: nat)
    requires n < 256
    ensures ByteOf(n) as int == n
  {
    if n > 0 {
      ByteOfIs(n - 1);
    }
  }

  lemma {:induction false} ValueOfIs(b: Byte)
    ensures CountTo(b) == ValueOf(b) == b as int
    decreases b as nat
  {
    if b != 0 {
      ValueOfIs(b - 1);
    }
    var n := ByteRange(b);
  }

  lemma ByteRange(b: Byte) returns (n: nat)
    ensures n < 256 && b as int == n
  {
    n := b as nat;
  }

  lemma ByteRoundTrip(n: nat)
    requires n < 256
    ensures ValueOf(ByteOf(n)) == n
  {
    ByteOfIs(n);
    ValueOfIs(ByteOf(n));
  }

  lemma ValueRoundTrip(b: Byte)
    ensures ByteOf(ValueOf(b)) == b
  {
    ValueOfIs(b);
    ByteOfIs(ValueOf(b));
  }

  /** Little-endian, as memcpy of an unsigned integer writes it on the hosts the format allows. */
  function LittleEndian(n: nat, width: nat): (r: Bytes)
    ensures |r| == width
  {
    if width == 0 then [] else [ByteOf(n % 256)] + LittleEndian(n / 256, width - 1)
  }

  function FromLittleEndian(bytes: Bytes): nat {
    if bytes == [] then 0 else ValueOf(bytes[0]) + 256 * FromLittleEndian(bytes[1..])
  }

  function Power256(k: nat): (r: nat)
    ensures r >= 1
  {
    if k == 0 then 1 else 256 * Power256(k - 1)
  }

  lemma {:induction false} LittleEndianBound(bytes: Bytes)
    ensures FromLittleEndian(bytes) < Power256(|bytes|)
  {
    if bytes != [] {
      LittleEndianBound(bytes[1..]);
    }
  }

  lemma Powers()
    ensures Power256(2) == 0x1_0000 && Power256(4) == 0x1_0000_0000 && Power256(8) == 0x1_0000_0000_0000_0000
  {
    assert Power256(1) == 256;
    assert Power256(3) == 256 * Power256(2);
    assert Power256(5) == 256 * Power256(4);
    assert Power256(6) == 256 * Power256(5);
    assert Power256(7) == 256 * Power256(6);
  }

  lemma OneByteLess(n: nat, width: nat)
    requires width > 0 && n < Power256(width)
    ensures n / 256 < Power256(width - 1)
  {
  }

  lemma {:induction false} LittleEndianRoundTrip(n: nat, width: nat)
    requires n < Power256(width)
    ensures FromLittleEndian(LittleEndian(n, width)) == n
  {
    if width > 0 {
      ByteRoundTrip(n % 256);
      OneByteLess(n, width);
      LittleEndianRoundTrip(n / 256, width - 1);
      assert LittleEndian(n, width)[1..] == LittleEndian(n / 256, width - 1);
    }
  }

  lemma LowByte(low: nat, rest: nat)
    requires low < 256
    ensures (low + 256 * rest) % 256 == low && (low + 256 * rest) / 256 == rest
  {
  }

  lemma {:induction false} LittleEndianReadBack(bytes: Bytes)
    ensures LittleEndian(FromLittleEndian(bytes), |bytes|) == bytes
  {
    if bytes != [] {
      var n := FromLittleEndian(bytes);
      ValueRoundTrip(bytes[0]);
      LowByte(ValueOf(bytes[0]), FromLittleEndian(bytes[1..]));
      LittleEndianReadBack(bytes[1..]);
    }
  }

  /** Big-endian, the network order of the wire formats. */
  function BigEndian(n: nat, width: nat): (r: Bytes)
    ensures |r| == width
  {
    if width == 0 then [] else BigEndian(n / 256, width - 1) + [ByteOf(n % 256)]
  }

  function FromBigEndian(bytes: Bytes): nat {
    if bytes == [] then 0
    else 256 * FromBigEndian(bytes[..|bytes| - 1]) + ValueOf(bytes[|bytes| - 1])
  }

  lemma {:induction false} BigEndianRoundTrip(n: nat, width: nat)
    requires n < Power256(width)
    ensures FromBigEndian(BigEndian(n, width)) == n
  {
    if width > 0 {
      ByteRoundTrip(n % 256);
      OneByteLess(n, width);
      BigEndianRoundTrip(n / 256, width - 1);
      assert BigEndian(n, width)[..width - 1] == BigEndian(n / 256, width - 1);
    }
  }

  lemma DigitAbove(n: nat, k: nat)
    ensures (n / 256) / Power256(k) == n / Power256(k + 1)
  {
    QuotientIs(n / 256, Power256(k), n / Power256(k + 1));
  }

  lemma QuotientIs(m: nat, p: nat, q: nat)
    requires p > 0 && q * p <= m < (q + 1) * p
    ensures m / p == q
  {
    var d := m / p;
    assert m == d * p + m % p;
    MultiplesApart(d, q, p);
    MultiplesApart(q, d, p);
  }

  lemma {:induction false} MultiplesApart(a: nat, b: nat, p: nat)
    ensures a < b ==> a * p + p <= b * p
    decreases b
  {
    if a + 1 < b {
      MultiplesApart(a, b - 1, p);
    }
    NextMultiple(b, p);
    NextMultiple(a + 1, p);
  }

  lemma NextMultiple(b: nat, p: nat)
    ensures b > 0 ==> b * p == (b - 1) * p + p
  {
  }

  /** Little-endian: byte i is the digit of weight 256 to the i. */
  lemma {:induction false} LittleEndianDigit(n: nat, width: nat, i: nat)
    requires i < width
    ensures ValueOf(LittleEndian(n, width)[i]) == n / Power256(i) % 256
  {
    if i == 0 {
      ByteRoundTrip(n % 256);
    } else {
      LittleEndianDigit(n / 256, width - 1, i - 1);
      DigitAbove(n, i - 1);
    }
  }

  /** Big-endian: byte i from the end is. */
  lemma {:induction false} BigEndianDigit(n: nat, width: nat, i: nat)
    requires i < width
    ensures ValueOf(BigEndian(n, width)[width - 1 - i]) == n / Power256(i) % 256
  {
    if i == 0 {
      ByteRoundTrip(n % 256);
    } else {
      BigEndianDigit(n / 256, width - 1, i - 1);
      DigitAbove(n, i - 1);
    }
  }

  // ---- Fixed-size records one after the other ----

  function Flatten<T>(encode: T -> Bytes, xs: seq<T>): Bytes {
    if xs == [] then [] else Flatten(encode, xs[..|xs| - 1]) + encode(xs[|xs| - 1])
  }

  lemma FlattenOfOneMore<T>(encode: T -> Bytes, xs: seq<T>, x: T)
    ensures Flatten(encode, xs + [x]) == Flatten(encode, xs) + encode(x)
  {
    assert (xs + [x])[..|xs|] == xs;
  }

  lemma {:induction false} FlattenOfConcat<T>(encode: T -> Bytes, a: seq<T>, b: seq<T>)
    ensures Flatten(encode, a + b) == Flatten(encode, a) + Flatten(encode, b)
  {
    if b == [] {
      assert a + b == a && Flatten(encode, a) + [] == Flatten(encode, a);
    } else {
      var front, x := b[..|b| - 1], b[|b| - 1];
      assert a + b == (a + front) + [x];
      FlattenOfOneMore(encode, a + front, x);
      FlattenOfConcat(encode, a, front);
      JoinedLeftOrRight(Flatten(encode, a), Flatten(encode, front), encode(x));
    }
  }

  lemma JoinedLeftOrRight(a: Bytes, b: Bytes, c: Bytes)
    ensures (a + b) + c == a + (b + c)
  {
  }

  lemma {:induction false} FlattenLength<T>(encode: T -> Bytes, xs: seq<T>, size: nat)
    requires forall i :: 0 <= i < |xs| ==> |encode(xs[i])| == size
    ensures |Flatten(encode, xs)| == |xs| * size
  {
    if xs != [] {
      FlattenLength(encode, xs[..|xs| - 1], size);
      assert |xs| * size == (|xs| - 1) * size + size;
    }
  }

  /** Cutting a run of records leaves whole records and a part of the next one. */
  lemma FlattenCut<T>(encode: T -> Bytes, xs: seq<T>, size: nat, k: nat, extra: nat) returns (part: Bytes)
    requires forall i :: 0 <= i < |xs| ==> |encode(xs[i])| == size
    requires extra < size && k * size + extra <= |Flatten(encode, xs)|
    ensures k <= |xs| && |part| == extra
    ensures Flatten(encode, xs)[..k * size + extra] == Flatten(encode, xs[..k]) + part
    ensures extra > 0 ==> k < |xs| && part == encode(xs[k])[..extra]
  {
    FlattenLength(encode, xs, size);
    CountFits(k, |xs|, size, extra);
    assert xs == xs[..k] + xs[k..];
    FlattenOfConcat(encode, xs[..k], xs[k..]);
    FlattenLength(encode, xs[..k], size);
    part := Flatten(encode, xs[k..])[..extra];
    if extra > 0 {
      assert xs[k..] == [xs[k]] + xs[k + 1..];
      FlattenOfConcat(encode, [xs[k]], xs[k + 1..]);
      assert [xs[k]][..0] == [];
      assert Flatten(encode, [xs[k]]) == encode(xs[k]);
    }
  }

  lemma CountFits(k: nat, n: nat, size: nat, extra: nat)
    requires extra < size && k * size + extra <= n * size
    ensures k <= n && (extra > 0 ==> k < n)
  {
    assert (k - n) * size == k * size - n * size;
  }

}
