/** Checksums that fold one register over the bytes of a run, whatever the register is. */
module RegisterFold {
  import opened ByteCodec

  function Fold<W>(step: (W, Byte) -> W, reg: W, data: Bytes): W {
    if data == [] then reg else step(Fold(step, reg, data[..|data| - 1]), data[|data| - 1])
  }

  /** The register is turned by flip on the way in and on the way out. */
  function Checksum<W>(step: (W, Byte) -> W, flip: W -> W, seed: W, data: Bytes): W {
    flip(Fold(step, flip(seed), data))
  }

  lemma ChecksumChains<W>(step: (W, Byte) -> W, flip: W -> W, seed: W, a: Bytes, b: Bytes)
    requires flip(flip(Fold(step, flip(seed), a))) == Fold(step, flip(seed), a)
    ensures Checksum(step, flip, Checksum(step, flip, seed, a), b) == Checksum(step, flip, seed, a + b)
  {
    FoldOfConcat(step, flip(seed), a, b);
  }

  lemma {:induction false} FoldOfConcat<W>(step: (W, Byte) -> W, reg: W, a: Bytes, b: Bytes)
    ensures Fold(step, reg, a + b) == Fold(step, Fold(step, reg, a), b)
  {
    if b == [] {
      assert a + b == a;
    } else {
      FoldOfConcat(step, reg, a, b[..|b| - 1]);
      assert (a + b)[..|a + b| - 1] == a + b[..|b| - 1];
    }
  }

  /** Neither the register nor the byte can change without the result changing. */
  ghost predicate Reversible<W(!new)>(step: (W, Byte) -> W) {
    && (forall x, y, b :: step(x, b) == step(y, b) ==> x == y)
    && (forall x, a, b :: step(x, a) == step(x, b) ==> a == b)
  }

  lemma {:induction false} FoldReversible<W(!new)>(step: (W, Byte) -> W, x: W, y: W, data: Bytes)
    requires Reversible(step) && Fold(step, x, data) == Fold(step, y, data)
    ensures x == y
  {
    if data != [] {
      var front, b := data[..|data| - 1], data[|data| - 1];
      var fx, fy := Fold(step, x, front), Fold(step, y, front);
      assert step(fx, b) == step(fy, b);
      FoldReversible(step, x, y, front);
    }
  }

  lemma OneByteSeparates<W(!new)>(step: (W, Byte) -> W, reg: W, good: Bytes, at: nat, b: Byte)
    requires Reversible(step) && at < |good| && b != good[at]
    ensures Fold(step, reg, good) != Fold(step, reg, good[at := b])
  {
    var bad := good[at := b];
    var front, back := good[..at], good[at + 1..];
    assert good == front + [good[at]] + back && bad == front + [b] + back;
    FoldOfConcat(step, reg, front + [good[at]], back);
    FoldOfConcat(step, reg, front + [b], back);
    FoldOfConcat(step, reg, front, [good[at]]);
    FoldOfConcat(step, reg, front, [b]);
    var prefix := Fold(step, reg, front);
    assert [good[at]][..0] == [] && [b][..0] == [];
    assert Fold(step, prefix, [good[at]]) == step(prefix, good[at]);
    assert Fold(step, prefix, [b]) == step(prefix, b);
    if Fold(step, reg, good) == Fold(step, reg, bad) {
      FoldReversible(step, step(prefix, good[at]), step(prefix, b), back);
      assert false;
    }
  }
}

/** CRC-32 with the reflected polynomial, computed bit by bit and chained through its seed. */
module Crc32 {
  import opened ByteCodec
  import opened RegisterFold

  const POLYNOMIAL: bv32 := 0xEDB88320

  function BitStep(crc: bv32): bv32 {
    if crc & 1 == 1 then (crc >> 1) ^ POLYNOMIAL else crc >> 1
  }

  function BitSteps(crc: bv32, n: nat): bv32 {
    if n == 0 then crc else BitStep(BitSteps(crc, n - 1))
  }

  function EightSteps(crc: bv32): bv32 {
    BitStep(BitStep(BitStep(BitStep(BitStep(BitStep(BitStep(BitStep(crc))))))))
  }

  function ByteStep(crc: bv32, b: Byte): bv32 {
    EightSteps(crc ^ (b as bv32))
  }

  function Complement(x: bv32): bv32 { !x }

  function Crc(seed: bv32, data: Bytes): bv32 {
    Checksum(ByteStep, Complement, seed, data)
  }

  lemma BitStepReversible(x: bv32, y: bv32)
    ensures BitStep(x) == BitStep(y) ==> x == y
  {
  }

  lemma EightStepsReversible(a: bv32, b: bv32)
    ensures EightSteps(a) == EightSteps(b) ==> a == b
  {
    var a1, b1 := BitStep(a), BitStep(b);
    BitStepReversible(a, b);
    var a2, b2 := BitStep(a1), BitStep(b1);
    BitStepReversible(a1, b1);
    var a3, b3 := BitStep(a2), BitStep(b2);
    BitStepReversible(a2, b2);
    var a4, b4 := BitStep(a3), BitStep(b3);
    BitStepReversible(a3, b3);
    var a5, b5 := BitStep(a4), BitStep(b4);
    BitStepReversible(a4, b4);
    var a6, b6 := BitStep(a5), BitStep(b5);
    BitStepReversible(a5, b5);
    var a7, b7 := BitStep(a6), BitStep(b6);
    BitStepReversible(a6, b6);
    BitStepReversible(a7, b7);
  }

  lemma ByteStepReversible(x: bv32, y: bv32, a: Byte, b: Byte)
    ensures ByteStep(x, b) == ByteStep(y, b) ==> x == y
    ensures ByteStep(x, a) == ByteStep(x, b) ==> a == b
  {
    EightStepsReversible(x ^ (b as bv32), y ^ (b as bv32));
    EightStepsReversible(x ^ (a as bv32), x ^ (b as bv32));
  }

  lemma ByteStepIsReversible()
    ensures Reversible(ByteStep)
  {
    forall x, y, a, b
      ensures ByteStep(x, b) == ByteStep(y, b) ==> x == y
      ensures ByteStep(x, a) == ByteStep(x, b) ==> a == b
    {
      ByteStepReversible(x, y, a, b);
    }
  }

  /** Feeding two runs one after the other is feeding their concatenation. */
  lemma CrcChains(seed: bv32, a: Bytes, b: Bytes)
    ensures Crc(Crc(seed, a), b) == Crc(seed, a + b)
  {
    ChecksumChains(ByteStep, Complement, seed, a, b);
  }

  /** Changing any one byte changes the CRC, wherever the byte sits and whatever follows it. */
  lemma ByteCorruptionDetected(seed: bv32, good: Bytes, at: nat, b: Byte)
    requires at < |good| && b != good[at]
    ensures Crc(seed, good) != Crc(seed, good[at := b])
  {
    ByteStepIsReversible();
    OneByteSeparates(ByteStep, Complement(seed), good, at, b);
  }

  // ---- The check value of the standard ----

  /** The bytes of "123456789". */
  const DIGITS: Bytes := [0x31, 0x32, 0x33, 0x34, 0x35, 0x36, 0x37, 0x38, 0x39]

  function RegisterAfter(n: nat): bv32
    requires n <= |DIGITS|
  {
    Fold(ByteStep, 0xFFFF_FFFF, DIGITS[..n])
  }

  lemma OneDigitMore(n: nat)
    requires n < |DIGITS|
    ensures RegisterAfter(n + 1) == ByteStep(RegisterAfter(n), DIGITS[n])
  {
    assert DIGITS[..n + 1][..n] == DIGITS[..n];
  }

  lemma FirstDigits()
    ensures ByteStep(0xFFFFFFFF, 0x31) == 0x7C231048
    ensures ByteStep(0x7C231048, 0x32) == 0xB0ACBB32
    ensures ByteStep(0xB0ACBB32, 0x33) == 0x77B79C2D
  {
  }

  lemma MiddleDigits()
    ensures ByteStep(0x77B79C2D, 0x34) == 0x641C1F5C
    ensures ByteStep(0x641C1F5C, 0x35) == 0x340AC5E3
    ensures ByteStep(0x340AC5E3, 0x36) == 0xF68D2C9E
  {
  }

  lemma LastDigits()
    ensures ByteStep(0xF68D2C9E, 0x37) == 0xAFFC9660
    ensures ByteStep(0xAFFC9660, 0x38) == 0x651F2550
    ensures ByteStep(0x651F2550, 0x39) == 0x340BC6D9
  {
  }

  lemma RegisterAfterThree()
    ensures RegisterAfter(3) == 0x77B79C2D
  {
    assert DIGITS[..0] == [];
    FirstDigits();
    OneDigitMore(0);
    OneDigitMore(1);
    OneDigitMore(2);
  }

  lemma RegisterAfterSix()
    ensures RegisterAfter(6) == 0xF68D2C9E
  {
    RegisterAfterThree();
    MiddleDigits();
    OneDigitMore(3);
    OneDigitMore(4);
    OneDigitMore(5);
  }

  lemma RegisterAfterNine()
    ensures RegisterAfter(9) == 0x340BC6D9
  {
    RegisterAfterSix();
    LastDigits();
    OneDigitMore(6);
    OneDigitMore(7);
    OneDigitMore(8);
  }

  /** The checksum of the bytes "123456789", as catalogued for this CRC. */
  lemma CheckValue()
    ensures Crc(0, [0x31, 0x32, 0x33, 0x34, 0x35, 0x36, 0x37, 0x38, 0x39]) == 0xCBF43926
  {
    RegisterAfterNine();
    assert DIGITS[..9] == DIGITS;
  }

  method Crc32Update(seed: bv32, data: Bytes) returns (r: bv32)
    ensures r == Crc(seed, data)
  {
    var crc := !seed;
    for i := 0 to |data|
      invariant crc == Fold(ByteStep, Complement(seed), data[..i])
    {
      crc := UpdateByte(crc, data[i]);
      assert data[..i + 1][..i] == data[..i];
    }
    assert data[..|data|] == data;
    return !crc;
  }

  method UpdateByte(crc: bv32, b: Byte) returns (r: bv32)
    ensures r == ByteStep(crc, b)
  {
    var start := crc ^ (b as bv32);
    r := UpdateBits(start);
    EightStepsUnrolled(start);
  }

  method UpdateBits(start: bv32) returns (r: bv32)
    ensures r == BitSteps(start, 8)
  {
    r := start;
    for bit := 0 to 8
      invariant r == BitSteps(start, bit)
    {
      r := UpdateBit(r);
    }
  }

  method UpdateBit(crc: bv32) returns (r: bv32)
    ensures r == BitStep(crc)
  {
    var mask := -(crc & 1);
    return (crc >> 1) ^ (POLYNOMIAL & mask);
  }

  lemma EightStepsUnrolled(x: bv32)
    ensures BitSteps(x, 8) == EightSteps(x)
  {
    var c1 := BitStep(x);
    assert BitSteps(x, 1) == c1;
    var c2 := BitStep(c1);
    assert BitSteps(x, 2) == c2;
    var c3 := BitStep(c2);
    assert BitSteps(x, 3) == c3;
    var c4 := BitStep(c3);
    assert BitSteps(x, 4) == c4;
    var c5 := BitStep(c4);
    assert BitSteps(x, 5) == c5;
    var c6 := BitStep(c5);
    assert BitSteps(x, 6) == c6;
    var c7 := BitStep(c6);
    assert BitSteps(x, 7) == c7;
  }
}
