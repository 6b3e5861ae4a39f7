/**
 What the CRC-32 detects: two messages of equal length whose bits differ only inside a window of
 32 consecutive bits never have the same CRC.
 */
module CrcBurst {
  import opened Crc32

  function Difference(a: seq<bool>, b: seq<bool>): (d: seq<bool>)
    requires |a| == |b|
    ensures |d| == |a|
  {
    seq(|a|, i requires 0 <= i < |a| => a[i] != b[i])
  }

  /** The bit strings agree outside the window of 32 bits that starts at `lo`. */
  ghost predicate AgreeOutsideBurst(a: seq<bool>, b: seq<bool>, lo: nat)
  {
    && |a| == |b|
    && forall i | 0 <= i < |a| && !(lo <= i < lo + 32) :: a[i] == b[i]
  }

  // ----- the register difference evolves like a register

  lemma BitStepLinear(r1: bv32, r2: bv32, b1: bool, b2: bool)
    ensures Xor(BitStep(r1, b1), BitStep(r2, b2)) == BitStep(Xor(r1, r2), b1 != b2)
  {
    hide ShiftBit, Xor, BitValue;
    ShiftLinear(Xor(r1, BitValue(b1)), Xor(r2, BitValue(b2)));
    XorSwap(r1, BitValue(b1), r2, BitValue(b2));
    BitDifference(b1, b2);
  }

  lemma BitDifference(b1: bool, b2: bool)
    ensures Xor(BitValue(b1), BitValue(b2)) == BitValue(b1 != b2)
  {
  }

  lemma {:induction false} FeedLinear(r1: bv32, r2: bv32, a: seq<bool>, b: seq<bool>)
    requires |a| == |b|
    ensures Xor(FeedBits(r1, a), FeedBits(r2, b)) == FeedBits(Xor(r1, r2), Difference(a, b))
    decreases |a|
  {
    hide BitStep, Xor;
    if a != [] {
      BitStepLinear(r1, r2, a[0], b[0]);
      FeedLinear(BitStep(r1, a[0]), BitStep(r2, b[0]), a[1..], b[1..]);
      assert Difference(a, b)[1..] == Difference(a[1..], b[1..]);
    }
  }

  // ----- no bit step loses a difference

  lemma {:induction false} FeedInjective(r1: bv32, r2: bv32, bits: seq<bool>)
    requires FeedBits(r1, bits) == FeedBits(r2, bits)
    ensures r1 == r2
    decreases |bits|
  {
    if bits != [] {
      FeedInjective(BitStep(r1, bits[0]), BitStep(r2, bits[0]), bits[1..]);
      ShiftInjective(Xor(r1, BitValue(bits[0])), Xor(r2, BitValue(bits[0])));
      XorCancel(r1, BitValue(bits[0]));
      XorCancel(r2, BitValue(bits[0]));
      hide ShiftBit, Xor;
    }
  }

  // ----- a burst of 32 bits cannot cancel itself

  predicate AtLeast(r: bv32, t: bv32) {
    r >= t
  }

  /** `t` stays positive when halved `n` times, every halving exact. */
  predicate Halves(t: bv32, n: nat)
    decreases n
  {
    if n == 0 then t != 0 else t & 1 == 0 && Halves(t >> 1, n - 1)
  }

  lemma HighBitHalves()
    ensures Halves(0x8000_0000, 31)
  {
    assert Halves(0x1, 0); assert Halves(0x2, 1); assert Halves(0x4, 2); assert Halves(0x8, 3);
    assert Halves(0x10, 4); assert Halves(0x20, 5); assert Halves(0x40, 6); assert Halves(0x80, 7);
    assert Halves(0x100, 8); assert Halves(0x200, 9); assert Halves(0x400, 10); assert Halves(0x800, 11);
    assert Halves(0x1000, 12); assert Halves(0x2000, 13); assert Halves(0x4000, 14); assert Halves(0x8000, 15);
    assert Halves(0x10000, 16); assert Halves(0x20000, 17); assert Halves(0x40000, 18); assert Halves(0x80000, 19);
    assert Halves(0x100000, 20); assert Halves(0x200000, 21); assert Halves(0x400000, 22); assert Halves(0x800000, 23);
    assert Halves(0x1000000, 24); assert Halves(0x2000000, 25);
    assert Halves(0x4000000, 26); assert Halves(0x8000000, 27);
    assert Halves(0x10000000, 28); assert Halves(0x20000000, 29);
    assert Halves(0x40000000, 30); assert Halves(0x80000000, 31);
  }

  lemma BitStepKeepsHigh(r: bv32, bit: bool, t: bv32)
    requires AtLeast(r, t) && t & 1 == 0
    ensures AtLeast(BitStep(r, bit), t >> 1)
  {
  }

  lemma PositiveBound(r: bv32, t: bv32)
    requires AtLeast(r, t) && t != 0
    ensures r != 0
  {
  }

  /** A register with a high enough bit set survives `n` further steps, whatever is fed. */
  lemma {:induction false} HighBitSurvives(r: bv32, bits: seq<bool>, t: bv32, n: nat)
    requires AtLeast(r, t) && Halves(t, n) && |bits| <= n
    ensures FeedBits(r, bits) != 0
    decreases n
  {
    hide AtLeast, BitStep;
    if bits == [] {
      HalvesPositive(t, n);
      PositiveBound(r, t);
    } else {
      BitStepKeepsHigh(r, bits[0], t);
      HighBitSurvives(BitStep(r, bits[0]), bits[1..], t >> 1, n - 1);
    }
  }

  lemma {:induction false} HalvesPositive(t: bv32, n: nat)
    requires Halves(t, n)
    ensures t != 0
    decreases n
  {
    if n != 0 {
      HalvesPositive(t >> 1, n - 1);
    }
  }

  lemma FirstBitSetsHigh()
    ensures AtLeast(BitStep(0, true), 0x8000_0000) && BitStep(0, false) == 0
  {
  }

  /** At most 32 bits, not all zero, leave a zero register non-zero. */
  lemma {:induction false} ShortBurst(bits: seq<bool>)
    requires |bits| <= 32 && true in bits
    ensures FeedBits(0, bits) != 0
    decreases |bits|
  {
    FirstBitSetsHigh();
    hide BitStep, AtLeast, Halves;
    if bits[0] {
      HighBitHalves();
      HighBitSurvives(BitStep(0, true), bits[1..], 0x8000_0000, 31);
    } else {
      assert true in bits[1..];
      ShortBurst(bits[1..]);
    }
  }

  lemma {:induction false} FeedZeros(bits: seq<bool>)
    requires true !in bits
    ensures FeedBits(0, bits) == 0
    decreases |bits|
  {
    FirstBitSetsHigh();
    hide BitStep;
    if bits != [] {
      FeedZeros(bits[1..]);
    }
  }

  /** A non-zero bit string whose ones lie in one window of 32 bits is not a multiple of the generator. */
  lemma BurstLeavesRemainder(d: seq<bool>, lo: nat)
    requires forall i | 0 <= i < |d| && !(lo <= i < lo + 32) :: !d[i]
    requires true in d
    ensures FeedBits(0, d) != 0
  {
    hide BitStep, FeedBits;
    var from := if lo <= |d| then lo else |d|;
    var to := if lo + 32 <= |d| then lo + 32 else |d|;
    var before, burst, after := d[..from], d[from..to], d[to..];
    assert d == before + (burst + after);
    FeedAppend(0, before, burst + after);
    FeedAppend(0, burst, after);
    FeedZeros(before);
    FeedZeros(after);
    assert true in burst by {
      var i :| 0 <= i < |d| && d[i];
      assert from <= i < to && burst[i - from];
    }
    ShortBurst(burst);
    if FeedBits(0, d) == 0 {
      FeedInjective(FeedBits(0, burst), 0, after);
    }
  }

  /** MAIN: a burst of at most 32 bits changes the CRC. */
  lemma BurstDetected(m1: seq<bv8>, m2: seq<bv8>, lo: nat)
    requires AgreeOutsideBurst(MessageBits(m1), MessageBits(m2), lo)
    requires MessageBits(m1) != MessageBits(m2)
    ensures Crc(m1) != Crc(m2)
  {
    hide FeedBits, Register, AgreeOutsideBurst;
    DifferenceOf(m1, m2, lo);
    BurstLeavesRemainder(Difference(MessageBits(m1), MessageBits(m2)), lo);
    RegistersDiffer(m1, m2);
    ComplementInjective(Register(m1), Register(m2));
  }

  lemma DifferenceOf(m1: seq<bv8>, m2: seq<bv8>, lo: nat)
    requires AgreeOutsideBurst(MessageBits(m1), MessageBits(m2), lo)
    requires MessageBits(m1) != MessageBits(m2)
    ensures |MessageBits(m1)| == |MessageBits(m2)|
    ensures var d := Difference(MessageBits(m1), MessageBits(m2));
      true in d && forall i | 0 <= i < |d| && !(lo <= i < lo + 32) :: !d[i]
  {
    hide MessageBits;
    var b1, b2 := MessageBits(m1), MessageBits(m2);
    var i :| 0 <= i < |b1| && b1[i] != b2[i];
    assert Difference(b1, b2)[i];
  }

  lemma RegistersDiffer(m1: seq<bv8>, m2: seq<bv8>)
    requires |MessageBits(m1)| == |MessageBits(m2)|
    requires FeedBits(0, Difference(MessageBits(m1), MessageBits(m2))) != 0
    ensures Register(m1) != Register(m2)
  {
    hide FeedBits, Difference, MessageBits;
    FeedLinear(0xFFFF_FFFF, 0xFFFF_FFFF, MessageBits(m1), MessageBits(m2));
    XorZero(0xFFFF_FFFF, 0xFFFF_FFFF);
    XorZero(Register(m1), Register(m2));
  }

  lemma ComplementInjective(a: bv32, b: bv32)
    ensures a ^ 0xFFFF_FFFF == b ^ 0xFFFF_FFFF ==> a == b
  {
    assert Xor(a, 0xFFFF_FFFF) == a ^ 0xFFFF_FFFF && Xor(b, 0xFFFF_FFFF) == b ^ 0xFFFF_FFFF;
    XorCancel(a, 0xFFFF_FFFF);
    XorCancel(b, 0xFFFF_FFFF);
    hide Xor;
  }
}
