/**
 The CRC-32 as a remainder: schoolbook long division over GF(2) of the message, with its first
 32 bits complemented and 32 zero bits appended, by the generator polynomial.
 */
module CrcDivision {
  import opened Crc32

  /** The powers of x below 32 in the generator polynomial,
        x^32 + x^26 + x^23 + x^22 + x^16 + x^12 + x^11 + x^10 + x^8 + x^7 + x^5 + x^4 + x^2 + x + 1.
      Polynomials are coefficient strings, highest power first. */
  const EXPONENTS: set<int> := {26, 23, 22, 16, 12, 11, 10, 8, 7, 5, 4, 2, 1, 0}

  function Generator(): (g: seq<bool>)
    ensures |g| == 32
  {
    seq(32, i => 31 - i in EXPONENTS)
  }

  /** Adds `r` to the leading coefficients of `d`. */
  function AddFront(d: seq<bool>, r: seq<bool>): (sum: seq<bool>)
    requires |r| <= |d|
    ensures |sum| == |d|
  {
    seq(|d|, i requires 0 <= i < |d| => if i < |r| then d[i] != r[i] else d[i])
  }

  /** Schoolbook division: cancel the leading coefficient with the generator, 32 places remain. */
  function Remainder(d: seq<bool>): (r: seq<bool>)
    requires |d| >= 32
    ensures |r| == 32
    decreases |d|
  {
    if |d| == 32 then d
    else if d[0] then Remainder(AddFront(d[1..], Generator()))
    else Remainder(d[1..])
  }

  function Repeat(b: bool, n: nat): (s: seq<bool>)
    ensures |s| == n
  {
    seq(n, _ => b)
  }

  /** What is divided for a message: its bits, 32 zeros appended, first 32 complemented. */
  function Dividend(bits: seq<bool>): (d: seq<bool>)
    ensures |d| == |bits| + 32
  {
    AddFront(bits + Repeat(false, 32), Repeat(true, 32))
  }

  // ----- the coefficients held by a register

  lemma {:induction false} LowBitsAt(w: bv32, n: nat, i: nat)
    requires i < n
    ensures LowBits(w, n)[i] == (DropLow(w, i) & 1 == 1)
    decreases n
  {
    if i > 0 {
      LowBitsAt(w >> 1, n - 1, i - 1);
    }
  }

  lemma {:induction false} DropXor(a: bv32, b: bv32, i: nat)
    ensures DropLow(Xor(a, b), i) == Xor(DropLow(a, i), DropLow(b, i))
    decreases i
  {
    hide Xor;
    XorShifted(a, b);
    if i > 0 {
      DropXor(a >> 1, b >> 1, i - 1);
    }
  }

  lemma XorShifted(a: bv32, b: bv32)
    ensures Xor(a, b) >> 1 == Xor(a >> 1, b >> 1)
  {
    calc {
      Xor(a, b) >> 1;
      { ShiftedXor(a, b); }
      (a >> 1) ^ (b >> 1);
      Xor(a >> 1, b >> 1);
    }
  }

  lemma XorParity(a: bv32, b: bv32)
    ensures Xor(a, b) & 1 == 1 <==> ((a & 1 == 1) != (b & 1 == 1))
  {
  }

  lemma {:induction false} DropAll(a: bv32, i: nat, j: nat)
    ensures DropLow(a, i + j) == DropLow(DropLow(a, i), j)
    decreases i
  {
    if i > 0 {
      DropAll(a >> 1, i - 1, j);
    }
  }

  lemma DropEight(a: bv32)
    ensures DropLow(a, 8) == a >> 8
  {
  }

  lemma DropWord(a: bv32)
    ensures DropLow(a, 32) == 0
  {
    DropEight(a);
    DropAll(a, 8, 24);
    DropEight(a >> 8);
    DropAll(a >> 8, 8, 16);
    DropEight(a >> 16);
    DropAll(a >> 16, 8, 8);
    DropEight(a >> 24);
  }

  lemma {:induction false} LowBitsSplit(w: bv32, m: nat, n: nat)
    ensures LowBits(w, m + n) == LowBits(w, m) + LowBits(DropLow(w, m), n)
    decreases m
  {
    if m > 0 {
      LowBitsSplit(w >> 1, m - 1, n);
    }
  }

  lemma LowByteBits(w: bv32)
    ensures LowBits(w, 8) == [w & 1 == 1, (w >> 1) & 1 == 1, (w >> 2) & 1 == 1, (w >> 3) & 1 == 1]
                           + [(w >> 4) & 1 == 1, (w >> 5) & 1 == 1, (w >> 6) & 1 == 1, (w >> 7) & 1 == 1]
  {
    LowBitsSplit(w, 4, 4);
    LowNibbleBits(w);
    LowNibbleBits(w >> 4);
    DropFour(w);
    hide LowBits, DropLow;
  }

  lemma LowNibbleBits(w: bv32)
    ensures LowBits(w, 4) == [w & 1 == 1, (w >> 1) & 1 == 1, (w >> 2) & 1 == 1, (w >> 3) & 1 == 1]
  {
  }

  lemma DropFour(w: bv32)
    ensures DropLow(w, 4) == w >> 4
    ensures (w >> 4) >> 1 == w >> 5 && (w >> 4) >> 2 == w >> 6 && (w >> 4) >> 3 == w >> 7
  {
  }

  lemma FeedbackBytes()
    ensures LowBits(0xEDB88320, 8) == [false, false, false, false, false, true, false, false]
    ensures LowBits(0xEDB883, 8) == [true, true, false, false, false, false, false, true]
    ensures LowBits(0xEDB8, 8) == [false, false, false, true, true, true, false, true]
    ensures LowBits(0xED, 8) == [true, false, true, true, false, true, true, true]
  {
    LowByteBits(0xEDB88320);
    LowByteBits(0xEDB883);
    LowByteBits(0xEDB8);
    LowByteBits(0xED);
    hide LowBits;
  }

  lemma GeneratorBytes()
    ensures Generator() == [false, false, false, false, false, true, false, false]
                         + [true, true, false, false, false, false, false, true]
                         + [false, false, false, true, true, true, false, true]
                         + [true, false, true, true, false, true, true, true]
  {
  }

  /** The feedback constant 0xEDB88320 is the generator, highest power in bit 0. */
  lemma FeedbackIsGenerator()
    ensures LowBits(0xEDB88320, 32) == Generator()
  {
    LowBitsSplit(0xEDB88320, 8, 24);   DropEight(0xEDB88320);
    LowBitsSplit(0xEDB883, 8, 16);     DropEight(0xEDB883);
    LowBitsSplit(0xEDB8, 8, 8);        DropEight(0xEDB8);
    hide LowBits, DropLow, Generator;
    FeedbackBytes();
    GeneratorBytes();
  }

  predicate Coefficient(r: bv32, i: nat) {
    DropLow(r, i) & 1 == 1
  }

  lemma CoefficientAt(r: bv32, i: nat)
    requires i < 32
    ensures LowBits(r, 32)[i] == Coefficient(r, i)
  {
    hide LowBits, DropLow;
    LowBitsAt(r, 32, i);
  }

  lemma CoefficientXor(a: bv32, b: bv32, i: nat)
    ensures Coefficient(Xor(a, b), i) == (Coefficient(a, i) != Coefficient(b, i))
  {
    hide Xor, DropLow;
    DropXor(a, b, i);
    XorParity(DropLow(a, i), DropLow(b, i));
  }

  lemma CoefficientShift(r: bv32, i: nat)
    ensures Coefficient(r >> 1, i) == Coefficient(r, i + 1)
    ensures Coefficient(r, 0) == (r & 1 == 1)
  {
  }

  lemma NoCoefficient(r: bv32)
    ensures !Coefficient(r, 32)
  {
    DropWord(r);
    hide DropLow;
  }

  /** The step on the coefficients of the register. */
  lemma StepAt(r: bv32, bit: bool, i: nat)
    requires i < 32
    ensures Coefficient(BitStep(r, bit), i)
      == (Coefficient(r, i + 1) != ((Coefficient(r, 0) != bit) && Coefficient(0xEDB88320, i)))
  {
    hide Coefficient, BitStep, Xor;
    StepParts(r, bit);
    CoefficientShift(r, i);
    CoefficientXor(r >> 1, 0xEDB88320, i);
  }

  /** One register step on coefficients: shift up one power, cancel a leading one with the generator. */
  lemma StepOnCoefficients(r: bv32, bit: bool, i: nat)
    requires i < 32
    ensures LowBits(BitStep(r, bit), 32)[i]
         == ((i < 31 && LowBits(r, 32)[i + 1]) != ((LowBits(r, 32)[0] != bit) && Generator()[i]))
  {
    hide *;
    StepAt(r, bit, i);
    CoefficientAt(BitStep(r, bit), i);
    CoefficientAt(r, 0);
    CoefficientAt(0xEDB88320, i);
    FeedbackIsGenerator();
    if i < 31 {
      CoefficientAt(r, i + 1);
    } else {
      NoCoefficient(r);
    }
  }

  lemma StepParts(r: bv32, bit: bool)
    ensures BitStep(r, bit) == if (r & 1 == 1) != bit then Xor(r >> 1, 0xEDB88320) else r >> 1
  {
    hide Xor, ShiftBit;
    var fed := Xor(r, BitValue(bit));
    FeedLow(r, bit);
    ShiftParts(fed);
  }

  lemma FeedLow(r: bv32, bit: bool)
    ensures var fed := Xor(r, BitValue(bit)); fed >> 1 == r >> 1 && (fed & 1 == 1 <==> (r & 1 == 1) != bit)
  {
    if bit {
      assert (r ^ 1) >> 1 == r >> 1;
    } else {
      assert r ^ 0 == r;
    }
  }

  lemma ShiftParts(r: bv32)
    ensures ShiftBit(r) == if r & 1 == 1 then Xor(r >> 1, 0xEDB88320) else r >> 1
  {
  }

  /** Dividing what is left of the dividend with the register added in front yields the final register. */
  lemma {:induction false} DivisionIsFeeding(r: bv32, bits: seq<bool>)
    ensures Remainder(AddFront(bits + Repeat(false, 32), LowBits(r, 32))) == LowBits(FeedBits(r, bits), 32)
    decreases |bits|
  {
    hide LowBits, BitStep;
    var coefficients := LowBits(r, 32);
    var d := AddFront(bits + Repeat(false, 32), coefficients);
    if bits == [] {
      assert d == coefficients;
    } else {
      var r' := BitStep(r, bits[0]);
      var rest := if d[0] then AddFront(d[1..], Generator()) else d[1..];
      forall i: nat | i < 32
        ensures LowBits(r', 32)[i] == ((i < 31 && coefficients[i + 1]) != (d[0] && Generator()[i]))
      {
        StepOnCoefficients(r, bits[0], i);
      }
      hide Generator;
      assert rest == AddFront(bits[1..] + Repeat(false, 32), LowBits(r', 32));
      DivisionIsFeeding(r', bits[1..]);
    }
  }

  /** MAIN: the CRC is the complemented remainder of the message polynomial, for every message. */
  lemma CrcIsRemainder(msg: seq<bv8>)
    ensures LowBits(Register(msg), 32) == Remainder(Dividend(MessageBits(msg)))
    ensures Crc(msg) == Xor(Register(msg), 0xFFFF_FFFF)
    ensures forall i | 0 <= i < 32 :: LowBits(Crc(msg), 32)[i] == !Remainder(Dividend(MessageBits(msg)))[i]
  {
    assert Crc(msg) == Xor(Register(msg), 0xFFFF_FFFF);
    hide Xor, LowBits, FeedBits, Remainder, Crc;
    DivisionIsFeeding(0xFFFF_FFFF, MessageBits(msg));
    AllOnes();
    forall i: nat | i < 32
      ensures LowBits(Crc(msg), 32)[i] == !LowBits(Register(msg), 32)[i]
    {
      ComplementAt(Register(msg), i);
    }
  }

  lemma OnesSplit(w: bv32, n: nat)
    requires n >= 8 && LowBits(w, 8) == Repeat(true, 8) && LowBits(w >> 8, n - 8) == Repeat(true, n - 8)
    ensures LowBits(w, n) == Repeat(true, n)
  {
    hide LowBits, DropLow;
    LowBitsSplit(w, 8, n - 8);
    DropEight(w);
  }

  lemma OnesByte(w: bv32)
    requires w & 0xFF == 0xFF
    ensures LowBits(w, 8) == Repeat(true, 8)
  {
    hide LowBits;
    LowByteBits(w);
  }

  lemma OnesShifted()
    ensures (0xFFFF_FFFF as bv32) >> 8 == 0xFF_FFFF && (0xFF_FFFF as bv32) >> 8 == 0xFFFF
      && (0xFFFF as bv32) >> 8 == 0xFF
  {
  }

  lemma AllOnes()
    ensures LowBits(0xFFFF_FFFF, 32) == Repeat(true, 32)
  {
    hide *;
    OnesShifted();
    OnesByte(0xFF);
    OnesByte(0xFFFF);
    OnesSplit(0xFFFF, 16);
    OnesByte(0xFF_FFFF);
    OnesSplit(0xFF_FFFF, 24);
    OnesByte(0xFFFF_FFFF);
    OnesSplit(0xFFFF_FFFF, 32);
  }

  lemma ComplementAt(r: bv32, i: nat)
    requires i < 32
    ensures LowBits(Xor(r, 0xFFFF_FFFF), 32)[i] == !LowBits(r, 32)[i]
  {
    var c := Xor(r, 0xFFFF_FFFF);
    hide Xor, LowBits, DropLow;
    LowBitsAt(c, 32, i);
    LowBitsAt(r, 32, i);
    LowBitsAt(0xFFFF_FFFF, 32, i);
    AllOnes();
    DropXor(r, 0xFFFF_FFFF, i);
    XorParity(DropLow(r, i), DropLow(0xFFFF_FFFF, i));
  }
}
