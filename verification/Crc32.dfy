/**
 The CRC-32 of lib/crc.c: the table, the bit-serial register that the table abbreviates, and the
 table-driven loop `CalculateCrc`, which equals the bit-serial form.
 */
module Crc32 {

  /** Addition of registers over GF(2). Registers are reflected: bit 0 holds the coefficient of the highest
      power of x. */
  function Xor(a: bv32, b: bv32): bv32 {
    a ^ b
  }

  /** One step of the reflected shift register with feedback polynomial 0xEDB88320. */
  function ShiftBit(r: bv32): bv32 {
    if r & 1 == 1 then (r >> 1) ^ 0xEDB88320 else r >> 1
  }

  function Shift8(r: bv32): bv32 {
    ShiftBit(ShiftBit(ShiftBit(ShiftBit(ShiftBit(ShiftBit(ShiftBit(ShiftBit(r))))))))
  }

  function BitValue(bit: bool): bv32 {
    if bit then 1 else 0
  }

  function BitStep(r: bv32, bit: bool): bv32 {
    ShiftBit(Xor(r, BitValue(bit)))
  }

  /** Feeds message bits into the register, first bit first. */
  function FeedBits(r: bv32, bits: seq<bool>): bv32
    decreases |bits|
  {
    if bits == [] then r else FeedBits(BitStep(r, bits[0]), bits[1..])
  }

  /** The `n` lowest bits of `w`, lowest first. */
  function LowBits(w: bv32, n: nat): (bits: seq<bool>)
    ensures |bits| == n
    decreases n
  {
    if n == 0 then [] else [w & 1 == 1] + LowBits(w >> 1, n - 1)
  }

  /** The bits of a message in transmission order: byte by byte, least significant bit first. */
  function MessageBits(msg: seq<bv8>): (bits: seq<bool>)
    ensures |bits| == 8 * |msg|
  {
    if msg == [] then [] else LowBits(msg[0] as bv32, 8) + MessageBits(msg[1..])
  }

  /** The register, preset to ones, after a message. */
  function Register(msg: seq<bv8>): bv32 {
    FeedBits(0xFFFF_FFFF, MessageBits(msg))
  }

  /** The bit-serial CRC-32: the complement of the final register. */
  function Crc(msg: seq<bv8>): bv32 {
    Register(msg) ^ 0xFFFF_FFFF
  }

  // ----- the table of lib/crc.c, in sixteen rows of sixteen entries

  function Row0(i: bv8): (entry: bv32)
    requires i < 16
    ensures entry == Shift8((i | 0x00) as bv32)
  {
    match i
    case 0 => 0x00000000 case 1 => 0x77073096 case 2 => 0xEE0E612C case 3 => 0x990951BA
    case 4 => 0x076DC419 case 5 => 0x706AF48F case 6 => 0xE963A535 case 7 => 0x9E6495A3
    case 8 => 0x0EDB8832 case 9 => 0x79DCB8A4 case 10 => 0xE0D5E91E case 11 => 0x97D2D988
    case 12 => 0x09B64C2B case 13 => 0x7EB17CBD case 14 => 0xE7B82D07 case _ => 0x90BF1D91
  }

  function Row1(i: bv8): (entry: bv32)
    requires i < 16
    ensures entry == Shift8((i | 0x10) as bv32)
  {
    match i
    case 0 => 0x1DB71064 case 1 => 0x6AB020F2 case 2 => 0xF3B97148 case 3 => 0x84BE41DE
    case 4 => 0x1ADAD47D case 5 => 0x6DDDE4EB case 6 => 0xF4D4B551 case 7 => 0x83D385C7
    case 8 => 0x136C9856 case 9 => 0x646BA8C0 case 10 => 0xFD62F97A case 11 => 0x8A65C9EC
    case 12 => 0x14015C4F case 13 => 0x63066CD9 case 14 => 0xFA0F3D63 case _ => 0x8D080DF5
  }

  function Row2(i: bv8): (entry: bv32)
    requires i < 16
    ensures entry == Shift8((i | 0x20) as bv32)
  {
    match i
    case 0 => 0x3B6E20C8 case 1 => 0x4C69105E case 2 => 0xD56041E4 case 3 => 0xA2677172
    case 4 => 0x3C03E4D1 case 5 => 0x4B04D447 case 6 => 0xD20D85FD case 7 => 0xA50AB56B
    case 8 => 0x35B5A8FA case 9 => 0x42B2986C case 10 => 0xDBBBC9D6 case 11 => 0xACBCF940
    case 12 => 0x32D86CE3 case 13 => 0x45DF5C75 case 14 => 0xDCD60DCF case _ => 0xABD13D59
  }

  function Row3(i: bv8): (entry: bv32)
    requires i < 16
    ensures entry == Shift8((i | 0x30) as bv32)
  {
    match i
    case 0 => 0x26D930AC case 1 => 0x51DE003A case 2 => 0xC8D75180 case 3 => 0xBFD06116
    case 4 => 0x21B4F4B5 case 5 => 0x56B3C423 case 6 => 0xCFBA9599 case 7 => 0xB8BDA50F
    case 8 => 0x2802B89E case 9 => 0x5F058808 case 10 => 0xC60CD9B2 case 11 => 0xB10BE924
    case 12 => 0x2F6F7C87 case 13 => 0x58684C11 case 14 => 0xC1611DAB case _ => 0xB6662D3D
  }

  function Row4(i: bv8): (entry: bv32)
    requires i < 16
    ensures entry == Shift8((i | 0x40) as bv32)
  {
    match i
    case 0 => 0x76DC4190 case 1 => 0x01DB7106 case 2 => 0x98D220BC case 3 => 0xEFD5102A
    case 4 => 0x71B18589 case 5 => 0x06B6B51F case 6 => 0x9FBFE4A5 case 7 => 0xE8B8D433
    case 8 => 0x7807C9A2 case 9 => 0x0F00F934 case 10 => 0x9609A88E case 11 => 0xE10E9818
    case 12 => 0x7F6A0DBB case 13 => 0x086D3D2D case 14 => 0x91646C97 case _ => 0xE6635C01
  }

  function Row5(i: bv8): (entry: bv32)
    requires i < 16
    ensures entry == Shift8((i | 0x50) as bv32)
  {
    match i
    case 0 => 0x6B6B51F4 case 1 => 0x1C6C6162 case 2 => 0x856530D8 case 3 => 0xF262004E
    case 4 => 0x6C0695ED case 5 => 0x1B01A57B case 6 => 0x8208F4C1 case 7 => 0xF50FC457
    case 8 => 0x65B0D9C6 case 9 => 0x12B7E950 case 10 => 0x8BBEB8EA case 11 => 0xFCB9887C
    case 12 => 0x62DD1DDF case 13 => 0x15DA2D49 case 14 => 0x8CD37CF3 case _ => 0xFBD44C65
  }

  function Row6(i: bv8): (entry: bv32)
    requires i < 16
    ensures entry == Shift8((i | 0x60) as bv32)
  {
    match i
    case 0 => 0x4DB26158 case 1 => 0x3AB551CE case 2 => 0xA3BC0074 case 3 => 0xD4BB30E2
    case 4 => 0x4ADFA541 case 5 => 0x3DD895D7 case 6 => 0xA4D1C46D case 7 => 0xD3D6F4FB
    case 8 => 0x4369E96A case 9 => 0x346ED9FC case 10 => 0xAD678846 case 11 => 0xDA60B8D0
    case 12 => 0x44042D73 case 13 => 0x33031DE5 case 14 => 0xAA0A4C5F case _ => 0xDD0D7CC9
  }

  function Row7(i: bv8): (entry: bv32)
    requires i < 16
    ensures entry == Shift8((i | 0x70) as bv32)
  {
    match i
    case 0 => 0x5005713C case 1 => 0x270241AA case 2 => 0xBE0B1010 case 3 => 0xC90C2086
    case 4 => 0x5768B525 case 5 => 0x206F85B3 case 6 => 0xB966D409 case 7 => 0xCE61E49F
    case 8 => 0x5EDEF90E case 9 => 0x29D9C998 case 10 => 0xB0D09822 case 11 => 0xC7D7A8B4
    case 12 => 0x59B33D17 case 13 => 0x2EB40D81 case 14 => 0xB7BD5C3B case _ => 0xC0BA6CAD
  }

  function Row8(i: bv8): (entry: bv32)
    requires i < 16
    ensures entry == Shift8((i | 0x80) as bv32)
  {
    match i
    case 0 => 0xEDB88320 case 1 => 0x9ABFB3B6 case 2 => 0x03B6E20C case 3 => 0x74B1D29A
    case 4 => 0xEAD54739 case 5 => 0x9DD277AF case 6 => 0x04DB2615 case 7 => 0x73DC1683
    case 8 => 0xE3630B12 case 9 => 0x94643B84 case 10 => 0x0D6D6A3E case 11 => 0x7A6A5AA8
    case 12 => 0xE40ECF0B case 13 => 0x9309FF9D case 14 => 0x0A00AE27 case _ => 0x7D079EB1
  }

  function Row9(i: bv8): (entry: bv32)
    requires i < 16
    ensures entry == Shift8((i | 0x90) as bv32)
  {
    match i
    case 0 => 0xF00F9344 case 1 => 0x8708A3D2 case 2 => 0x1E01F268 case 3 => 0x6906C2FE
    case 4 => 0xF762575D case 5 => 0x806567CB case 6 => 0x196C3671 case 7 => 0x6E6B06E7
    case 8 => 0xFED41B76 case 9 => 0x89D32BE0 case 10 => 0x10DA7A5A case 11 => 0x67DD4ACC
    case 12 => 0xF9B9DF6F case 13 => 0x8EBEEFF9 case 14 => 0x17B7BE43 case _ => 0x60B08ED5
  }

  function RowA(i: bv8): (entry: bv32)
    requires i < 16
    ensures entry == Shift8((i | 0xA0) as bv32)
  {
    match i
    case 0 => 0xD6D6A3E8 case 1 => 0xA1D1937E case 2 => 0x38D8C2C4 case 3 => 0x4FDFF252
    case 4 => 0xD1BB67F1 case 5 => 0xA6BC5767 case 6 => 0x3FB506DD case 7 => 0x48B2364B
    case 8 => 0xD80D2BDA case 9 => 0xAF0A1B4C case 10 => 0x36034AF6 case 11 => 0x41047A60
    case 12 => 0xDF60EFC3 case 13 => 0xA867DF55 case 14 => 0x316E8EEF case _ => 0x4669BE79
  }

  function RowB(i: bv8): (entry: bv32)
    requires i < 16
    ensures entry == Shift8((i | 0xB0) as bv32)
  {
    match i
    case 0 => 0xCB61B38C case 1 => 0xBC66831A case 2 => 0x256FD2A0 case 3 => 0x5268E236
    case 4 => 0xCC0C7795 case 5 => 0xBB0B4703 case 6 => 0x220216B9 case 7 => 0x5505262F
    case 8 => 0xC5BA3BBE case 9 => 0xB2BD0B28 case 10 => 0x2BB45A92 case 11 => 0x5CB36A04
    case 12 => 0xC2D7FFA7 case 13 => 0xB5D0CF31 case 14 => 0x2CD99E8B case _ => 0x5BDEAE1D
  }

  function RowC(i: bv8): (entry: bv32)
    requires i < 16
    ensures entry == Shift8((i | 0xC0) as bv32)
  {
    match i
    case 0 => 0x9B64C2B0 case 1 => 0xEC63F226 case 2 => 0x756AA39C case 3 => 0x026D930A
    case 4 => 0x9C0906A9 case 5 => 0xEB0E363F case 6 => 0x72076785 case 7 => 0x05005713
    case 8 => 0x95BF4A82 case 9 => 0xE2B87A14 case 10 => 0x7BB12BAE case 11 => 0x0CB61B38
    case 12 => 0x92D28E9B case 13 => 0xE5D5BE0D case 14 => 0x7CDCEFB7 case _ => 0x0BDBDF21
  }

  function RowD(i: bv8): (entry: bv32)
    requires i < 16
    ensures entry == Shift8((i | 0xD0) as bv32)
  {
    match i
    case 0 => 0x86D3D2D4 case 1 => 0xF1D4E242 case 2 => 0x68DDB3F8 case 3 => 0x1FDA836E
    case 4 => 0x81BE16CD case 5 => 0xF6B9265B case 6 => 0x6FB077E1 case 7 => 0x18B74777
    case 8 => 0x88085AE6 case 9 => 0xFF0F6A70 case 10 => 0x66063BCA case 11 => 0x11010B5C
    case 12 => 0x8F659EFF case 13 => 0xF862AE69 case 14 => 0x616BFFD3 case _ => 0x166CCF45
  }

  function RowE(i: bv8): (entry: bv32)
    requires i < 16
    ensures entry == Shift8((i | 0xE0) as bv32)
  {
    match i
    case 0 => 0xA00AE278 case 1 => 0xD70DD2EE case 2 => 0x4E048354 case 3 => 0x3903B3C2
    case 4 => 0xA7672661 case 5 => 0xD06016F7 case 6 => 0x4969474D case 7 => 0x3E6E77DB
    case 8 => 0xAED16A4A case 9 => 0xD9D65ADC case 10 => 0x40DF0B66 case 11 => 0x37D83BF0
    case 12 => 0xA9BCAE53 case 13 => 0xDEBB9EC5 case 14 => 0x47B2CF7F case _ => 0x30B5FFE9
  }

  function RowF(i: bv8): (entry: bv32)
    requires i < 16
    ensures entry == Shift8((i | 0xF0) as bv32)
  {
    match i
    case 0 => 0xBDBDF21C case 1 => 0xCABAC28A case 2 => 0x53B39330 case 3 => 0x24B4A3A6
    case 4 => 0xBAD03605 case 5 => 0xCDD70693 case 6 => 0x54DE5729 case 7 => 0x23D967BF
    case 8 => 0xB3667A2E case 9 => 0xC4614AB8 case 10 => 0x5D681B02 case 11 => 0x2A6F2B94
    case 12 => 0xB40BBE37 case 13 => 0xC30C8EA1 case 14 => 0x5A05DF1B case _ => 0x2D02EF8D
  }

  /** The table lookup; every entry is the eight-shift image of its index. */
  function CRCTable(i: bv8): (entry: bv32)
    ensures entry == Shift8(i as bv32)
  {
    match i >> 4
    case 0 => Row0(i & 15) case 1 => Row1(i & 15) case 2 => Row2(i & 15) case 3 => Row3(i & 15)
    case 4 => Row4(i & 15) case 5 => Row5(i & 15) case 6 => Row6(i & 15) case 7 => Row7(i & 15)
    case 8 => Row8(i & 15) case 9 => Row9(i & 15) case 10 => RowA(i & 15) case 11 => RowB(i & 15)
    case 12 => RowC(i & 15) case 13 => RowD(i & 15) case 14 => RowE(i & 15) case _ => RowF(i & 15)
  }

  // ----- the shift register is linear and reversible

  lemma ShiftedXor(a: bv32, b: bv32)
    ensures (a ^ b) >> 1 == (a >> 1) ^ (b >> 1)
    ensures (a ^ b) & 1 == 1 <==> ((a & 1 == 1) != (b & 1 == 1))
  {
  }

  lemma XorWithFeedback(x: bv32, y: bv32, p: bv32)
    ensures (x ^ p) ^ (y ^ p) == x ^ y
    ensures (x ^ p) ^ y == (x ^ y) ^ p
    ensures x ^ (y ^ p) == (x ^ y) ^ p
  {
  }

  lemma BitwiseXor(a: bv32, b: bv32, c: bv32, d: bv32)
    ensures (a ^ b) ^ (c ^ d) == (a ^ c) ^ (b ^ d)
    ensures (a ^ b) ^ b == a
    ensures a ^ b == 0 ==> a == b
    ensures a ^ a == 0 && a ^ 0 == a
  {
  }

  lemma XorAssociates(a: bv32, b: bv32, c: bv32)
    ensures Xor(Xor(a, b), c) == Xor(a, Xor(b, c))
  {
  }

  lemma XorCommutes(a: bv32, b: bv32)
    ensures Xor(a, b) == Xor(b, a)
  {
  }

  lemma XorSwap(a: bv32, b: bv32, c: bv32, d: bv32)
    ensures Xor(Xor(a, b), Xor(c, d)) == Xor(Xor(a, c), Xor(b, d))
  {
    hide Xor;
    XorAssociates(Xor(a, b), c, d);
    XorAssociates(a, b, c);
    XorCommutes(b, c);
    XorAssociates(a, c, b);
    XorAssociates(Xor(a, c), b, d);
  }

  lemma XorCancel(a: bv32, b: bv32)
    ensures Xor(Xor(a, b), b) == a
  {
    BitwiseXor(a, b, 0, 0);
  }

  lemma XorZero(a: bv32, b: bv32)
    ensures Xor(a, 0) == a
    ensures Xor(a, b) == 0 <==> a == b
  {
    BitwiseXor(a, b, 0, 0);
    assert Xor(a, b) == a ^ b && Xor(a, 0) == a ^ 0;
    hide Xor;
  }

  lemma ShiftLinear(a: bv32, b: bv32)
    ensures ShiftBit(Xor(a, b)) == Xor(ShiftBit(a), ShiftBit(b))
  {
    ShiftedXor(a, b);
    XorWithFeedback(a >> 1, b >> 1, 0xEDB88320);
  }

  lemma ShiftInjective(a: bv32, b: bv32)
    requires ShiftBit(a) == ShiftBit(b)
    ensures a == b
  {
  }

  // ----- eight bit-steps are one table step

  /** Absorbing the lowest bit of `w` and shifting leaves the other bits of `w` to be absorbed. */
  lemma AbsorbLowBit(r: bv32, w: bv32)
    ensures ShiftBit(Xor(r, w)) == Xor(BitStep(r, w & 1 == 1), w >> 1)
  {
    hide ShiftBit;
    var low, rest := BitValue(w & 1 == 1), w & 0xFFFF_FFFE;
    assert Xor(r, w) == Xor(Xor(r, low), rest) by { SplitLowBit(r, w); }
    ShiftLinear(Xor(r, low), rest);
    assert ShiftBit(rest) == w >> 1 by { ShiftEven(w); }
    hide Xor;
  }

  lemma SplitLowBit(r: bv32, w: bv32)
    ensures Xor(r, w) == Xor(Xor(r, BitValue(w & 1 == 1)), w & 0xFFFF_FFFE)
  {
  }

  lemma ShiftEven(w: bv32)
    ensures ShiftBit(w & 0xFFFF_FFFE) == w >> 1
  {
  }

  function ShiftMany(r: bv32, n: nat): bv32
    decreases n
  {
    if n == 0 then r else ShiftMany(ShiftBit(r), n - 1)
  }

  function DropLow(w: bv32, n: nat): bv32
    decreases n
  {
    if n == 0 then w else DropLow(w >> 1, n - 1)
  }

  /** Feeding the low bits of `w` one by one equals adding all of `w` first and shifting afterwards. */
  lemma {:induction false} FeedLowBits(r: bv32, w: bv32, n: nat)
    ensures FeedBits(r, LowBits(w, n)) == Xor(ShiftMany(Xor(r, w), n), DropLow(w, n))
    decreases n
  {
    hide ShiftBit, Xor, BitStep;
    if n == 0 {
      XorCancel(r, w);
    } else {
      AbsorbLowBit(r, w);
      FeedLowBits(BitStep(r, w & 1 == 1), w >> 1, n - 1);
      assert LowBits(w, n)[1..] == LowBits(w >> 1, n - 1);
    }
  }

  /** Eight shifts move the high bytes down and replace the low byte by its image. */
  lemma ShiftSplitsLowByte(x: bv32)
    ensures ShiftMany(x, 8) == Xor(x >> 8, Shift8(x & 0xFF))
  {
    var high, low := x & 0xFFFF_FF00, x & 0xFF;
    HighBytesOnly(x);
    FeedLowBits(low, high, 8);
    FeedLowBits(low, 0, 8);
    hide ShiftBit;
    assert ShiftMany(low, 8) == Shift8(low) by { hide Xor; }
    XorZero(low, 0);
    XorZero(ShiftMany(low, 8), 0);
    XorCancel(ShiftMany(x, 8), x >> 8);
    hide Xor;
  }

  lemma HighBytesOnly(x: bv32)
    ensures var high := x & 0xFFFF_FF00;
            && LowBits(high, 8) == LowBits(0, 8) && DropLow(high, 8) == x >> 8
            && Xor(x & 0xFF, high) == x && DropLow(0, 8) == 0
  {
  }

  /** The table index used for byte `b`: the low byte of the register plus `b`. */
  function TableIndex(r: bv32, b: bv8): bv8 {
    (r & 0xFF) as bv8 ^ b
  }

  function TableStep(r: bv32, b: bv8): bv32 {
    Xor(r >> 8, CRCTable(TableIndex(r, b)))
  }

  /** One table step over byte `b` equals feeding the eight bits of `b`. */
  lemma TableStepIsEightBitSteps(r: bv32, b: bv8)
    ensures FeedBits(r, LowBits(b as bv32, 8)) == TableStep(r, b)
  {
    hide ShiftBit, Shift8, FeedBits, LowBits, ShiftMany, BitStep, Row0;
    var x := Xor(r, b as bv32);
    ByteLane(r, b);
    FeedLowBits(r, b as bv32, 8);
    ShiftSplitsLowByte(x);
    XorZero(ShiftMany(x, 8), 0);
    hide Xor, TableIndex, DropLow;
    assert CRCTable(TableIndex(r, b)) == Shift8(x & 0xFF);
  }

  lemma ByteLane(r: bv32, b: bv8)
    ensures Xor(r, b as bv32) & 0xFF == TableIndex(r, b) as bv32
    ensures Xor(r, b as bv32) >> 8 == r >> 8 && DropLow(b as bv32, 8) == 0
  {
  }

  lemma {:induction false} FeedAppend(r: bv32, a: seq<bool>, b: seq<bool>)
    ensures FeedBits(r, a + b) == FeedBits(FeedBits(r, a), b)
    decreases |a|
  {
    if a == [] {
      assert a + b == b;
    } else {
      FeedAppend(BitStep(r, a[0]), a[1..], b);
      assert (a + b)[1..] == a[1..] + b;
    }
  }

  lemma {:induction false} MessageBitsAppend(a: seq<bv8>, b: seq<bv8>)
    ensures MessageBits(a + b) == MessageBits(a) + MessageBits(b)
  {
    hide LowBits;
    if a == [] {
      assert a + b == b;
    } else {
      MessageBitsAppend(a[1..], b);
      assert (a + b)[1..] == a[1..] + b;
      Regroup(LowBits(a[0] as bv32, 8), MessageBits(a[1..]), MessageBits(b));
    }
  }

  lemma Regroup(x: seq<bool>, y: seq<bool>, z: seq<bool>)
    ensures x + (y + z) == (x + y) + z
  {
  }

  /** The register after one more byte. */
  lemma RegisterNext(msg: seq<bv8>, b: bv8)
    ensures Register(msg + [b]) == TableStep(Register(msg), b)
  {
    hide LowBits, TableStep;
    var bits := LowBits(b as bv32, 8);
    MessageBitsAppend(msg, [b]);
    assert MessageBits([b]) == bits + MessageBits([]) == bits;
    FeedAppend(0xFFFF_FFFF, MessageBits(msg), bits);
    TableStepIsEightBitSteps(Register(msg), b);
  }

  // The 64-bit arithmetic of the loop: `(UINT8) Crc ^ *pt`, `(Crc >> 8) ^ entry`, `(UINT32) Crc`.

  function WideIndex(wide: bv64, b: bv8): bv8 {
    (wide & 0xFF) as bv8 ^ b
  }

  function WideNext(wide: bv64, entry: bv32): bv64 {
    (wide >> 8) ^ entry as bv64
  }

  function WideResult(wide: bv64): bv32 {
    ((wide ^ 0xFFFF_FFFF) & 0xFFFF_FFFF) as bv32
  }

  function Widen(r: bv32): bv64 {
    r as bv64
  }

  /** While the 64-bit variable holds a 32-bit register, its step is the 32-bit step. */
  lemma WideStep(r: bv32, b: bv8, entry: bv32)
    ensures WideIndex(Widen(r), b) == TableIndex(r, b)
    ensures WideNext(Widen(r), entry) == Widen(Xor(r >> 8, entry))
    ensures WideResult(Widen(r)) == r ^ 0xFFFF_FFFF
  {
  }

  lemma WideRegisterNext(msg: seq<bv8>, b: bv8)
    ensures var wide := Widen(Register(msg));
            WideNext(wide, CRCTable(WideIndex(wide, b))) == Widen(Register(msg + [b]))
  {
    RegisterNext(msg, b);
    WideStep(Register(msg), b, CRCTable(TableIndex(Register(msg), b)));
    hide Register, Widen, WideNext, WideIndex, Xor, TableIndex;
  }

  lemma WideCrc(msg: seq<bv8>)
    ensures WideResult(Widen(Register(msg))) == Crc(msg)
  {
    WideStep(Register(msg), 0, 0);
    hide Register, WideResult, Widen;
  }

  /** The table loop computes the bit-serial CRC of the first `size` bytes. */
  method CalculateCrc(pt: array<bv8>, size: nat) returns (result: bv32)
    requires size <= pt.Length
    ensures result == Crc(pt[..size])
  {
    var crc: bv64 := 0xFFFF_FFFF;
    var i := 0;
    assert crc == Widen(Register([])) && pt[..0] == [];
    hide *;
    while i < size
      invariant 0 <= i <= size
      invariant crc == Widen(Register(pt[..i]))
    {
      WideRegisterNext(pt[..i], pt[i]);
      assert pt[..i] + [pt[i]] == pt[..i + 1];
      crc := WideNext(crc, CRCTable(WideIndex(crc, pt[i])));
      i := i + 1;
    }
    WideCrc(pt[..i]);
    result := WideResult(crc);
  }
}
