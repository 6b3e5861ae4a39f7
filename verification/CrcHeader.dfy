/**
 The CRC32 field of an EFI table header (lib/crc.c): setting it, checking it, and what a check
 that succeeds rules out. A header is its bytes in memory.
 */
module CrcHeader {
  import opened Crc32
  import CrcBurst
  import CrcDivision

  /** sizeof(EFI_TABLE_HEADER) up to the end of the CRC32 field: HeaderSize is the little-endian word at offset 12
      and CRC32 the one at offset 16 (inc/efiapi.h). */
  const CRC_END: nat := 20

  function Load32(b0: bv8, b1: bv8, b2: bv8, b3: bv8): bv32 {
    (b0 as bv32) | (b1 as bv32 << 8) | (b2 as bv32 << 16) | (b3 as bv32 << 24)
  }

  function LowByte(w: bv32): bv8 {
    (w & 0xFF) as bv8
  }

  function HighBytes(w: bv32): bv32 {
    w >> 8
  }

  function Store32(w: bv32): (bytes: seq<bv8>)
    ensures |bytes| == 4
    ensures Load32(bytes[0], bytes[1], bytes[2], bytes[3]) == w
  {
    [LowByte(w), LowByte(HighBytes(w)), LowByte(HighBytes(HighBytes(w))),
     LowByte(HighBytes(HighBytes(HighBytes(w))))]
  }

  function HeaderSize(h: seq<bv8>): nat
    requires CRC_END <= |h|
  {
    Load32(h[12], h[13], h[14], h[15]) as nat
  }

  function StoredCrc(h: seq<bv8>): bv32
    requires CRC_END <= |h|
  {
    Load32(h[16], h[17], h[18], h[19])
  }

  /** The header with `crc` in its CRC32 field and every other byte kept. */
  function WithCrc(h: seq<bv8>, crc: bv32): (h': seq<bv8>)
    requires CRC_END <= |h|
    ensures |h'| == |h| && StoredCrc(h') == crc
    ensures h'[..16] == h[..16] && h'[20..] == h[20..]
  {
    h[..16] + Store32(crc) + h[20..]
  }

  /** The bytes a CRC over `size` bytes covers: the header with its CRC32 field cleared. */
  function Covered(h: seq<bv8>, size: nat): (bytes: seq<bv8>)
    requires CRC_END <= |h| && size <= |h|
    ensures |bytes| == size
  {
    WithCrc(h, 0)[..size]
  }

  /** The sizes CheckCrcAltSize looks at all; a zero `maxSize` means no limit. */
  predicate SizeInRange(maxSize: nat, size: nat) {
    size != 0 && (maxSize == 0 || size <= maxSize)
  }

  predicate Accepts(h: seq<bv8>, maxSize: nat, size: nat)
    requires CRC_END <= |h|
    requires SizeInRange(maxSize, size) ==> size <= |h|
  {
    SizeInRange(maxSize, size) && StoredCrc(h) == Crc(Covered(h, size))
  }

  method WriteCrc(hdr: array<bv8>, crc: bv32)
    requires CRC_END <= hdr.Length
    modifies hdr
    ensures hdr[..] == WithCrc(old(hdr[..]), crc)
  {
    var bytes := Store32(crc);
    hdr[16], hdr[17], hdr[18], hdr[19] := bytes[0], bytes[1], bytes[2], bytes[3];
    hide Store32;
  }

  method SetCrcAltSize(size: nat, hdr: array<bv8>)
    requires CRC_END <= hdr.Length && size <= hdr.Length
    modifies hdr
    ensures hdr[..] == WithCrc(old(hdr[..]), Crc(Covered(old(hdr[..]), size)))
  {
    WriteCrc(hdr, 0);
    assert hdr[..size] == hdr[..][..size];
    var crc := CalculateCrc(hdr, size);
    WriteCrc(hdr, crc);
    hide Crc, Store32, Load32;
  }

  method SetCrc(hdr: array<bv8>)
    requires CRC_END <= hdr.Length && HeaderSize(hdr[..]) <= hdr.Length
    modifies hdr
    ensures hdr[..] == WithCrc(old(hdr[..]), Crc(Covered(old(hdr[..]), HeaderSize(old(hdr[..])))))
  {
    var size := HeaderSize(hdr[..]);
    hide HeaderSize, Load32, Covered, WithCrc;
    SetCrcAltSize(size, hdr);
  }

  method CheckCrcAltSize(maxSize: nat, size: nat, hdr: array<bv8>) returns (f: bool)
    requires CRC_END <= hdr.Length
    requires SizeInRange(maxSize, size) ==> size <= hdr.Length
    modifies hdr
    ensures hdr[..] == old(hdr[..])
    ensures f == Accepts(hdr[..], maxSize, size)
  {
    if size == 0 {
      return false;
    }
    if maxSize != 0 && size > maxSize {
      return false;
    }
    var orgCrc := StoredCrc(hdr[..]);
    WriteCrc(hdr, 0);
    assert hdr[..size] == hdr[..][..size];
    var crc := CalculateCrc(hdr, size);
    WriteCrc(hdr, orgCrc);
    RestoreCrc(old(hdr[..]));
    f := orgCrc == crc;
    hide Crc, Store32, Load32;
  }

  method CheckCrc(maxSize: nat, hdr: array<bv8>) returns (f: bool)
    requires CRC_END <= hdr.Length
    requires SizeInRange(maxSize, HeaderSize(hdr[..])) ==> HeaderSize(hdr[..]) <= hdr.Length
    modifies hdr
    ensures hdr[..] == old(hdr[..])
    ensures f == Accepts(hdr[..], maxSize, HeaderSize(hdr[..]))
  {
    var size := HeaderSize(hdr[..]);
    f := CheckCrcAltSize(maxSize, size, hdr);
  }

  /** Clearing the field and writing the old value back restores every byte. */
  lemma RestoreCrc(h: seq<bv8>)
    requires CRC_END <= |h|
    ensures WithCrc(WithCrc(h, 0), StoredCrc(h)) == h
  {
    StoreLoaded(h[16], h[17], h[18], h[19]);
    hide Store32, Load32;
    assert h[..16] + h[16..20] + h[20..] == h;
    assert h[16..20] == [h[16], h[17], h[18], h[19]];
  }

  lemma StoreLoaded(b0: bv8, b1: bv8, b2: bv8, b3: bv8)
    ensures Store32(Load32(b0, b1, b2, b3)) == [b0, b1, b2, b3]
  {
    hide Load32, LowByte, HighBytes;
    FirstLane(b0, b1, b2, b3);
    NextLanes(b0, b1, b2, b3);
    FirstLane(b1, b2, b3, 0);
    NextLanes(b1, b2, b3, 0);
    FirstLane(b2, b3, 0, 0);
    NextLanes(b2, b3, 0, 0);
    FirstLane(b3, 0, 0, 0);
  }

  lemma FirstLane(b0: bv8, b1: bv8, b2: bv8, b3: bv8)
    ensures LowByte(Load32(b0, b1, b2, b3)) == b0
  {
  }

  lemma NextLanes(b0: bv8, b1: bv8, b2: bv8, b3: bv8)
    ensures HighBytes(Load32(b0, b1, b2, b3)) == Load32(b1, b2, b3, 0)
  {
  }

  /** The four bytes are those of the word, the least significant first. */
  predicate LittleEndian(w: bv32, b0: bv8, b1: bv8, b2: bv8, b3: bv8) {
    && b0 == (w & 0xFF) as bv8 && b1 == ((w >> 8) & 0xFF) as bv8
    && b2 == ((w >> 16) & 0xFF) as bv8 && b3 == ((w >> 24) & 0xFF) as bv8
  }

  lemma LoadsLittleEndian(w: bv32, b0: bv8, b1: bv8, b2: bv8, b3: bv8)
    ensures LittleEndian(w, b0, b1, b2, b3) <==> w == Load32(b0, b1, b2, b3)
  {
    hide Load32, LittleEndian, LowByte, HighBytes;
    BytesOf(w, b0, b1, b2, b3);
    StoreLoaded(b0, b1, b2, b3);
    if Store32(w) == [b0, b1, b2, b3] {
      assert Load32(Store32(w)[0], Store32(w)[1], Store32(w)[2], Store32(w)[3]) == w;
    }
  }

  lemma ShiftsAdd(w: bv32)
    ensures (w >> 8) >> 8 == w >> 16 && ((w >> 8) >> 8) >> 8 == w >> 24
  {
  }

  lemma BytesOf(w: bv32, b0: bv8, b1: bv8, b2: bv8, b3: bv8)
    ensures LittleEndian(w, b0, b1, b2, b3) <==> Store32(w) == [b0, b1, b2, b3]
  {
    hide Load32;
    ShiftsAdd(w);
  }

  /** MAIN: exactly those headers are accepted whose size is not 0 and within the limit, if there is one, and
      whose bytes 16 to 19 hold, little-endian, the CRC of the first `size` bytes with these four cleared. */
  lemma AcceptedExactly(h: seq<bv8>, maxSize: nat, size: nat)
    requires 20 <= |h| && (size != 0 && (maxSize == 0 || size <= maxSize) ==> size <= |h|)
    ensures Accepts(h, maxSize, size) <==>
      && size != 0 && (maxSize == 0 || size <= maxSize)
      && LittleEndian(Crc((h[..16] + [0, 0, 0, 0] + h[20..])[..size]), h[16], h[17], h[18], h[19])
  {
    hide Crc, Load32, LittleEndian, Store32;
    ZeroBytes();
    if size != 0 && (maxSize == 0 || size <= maxSize) {
      assert Covered(h, size) == (h[..16] + [0, 0, 0, 0] + h[20..])[..size];
      LoadsLittleEndian(Crc(Covered(h, size)), h[16], h[17], h[18], h[19]);
    }
  }

  lemma ZeroBytes()
    ensures Store32(0) == [0, 0, 0, 0]
  {
  }

  /** HeaderSize is the little-endian word in bytes 12 to 15. */
  lemma HeaderSizeIs(h: seq<bv8>)
    requires 20 <= |h|
    ensures HeaderSize(h) < 0x1_0000_0000
    ensures LittleEndian(HeaderSize(h) as bv32, h[12], h[13], h[14], h[15])
  {
    hide Load32, LittleEndian;
    LoadsLittleEndian(HeaderSize(h) as bv32, h[12], h[13], h[14], h[15]);
  }

  /** MAIN: what SetCrcAltSize stores, CheckCrcAltSize accepts, for every size in range. */
  lemma SetThenCheck(h: seq<bv8>, maxSize: nat, size: nat)
    requires CRC_END <= |h| && size <= |h|
    ensures Accepts(WithCrc(h, Crc(Covered(h, size))), maxSize, size)
      <==> size != 0 && (maxSize == 0 || size <= maxSize)
  {
    hide Crc, Store32, Load32;
    var crc := Crc(Covered(h, size));
    assert WithCrc(WithCrc(h, crc), 0) == WithCrc(h, 0);
  }

  /** MAIN: two headers with the same stored CRC whose covered bytes differ only inside one burst of
      32 bits are not both accepted. */
  lemma BurstRejected(h1: seq<bv8>, h2: seq<bv8>, max1: nat, max2: nat, size: nat, lo: nat)
    requires |h1| == |h2| && CRC_END <= |h1| && size <= |h1|
    requires StoredCrc(h1) == StoredCrc(h2)
    requires CrcBurst.AgreeOutsideBurst(MessageBits(Covered(h1, size)), MessageBits(Covered(h2, size)), lo)
    requires Covered(h1, size) != Covered(h2, size)
    ensures !(Accepts(h1, max1, size) && Accepts(h2, max2, size))
  {
    hide Crc, Store32, Load32, StoredCrc, MessageBits;
    if MessageBits(Covered(h1, size)) == MessageBits(Covered(h2, size)) {
      MessageBitsInjective(Covered(h1, size), Covered(h2, size));
    }
    CrcBurst.BurstDetected(Covered(h1, size), Covered(h2, size), lo);
  }

  /** MAIN: the same for headers that differ in at most four consecutive bytes. */
  lemma FourBytesRejected(h1: seq<bv8>, h2: seq<bv8>, max1: nat, max2: nat, size: nat, lo: nat)
    requires |h1| == |h2| && CRC_END <= |h1| && size <= |h1|
    requires StoredCrc(h1) == StoredCrc(h2)
    requires forall i | 0 <= i < |h1| && !(lo <= i < lo + 4) :: h1[i] == h2[i]
    requires h1[..size] != h2[..size]
    ensures !(Accepts(h1, max1, size) && Accepts(h2, max2, size))
  {
    hide Crc, Store32, MessageBits;
    StoreLoaded(h1[16], h1[17], h1[18], h1[19]);
    StoreLoaded(h2[16], h2[17], h2[18], h2[19]);
    hide Load32;
    var c1, c2 := Covered(h1, size), Covered(h2, size);
    assert h1[16..20] == [h1[16], h1[17], h1[18], h1[19]] == [h2[16], h2[17], h2[18], h2[19]] == h2[16..20];
    forall i | 0 <= i < size
      ensures (h1[i] != h2[i] ==> c1[i] != c2[i]) && (!(lo <= i < lo + 4) ==> c1[i] == c2[i])
    {
      if 16 <= i < 20 {
        assert h1[i] == h1[16..20][i - 16] && h2[i] == h2[16..20][i - 16];
      }
    }
    var k :| 0 <= k < size && h1[k] != h2[k];
    assert c1[k] != c2[k];
    BytesAgree(c1, c2, lo);
    BurstRejected(h1, h2, max1, max2, size, 8 * lo);
  }

  lemma {:induction false} MessageBitsAt(msg: seq<bv8>, k: nat)
    requires k < |msg|
    ensures MessageBits(msg)[8 * k..8 * k + 8] == LowBits(msg[k] as bv32, 8)
  {
    hide LowBits;
    if k > 0 {
      MessageBitsAt(msg[1..], k - 1);
      SkipByte(LowBits(msg[0] as bv32, 8), MessageBits(msg[1..]), 8 * k);
    }
  }

  lemma SkipByte(first: seq<bool>, rest: seq<bool>, at: nat)
    requires |first| == 8 <= at && at <= |rest|
    ensures (first + rest)[at..at + 8] == rest[at - 8..at]
  {
  }

  lemma LowBitsInjective(a: bv8, b: bv8)
    requires LowBits(a as bv32, 8) == LowBits(b as bv32, 8)
    ensures a == b
  {
    var x, y := LowBits(a as bv32, 8), LowBits(b as bv32, 8);
    CrcDivision.LowByteBits(a as bv32);
    CrcDivision.LowByteBits(b as bv32);
    hide LowBits;
    assert x[0] == y[0] && x[1] == y[1] && x[2] == y[2] && x[3] == y[3];
    assert x[4] == y[4] && x[5] == y[5] && x[6] == y[6] && x[7] == y[7];
  }

  lemma MessageBitsInjective(a: seq<bv8>, b: seq<bv8>)
    requires |a| == |b| && MessageBits(a) == MessageBits(b)
    ensures a == b
  {
    hide LowBits, MessageBits;
    forall k | 0 <= k < |a|
      ensures a[k] == b[k]
    {
      MessageBitsAt(a, k);
      MessageBitsAt(b, k);
      LowBitsInjective(a[k], b[k]);
    }
  }

  lemma BytesAgree(a: seq<bv8>, b: seq<bv8>, lo: nat)
    requires |a| == |b|
    requires forall i | 0 <= i < |a| && !(lo <= i < lo + 4) :: a[i] == b[i]
    ensures CrcBurst.AgreeOutsideBurst(MessageBits(a), MessageBits(b), 8 * lo)
  {
    hide LowBits, MessageBits;
    forall i | 0 <= i < 8 * |a| && !(8 * lo <= i < 8 * lo + 32)
      ensures MessageBits(a)[i] == MessageBits(b)[i]
    {
      var k := i / 8;
      MessageBitsAt(a, k);
      MessageBitsAt(b, k);
      assert MessageBits(a)[i] == MessageBits(a)[8 * k..8 * k + 8][i - 8 * k];
      assert MessageBits(b)[i] == MessageBits(b)[8 * k..8 * k + 8][i - 8 * k];
    }
  }
}
