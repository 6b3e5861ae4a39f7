/**
 Word-at-a-time scans (lib/init.c, apps/lib/string.c): memchr and __strchrnul look at eight bytes at
 once and still find what a byte-by-byte scan finds. Memory is an array that starts at an address
 divisible by eight; words are little-endian.
 */
module WordScan {
  import opened Wrappers

  const ONES: bv64 := 0x0101_0101_0101_0101
  const HIGHS: bv64 := 0x8080_8080_8080_8080

  /** HASZERO. */
  function HasZero(x: bv64): bv64 {
    (x - ONES) & !x & HIGHS
  }

  /** `ONES * c`. */
  function Broadcast(c: bv8): bv64 {
    ONES * (c as bv64)
  }

  /** Byte `j` of a word. */
  function ByteOf(w: bv64, j: nat): bv64
    requires j < 8
  {
    match j
    case 0 => w & 0xFF
    case 1 => (w >> 8) & 0xFF
    case 2 => (w >> 16) & 0xFF
    case 3 => (w >> 24) & 0xFF
    case 4 => (w >> 32) & 0xFF
    case 5 => (w >> 40) & 0xFF
    case 6 => (w >> 48) & 0xFF
    case _ => w >> 56
  }

  /** A byte below the others. */
  function Over(b: bv8, rest: bv64): bv64 {
    (b as bv64) | (rest << 8)
  }

  function Word(b0: bv8, b1: bv8, b2: bv8, b3: bv8, b4: bv8, b5: bv8, b6: bv8, b7: bv8): bv64 {
    Over(b0, Over(b1, Over(b2, Over(b3, Over(b4, Over(b5, Over(b6, b7 as bv64)))))))
  }

  /** `*w`. */
  function WordAt(m: array<bv8>, i: nat): bv64
    requires i % 8 == 0 && i + 8 <= m.Length
    reads m
  {
    Word(m[i], m[i + 1], m[i + 2], m[i + 3], m[i + 4], m[i + 5], m[i + 6], m[i + 7])
  }

  /** Words are little-endian: the byte at the lowest address is the lowest. */
  lemma LittleEndian(b0: bv8, b1: bv8, b2: bv8, b3: bv8, b4: bv8, b5: bv8, b6: bv8, b7: bv8)
    ensures var w := Word(b0, b1, b2, b3, b4, b5, b6, b7);
      && ByteOf(w, 0) == b0 as bv64 && ByteOf(w, 1) == b1 as bv64 && ByteOf(w, 2) == b2 as bv64
      && ByteOf(w, 3) == b3 as bv64 && ByteOf(w, 4) == b4 as bv64 && ByteOf(w, 5) == b5 as bv64
      && ByteOf(w, 6) == b6 as bv64 && ByteOf(w, 7) == b7 as bv64
  {
  }

  /** HASZERO is non-zero exactly when some byte of the word is zero. */
  lemma HasZeroExactly(x: bv64)
    ensures HasZero(x) != 0 <==> exists j: nat | j < 8 :: ByteOf(x, j) == 0
  {
    hide HasZero, ByteOf;
    ZeroBytes(x);
    if j: nat :| j < 8 && ByteOf(x, j) == 0 {
      assert j in {0, 1, 2, 3, 4, 5, 6, 7};
    }
  }

  lemma ZeroBytes(x: bv64)
    ensures HasZero(x) != 0
      <==> (ByteOf(x, 0) == 0 || ByteOf(x, 1) == 0 || ByteOf(x, 2) == 0 || ByteOf(x, 3) == 0
        || ByteOf(x, 4) == 0 || ByteOf(x, 5) == 0 || ByteOf(x, 6) == 0 || ByteOf(x, 7) == 0)
  {
  }

  /** Every byte of the broadcast is `c`. */
  lemma BroadcastBytes(c: bv8, j: nat)
    requires j < 8
    ensures ByteOf(Broadcast(c), j) == c as bv64
  {
  }

  /** What HASZERO is asked in both scans: has the word a byte `c`? */
  predicate Flagged(w: bv64, c: bv8) {
    HasZero(w ^ Broadcast(c)) != 0
  }

  /** MAIN: the answer is yes exactly when one of the eight bytes equals `c`. */
  lemma WordTest(b0: bv8, b1: bv8, b2: bv8, b3: bv8, b4: bv8, b5: bv8, b6: bv8, b7: bv8, c: bv8)
    ensures Flagged(Word(b0, b1, b2, b3, b4, b5, b6, b7), c)
      <==> (b0 == c || b1 == c || b2 == c || b3 == c || b4 == c || b5 == c || b6 == c || b7 == c)
  {
    hide HasZero, Broadcast, Word, Xor, Xor8, Flagged;
    XorWords(b0, b1, b2, b3, b4, b5, b6, b7, c);
    BroadcastIs(c);
    FlaggedIs(Word(b0, b1, b2, b3, b4, b5, b6, b7), c);
    ZeroInWord(Xor8(b0, c), Xor8(b1, c), Xor8(b2, c), Xor8(b3, c), Xor8(b4, c), Xor8(b5, c), Xor8(b6, c), Xor8(b7, c));
    XorIsZero(b0, c);
    XorIsZero(b1, c);
    XorIsZero(b2, c);
    XorIsZero(b3, c);
    XorIsZero(b4, c);
    XorIsZero(b5, c);
    XorIsZero(b6, c);
    XorIsZero(b7, c);
  }

  lemma FlaggedIs(w: bv64, c: bv8)
    ensures Flagged(w, c) <==> HasZero(Xor(w, Broadcast(c))) != 0
  {
    hide HasZero, Broadcast;
  }

  function Xor8(b: bv8, c: bv8): bv8 {
    b ^ c
  }

  lemma XorIsZero(b: bv8, c: bv8)
    ensures Xor8(b, c) == 0 <==> b == c
  {
  }

  lemma ZeroInWord(b0: bv8, b1: bv8, b2: bv8, b3: bv8, b4: bv8, b5: bv8, b6: bv8, b7: bv8)
    ensures HasZero(Word(b0, b1, b2, b3, b4, b5, b6, b7)) != 0
      <==> (b0 == 0 || b1 == 0 || b2 == 0 || b3 == 0 || b4 == 0 || b5 == 0 || b6 == 0 || b7 == 0)
  {
  }

  lemma BroadcastIs(c: bv8)
    ensures Broadcast(c) == Word(c, c, c, c, c, c, c, c)
  {
  }

  function Xor(v: bv64, w: bv64): bv64 {
    v ^ w
  }

  lemma XorOver(b: bv8, x: bv64, c: bv8, y: bv64)
    ensures Xor(Over(b, x), Over(c, y)) == Over(Xor8(b, c), Xor(x, y))
  {
  }

  lemma XorTop(b: bv8, c: bv8)
    ensures Xor(b as bv64, c as bv64) == Xor8(b, c) as bv64
  {
  }

  /** Words are xored byte by byte. */
  lemma XorWords(b0: bv8, b1: bv8, b2: bv8, b3: bv8, b4: bv8, b5: bv8, b6: bv8, b7: bv8, c: bv8)
    ensures Xor(Word(b0, b1, b2, b3, b4, b5, b6, b7), Word(c, c, c, c, c, c, c, c))
      == Word(Xor8(b0, c), Xor8(b1, c), Xor8(b2, c), Xor8(b3, c), Xor8(b4, c), Xor8(b5, c), Xor8(b6, c), Xor8(b7, c))
  {
    hide Over, Xor, Xor8;
    var y6 := Over(c, c as bv64);
    var y4 := Over(c, Over(c, y6));
    var y2 := Over(c, Over(c, y4));
    var x6 := Over(b6, b7 as bv64);
    var x4 := Over(b4, Over(b5, x6));
    var x2 := Over(b2, Over(b3, x4));
    XorTop(b7, c);
    XorOver(b6, b7 as bv64, c, c as bv64);
    XorOver(b5, x6, c, y6);
    XorOver(b4, Over(b5, x6), c, Over(c, y6));
    XorOver(b3, x4, c, y4);
    XorOver(b2, Over(b3, x4), c, Over(c, y4));
    XorOver(b1, x2, c, y2);
    XorOver(b0, Over(b1, x2), c, Over(c, y2));
  }

  /** No byte of a word that fails the test equals `c`. */
  lemma NoMatch(m: array<bv8>, i: nat, c: bv8, k: nat)
    requires i % 8 == 0 && i + 8 <= m.Length && i <= k < i + 8
    requires HasZero(WordAt(m, i) ^ Broadcast(c)) == 0
    ensures m[k] != c
  {
    hide HasZero, Broadcast, Word;
    WordTest(m[i], m[i + 1], m[i + 2], m[i + 3], m[i + 4], m[i + 5], m[i + 6], m[i + 7], c);
    assert k - i in {0, 1, 2, 3, 4, 5, 6, 7};
  }

  /** No byte of a word without HASZERO is zero. */
  lemma NoZero(m: array<bv8>, i: nat, k: nat)
    requires i % 8 == 0 && i + 8 <= m.Length && i <= k < i + 8
    requires HasZero(WordAt(m, i)) == 0
    ensures m[k] != 0
  {
    hide HasZero, Word;
    ZeroInWord(m[i], m[i + 1], m[i + 2], m[i + 3], m[i + 4], m[i + 5], m[i + 6], m[i + 7]);
    assert k - i in {0, 1, 2, 3, 4, 5, 6, 7};
  }

  /** MAIN: memchr finds the first of `n` bytes that equals `c`, and reads no byte behind them. */
  method Memchr(m: array<bv8>, src: nat, c: int, n0: nat) returns (found: Option<nat>)
    requires src + n0 <= m.Length
    ensures found.Some? ==> src <= found.value < src + n0 && m[found.value] == (c % 256) as bv8
    ensures found.Some? ==> forall k | src <= k < found.value :: m[k] != (c % 256) as bv8
    ensures found.None? ==> forall k | src <= k < src + n0 :: m[k] != (c % 256) as bv8
  {
    hide HasZero, Broadcast, WordAt, AsByte;
    var s: nat, n: nat, b := src, n0, AsByte(c);
    ByteIs(c);
    while s % 8 != 0 && n != 0 && m[s] != b
      invariant src <= s && s + n == src + n0
      invariant forall k | src <= k < s :: m[k] != b
      decreases n
    {
      s, n := s + 1, n - 1;
    }
    if n != 0 && m[s] != b {
      var k := Broadcast(b);
      while n >= 8 && HasZero(WordAt(m, s) ^ k) == 0
        invariant src <= s && s + n == src + n0 && s % 8 == 0
        invariant forall k | src <= k < s :: m[k] != b
      {
        forall j: nat | s <= j < s + 8 ensures m[j] != b {
          NoMatch(m, s, b, j);
        }
        s, n := s + 8, n - 8;
      }
    }
    while n != 0 && m[s] != b
      invariant src <= s && s + n == src + n0
      invariant forall k | src <= k < s :: m[k] != b
      decreases n
    {
      s, n := s + 1, n - 1;
    }
    found := if n != 0 then Some(s) else None;
  }

  /** Conversion to unsigned char. */
  function AsByte(c: int): bv8 {
    (c % 256) as bv8
  }

  lemma ByteIs(c: int)
    ensures AsByte(c) == (c % 256) as bv8
  {
  }

  /** No terminator and no `c` before `t`. */
  ghost predicate Before(m: array<bv8>, s: nat, t: nat, c: bv8)
    requires t <= m.Length
    reads m
  {
    forall k | s <= k < t :: m[k] != 0 && m[k] != c
  }

  /** strlen. */
  method Strlen(m: array<bv8>, s: nat, ghost end: nat) returns (n: nat)
    requires s <= end < m.Length && m[end] == 0
    ensures s + n <= end && m[s + n] == 0 && Before(m, s, s + n, 0)
    ensures forall k | s <= k < s + n :: m[k] != 0
  {
    n := 0;
    while m[s + n] != 0
      invariant s + n <= end && Before(m, s, s + n, 0)
      decreases end - s - n
    {
      n := n + 1;
    }
  }

  /** MAIN: __strchrnul finds the first `c` in a string, or else its terminator. The words of the string
      are readable as a whole. */
  method Strchrnul(m: array<bv8>, s0: nat, c: int, ghost end: nat) returns (s: nat)
    requires m.Length % 8 == 0
    requires s0 <= end < m.Length && m[end] == 0
    ensures s0 <= s <= end && (m[s] == 0 || m[s] == (c % 256) as bv8)
    ensures forall k | s0 <= k < s :: m[k] != 0 && m[k] != (c % 256) as bv8
  {
    hide HasZero, Broadcast, WordAt, AsByte;
    var b := AsByte(c);
    ByteIs(c);
    if b == 0 {
      var n := Strlen(m, s0, end);
      return s0 + n;
    }
    s := s0;
    while s % 8 != 0
      invariant s0 <= s <= end && Before(m, s0, s, b)
      decreases end - s
    {
      if m[s] == 0 || m[s] == b {
        return;
      }
      s := s + 1;
    }
    var k := Broadcast(b);
    while HasZero(WordAt(m, s)) == 0 && HasZero(WordAt(m, s) ^ k) == 0
      invariant s0 <= s <= end && s % 8 == 0 && Before(m, s0, s, b)
      decreases end - s
    {
      forall j: nat | s <= j < s + 8 ensures m[j] != 0 && m[j] != b {
        NoZero(m, s, j);
        NoMatch(m, s, b, j);
      }
      s := s + 8;
    }
    while m[s] != 0 && m[s] != b
      invariant s0 <= s <= end && Before(m, s0, s, b)
      decreases end - s
    {
      s := s + 1;
    }
  }
}
