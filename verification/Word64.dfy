/**
 Unsigned 64-bit arithmetic with its wrap-around, and the alignment macros of
 inc/dragonstub/linux (math.h, align.h, const.h). Masking with a power of two minus one is written
 as a remainder. Powers of two divide the word, and what they round up is the least multiple not below it.
 */
module Word64 {

  const TWO32: nat := 0x1_0000_0000
  const TWO64: nat := 0x1_0000_0000_0000_0000

  type u64 = x: int | 0 <= x < 0x1_0000_0000_0000_0000

  type byte = x: nat | x < 256

  type CHAR16 = c: nat | c < 0x1_0000

  const UINT64_MAX: u64 := TWO64 - 1

  function Wrap(x: int): u64 {
    x % 0x1_0000_0000_0000_0000
  }

  /** Conversion of an integer to a 32-bit int. */
  function ToInt32(x: int): int {
    var y := x % 0x1_0000_0000;
    if y < TWO32 / 2 then y else y - TWO32
  }

  /** Conversion to a 64-bit int. */
  function ToInt64(x: int): (y: int)
    ensures -0x8000_0000_0000_0000 <= y < 0x8000_0000_0000_0000
  {
    var y := Wrap(x);
    if y < TWO64 / 2 then y else y - TWO64
  }

  /** `x & ~(a - 1)`: round_down and ALIGN_DOWN. */
  function AlignDown(x: u64, a: u64): u64
    requires a > 0
  {
    x - x % a
  }

  /** `(x + (a - 1)) & ~(a - 1)`: ALIGN_UP. */
  function AlignUp(x: u64, a: u64): u64
    requires a > 0
  {
    AlignDown(Wrap(x + (a - 1)), a)
  }

  /** `((x - 1) | (a - 1)) + 1`: round_up. */
  function RoundUp(x: u64, a: u64): u64
    requires a > 0
  {
    Wrap(AlignDown(Wrap(x - 1), a) + (a - 1) + 1)
  }

  predicate DividesWord(a: nat)
    requires a > 0
  {
    TWO64 % a == 0
  }

  /** The least multiple of `a` at or above `x`, on unbounded integers. */
  function Ceiling(x: nat, a: nat): (c: nat)
    requires a > 0
    ensures x <= c < x + a && c % a == 0
  {
    CeilingMultiple(x, a);
    (x + a - 1) / a * a
  }

  lemma CeilingMultiple(x: nat, a: nat)
    requires a > 0
    ensures var c := (x + a - 1) / a * a; x <= c < x + a && c % a == 0
  {
    var q, r := (x + a - 1) / a, (x + a - 1) % a;
    assert x + a - 1 == q * a + r;
    MultipleMod(q, a);
  }

  lemma MultipleMod(q: int, a: nat)
    requires a > 0
    ensures (q * a) % a == 0
  {
    RemainderUnique(q * a, a, q, 0);
  }

  lemma MultipleBounds(k: int, a: nat)
    ensures k >= 1 ==> k * a >= a
    ensures k <= -1 ==> k * a <= 0 - a
  {
  }

  /** Quotient and remainder are unique. */
  lemma RemainderUnique(x: int, a: nat, q: int, r: nat)
    requires a > 0 && x == q * a + r && r < a
    ensures x / a == q && x % a == r
  {
    var q' := x / a;
    assert (q - q') * a == x % a - r;
    MultipleBounds(q - q', a);
  }

  lemma MultiplesApart(p: int, q: int, a: nat, x: int)
    requires a > 0 && x <= p * a < x + a && x <= q * a < x + a
    ensures p == q
  {
    assert (p - q) * a == p * a - q * a;
    MultipleBounds(p - q, a);
  }

  lemma CeilingIs(x: nat, a: nat) returns (p: nat)
    requires a > 0
    ensures Ceiling(x, a) == p * a
  {
    p := (x + a - 1) / a;
  }

  lemma CeilingUnique(x: nat, a: nat, c: nat)
    requires a > 0 && x <= c < x + a && c % a == 0
    ensures c == Ceiling(x, a)
  {
    hide Ceiling;
    var p := CeilingIs(x, a);
    var q := c / a;
    assert c == q * a;
    MultiplesApart(q, p, a, x);
  }

  lemma CeilingMonotone(x: nat, y: nat, a: nat)
    requires a > 0 && x <= y
    ensures Ceiling(x, a) <= Ceiling(y, a)
  {
    hide Ceiling;
    if Ceiling(x, a) > Ceiling(y, a) {
      CeilingUnique(x, a, Ceiling(y, a));
    }
  }

  lemma CeilingLeast(x: nat, a: nat, c: nat)
    requires a > 0 && x <= c && c % a == 0
    ensures Ceiling(x, a) <= c
  {
    CeilingMonotone(x, c, a);
    CeilingUnique(c, a, c);
  }

  /** ALIGN_UP is the ceiling while it does not wrap. */
  lemma AlignUpIsCeiling(x: u64, a: u64)
    requires a > 0 && x + a - 1 < TWO64
    ensures AlignUp(x, a) == Ceiling(x, a)
  {
    hide AlignDown, Wrap;
    var y := x + a - 1;
    WrapSmall(y);
    var q := AlignDownIs(y, a);
    RemainderUnique(y, a, q, y - q * a);
  }

  lemma CeilingWithinWord(x: u64, a: u64)
    requires a > 0 && DividesWord(a)
    ensures Ceiling(x, a) <= TWO64
    ensures Ceiling(x, a) == TWO64 <==> x > TWO64 - a
  {
    var n, k := TWO64 / a, (x + a - 1) / a;
    assert (k - n) * a == Ceiling(x, a) - TWO64;
    MultipleBounds(k - n, a);
  }

  lemma MaskedDecrement(x: u64, a: u64)
    requires a > 0 && DividesWord(a)
    ensures AlignDown(Wrap(x - 1), a) + a == if x == 0 then TWO64 else Ceiling(x, a)
  {
    if x == 0 {
      var n := TWO64 / a;
      assert TWO64 - 1 == (n - 1) * a + (a - 1);
      RemainderUnique(TWO64 - 1, a, n - 1, a - 1);
    } else {
      var q := (x - 1) / a;
      assert AlignDown(x - 1, a) + a == (q + 1) * a;
      MultipleMod(q + 1, a);
      CeilingUnique(x, a, (q + 1) * a);
    }
  }

  /** round_up is the ceiling, except that it wraps to zero exactly for sizes above 2^64 - a. */
  lemma RoundUpIsCeiling(x: u64, a: u64)
    requires a > 0 && DividesWord(a)
    ensures RoundUp(x, a) == if x > TWO64 - a then 0 else Ceiling(x, a)
  {
    MaskedDecrement(x, a);
    CeilingWithinWord(x, a);
    if x == 0 {
      CeilingUnique(0, a, 0);
    }
  }

  lemma AlignDownUnique(x: u64, a: u64, q: int)
    requires a > 0 && q * a <= x < q * a + a
    ensures AlignDown(x, a) == q * a
  {
    RemainderUnique(x, a, q, x - q * a);
  }

  lemma AlignDownIs(x: u64, a: u64) returns (q: nat)
    requires a > 0
    ensures AlignDown(x, a) == q * a <= x < q * a + a
    ensures x < a ==> q == 0
  {
    q := x / a;
    if x < a {
      RemainderUnique(x, a, 0, x);
    }
  }

  lemma MultiplesNext(p: int, q: int, a: nat)
    requires p * a < q * a
    ensures p * a + a <= q * a
  {
    assert (q - p) * a == q * a - p * a;
    MultipleBounds(q - p, a);
  }

  lemma NextMultiple(q: int, a: nat)
    ensures (q + 1) * a == q * a + a
  {
  }

  lemma MultipleOfPages(q: nat, a: nat)
    requires a % 0x1000 == 0
    ensures (q * a) % 0x1000 == 0
  {
    var h := a / 0x1000;
    assert q * a == 0x1000 * (q * h);
  }

  /** ALIGN_UP of an address whose aligned address below is `down`. */
  lemma AlignUpFromBelow(x: u64, a: u64)
    requires a > 0 && DividesWord(a)
    ensures var down := AlignDown(x, a);
      && down + a <= TWO64
      && AlignUp(x, a) == if x == down then x else Wrap(down + a)
  {
    var n := TWO64 / a;
    assert TWO64 == n * a;
    AlignUpCases(x, a, n);
  }

  lemma AlignUpAligned(x: u64, a: u64)
    requires a > 0
    ensures AlignDown(AlignUp(x, a), a) == AlignUp(x, a)
  {
    hide AlignDown;
    var q := AlignDownIs(Wrap(x + (a - 1)), a);
    AlignDownUnique(q * a, a, q);
  }

  lemma AlignUpCases(x: u64, a: u64, n: nat)
    requires a > 0 && TWO64 == n * a
    ensures var down := AlignDown(x, a);
      && down + a <= TWO64
      && AlignUp(x, a) == if x == down then x else Wrap(down + a)
  {
    hide AlignDown, Wrap;
    var q := AlignDownIs(x, a);
    MultiplesNext(q, n, a);
    var y := x + a - 1;
    WrapSum(x, a - 1);
    WrapSum(q * a, a);
    if x == q * a {
      AlignDownUnique(y, a, q);
    } else if y < TWO64 {
      NextMultiple(q, a);
      AlignDownUnique(y, a, q + 1);
    } else {
      NextMultiple(q, a);
      if q * a + a < TWO64 {
        MultiplesNext(q + 1, n, a);
      }
      AlignDownUnique(y - TWO64, a, 0);
    }
  }

  lemma WrapAdd(x: int, y: int)
    ensures Wrap(Wrap(x) + y) == Wrap(x + y)
  {
  }

  lemma WrapSmall(x: nat)
    requires x < TWO64
    ensures Wrap(x) == x
  {
  }

  lemma WrapSum(x: u64, y: u64)
    ensures Wrap(x + y) == if x + y < TWO64 then x + y else x + y - TWO64
  {
  }

  // ----- powers of two

  predicate IsPow2(a: nat) {
    a == 1 || (a > 0 && a % 2 == 0 && IsPow2(a / 2))
  }

  lemma Regroup(x: int, y: int, z: int)
    ensures (x * y) * z == x * (y * z)
  {
  }

  lemma Double(x: nat)
    ensures IsPow2(x) ==> IsPow2(2 * x)
  {
  }

  lemma {:induction false} Pow2Product(a: nat, b: nat)
    requires IsPow2(a) && IsPow2(b)
    ensures a * b >= 0 && IsPow2(a * b)
  {
    if a > 1 {
      Pow2Product(a / 2, b);
      Regroup(2, a / 2, b);
      Double(a / 2 * b);
    }
  }

  /** Of two powers of two the smaller divides the larger, and the quotient is a power of two. */
  lemma {:induction false} Pow2Quotient(a: nat, b: nat) returns (q: nat)
    requires IsPow2(a) && IsPow2(b) && a <= b
    ensures b == q * a && IsPow2(q) && b / a == q && b % a == 0
  {
    if a == 1 {
      q := b;
    } else {
      q := Pow2Quotient(a / 2, b / 2);
      Regroup(q, a / 2, 2);
      RemainderUnique(b, a, q, 0);
    }
  }

  lemma WordIsPow2()
    ensures IsPow2(TWO64)
  {
    Pow2Product(0x10, 0x10);
    Pow2Product(0x100, 0x100);
    Pow2Product(0x1_0000, 0x1_0000);
    Pow2Product(0x1_0000_0000, 0x1_0000_0000);
  }

  lemma Pow2Word(a: u64)
    requires IsPow2(a)
    ensures DividesWord(a)
  {
    hide IsPow2;
    WordIsPow2();
    var _ := Pow2Quotient(a, TWO64);
  }
}
