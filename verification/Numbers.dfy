/**
 Numbers as text: ValueToHex and ValueToString of lib/print.c, xtoi and Atoi of lib/str.c.
 */
module Numbers {
  import opened Word64

  const ZERO: CHAR16 := 48
  const MINUS: CHAR16 := 45
  const COMMA: CHAR16 := 44
  const BLANK: CHAR16 := 32

  // ----- digits

  function HexDigit(d: nat): CHAR16
    requires d < 16
  {
    if d < 10 then 48 + d else 55 + d
  }

  /** The digits of `v` without leading zeros, none for 0. */
  function HexDigits(v: nat): seq<CHAR16> {
    if v == 0 then [] else HexDigits(v / 16) + [HexDigit(v % 16)]
  }

  function DecDigits(v: nat): seq<CHAR16> {
    if v == 0 then [] else DecDigits(v / 10) + [48 + v % 10]
  }

  function HexText(v: nat): seq<CHAR16> {
    if v == 0 then [ZERO] else HexDigits(v)
  }

  function Pow16(n: nat): nat {
    if n == 0 then 1 else 16 * Pow16(n - 1)
  }

  function Pow10(n: nat): nat {
    if n == 0 then 1 else 10 * Pow10(n - 1)
  }

  lemma {:induction false} HexLength(v: nat, n: nat)
    requires v < Pow16(n)
    ensures |HexDigits(v)| <= n
    decreases n
  {
    if v > 0 {
      HexLength(v / 16, n - 1);
    }
  }

  lemma {:induction false} DecLength(v: nat, n: nat)
    requires v < Pow10(n)
    ensures |DecDigits(v)| <= n
    decreases n
  {
    if v > 0 {
      DecLength(v / 10, n - 1);
    }
  }

  lemma WordLengths(v: u64)
    ensures |HexDigits(v)| <= 16 && |DecDigits(v)| <= 20
  {
    hide HexDigits, DecDigits;
    assert Pow16(4) == 0x1_0000;
    assert Pow16(8) == 0x1_0000_0000;
    assert Pow16(12) == 0x1_0000_0000_0000;
    assert Pow16(16) == 0x1_0000_0000_0000_0000;
    HexLength(v, 16);
    assert Pow10(4) == 10000;
    assert Pow10(8) == 1_0000_0000;
    assert Pow10(12) == 1_0000_0000_0000;
    assert Pow10(16) == 1_0000_0000_0000_0000;
    assert Pow10(20) == 1_0000_0000_0000_0000_0000;
    DecLength(v, 20);
  }

  // ----- printing

  /** At `at` the buffer holds the NUL-terminated text `s`. */
  ghost predicate HoldsText(buffer: array<CHAR16>, at: nat, s: seq<CHAR16>)
    reads buffer
  {
    at + |s| < buffer.Length && buffer[at + |s|] == 0 && forall k: nat | k < |s| :: buffer[at + k] == s[k]
  }

  /** Nothing but the text and its NUL was written. */
  twostate predicate OnlyText(buffer: array<CHAR16>, at: nat, s: seq<CHAR16>)
    reads buffer
  {
    forall k | 0 <= k < buffer.Length && !(at <= k <= at + |s|) :: buffer[k] == old(buffer[k])
  }

  method ValueToHex(buffer: array<CHAR16>, at: nat, v0: u64)
    requires at + |HexText(v0)| < buffer.Length
    modifies buffer
    ensures HoldsText(buffer, at, HexText(v0)) && OnlyText(buffer, at, HexText(v0))
  {
    hide HexDigits, HexDigit;
    if v0 == 0 {
      buffer[at], buffer[at + 1] := ZERO, 0;
      return;
    }
    WordLengths(v0);
    NoDigits();
    ghost var d := HexDigits(v0);
    var str := new CHAR16[30];
    var n, v := 0, v0;
    while v != 0
      modifies str
      invariant n + |HexDigits(v)| == |d|
      invariant HexDigits(v) == d[..|d| - n]
      invariant forall k: nat | k < n :: str[k] == d[|d| - 1 - k]
    {
      HexStep(v);
      str[n] := HexDigit(v % 16);
      n, v := n + 1, v / 16;
    }
    var p := 0;
    while n != 0
      invariant p + n == |d|
      invariant forall k: nat | k < n :: str[k] == d[|d| - 1 - k]
      invariant forall k: nat | k < p :: buffer[at + k] == d[k]
      invariant forall k | 0 <= k < buffer.Length && !(at <= k <= at + |d|) :: buffer[k] == old(buffer[k])
    {
      n := n - 1;
      buffer[at + p] := str[n];
      p := p + 1;
    }
    buffer[at + p] := 0;
  }

  lemma NoDigits()
    ensures HexDigits(0) == [] && DecDigits(0) == []
  {
  }

  lemma HexStep(v: nat)
    requires v > 0
    ensures var d := HexDigits(v); d != [] && d[|d| - 1] == HexDigit(v % 16) && HexDigits(v / 16) == d[..|d| - 1]
  {
  }

  lemma DecStep(v: nat)
    requires v > 0
    ensures var d := DecDigits(v); d != [] && d[|d| - 1] == 48 + v % 10 && DecDigits(v / 10) == d[..|d| - 1]
  {
  }

  /** Digits with a comma before each group of three, counted from the right. */
  function Grouped(d: seq<CHAR16>): seq<CHAR16>
    decreases |d|
  {
    if |d| <= 3 then d else Grouped(d[..|d| - 3]) + [COMMA] + d[|d| - 3..]
  }

  function DecText(v: int, comma: bool): seq<CHAR16> {
    var m := if v < 0 then -v else v;
    if v == 0 then [ZERO]
    else (if v < 0 then [MINUS] else []) + if comma then Grouped(DecDigits(m)) else DecDigits(m)
  }

  /** The output of the printing loop after `k` digits of `d`. */
  function Output(d: seq<CHAR16>, k: nat, comma: bool): seq<CHAR16>
    requires k <= |d|
  {
    if k == 0 then []
    else
      var before := Output(d, k - 1, comma);
      (if comma && k > 1 && (|d| - k + 1) % 3 == 0 then before + [COMMA] else before) + [d[k - 1]]
  }

  lemma ThreeLess(n: nat)
    requires n >= 3
    ensures (n - 3) % 3 == n % 3
  {
  }

  lemma {:induction false} OutputPrefix(d: seq<CHAR16>, k: nat)
    requires |d| >= 3 && k <= |d| - 3
    ensures Output(d, k, true) == Output(d[..|d| - 3], k, true)
  {
    if k > 0 {
      var e := d[..|d| - 3];
      OutputPrefix(d, k - 1);
      OutputStep(d, k - 1, true);
      OutputStep(e, k - 1, true);
      assert e[k - 1] == d[k - 1];
      ThreeLess(|d| - (k - 1));
    }
  }

  lemma {:induction false} OutputGrouped(d: seq<CHAR16>)
    ensures Output(d, |d|, true) == Grouped(d)
    decreases |d|
  {
    hide Output, Grouped;
    var n := |d|;
    GroupedIs(d);
    NoOutput(d);
    if n > 3 {
      OutputPrefix(d, n - 3);
      OutputGrouped(d[..n - 3]);
    }
    if n >= 3 {
      LastThree(d);
    } else if n == 2 {
      OutputStep(d, 0, true);
      OutputStep(d, 1, true);
    } else if n == 1 {
      OutputStep(d, 0, true);
    }
  }

  lemma LastThree(d: seq<CHAR16>)
    requires |d| >= 3
    ensures Output(d, |d|, true)
         == (if |d| > 3 then Output(d, |d| - 3, true) + [COMMA] else Output(d, |d| - 3, true)) + d[|d| - 3..]
  {
    hide Output;
    var n := |d|;
    OutputStep(d, n - 3, true);
    OutputStep(d, n - 2, true);
    OutputStep(d, n - 1, true);
    ThreeMore(if n > 3 then Output(d, n - 3, true) + [COMMA] else Output(d, n - 3, true), d[n - 3..]);
  }

  lemma ThreeMore(s: seq<CHAR16>, t: seq<CHAR16>)
    requires |t| == 3
    ensures s + [t[0]] + [t[1]] + [t[2]] == s + t
  {
  }

  lemma NoOutput(d: seq<CHAR16>)
    ensures Output(d, 0, true) == []
  {
  }

  lemma {:induction false} OutputPlain(d: seq<CHAR16>, k: nat)
    requires k <= |d|
    ensures Output(d, k, false) == d[..k]
  {
    if k > 0 {
      OutputPlain(d, k - 1);
    }
  }

  lemma {:induction false} OutputLength(d: seq<CHAR16>, k: nat, comma: bool)
    requires k <= |d|
    ensures k <= |Output(d, k, comma)| <= 2 * k
  {
    if k > 0 {
      OutputLength(d, k - 1, comma);
    }
  }

  lemma {:induction false} OutputGrows(d: seq<CHAR16>, k: nat, comma: bool)
    requires k <= |d|
    ensures |Output(d, k, comma)| <= |Output(d, |d|, comma)|
    decreases |d| - k
  {
    if k < |d| {
      OutputGrows(d, k + 1, comma);
    }
  }

  /** The counter before the next digit, after `k` of `n` digits. */
  predicate Counter(c: nat, k: nat, n: nat, comma: bool) {
    if !comma then c == 1000 - k
    else if k == 0 then c == if n % 3 == 0 then 4 else n % 3 + 1
    else c == (n - k) % 3 + 1
  }

  method PutDigits(buffer: array<CHAR16>, at: nat, str: array<CHAR16>, n0: nat, comma: bool, ghost d: seq<CHAR16>)
    returns (end: nat)
    requires buffer != str && n0 == |d| <= 20 && n0 <= str.Length && at + |Output(d, n0, comma)| <= buffer.Length
    requires forall k: nat | k < n0 :: str[k] == d[n0 - 1 - k]
    modifies buffer
    ensures end == at + |Output(d, n0, comma)| <= at + 40
    ensures forall k: nat | k < |Output(d, n0, comma)| :: buffer[at + k] == Output(d, n0, comma)[k]
    ensures forall k | 0 <= k < buffer.Length && !(at <= k < end) :: buffer[k] == old(buffer[k])
  {
    hide Output;
    var c: nat := (if comma then (if n0 % 3 == 0 then 3 else n0 % 3) else 999) + 1;
    var n: nat := n0;
    ghost var out: seq<CHAR16> := Output(d, 0, comma);
    OutputLength(d, 0, comma);
    OutputGrows(d, 0, comma);
    end := at;
    while n != 0
      invariant n <= n0 && out == Output(d, n0 - n, comma) && |out| <= 2 * (n0 - n) && end == at + |out|
      invariant |out| <= |Output(d, n0, comma)|
      invariant n > 0 ==> Counter(c, n0 - n, n0, comma)
      invariant forall k: nat | k < |out| :: buffer[at + k] == out[k]
      invariant forall k | 0 <= k < buffer.Length && !(at <= k < end) :: buffer[k] == old(buffer[k])
    {
      ghost var k := n0 - n;
      CounterStep(c, k, n0, comma);
      OutputStep(d, k, comma);
      OutputLength(d, k + 1, comma);
      OutputGrows(d, k + 1, comma);
      out := Output(d, k + 1, comma);
      c := c - 1;
      if c == 0 {
        buffer[end] := COMMA;
        end := end + 1;
        c := 3;
      }
      n := n - 1;
      buffer[end] := str[n];
      end := end + 1;
    }
  }

  lemma CounterStep(c: nat, k: nat, n: nat, comma: bool)
    requires k < n <= 20 && Counter(c, k, n, comma)
    ensures c > 0 && (c == 1 <==> comma && k > 0 && (n - k) % 3 == 0)
    ensures k + 1 < n ==> Counter(if c == 1 then 3 else c - 1, k + 1, n, comma)
  {
  }

  lemma OutputStep(d: seq<CHAR16>, k: nat, comma: bool)
    requires k < |d|
    ensures Output(d, k + 1, comma)
         == (if comma && k > 0 && (|d| - k) % 3 == 0 then Output(d, k, comma) + [COMMA]
              else Output(d, k, comma)) + [d[k]]
  {
  }

  /** The first loop of ValueToString: the digits, last one first. */
  method CollectDigits(v0: u64) returns (str: array<CHAR16>, n: nat)
    ensures fresh(str) && str.Length == 40 && n == |DecDigits(v0)| <= 20
    ensures forall k: nat | k < n :: str[k] == DecDigits(v0)[n - 1 - k]
  {
    hide DecDigits;
    WordLengths(v0);
    NoDigits();
    ghost var d := DecDigits(v0);
    str := new CHAR16[40];
    n := 0;
    var v := v0;
    while v != 0
      invariant n + |DecDigits(v)| == |d|
      invariant DecDigits(v) == d[..|d| - n]
      invariant forall k: nat | k < n :: str[k] == d[|d| - 1 - k]
    {
      DecStep(v);
      str[n] := v % 10 + 48;
      n, v := n + 1, v / 10;
    }
  }

  /** `v` is a signed 64-bit number; the negation of the least one wraps to itself, which reads as its magnitude. */
  method ValueToString(buffer: array<CHAR16>, at: nat, comma: bool, v0: int)
    requires -0x8000_0000_0000_0000 <= v0 < 0x8000_0000_0000_0000 && at + |DecText(v0, comma)| < buffer.Length
    modifies buffer
    ensures HoldsText(buffer, at, DecText(v0, comma)) && OnlyText(buffer, at, DecText(v0, comma))
  {
    hide DecDigits, Output, DecText;
    TextOfDigits(v0, comma);
    if v0 == 0 {
      buffer[at], buffer[at + 1] := ZERO, 0;
      return;
    }
    var p := at;
    var v: u64 := if v0 < 0 then Wrap(-v0) else v0;
    ghost var d := DecDigits(v);
    if v0 < 0 {
      buffer[p] := MINUS;
      p := p + 1;
    }
    var str, n := CollectDigits(v);
    ghost var start, text := p, DecText(v0, comma);
    p := PutDigits(buffer, p, str, n, comma, d);
    buffer[p] := 0;
    forall k: nat | k < |text| ensures buffer[at + k] == text[k] {
      if k >= start - at {
        assert buffer[start + (k - (start - at))] == Output(d, |d|, comma)[k - (start - at)];
      }
    }
  }

  lemma TextOfDigits(v: int, comma: bool)
    ensures var d := DecDigits(if v < 0 then -v else v);
      DecText(v, comma) == if v == 0 then [ZERO] else (if v < 0 then [MINUS] else []) + Output(d, |d|, comma)
  {
    hide DecDigits, Grouped, Output;
    var d := DecDigits(if v < 0 then -v else v);
    if comma {
      OutputGrouped(d);
    } else {
      OutputPlain(d, |d|);
    }
  }

  // ----- reading

  function SkipBlanks(s: seq<CHAR16>): seq<CHAR16> {
    if s != [] && s[0] == BLANK then SkipBlanks(s[1..]) else s
  }

  predicate IsDec(c: CHAR16) {
    48 <= c <= 57
  }

  predicate IsHex(c: CHAR16) {
    IsDec(c) || 65 <= c <= 70 || 97 <= c <= 102
  }

  function HexValue(c: CHAR16): nat
    requires IsHex(c)
  {
    if c >= 97 then c as int - 87 else if c >= 65 then c as int - 55 else c as int - 48
  }

  /** The longest prefix of characters that are digits. */
  function DigitPrefix(s: seq<CHAR16>, hex: bool): (d: seq<CHAR16>)
    ensures d <= s && forall k | 0 <= k < |d| :: IsHex(d[k]) && (!hex ==> IsDec(d[k]))
    ensures |d| < |s| ==> !(if hex then IsHex(s[|d|]) else IsDec(s[|d|]))
  {
    if s != [] && (if hex then IsHex(s[0]) else IsDec(s[0])) then [s[0]] + DigitPrefix(s[1..], hex) else []
  }

  function Number(d: seq<CHAR16>, base: nat): nat
    requires forall k | 0 <= k < |d| :: IsHex(d[k])
  {
    if d == [] then 0 else base * Number(d[..|d| - 1], base) + HexValue(d[|d| - 1])
  }

  /** The number at the head of a text, modulo 2^64. */
  function XtoiOf(s: seq<CHAR16>): u64 {
    Wrap(Number(DigitPrefix(SkipBlanks(s), true), 16))
  }

  function AtoiOf(s: seq<CHAR16>): u64 {
    Wrap(Number(DigitPrefix(SkipBlanks(s), false), 10))
  }

  method Blanks(str: seq<CHAR16>) returns (i: nat)
    ensures i <= |str| && SkipBlanks(str) == str[i..]
  {
    i := 0;
    assert str[0..] == str;
    while i < |str| && str[i] == BLANK
      invariant i <= |str| && SkipBlanks(str) == SkipBlanks(str[i..])
    {
      assert str[i..][1..] == str[i + 1..];
      i := i + 1;
    }
  }

  lemma NumberNext(d: seq<CHAR16>, k: nat, base: nat, u: u64)
    requires k < |d| && (base == 16 || base == 10) && forall i | 0 <= i < |d| :: IsHex(d[i])
    requires u == Wrap(Number(d[..k], base))
    ensures Wrap(u * base + HexValue(d[k])) == Wrap(Number(d[..k + 1], base))
  {
    hide HexValue;
    var x := Number(d[..k], base);
    assert d[..k + 1][..k] == d[..k];
    if base == 16 {
      WrapTimes16(x, HexValue(d[k]));
    } else {
      WrapTimes10(x, HexValue(d[k]));
    }
  }

  lemma WrapMultiple(z: int, q: int)
    ensures Wrap(z + 0x1_0000_0000_0000_0000 * q) == Wrap(z)
  {
  }

  lemma WrapTimes16(x: nat, y: nat)
    ensures Wrap(Wrap(x) * 16 + y) == Wrap(16 * x + y)
  {
    var q := x / 0x1_0000_0000_0000_0000;
    WrapMultiple(Wrap(x) * 16 + y, 16 * q);
  }

  lemma WrapTimes10(x: nat, y: nat)
    ensures Wrap(Wrap(x) * 10 + y) == Wrap(10 * x + y)
  {
    var q := x / 0x1_0000_0000_0000_0000;
    WrapMultiple(Wrap(x) * 10 + y, 10 * q);
  }

  method Xtoi(str: seq<CHAR16>) returns (u: u64)
    ensures u == XtoiOf(str)
  {
    hide Number, DigitPrefix, SkipBlanks, Wrap;
    var start := Blanks(str);
    ghost var d := DigitPrefix(str[start..], true);
    u := 0;
    var k: nat := 0;
    NoNumber(d);
    while start + k < |str|
      invariant k <= |d| && u == Wrap(Number(d[..k], 16))
    {
      var c := str[start + k];
      if c >= 97 && c <= 102 {
        c := c - 32;
      }
      if (c >= 48 && c <= 57) || (c >= 65 && c <= 70) {
        NumberNext(d, k, 16, u);
        ShiftOr(u, if c >= 65 then c as int - 55 else c as int - 48);
        u := Wrap(u * 16) + if c >= 65 then c as int - 55 else c as int - 48;
        k := k + 1;
      } else {
        break;
      }
    }
    assert d[..k] == d;
  }

  /** Shifting a 64-bit word by four and filling in a digit. */
  lemma ShiftOr(u: u64, x: nat)
    requires x < 16
    ensures Wrap(u * 16) + x == Wrap(u * 16 + x)
  {
  }

  lemma NoNumber(d: seq<CHAR16>)
    ensures Wrap(0) == 0 && Number(d[..0], 16) == 0 && Number(d[..0], 10) == 0
  {
  }

  method Atoi(str: seq<CHAR16>) returns (u: u64)
    ensures u == AtoiOf(str)
  {
    hide Number, DigitPrefix, SkipBlanks, Wrap;
    var start := Blanks(str);
    ghost var d := DigitPrefix(str[start..], false);
    u := 0;
    var k: nat := 0;
    NoNumber(d);
    while start + k < |str|
      invariant k <= |d| && u == Wrap(Number(d[..k], 10))
    {
      var c := str[start + k];
      if c >= 48 && c <= 57 {
        NumberNext(d, k, 10, u);
        u := Wrap(u * 10 + (c as int - 48));
        k := k + 1;
      } else {
        break;
      }
    }
    assert d[..k] == d;
  }

  // ----- laws

  lemma {:induction false} HexDigitsRead(v: nat)
    ensures forall k | 0 <= k < |HexDigits(v)| :: IsHex(HexDigits(v)[k])
    ensures Number(HexDigits(v), 16) == v
  {
    hide HexDigit, HexValue;
    if v > 0 {
      HexDigitReads(v % 16);
      HexDigitsRead(v / 16);
      assert HexDigits(v)[..|HexDigits(v)| - 1] == HexDigits(v / 16);
    }
  }

  lemma HexDigitReads(d: nat)
    requires d < 16
    ensures IsHex(HexDigit(d)) && HexValue(HexDigit(d)) == d
  {
  }

  lemma {:induction false} DecDigitsRead(v: nat)
    ensures forall k | 0 <= k < |DecDigits(v)| :: IsDec(DecDigits(v)[k])
    ensures Number(DecDigits(v), 10) == v
  {
    if v > 0 {
      DecDigitsRead(v / 10);
      assert DecDigits(v)[..|DecDigits(v)| - 1] == DecDigits(v / 10);
    }
  }

  lemma {:induction false} AllDigits(s: seq<CHAR16>, hex: bool)
    requires forall k | 0 <= k < |s| :: if hex then IsHex(s[k]) else IsDec(s[k])
    ensures DigitPrefix(s, hex) == s && SkipBlanks(s) == s
  {
    if s != [] {
      AllDigits(s[1..], hex);
    }
  }

  /** MAIN: reading back a printed number, for every 64-bit value. */
  lemma HexRoundTrip(v: u64)
    ensures XtoiOf(HexText(v)) == v
  {
    hide HexDigits, DigitPrefix, SkipBlanks, Number;
    if v == 0 {
      ZeroReads();
    } else {
      HexDigitsRead(v);
      AllDigits(HexDigits(v), true);
    }
  }

  lemma ZeroReads()
    ensures XtoiOf([ZERO]) == 0 && AtoiOf([ZERO]) == 0
  {
    AllDigits([ZERO], true);
    AllDigits([ZERO], false);
    assert [ZERO][..0] == [] && Number([], 16) == 0 && Number([], 10) == 0;
    assert Number([ZERO], 16) == 0 && Number([ZERO], 10) == 0;
  }

  /** MAIN: the same in decimal for every signed 64-bit value; a negative one reads back as its magnitude
      behind the sign, the least one included, and as 0 with it. */
  lemma DecRoundTrip(v: int)
    requires -0x8000_0000_0000_0000 <= v < 0x8000_0000_0000_0000
    ensures v >= 0 ==> AtoiOf(DecText(v, false)) == v
    ensures v < 0 ==> AtoiOf(DecText(v, false)[1..]) == -v && AtoiOf(DecText(v, false)) == 0
  {
    hide DecDigits, DigitPrefix, SkipBlanks, Number;
    if v == 0 {
      ZeroReads();
    } else {
      var m := if v < 0 then -v else v;
      DecDigitsRead(m);
      AllDigits(DecDigits(m), false);
      if v < 0 {
        assert DecText(v, false)[1..] == DecDigits(m);
        NoDigitsInFront(DecText(v, false));
      } else {
        assert DecText(v, false) == DecDigits(m);
      }
    }
  }

  lemma NoDigitsInFront(s: seq<CHAR16>)
    requires s != [] && s[0] == MINUS
    ensures AtoiOf(s) == 0
  {
    assert SkipBlanks(s) == s && DigitPrefix(s, false) == [];
  }

  function WithoutCommas(s: seq<CHAR16>): seq<CHAR16> {
    if s == [] then [] else WithoutCommas(s[..|s| - 1]) + if s[|s| - 1] == COMMA then [] else [s[|s| - 1]]
  }

  lemma {:induction false} WithoutCommasAppend(s: seq<CHAR16>, t: seq<CHAR16>)
    requires COMMA !in t
    ensures WithoutCommas(s + t) == WithoutCommas(s) + t
    decreases |t|
  {
    if t == [] {
      assert s + t == s;
    } else {
      assert (s + t)[..|s| + |t| - 1] == s + t[..|t| - 1];
      WithoutCommasAppend(s, t[..|t| - 1]);
    }
  }

  /** MAIN: the commas of a grouped number sit exactly at every fourth place from the right; without
      them the digits remain. */
  lemma {:induction false} CommasEveryThree(d: seq<CHAR16>)
    requires COMMA !in d
    ensures WithoutCommas(Grouped(d)) == d
    ensures forall i | 0 <= i < |Grouped(d)| :: Grouped(d)[i] == COMMA <==> (|Grouped(d)| - i) % 4 == 0
    decreases |d|
  {
    hide WithoutCommas, Grouped;
    GroupedIs(d);
    if |d| <= 3 {
      NothingDeleted(d);
    } else {
      CommasEveryThree(d[..|d| - 3]);
      OneGroupMore(Grouped(d[..|d| - 3]), d[|d| - 3..]);
      assert d[..|d| - 3] + d[|d| - 3..] == d;
    }
  }

  lemma GroupedIs(d: seq<CHAR16>)
    ensures Grouped(d) == if |d| <= 3 then d else Grouped(d[..|d| - 3]) + [COMMA] + d[|d| - 3..]
  {
  }

  lemma NothingDeleted(d: seq<CHAR16>)
    requires COMMA !in d
    ensures WithoutCommas(d) == d
  {
    WithoutCommasAppend([], d);
    assert [] + d == d;
  }

  lemma OneGroupMore(g: seq<CHAR16>, last: seq<CHAR16>)
    requires COMMA !in last && |last| == 3
    requires forall i | 0 <= i < |g| :: g[i] == COMMA <==> (|g| - i) % 4 == 0
    ensures var t := g + [COMMA] + last;
      && WithoutCommas(t) == WithoutCommas(g) + last
      && forall i | 0 <= i < |t| :: t[i] == COMMA <==> (|t| - i) % 4 == 0
  {
    var f := g + [COMMA];
    assert f[..|g|] == g;
    WithoutCommasAppend(f, last);
    hide WithoutCommas;
    var t := f + last;
    forall i | 0 <= i < |t| ensures t[i] == COMMA <==> (|t| - i) % 4 == 0 {
      if i < |g| {
        assert t[i] == g[i] && |t| - i == |g| - i + 4;
      } else if i > |g| {
        assert t[i] == last[i - |g| - 1];
      }
    }
  }

  // ----- what numbers look like

  lemma {:induction false} HexDigitsShape(v: nat)
    ensures forall k | 0 <= k < |HexDigits(v)| :: 48 <= HexDigits(v)[k] <= 57 || 65 <= HexDigits(v)[k] <= 70
    ensures v > 0 ==> HexDigits(v) != [] && HexDigits(v)[0] != 48
    decreases v
  {
    if v > 0 {
      HexDigitsShape(v / 16);
    }
  }

  /** MAIN: hexadecimal numbers have digits and capital letters only, and no zero in front but the number 0. */
  lemma HexShape(v: nat)
    ensures forall k | 0 <= k < |HexText(v)| :: 48 <= HexText(v)[k] <= 57 || 65 <= HexText(v)[k] <= 70
    ensures if v == 0 then HexText(v) == [48] else HexText(v) != [] && HexText(v)[0] != 48
  {
    HexDigitsShape(v);
  }

  lemma {:induction false} DecDigitsShape(v: nat)
    ensures forall k | 0 <= k < |DecDigits(v)| :: 48 <= DecDigits(v)[k] <= 57
    ensures v > 0 ==> DecDigits(v) != [] && DecDigits(v)[0] != 48
    decreases v
  {
    if v > 0 {
      DecDigitsShape(v / 10);
    }
  }

  /** MAIN: decimal numbers have digits only, no zero in front but the number 0, and a minus sign exactly below it. */
  lemma DecShape(v: int, comma: bool)
    ensures v < 0 ==> DecText(v, comma) == [45] + DecText(-v, comma)
    ensures v >= 0 ==> forall k | 0 <= k < |DecText(v, false)| :: 48 <= DecText(v, false)[k] <= 57
    ensures if v == 0 then DecText(v, comma) == [48] else DecText(v, false) != [] && DecText(v, false)[0] != 48
  {
    hide DecDigits, Grouped;
    var m := if v < 0 then -v else v;
    DecDigitsShape(m);
    assert [] + DecDigits(m) == DecDigits(m) && [] + Grouped(DecDigits(m)) == Grouped(DecDigits(m));
  }

  // ----- what is read

  /** Digits, up to the first character that is none. */
  lemma PrefixIs(s: seq<CHAR16>, d: seq<CHAR16>, hex: bool)
    requires d <= s && forall k | 0 <= k < |d| :: if hex then IsHex(d[k]) else IsDec(d[k])
    requires |d| < |s| ==> !(if hex then IsHex(s[|d|]) else IsDec(s[|d|]))
    ensures DigitPrefix(s, hex) == d
  {
    hide DigitPrefix, IsHex, IsDec;
    var p := DigitPrefix(s, hex);
    assert p == s[..|p|] && d == s[..|d|];
    assert forall k | 0 <= k < |d| :: s[k] == d[k];
    assert forall k | 0 <= k < |p| :: s[k] == p[k];
  }

  function Spaces(n: nat): (s: seq<CHAR16>)
    ensures |s| == n && forall k | 0 <= k < n :: s[k] == 32
  {
    seq(n, _ => 32)
  }

  lemma {:induction false} SpacesSkipped(n: nat, t: seq<CHAR16>)
    requires t == [] || t[0] != 32
    ensures SkipBlanks(Spaces(n) + t) == t
    decreases n
  {
    if n > 0 {
      assert (Spaces(n) + t)[1..] == Spaces(n - 1) + t;
      SpacesSkipped(n - 1, t);
    } else {
      assert Spaces(n) + t == t;
    }
  }

  /** MAIN: xtoi reads every number, with any blanks in front and anything behind it that is no hexadecimal
      digit, modulo 2^64. */
  lemma XtoiReads(v: nat, n: nat, tail: seq<CHAR16>)
    requires tail == [] || !(48 <= tail[0] <= 57 || 65 <= tail[0] <= 70 || 97 <= tail[0] <= 102)
    ensures XtoiOf(Spaces(n) + HexText(v) + tail) == v % 0x1_0000_0000_0000_0000
  {
    hide HexText, Number, DigitPrefix, SkipBlanks, Spaces;
    HexShape(v);
    assert Spaces(n) + HexText(v) + tail == Spaces(n) + (HexText(v) + tail);
    SpacesSkipped(n, HexText(v) + tail);
    PrefixIs(HexText(v) + tail, HexText(v), true);
    HexTextNumber(v);
  }

  lemma HexTextNumber(v: nat)
    ensures (forall k | 0 <= k < |HexText(v)| :: IsHex(HexText(v)[k])) && Number(HexText(v), 16) == v
  {
    hide HexDigits;
    HexDigitsRead(v);
    NumberOfZero();
  }

  lemma NumberOfZero()
    ensures Number([48], 16) == 0 && Number([48], 10) == 0
  {
    assert [48][..0] == [];
  }

  /** MAIN: so does Atoi for decimal numbers. */
  lemma AtoiReads(v: nat, n: nat, tail: seq<CHAR16>)
    requires tail == [] || !(48 <= tail[0] <= 57)
    ensures AtoiOf(Spaces(n) + DecText(v, false) + tail) == v % 0x1_0000_0000_0000_0000
  {
    hide DecText, Number, DigitPrefix, SkipBlanks, Spaces;
    DecShape(v, false);
    assert Spaces(n) + DecText(v, false) + tail == Spaces(n) + (DecText(v, false) + tail);
    SpacesSkipped(n, DecText(v, false) + tail);
    PrefixIs(DecText(v, false) + tail, DecText(v, false), false);
    DecTextNumber(v);
  }

  lemma DecTextNumber(v: nat)
    ensures (forall k | 0 <= k < |DecText(v, false)| :: IsHex(DecText(v, false)[k]))
    ensures Number(DecText(v, false), 10) == v
  {
    hide DecDigits;
    DecDigitsRead(v);
    NumberOfZero();
    assert [] + DecDigits(v) == DecDigits(v);
  }

  /** The text with `a` to `f` as capital letters. */
  function Capital(s: seq<CHAR16>): (t: seq<CHAR16>)
    ensures |t| == |s|
    ensures forall k | 0 <= k < |s| :: t[k] == if 97 <= s[k] <= 102 then s[k] - 32 else s[k]
  {
    seq(|s|, k requires 0 <= k < |s| => if 97 <= s[k] <= 102 then s[k] - 32 else s[k])
  }

  lemma {:induction false} CapitalNumber(d: seq<CHAR16>)
    requires forall k | 0 <= k < |d| :: IsHex(d[k])
    ensures Number(Capital(d), 16) == Number(d, 16)
  {
    if d != [] {
      CapitalNumber(d[..|d| - 1]);
      assert Capital(d)[..|d| - 1] == Capital(d[..|d| - 1]);
    }
  }

  lemma {:induction false} CapitalSkip(s: seq<CHAR16>)
    ensures SkipBlanks(Capital(s)) == Capital(SkipBlanks(s))
    decreases |s|
  {
    if s != [] && s[0] == 32 {
      assert Capital(s)[1..] == Capital(s[1..]);
      CapitalSkip(s[1..]);
    }
  }

  /** MAIN: small and capital letters are the same digits to xtoi. */
  lemma XtoiIgnoresCase(s: seq<CHAR16>)
    ensures XtoiOf(Capital(s)) == XtoiOf(s)
  {
    hide SkipBlanks, Number, Capital;
    CapitalSkip(s);
    var t := SkipBlanks(s);
    var d := DigitPrefix(t, true);
    assert Capital(d) <= Capital(t);
    PrefixIs(Capital(t), Capital(d), true);
    CapitalNumber(d);
  }
}
