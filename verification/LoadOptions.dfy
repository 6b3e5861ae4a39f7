/**
 Sizing the command line (apps/helper.c): the UTF-16 load options of the image as UTF-8, cut at a space
 outside quotes if they are too long (RFC 2781, section 2.2; RFC 3629, section 3).
 */
module LoadOptions {
  import opened Word64
  import opened Wrappers
  import opened CommandLine
  import opened CommandLineLaws

  const COMMAND_LINE_SIZE: nat := 1024

  type CodePoint = c: nat | c < 0x11_0000

  const REPLACEMENT: CodePoint := 0xFFFD

  predicate High(c: CHAR16) {
    0xD800 <= c < 0xDC00
  }

  predicate Low(c: CHAR16) {
    0xDC00 <= c < 0xE000
  }

  function Pair(high: CHAR16, low: CHAR16): CodePoint
    requires High(high) && Low(low)
  {
    0x1_0000 + (high as int - 0xD800) * 0x400 + (low as int - 0xDC00)
  }

  /** The code point in front, and the number of units it takes. */
  function Head(units: seq<CHAR16>): (CodePoint, nat)
    requires units != []
  {
    if High(units[0]) && |units| > 1 && Low(units[1]) then (Pair(units[0], units[1]), 2)
    else if High(units[0]) || Low(units[0]) then (REPLACEMENT, 1)
    else (units[0], 1)
  }

  /** Where the text ends: at a NUL, at a newline, or before a high surrogate that ends the units. */
  predicate Ends(units: seq<CHAR16>) {
    units == [] || units[0] == 0 || units[0] == 10 || (High(units[0]) && |units| == 1)
  }

  function CodePoints(units: seq<CHAR16>): seq<CodePoint> {
    if Ends(units) then [] else [Head(units).0] + CodePoints(units[Head(units).1..])
  }

  /** UTF-8 of one code point. */
  function Utf8(c: CodePoint): (bytes: seq<byte>)
    ensures |bytes| == if c < 0x80 then 1 else if c < 0x800 then 2 else if c < 0x1_0000 then 3 else 4
  {
    if c < 0x80 then [c]
    else if c < 0x800 then [0xC0 + c / 0x40, 0x80 + c % 0x40]
    else if c < 0x1_0000 then [0xE0 + c / 0x1000, 0x80 + c / 0x40 % 0x40, 0x80 + c % 0x40]
    else [0xF0 + c / 0x4_0000, 0x80 + c / 0x1000 % 0x40, 0x80 + c / 0x40 % 0x40, 0x80 + c % 0x40]
  }

  function Encode(points: seq<CodePoint>): seq<byte> {
    if points == [] then [] else Utf8(points[0]) + Encode(points[1..])
  }

  /** The whole command line as UTF-8. */
  function Full(units: seq<CHAR16>): seq<byte> {
    Encode(CodePoints(units))
  }

  lemma FullUnfolds(units: seq<CHAR16>)
    ensures Full(units) == if Ends(units) then [] else Utf8(Head(units).0) + Full(units[Head(units).1..])
  {
    hide Utf8;
    if !Ends(units) {
      assert CodePoints(units)[1..] == CodePoints(units[Head(units).1..]);
    }
  }

  /** Bytes of a code point outside ASCII are neither quotes nor ASCII spaces. */
  lemma Utf8Bytes(c: CodePoint)
    ensures c >= 0x80 ==> forall k | 0 <= k < |Utf8(c)| :: Utf8(c)[k] >= 0x80
    ensures c < 0x80 ==> Utf8(c) == [c]
  {
  }

  // ----- what the whole command line says

  /** UTF-8 of all units, surrogates without a partner as U+FFFD. */
  function AllText(units: seq<CHAR16>): seq<byte> {
    if units == [] then []
    else if 0xD800 <= units[0] < 0xDC00 && |units| > 1 && 0xDC00 <= units[1] < 0xE000 then
      Utf8(0x1_0000 + (units[0] as int - 0xD800) * 0x400 + (units[1] as int - 0xDC00)) + AllText(units[2..])
    else if 0xD800 <= units[0] < 0xE000 then [0xEF, 0xBF, 0xBD] + AllText(units[1..])
    else Utf8(units[0]) + AllText(units[1..])
  }

  /** `n` units stand before the first NUL or newline, or are all there are. */
  predicate TextLength(units: seq<CHAR16>, n: nat) {
    && n <= |units| && (n < |units| ==> units[n] == 0 || units[n] == 10)
    && forall k | 0 <= k < n :: units[k] != 0 && units[k] != 10
  }

  /** MAIN: the line is the UTF-8 of all units before the first NUL or newline; without either, a high
      surrogate as the very last unit is left out. */
  lemma {:induction false} FullIsText(units: seq<CHAR16>, n: nat)
    requires TextLength(units, n)
    ensures Full(units)
         == AllText(if n == |units| > 0 && 0xD800 <= units[n - 1] < 0xDC00 then units[..n - 1] else units[..n])
    decreases |units|
  {
    hide Full, AllText, Utf8, Head, Ends;
    FullUnfolds(units);
    TextEnds(units);
    if n > 0 && !(n == |units| == 1 && 0xD800 <= units[0] < 0xDC00) {
      var m := if n == |units| > 0 && 0xD800 <= units[n - 1] < 0xDC00 then n - 1 else n;
      HeadOfPrefix(units, m);
      AllTextUnfolds(units[..m]);
      var step := Head(units).1;
      assert units[..m][step..] == units[step..][..m - step];
      TextShorter(units, n, step);
      FullIsText(units[step..], n - step);
      assert n - step > 0 ==> units[step..][n - step - 1] == units[n - 1];
    } else {
      NoText();
      assert units[..0] == [];
    }
  }

  lemma NoText()
    ensures AllText([]) == []
  {
  }

  lemma TextEnds(units: seq<CHAR16>)
    ensures Ends(units) <==>
      units == [] || units[0] == 0 || units[0] == 10 || (|units| == 1 && 0xD800 <= units[0] < 0xDC00)
  {
  }

  lemma TextShorter(units: seq<CHAR16>, n: nat, step: nat)
    requires TextLength(units, n) && step <= n
    ensures TextLength(units[step..], n - step)
  {
  }

  lemma AllTextUnfolds(units: seq<CHAR16>)
    requires units != []
    ensures AllText(units) == Utf8(Head(units).0) + AllText(units[Head(units).1..])
  {
    hide Utf8;
    ReplacementBytes();
  }

  lemma ReplacementBytes()
    ensures Utf8(REPLACEMENT) == [0xEF, 0xBF, 0xBD]
  {
  }

  /** The character in front is the same if what is cut off is not its second half. */
  lemma HeadOfPrefix(units: seq<CHAR16>, m: nat)
    requires 0 < m <= |units|
    requires m < |units| ==> !(0xDC00 <= units[m] < 0xE000)
    ensures Head(units[..m]) == Head(units) && Head(units).1 <= m
  {
    hide Pair;
  }

  /** MAIN: what follows the first NUL or newline does not matter, and the line holds neither. */
  lemma StopsAtLineEnd(a: seq<CHAR16>, z: CHAR16, b: seq<CHAR16>)
    requires z == 0 || z == 10
    ensures Full(a + [z] + b) == Full(a + [z])
    ensures (forall k | 0 <= k < |a| :: a[k] != 0 && a[k] != 10) ==> Full(a + [z]) == AllText(a)
  {
    hide Full, AllText;
    assert (a + [z])[|a|] == z;
    var n := FirstStop(a + [z]);
    FullIsText(a + [z], n);
    FullIsText(a + [z] + b, n);
    assert (a + [z] + b)[..n] == (a + [z])[..n];
    if forall k | 0 <= k < |a| :: a[k] != 0 && a[k] != 10 {
      assert n == |a| && (a + [z])[..n] == a;
    }
  }

  lemma {:induction false} FirstStop(units: seq<CHAR16>) returns (n: nat)
    requires exists k | 0 <= k < |units| :: units[k] == 0 || units[k] == 10
    ensures n < |units| && TextLength(units, n)
  {
    if units[0] == 0 || units[0] == 10 {
      n := 0;
    } else {
      assert exists k | 0 <= k < |units[1..]| :: units[1..][k] == 0 || units[1..][k] == 10;
      n := FirstStop(units[1..]);
      n := n + 1;
    }
  }

  lemma {:induction false} NoLineEnds(units: seq<CHAR16>)
    ensures 0 !in Full(units) && 10 !in Full(units)
    decreases |units|
  {
    hide Full, Utf8;
    FullUnfolds(units);
    if !Ends(units) {
      Utf8Bytes(Head(units).0);
      NoLineEnds(units[Head(units).1..]);
    }
  }

  /** The code point in front of UTF-8 text and its length, by the number of leading ones of the first byte. */
  function ReadUtf8(s: seq<byte>): (nat, nat)
    requires s != []
  {
    if s[0] < 0x80 then (s[0], 1)
    else if s[0] < 0xE0 then (s[0] as int % 0x20 * 0x40 + Low6(s, 1), 2)
    else if s[0] < 0xF0 then (s[0] as int % 0x10 * 0x1000 + Low6(s, 1) * 0x40 + Low6(s, 2), 3)
    else (s[0] as int % 8 * 0x4_0000 + Low6(s, 1) * 0x1000 + Low6(s, 2) * 0x40 + Low6(s, 3), 4)
  }

  function Low6(s: seq<byte>, k: nat): nat {
    if k < |s| then s[k] % 0x40 else 0
  }

  /** MAIN: the UTF-8 of a code point reads back, whatever follows. */
  lemma Utf8Reads(c: CodePoint, rest: seq<byte>)
    ensures ReadUtf8(Utf8(c) + rest) == (c, |Utf8(c)|)
  {
    hide Low6, Utf8;
    SixBits(c);
    FirstByte(c);
    assert (Utf8(c) + rest)[0] == Utf8(c)[0];
    if c >= 0x80 {
      Continuation(c, 1, rest);
    }
    if c >= 0x800 {
      Continuation(c, 2, rest);
    }
    if c >= 0x1_0000 {
      Continuation(c, 3, rest);
    }
  }

  /** The number of leading ones of the first byte tells the length; the rest of it is the top of the code point. */
  lemma FirstByte(c: CodePoint)
    ensures c < 0x80 ==> Utf8(c)[0] == c
    ensures 0x80 <= c < 0x800 ==> 0xC0 <= Utf8(c)[0] < 0xE0 && Utf8(c)[0] % 0x20 == c / 0x40
    ensures 0x800 <= c < 0x1_0000 ==> 0xE0 <= Utf8(c)[0] < 0xF0 && Utf8(c)[0] % 0x10 == c / 0x1000
    ensures 0x1_0000 <= c ==> 0xF0 <= Utf8(c)[0] < 0xF8 && Utf8(c)[0] % 8 == c / 0x4_0000
  {
  }

  /** Every byte behind the first is of the form 10xxxxxx and holds the next six bits. */
  lemma Continuation(c: CodePoint, k: nat, rest: seq<byte>)
    requires 0 < k < |Utf8(c)|
    ensures 0x80 <= Utf8(c)[k] < 0xC0 && Low6(Utf8(c) + rest, k) == Utf8(c)[k] - 0x80
    ensures var last := |Utf8(c)| - 1;
      Utf8(c)[k] - 0x80 == (if k == last then c else if k == last - 1 then c / 0x40 else c / 0x1000) % 0x40
  {
    assert (Utf8(c) + rest)[k] == Utf8(c)[k];
  }

  lemma SixBits(c: CodePoint)
    ensures c == c / 0x40 * 0x40 + c % 0x40
    ensures c / 0x40 == c / 0x1000 * 0x40 + c / 0x40 % 0x40
    ensures c / 0x1000 == c / 0x4_0000 * 0x40 + c / 0x1000 % 0x40
  {
  }

  // ----- truncation

  /** An ASCII space at `k`, outside quotes. */
  predicate CutPoint(s: seq<byte>, k: nat) {
    k < |s| && s[k] < 0x80 && UnquotedSpace(s, k)
  }

  /** The last cut point below `limit`, 0 if there is none. */
  predicate LastCut(s: seq<byte>, k: nat, limit: nat) {
    && (k == 0 || (k < limit && CutPoint(s, k)))
    && forall j | k < j < limit :: !CutPoint(s, j)
  }

  lemma {:induction false} QuotesAppend(s: seq<byte>, t: seq<byte>)
    requires forall k | 0 <= k < |t| :: t[k] >= 0x80
    ensures OddQuotes(s + t) == OddQuotes(s)
    decreases |t|
  {
    if t == [] {
      assert s + t == s;
    } else {
      QuotesAppend(s, t[..|t| - 1]);
      assert (s + t)[..|s| + |t| - 1] == s + t[..|t| - 1];
    }
  }

  lemma QuotesNext(s: seq<byte>, c: byte)
    ensures OddQuotes(s + [c]) == (OddQuotes(s) != (c == QUOTE))
  {
    assert (s + [c])[..|s|] == s;
  }

  lemma CutPointKept(s: seq<byte>, t: seq<byte>, k: nat)
    requires k < |s|
    ensures CutPoint(s + t, k) == CutPoint(s, k)
  {
    hide OddQuotes;
    assert (s + t)[..k] == s[..k];
  }

  /** One ASCII character more. */
  lemma CutNextAscii(s: seq<byte>, k: nat, c: byte)
    requires LastCut(s, k, |s|) && c < 0x80
    ensures LastCut(s + [c], if IsSpace(c) && !OddQuotes(s) then |s| else k, |s| + 1)
  {
    hide OddQuotes;
    forall j | 0 <= j < |s| ensures CutPoint(s + [c], j) == CutPoint(s, j) {
      CutPointKept(s, [c], j);
    }
    assert (s + [c])[..|s|] == s;
  }

  /** One other character more. */
  lemma CutNextOther(s: seq<byte>, k: nat, t: seq<byte>)
    requires LastCut(s, k, |s|) && forall j | 0 <= j < |t| :: t[j] >= 0x80
    ensures LastCut(s + t, k, |s| + |t|)
  {
    hide OddQuotes;
    forall j | 0 <= j < |s| ensures CutPoint(s + t, j) == CutPoint(s, j) {
      CutPointKept(s, t, j);
    }
  }

  lemma CutInFull(s: seq<byte>, t: seq<byte>, k: nat, limit: nat)
    requires LastCut(s, k, |s|) && limit <= |s| && k < limit
    ensures LastCut(s + t, k, limit)
  {
    hide OddQuotes;
    forall j | 0 <= j < |s| ensures CutPoint(s + t, j) == CutPoint(s, j) {
      CutPointKept(s, t, j);
    }
  }

  // ----- efi_convert_cmdline

  /** How many bytes of the full line are kept. */
  ghost predicate Kept(full: seq<byte>, len: nat) {
    if |full| < 1024 then len == |full| else len < 1024 && LastCut(full, len, 1024)
  }

  lemma HeadAscii(units: seq<CHAR16>)
    requires units != [] && units[0] != 0 && units[0] != 10 && units[0] < 0x80
    ensures Full(units) == [units[0]] + Full(units[1..])
  {
    hide Full;
    FullUnfolds(units);
  }

  /** The bytes the loop counts for a unit outside ASCII, and the units it takes. */
  lemma HeadOther(units: seq<CHAR16>) returns (t: seq<byte>, n: nat)
    requires units != [] && units[0] >= 0x80
    ensures n <= |units| && Full(units) == t + Full(units[n..]) && forall k | 0 <= k < |t| :: t[k] >= 0x80
    ensures n == if High(units[0]) && |units| > 1 && Low(units[1]) then 2 else 1
    ensures |t| == if High(units[0]) && |units| == 1 then 0
                   else if n == 2 then 4 else if units[0] >= 0x800 then 3 else 2
  {
    hide Full, Encode, CodePoints;
    FullUnfolds(units);
    if Ends(units) {
      FullUnfolds(units[1..]);
      t, n := [], 1;
    } else {
      Utf8Bytes(Head(units).0);
      t, n := Utf8(Head(units).0), Head(units).1;
    }
  }

  /** MAIN: the length is that of the whole line as UTF-8 if it fits with its NUL, and else ends at the
      last space outside quotes that does. */
  method EfiConvertCmdline(options: Option<seq<CHAR16>>, optionsSize: nat) returns (cmdLineLen: nat)
    requires options.Some? ==> optionsSize / 2 <= |options.value|
    ensures 1 <= cmdLineLen <= 1024
    ensures Kept(if options.Some? then Full(options.value[..optionsSize / 2]) else [], cmdLineLen - 1)
  {
    hide Full, LastCut, OddQuotes, CutPoint;
    var optionsBytes, safeOptionsBytes: nat := 0, 0;
    if options.Some? {
      var units := options.value[..optionsSize / 2];
      var inQuote := false;
      var i := 0;
      ghost var done: seq<byte> := [];
      NothingDone(units);
      while optionsBytes < COMMAND_LINE_SIZE && i < |units|
        invariant i <= |units| && optionsBytes == |done| && safeOptionsBytes < COMMAND_LINE_SIZE
        invariant Full(units) == done + Full(units[i..])
        invariant inQuote == OddQuotes(done) && LastCut(done, safeOptionsBytes, |done|)
        decreases |units| - i
      {
        ghost var before, rest := done, units[i..];
        var c := units[i];
        i := i + 1;
        if c < 0x80 {
          if c == 0 || c == 10 {
            FullUnfolds(rest);
            FullUnfolds(units[|units|..]);
            i := |units|;
            break;
          }
          HeadAscii(rest);
          QuotesNext(done, c);
          CutNextAscii(done, safeOptionsBytes, c);
          done := done + [c];
          if c == QUOTE {
            inQuote := !inQuote;
          } else if !inQuote && IsSpace(c) {
            safeOptionsBytes := optionsBytes;
          }
          optionsBytes := optionsBytes + 1;
          continue;
        }
        ghost var t, n := HeadOther(rest);
        QuotesAppend(done, t);
        CutNextOther(done, safeOptionsBytes, t);
        done := done + t;
        optionsBytes := optionsBytes + 2 + if c >= 0x800 then 1 else 0;
        if High(c) {
          if i == |units| {
            optionsBytes := optionsBytes - 3;
          } else if Low(units[i]) {
            optionsBytes := optionsBytes + 1;
            i := i + 1;
          }
        }
      }
      if optionsBytes >= COMMAND_LINE_SIZE {
        CutInFull(done, Full(units[i..]), safeOptionsBytes, COMMAND_LINE_SIZE);
        optionsBytes := safeOptionsBytes;
      } else {
        FullUnfolds(units[i..]);
      }
    }
    cmdLineLen := optionsBytes + 1;
  }

  lemma NothingDone(units: seq<CHAR16>)
    ensures units[0..] == units && !OddQuotes([]) && LastCut([], 0, 0)
  {
  }

  /** MAIN: the kept text has closed quotes, and its words are the first words of the whole line. */
  lemma KeptWords(full: seq<byte>, len: nat)
    requires Kept(full, len)
    ensures len <= |full| && Line(full[..len]) <= Line(full)
    ensures |full| >= COMMAND_LINE_SIZE ==> !OddQuotes(full[..len])
  {
    hide Line;
    if |full| < COMMAND_LINE_SIZE {
      assert full[..len] == full;
    } else if len == 0 {
      EmptyLine();
    } else {
      CutKeepsWords(full, len);
    }
  }
}
