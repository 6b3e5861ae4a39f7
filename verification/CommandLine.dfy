/**
 The kernel command line as words (apps/lib/cmdline.c): what `next_arg` takes from a line, and that it does
 so in place. Texts are byte strings without their terminating NUL.
 */
module CommandLine {
  import opened Word64
  import opened Wrappers

  const QUOTE: byte := 34
  const EQUALS: byte := 61
  const SPACE: byte := 32

  type Text = s: seq<byte> | 0 !in s

  /** isspace, which also holds of 0xA0. */
  predicate IsSpace(c: byte) {
    9 <= c <= 13 || c == SPACE || c == 160
  }

  // ----- what a line means

  /** Length of the first word: up to a space outside quotes. */
  function WordEnd(s: seq<byte>, inQuote: bool): (e: nat)
    ensures e <= |s|
  {
    if s == [] || (IsSpace(s[0]) && !inQuote) then 0
    else 1 + WordEnd(s[1..], inQuote != (s[0] == QUOTE))
  }

  function SkipSpaces(s: seq<byte>): (rest: seq<byte>)
    ensures |rest| <= |s| && rest == s[|s| - |rest|..]
  {
    if s != [] && IsSpace(s[0]) then SkipSpaces(s[1..]) else s
  }

  datatype Arg = Arg(name: seq<byte>, value: Option<seq<byte>>)

  /** Position of the first `=` that is not in front, 0 if there is none. */
  function EqualsAt(t: seq<byte>): (e: nat)
    ensures e < |t| || e == 0
    ensures e > 0 ==> t[e] == EQUALS
  {
    if |t| < 2 then 0
    else
      var e := EqualsAt(t[..|t| - 1]);
      if e == 0 && t[|t| - 1] == EQUALS then |t| - 1 else e
  }

  /** `t` without a closing quote, if `strip` asks for it. */
  function StripQuote(t: seq<byte>, strip: bool): seq<byte> {
    if strip && t != [] && t[|t| - 1] == QUOTE then t[..|t| - 1] else t
  }

  /** The value of a word with its `=` at `e` starts with a quote. */
  predicate ValueQuoted(t: seq<byte>, e: nat) {
    e > 0 && e + 1 < |t| && t[e + 1] == QUOTE
  }

  /** The parameter and value of a word, from its text `t` behind a quote in front. Quotes around the word or
      around the value do not belong to them. */
  function WordArg(t: seq<byte>, quoted: bool): Arg {
    var e := EqualsAt(t);
    if e == 0 then Arg(StripQuote(t, quoted), None)
    else Arg(t[..e], Some(StripQuote(t[if ValueQuoted(t, e) then e + 2 else e + 1..], quoted || ValueQuoted(t, e))))
  }

  function ParseWord(w: seq<byte>): Arg {
    var quoted := w != [] && w[0] == QUOTE;
    WordArg(if quoted then w[1..] else w, quoted)
  }

  /** The arguments of a line that starts with a word. */
  function Args(s: seq<byte>): seq<Arg>
    decreases |s|
  {
    if s == [] then []
    else
      var e := WordEnd(s, false);
      [ParseWord(s[..e])] + if e < |s| then Args(SkipSpaces(s[e + 1..])) else []
  }

  /** The arguments of a line. */
  function Line(s: seq<byte>): seq<Arg> {
    Args(SkipSpaces(s))
  }

  // ----- next_arg

  /** The C string at the head of some memory. */
  function CString(s: seq<byte>): seq<byte> {
    if s == [] || s[0] == 0 then [] else [s[0]] + CString(s[1..])
  }

  lemma {:induction false} CStringIs(mem: seq<byte>, p: nat, x: Text)
    requires p + |x| < |mem| && mem[p + |x|] == 0
    requires forall k | 0 <= k < |x| :: mem[p + k] == x[k]
    ensures CString(mem[p..]) == x
    decreases |x|
  {
    if x != [] {
      assert mem[p] == x[0];
      CStringIs(mem, p + 1, x[1..]);
      assert mem[p..][1..] == mem[p + 1..];
    }
  }

  /** At `at` the buffer holds the C string `s`. */
  ghost predicate HoldsText(buf: array<byte>, at: nat, s: seq<byte>)
    reads buf
  {
    at + |s| < buf.Length && buf[at + |s|] == 0 && forall k | 0 <= k < |s| :: buf[at + k] == s[k] != 0
  }

  lemma WordEndStops(s: seq<byte>, k: nat, inQuote: bool)
    requires k <= |s| && (k < |s| ==> IsSpace(s[k]) && !inQuote)
    ensures WordEnd(s[k..], inQuote) == 0
  {
  }

  lemma WordEndGoes(s: seq<byte>, k: nat, inQuote: bool)
    requires k < |s| && !(IsSpace(s[k]) && !inQuote)
    ensures WordEnd(s[k..], inQuote) == 1 + WordEnd(s[k + 1..], inQuote != (s[k] == QUOTE))
    ensures EqualsAt(s[..k + 1]) == if EqualsAt(s[..k]) == 0 && s[k] == EQUALS then k else EqualsAt(s[..k])
  {
    assert s[k..][1..] == s[k + 1..];
    assert s[..k + 1][..k] == s[..k];
  }

  /** The word loop of next_arg, from `at` on: where the word ends and where its `=` is. */
  method ScanWord(buf: array<byte>, at: nat, ghost s: seq<byte>, inQuote0: bool) returns (i: nat, equals: nat)
    requires HoldsText(buf, at, s)
    ensures i == WordEnd(s, inQuote0) && equals == EqualsAt(s[..i])
    ensures i < |s| ==> IsSpace(s[i])
  {
    hide WordEnd, EqualsAt, IsSpace;
    var inQuote := inQuote0;
    i, equals := 0, 0;
    NoEquals(s);
    while buf[at + i] != 0
      invariant i <= |s| && equals == EqualsAt(s[..i])
      invariant WordEnd(s, inQuote0) == i + WordEnd(s[i..], inQuote)
      decreases |s| - i
    {
      if IsSpace(buf[at + i]) && !inQuote {
        WordEndStops(s, i, inQuote);
        return;
      }
      WordEndGoes(s, i, inQuote);
      if equals == 0 {
        if buf[at + i] == EQUALS {
          equals := i;
        }
      }
      if buf[at + i] == QUOTE {
        inQuote := !inQuote;
      }
      i := i + 1;
    }
    WordEndStops(s, i, inQuote);
  }

  lemma NoEquals(s: seq<byte>)
    ensures EqualsAt(s[..0]) == 0 && s[0..] == s
  {
  }

  lemma SkipNext(s: seq<byte>, k: nat)
    requires k < |s| && IsSpace(s[k])
    ensures SkipSpaces(s[k..]) == SkipSpaces(s[k + 1..])
  {
    assert s[k..][1..] == s[k + 1..];
  }

  lemma SkipStops(s: seq<byte>, k: nat)
    requires k <= |s| && (k < |s| ==> !IsSpace(s[k]))
    ensures SkipSpaces(s[k..]) == s[k..]
  {
  }

  /** skip_spaces. */
  method SkipSpacesAt(buf: array<byte>, at: nat, ghost s: seq<byte>) returns (next: nat)
    requires HoldsText(buf, at, s)
    ensures at <= next && next + |SkipSpaces(s)| == at + |s| && HoldsText(buf, next, SkipSpaces(s))
  {
    hide SkipSpaces, IsSpace;
    NulIsNoSpace();
    var k := 0;
    assert s[0..] == s;
    while IsSpace(buf[at + k])
      invariant k <= |s| && |SkipSpaces(s[k..])| == |SkipSpaces(s)|
      decreases |s| - k
    {
      SkipNext(s, k);
      k := k + 1;
    }
    SkipStops(s, k);
    SkippedIs(s, k);
    next := at + k;
  }

  lemma SkippedIs(s: seq<byte>, k: nat)
    requires k <= |s| && |SkipSpaces(s)| == |s| - k
    ensures SkipSpaces(s) == s[k..]
  {
    hide SkipSpaces;
  }

  lemma NulIsNoSpace()
    ensures !IsSpace(0) && !IsSpace(QUOTE)
  {
  }

  /** The rest of a line behind its first word. */
  function Behind(s: seq<byte>): seq<byte> {
    var e := WordEnd(s, false);
    if e < |s| then SkipSpaces(s[e + 1..]) else []
  }

  predicate Strips(t: seq<byte>, e: nat, quoted: bool) {
    t != [] && t[|t| - 1] == QUOTE && (quoted || ValueQuoted(t, e))
  }

  /** Byte `k` of the word after the writes. */
  function After(t: seq<byte>, e: nat, quoted: bool, k: nat): byte
    requires k < |t|
  {
    if (e > 0 && k == e) || (Strips(t, e, quoted) && k == |t| - 1) then 0 else t[k]
  }

  /** The word `t` in memory after its `=`, its closing quote and the character behind it became NULs. */
  predicate Terminated(mem: seq<byte>, at: nat, t: seq<byte>, e: nat, quoted: bool) {
    && at + |t| < |mem| && mem[at + |t|] == 0
    && forall k: nat | k < |t| :: mem[at + k] == After(t, e, quoted, k)
  }

  lemma ReadsBare(mem: seq<byte>, at: nat, t: Text, quoted: bool)
    requires Terminated(mem, at, t, 0, quoted)
    ensures CString(mem[at..]) == StripQuote(t, quoted)
  {
    hide CString;
    var x := StripQuote(t, quoted);
    assert |x| == if Strips(t, 0, quoted) then |t| - 1 else |t|;
    assert |x| < |t| ==> mem[at + |x|] == After(t, 0, quoted, |x|);
    forall k: nat | k < |x| ensures mem[at + k] == x[k] {
      assert mem[at + k] == After(t, 0, quoted, k);
    }
    CStringIs(mem, at, x);
  }

  lemma ReadsName(mem: seq<byte>, at: nat, t: Text, e: nat, quoted: bool)
    requires 0 < e < |t| && t[e] == EQUALS && Terminated(mem, at, t, e, quoted)
    ensures CString(mem[at..]) == t[..e]
  {
    hide CString;
    assert mem[at + e] == After(t, e, quoted, e);
    forall k: nat | k < e ensures mem[at + k] == t[k] {
      assert mem[at + k] == After(t, e, quoted, k);
    }
    CStringIs(mem, at, t[..e]);
  }

  lemma ReadsValue(mem: seq<byte>, at: nat, t: Text, e: nat, quoted: bool)
    requires 0 < e < |t| && t[e] == EQUALS && Terminated(mem, at, t, e, quoted)
    ensures var from := if ValueQuoted(t, e) then e + 2 else e + 1;
      CString(mem[at + from..]) == StripQuote(t[from..], quoted || ValueQuoted(t, e))
  {
    hide CString;
    var from := if ValueQuoted(t, e) then e + 2 else e + 1;
    var x := StripQuote(t[from..], quoted || ValueQuoted(t, e));
    assert from + |x| < |t| ==> mem[at + (from + |x|)] == After(t, e, quoted, from + |x|);
    forall k: nat | k < |x| ensures mem[at + from + k] == x[k] {
      assert mem[at + (from + k)] == After(t, e, quoted, from + k);
    }
    CStringIs(mem, at + from, x);
  }

  /** The writes of next_arg. */
  method Terminate(buf: array<byte>, at: nat, i: nat, equals: nat, quoted: bool, ghost t: seq<byte>)
    returns (val: Option<nat>)
    requires |t| == i && at + i < buf.Length && buf[at + i] != QUOTE
    requires forall k | 0 <= k < i :: buf[at + k] == t[k]
    requires equals > 0 ==> equals < i && t[equals] == EQUALS
    modifies buf
    ensures buf[at + i] == 0
    ensures forall k: nat | k < i :: buf[at + k] == After(t, equals, quoted, k)
    ensures forall k | 0 <= k < buf.Length && !(at <= k <= at + i) :: buf[k] == old(buf[k])
    ensures val == if equals == 0 then None else Some(at + equals + if ValueQuoted(t, equals) then 2 else 1)
  {
    val := None;
    if equals != 0 {
      buf[at + equals] := 0;
      var v := at + equals + 1;
      if buf[v] == QUOTE {
        v := v + 1;
        if buf[at + i - 1] == QUOTE {
          buf[at + i - 1] := 0;
        }
      }
      val := Some(v);
    }
    if quoted && i > 0 && buf[at + i - 1] == QUOTE {
      buf[at + i - 1] := 0;
    }
    if buf[at + i] != 0 {
      buf[at + i] := 0;
    }
  }

  /** What next_arg makes of the word at `at0`: it ends at `stop`, where a NUL now is. */
  method FirstWord(buf: array<byte>, at0: nat, ghost line: Text)
    returns (param: nat, val: Option<nat>, stop: nat, more: bool)
    requires HoldsText(buf, at0, line) && line != []
    modifies buf
    ensures stop == at0 + WordEnd(line, false) && (more <==> stop < at0 + |line|)
    ensures buf[stop] == 0 && forall k | 0 <= k < buf.Length && (k < at0 || k > stop) :: buf[k] == old(buf[k])
    ensures Returned(buf[..], ParseWord(line[..WordEnd(line, false)]), param, val)
  {
    hide WordEnd, EqualsAt, CString, Terminated, StripQuote, ValueQuoted, Strips, After, ParseWord, Returned, IsSpace;
    var at, quoted := at0, false;
    ghost var s := line;
    if buf[at] == QUOTE {
      at, quoted, s := at + 1, true, line[1..];
    }
    var i, equals := ScanWord(buf, at, s, quoted);
    ghost var t := s[..i];
    WordParts(line, t, quoted);
    NulIsNoSpace();
    param, stop := at, at + i;
    more := buf[stop] != 0;
    val := Terminate(buf, at, i, equals, quoted, t);
    TerminatedIn(buf, at, t, equals, quoted);
    WordReturned(buf[..], line[..stop - at0], at, t, equals, quoted, val);
  }

  lemma TerminatedIn(buf: array<byte>, at: nat, t: seq<byte>, e: nat, quoted: bool)
    requires at + |t| < buf.Length && buf[at + |t|] == 0
    requires forall k: nat | k < |t| :: buf[at + k] == After(t, e, quoted, k)
    ensures Terminated(buf[..], at, t, e, quoted)
  {
    hide After;
  }

  /** The two pointers read as the parameter and the value. */
  predicate Returned(mem: seq<byte>, arg: Arg, param: nat, val: Option<nat>) {
    && param < |mem| && CString(mem[param..]) == arg.name
    && (val.Some? <==> arg.value.Some?)
    && (val.Some? ==> val.value < |mem| && CString(mem[val.value..]) == arg.value.value)
  }

  lemma WordReturned(mem: seq<byte>, w: seq<byte>, at: nat, t: Text, e: nat, quoted: bool, val: Option<nat>)
    requires Terminated(mem, at, t, e, quoted) && e == EqualsAt(t)
    requires ParseWord(w) == WordArg(t, quoted)
    requires val == if e == 0 then None else Some(at + e + if ValueQuoted(t, e) then 2 else 1)
    ensures Returned(mem, ParseWord(w), at, val)
  {
    hide EqualsAt, CString, StripQuote, ParseWord;
    if e == 0 {
      ReadsBare(mem, at, t, quoted);
    } else {
      ReadsName(mem, at, t, e, quoted);
      ReadsValue(mem, at, t, e, quoted);
    }
  }

  /** MAIN: next_arg on any non-empty string: the C strings it returns are the first word's parameter and
      value, it moves on, and what is still to be read is untouched. */
  method NextArg(buf: array<byte>, at0: nat, ghost line: Text) returns (param: nat, val: Option<nat>, next: nat)
    requires HoldsText(buf, at0, line) && line != []
    modifies buf
    ensures at0 < next <= at0 + |line| && next + |Behind(line)| == at0 + |line| && HoldsText(buf, next, Behind(line))
    ensures forall k | 0 <= k < buf.Length && (k < at0 || k >= next) :: buf[k] == old(buf[k])
    ensures Returned(buf[..], ParseWord(line[..WordEnd(line, false)]), param, val)
  {
    hide WordEnd, SkipSpaces, Behind, ParseWord, Returned;
    FirstWordPositive(line);
    BehindIs(line, WordEnd(line, false));
    var stop, more;
    param, val, stop, more := FirstWord(buf, at0, line);
    next := if more then stop + 1 else stop;
    ghost var e := WordEnd(line, false);
    ghost var rest := if e < |line| then line[e + 1..] else [];
    next := SkipSpacesAt(buf, next, rest);
  }

  lemma FirstWordPositive(line: seq<byte>)
    requires line != []
    ensures WordEnd(line, false) < |line| || WordEnd(line, false) > 0
  {
  }

  lemma BehindIs(line: seq<byte>, e: nat)
    requires e == WordEnd(line, false)
    ensures e < |line| ==> Behind(line) == SkipSpaces(line[e + 1..])
    ensures e == |line| ==> Behind(line) == [] == SkipSpaces([])
  {
  }

  /** The text of the first word and what it stands for. */
  lemma WordParts(line: seq<byte>, t: seq<byte>, quoted: bool)
    requires line != [] && quoted == (line[0] == QUOTE)
    requires var s := if quoted then line[1..] else line; t == s[..WordEnd(s, quoted)]
    ensures WordEnd(line, false) == |t| + if quoted then 1 else 0
    ensures ParseWord(line[..WordEnd(line, false)]) == WordArg(t, quoted)
  {
    hide WordArg;
    var w := line[..WordEnd(line, false)];
    if quoted {
      assert w[1..] == t;
    } else {
      assert w == t && (w != [] ==> w[0] == line[0]);
    }
  }
}
