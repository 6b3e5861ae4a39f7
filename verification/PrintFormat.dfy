/**
 The format side of the print engine (lib/print.c): the layout of one item, the directives of a format,
 and `_Print`, whose output is the rendering of the format however the chunks fall.
 */
module PrintFormat {
  import opened Word64
  import opened Wrappers
  import opened Numbers
  import opened PrintBuffer

  const NO_WIDTH: u64 := UINT64_MAX
  const PERCENT: CHAR16 := 37

  type Text = s: seq<CHAR16> | 0 !in s

  lemma {:induction false} ExpandAppend(s: seq<CHAR16>, t: seq<CHAR16>)
    ensures Expand(s + t) == Expand(s) + Expand(t)
    decreases |t|
  {
    if t == [] {
      assert s + t == s;
    } else {
      assert (s + t)[..|s| + |t| - 1] == s + t[..|t| - 1];
      ExpandAppend(s, t[..|t| - 1]);
    }
  }

  // ----- one item

  /** PRINT_ITEM, without the text; `*WidthParse` is the field width behind a dot. */
  datatype Spec = Spec(width: u64, fieldWidth: u64, parseField: bool, pad: CHAR16,
                       padBefore: bool, comma: bool, long: bool)

  const FRESH := Spec(0, NO_WIDTH, false, BLANK, true, false, false)

  function Repeat(c: CHAR16, n: int): (s: seq<CHAR16>)
    ensures |s| == if n < 0 then 0 else n
    ensures forall k | 0 <= k < |s| :: s[k] == c
  {
    seq(if n < 0 then 0 else n, _ => c)
  }

  /** How much of the text is shown. */
  function Shown(text: Text, s: Spec): nat {
    if |text| < s.fieldWidth then |text| else s.fieldWidth
  }

  /** The text clipped to the field width, padded in front to the width, and blank to the field width. */
  function Layout(text: Text, s: Spec): seq<CHAR16> {
    var n := Shown(text, s);
    var width := if n > s.width then n else s.width;
    var field := if s.fieldWidth == NO_WIDTH then n else s.fieldWidth;
    var blanks := Repeat(BLANK, field - width);
    (if s.padBefore then blanks else []) + Repeat(s.pad, width - n) + text[..n] + (if s.padBefore then [] else blanks)
  }

  /** The layout is as long as text, width and field width demand, and is the shown text among padding:
      at its right end, unless it is to stand on the left of a wider field. */
  lemma LayoutShape(text: Text, s: Spec)
    ensures var r := Layout(text, s); var n := Shown(text, s);
      var start := if s.padBefore || s.fieldWidth == NO_WIDTH then |r| - n else if s.width > n then s.width - n else 0;
      && |r| == Max(Max(n, s.width), if s.fieldWidth == NO_WIDTH then 0 else s.fieldWidth)
      && 0 <= start && start + n <= |r| && r[start..start + n] == text[..n]
      && (forall k | 0 <= k < |r| && !(start <= k < start + n) :: r[k] == s.pad || r[k] == BLANK)
      && (forall k | start - (Max(n, s.width) - n) <= k < start :: 0 <= k ==> r[k] == s.pad)
  {
    hide Repeat;
    if s.padBefore {
    } else {
    }
  }

  function Max(a: int, b: int): int {
    if a > b then a else b
  }

  /** `n` characters more, all under attribute `a`. */
  predicate Inked(before: seq<nat>, after: seq<nat>, a: nat, n: int) {
    n >= 0 && after == before + Paint(a, n)
  }

  lemma InkedTwice(x: seq<nat>, y: seq<nat>, z: seq<nat>, a: nat, m: int, n: int)
    requires Inked(x, y, a, m) && Inked(y, z, a, n)
    ensures Inked(x, z, a, m + n)
  {
    assert x + Paint(a, m) + Paint(a, n) == x + Paint(a, m + n);
  }

  lemma NotInked(x: seq<nat>, a: nat)
    ensures Inked(x, x, a, 0)
  {
    assert x + Paint(a, 0) == x;
  }

  /** PPUTC, `n` times. */
  method PutMany(ps: PrintState, c: CHAR16, from: u64, to: u64)
    requires ps.Valid() && c != 0 && c != LF
    modifies ps.Repr
    ensures ps.Valid() && fresh(ps.Repr - old(ps.Repr))
    ensures ps.Printed() == old(ps.Printed()) + Repeat(c, to - from)
    ensures Inked(old(ps.Inks()), ps.Inks(), ps.attr, |ps.Printed()| - |old(ps.Printed())|)
    ensures ps.attr == old(ps.attr) && ps.restoreAttr == old(ps.restoreAttr)
  {
    hide PrintState.Valid, PrintState.Printed, PrintState.Inks, Inked;
    ghost var inks, printed := ps.Inks(), |ps.Printed()|;
    NotInked(inks, ps.attr);
    var i := from;
    while i < to
      invariant ps.Valid() && fresh(ps.Repr - old(ps.Repr))
      invariant from <= i && (i <= to || i == from)
      invariant ps.Printed() == old(ps.Printed()) + Repeat(c, i - from)
      invariant Inked(inks, ps.Inks(), ps.attr, |ps.Printed()| - printed)
      invariant ps.attr == old(ps.attr) && ps.restoreAttr == old(ps.restoreAttr)
    {
      ghost var now, n := ps.Inks(), |ps.Printed()|;
      ps.PPutc(c);
      OneInked(now, ps.Inks(), ps.attr, |ps.Printed()| - n);
      InkedTwice(inks, now, ps.Inks(), ps.attr, n - printed, |ps.Printed()| - n);
      assert Repeat(c, i + 1 - from) == Repeat(c, i - from) + [c];
      i := i + 1;
    }
    assert Repeat(c, to - from) == Repeat(c, i - from);
  }

  lemma OneInked(before: seq<nat>, after: seq<nat>, a: nat, n: nat)
    requires after == before + Paint(a, n)
    ensures Inked(before, after, a, n)
  {
  }

  method PutText(ps: PrintState, text: Text, n: nat)
    requires ps.Valid() && n <= |text|
    modifies ps.Repr
    ensures ps.Valid() && fresh(ps.Repr - old(ps.Repr))
    ensures ps.Printed() == old(ps.Printed()) + Expand(text[..n])
    ensures Inked(old(ps.Inks()), ps.Inks(), ps.attr, |ps.Printed()| - |old(ps.Printed())|)
    ensures ps.attr == old(ps.attr) && ps.restoreAttr == old(ps.restoreAttr)
  {
    hide PrintState.Valid, PrintState.Printed, PrintState.Inks, Inked;
    ghost var inks, printed := ps.Inks(), |ps.Printed()|;
    NotInked(inks, ps.attr);
    var i := 0;
    while i < n
      invariant ps.Valid() && fresh(ps.Repr - old(ps.Repr))
      invariant 0 <= i <= n
      invariant ps.Printed() == old(ps.Printed()) + Expand(text[..i])
      invariant Inked(inks, ps.Inks(), ps.attr, |ps.Printed()| - printed)
      invariant ps.attr == old(ps.attr) && ps.restoreAttr == old(ps.restoreAttr)
    {
      ghost var now, m := ps.Inks(), |ps.Printed()|;
      ps.PPutc(text[i]);
      OneInked(now, ps.Inks(), ps.attr, |ps.Printed()| - m);
      InkedTwice(inks, now, ps.Inks(), ps.attr, m - printed, |ps.Printed()| - m);
      assert text[..i + 1][..i] == text[..i];
      i := i + 1;
    }
  }

  lemma ExpandPadding(c: CHAR16, n: int)
    requires c != LF
    ensures Expand(Repeat(c, n)) == Repeat(c, n)
    decreases n
  {
    if n > 0 {
      ExpandPadding(c, n - 1);
      assert Repeat(c, n)[..n - 1] == Repeat(c, n - 1);
      assert Repeat(c, n) == Repeat(c, n - 1) + [c];
    } else {
      assert Repeat(c, n) == [];
    }
  }

  lemma LayoutExpanded(text: Text, s: Spec)
    requires s.pad != LF
    ensures var n := Shown(text, s);
      var width := if n > s.width then n else s.width;
      var field := if s.fieldWidth == NO_WIDTH then n else s.fieldWidth;
      var body, blanks := Repeat(s.pad, width - n) + Expand(text[..n]), Repeat(BLANK, field - width);
      Expand(Layout(text, s)) == if s.padBefore then blanks + body else body + blanks
  {
    hide Expand, Repeat;
    var n := Shown(text, s);
    var width := if n > s.width then n else s.width;
    var field := if s.fieldWidth == NO_WIDTH then n else s.fieldWidth;
    var blanks, pads := Repeat(BLANK, field - width), Repeat(s.pad, width - n);
    ExpandPadding(BLANK, field - width);
    ExpandPadding(s.pad, width - n);
    ExpandAppend(pads, text[..n]);
    if s.padBefore {
      ExpandAppend(blanks, pads + text[..n]);
      assert Layout(text, s) == blanks + (pads + text[..n]);
    } else {
      ExpandAppend(pads + text[..n], blanks);
      assert Layout(text, s) == (pads + text[..n]) + blanks;
    }
  }

  lemma NothingExpanded()
    ensures Expand([]) == []
  {
  }

  /** The padding and the text of an item. */
  method PutBody(ps: PrintState, text: Text, len: u64, width: u64, pad: CHAR16)
    requires ps.Valid() && pad != 0 && pad != LF && len <= |text|
    modifies ps.Repr
    ensures ps.Valid() && fresh(ps.Repr - old(ps.Repr))
    ensures ps.Printed() == old(ps.Printed()) + (Repeat(pad, width - len) + Expand(text[..len]))
    ensures Inked(old(ps.Inks()), ps.Inks(), ps.attr, |ps.Printed()| - |old(ps.Printed())|)
    ensures ps.attr == old(ps.attr) && ps.restoreAttr == old(ps.restoreAttr)
  {
    hide PrintState.Valid, PrintState.Printed, PrintState.Inks, Inked, Expand, Repeat;
    ghost var inks, printed := ps.Inks(), |ps.Printed()|;
    PutMany(ps, pad, len, width);
    ghost var now, n := ps.Inks(), |ps.Printed()|;
    PutText(ps, text, len);
    InkedTwice(inks, now, ps.Inks(), ps.attr, n - printed, |ps.Printed()| - n);
  }

  /** PITEM. */
  method PItem(ps: PrintState, text: Text, s: Spec)
    requires ps.Valid() && (s.pad == BLANK || s.pad == ZERO)
    modifies ps.Repr
    ensures ps.Valid() && fresh(ps.Repr - old(ps.Repr))
    ensures ps.Printed() == old(ps.Printed()) + Expand(Layout(text, s))
    ensures Inked(old(ps.Inks()), ps.Inks(), ps.attr, |ps.Printed()| - |old(ps.Printed())|)
    ensures ps.attr == old(ps.attr) && ps.restoreAttr == old(ps.restoreAttr)
  {
    hide PrintState.Valid, PrintState.Printed, PrintState.Inks, Inked, Expand, Repeat, Layout;
    ghost var inks, printed := ps.Inks(), |ps.Printed()|;
    NotInked(inks, ps.attr);
    var len := ShownLength(text, s.fieldWidth);
    var fieldWidth := if s.fieldWidth == NO_WIDTH then len else s.fieldWidth;
    var width := if len > s.width then len else s.width;
    ItemExpanded(ps.Printed(), text, s, len, width, fieldWidth);
    PutBlanks(ps, s.padBefore, width, fieldWidth);
    ghost var now, n := ps.Inks(), |ps.Printed()|;
    PutBody(ps, text, len, width, s.pad);
    InkedTwice(inks, now, ps.Inks(), ps.attr, n - printed, |ps.Printed()| - n);
    now, n := ps.Inks(), |ps.Printed()|;
    PutBlanks(ps, !s.padBefore, width, fieldWidth);
    InkedTwice(inks, now, ps.Inks(), ps.attr, n - printed, |ps.Printed()| - n);
  }

  /** The length of what is shown of the text. */
  method ShownLength(text: Text, fieldWidth: u64) returns (len: u64)
    ensures len == if |text| < fieldWidth then |text| else fieldWidth
  {
    len := 0;
    while len < fieldWidth && len < |text|
      invariant len <= |text| && len <= fieldWidth
    {
      len := len + 1;
    }
  }

  /** The blanks on one side of the field. */
  method PutBlanks(ps: PrintState, here: bool, width: u64, fieldWidth: u64)
    requires ps.Valid()
    modifies ps.Repr
    ensures ps.Valid() && fresh(ps.Repr - old(ps.Repr))
    ensures ps.Printed() == if here then old(ps.Printed()) + Repeat(BLANK, fieldWidth - width) else old(ps.Printed())
    ensures Inked(old(ps.Inks()), ps.Inks(), ps.attr, |ps.Printed()| - |old(ps.Printed())|)
    ensures ps.attr == old(ps.attr) && ps.restoreAttr == old(ps.restoreAttr)
  {
    hide PrintState.Valid, PrintState.Printed, PrintState.Inks, Inked, Repeat;
    NotInked(ps.Inks(), ps.attr);
    if here {
      PutMany(ps, BLANK, width, fieldWidth);
    }
  }

  /** The three parts of an item behind each other. */
  lemma ItemExpanded(p: seq<CHAR16>, text: Text, s: Spec, len: nat, width: nat, fieldWidth: nat)
    requires s.pad != LF && len == Shown(text, s) && len <= |text|
    requires width == (if len > s.width then len else s.width)
    requires fieldWidth == if s.fieldWidth == NO_WIDTH then len else s.fieldWidth
    ensures var body, blanks := Repeat(s.pad, width - len) + Expand(text[..len]), Repeat(BLANK, fieldWidth - width);
      p + Expand(Layout(text, s)) == if s.padBefore then p + blanks + body else p + body + blanks
  {
    hide Expand, Repeat, Layout, Shown;
    LayoutExpanded(text, s);
    var body, blanks := Repeat(s.pad, width - len) + Expand(text[..len]), Repeat(BLANK, fieldWidth - width);
    assert p + (body + blanks) == p + body + blanks && p + (blanks + body) == p + blanks + body;
  }

  // ----- directives

  /** What a directive may take from the argument list: a machine word and what it points to. `foreign`
      is the text of the conversions that other units format. */
  datatype Arg = Arg(word: u64, wide: Option<Text>, ascii: Option<Text>, foreign: Text)

  /** The display attributes for %N, %H and %E. */
  datatype Attrs = Attrs(norm: nat, highlight: nat, error: nat)

  function ArgAt(args: seq<Arg>, k: nat): Arg {
    if k < |args| then args[k] else Arg(0, None, None, [])
  }

  /** Printed numbers contain no NUL. */
  lemma {:induction false} DigitsAreText(v: nat)
    ensures 0 !in HexDigits(v) && 0 !in DecDigits(v)
    decreases v
  {
    if v > 0 {
      DigitsAreText(v / 16);
      DigitsAreText(v / 10);
    }
  }

  lemma {:induction false} GroupsAreText(d: seq<CHAR16>)
    requires 0 !in d
    ensures 0 !in Grouped(d)
    decreases |d|
  {
    if |d| > 3 {
      GroupsAreText(d[..|d| - 3]);
    }
  }

  function Hex(v: u64): Text {
    DigitsAreText(v);
    HexText(v)
  }

  function Dec(v: int, comma: bool): Text {
    var m := if v < 0 then -v else v;
    DigitsAreText(m);
    GroupsAreText(DecDigits(m));
    DecText(v, comma)
  }

  /** An argument as the conversion's integer type. */
  function Unsigned(a: Arg, long: bool): u64 {
    if long then a.word else a.word % 0x1_0000_0000
  }

  function Signed(a: Arg, long: bool): int {
    if long then ToInt64(a.word) else ToInt32(a.word)
  }

  const NULL_TEXT: Text := [40, 110, 117, 108, 108, 41]

  /** A format character, for the letters that mean something. */
  function Letter(c: CHAR16): char {
    if c < 0x80 then c as char else '?'
  }

  /** The letters that convert an argument. */
  predicate Converts(c: CHAR16) {
    Letter(c) in {'a', 'c', 'D', 'd', 'f', 'g', 'p', 'r', 's', 't', 'u', 'X', 'x'}
  }

  /** Text and settings of a conversion. The width that %p sets is the value of a comparison, 0. A value
      is printed as a signed number by %u as well. */
  function Convert(c: CHAR16, a: Arg, s: Spec): (Text, Spec)
    requires Converts(c)
  {
    match Letter(c)
    case 'a' => (if a.ascii.Some? then a.ascii.value else NULL_TEXT, s)
    case 's' => (if a.wide.Some? then a.wide.value else NULL_TEXT, s)
    case 'c' => (if a.word % 0x1_0000 == 0 then [] else [a.word % 0x1_0000], s)
    case 'D' => (Take(a.foreign, 99), s)
    case 'd' => (Dec(Signed(a, s.long), s.comma), s)
    case 'u' => (Dec(ToInt64(Unsigned(a, s.long)), s.comma), s)
    case 'p' => ([ZERO, 120] + Hex(Unsigned(a, s.long)), s.(width := 0, pad := ZERO))
    case 'X' => (Hex(Unsigned(a, s.long)), s.(width := if s.long then 16 else 8, pad := ZERO))
    case 'x' => (Hex(Unsigned(a, s.long)), s)
    case _ => (a.foreign, s)
  }

  function SetField(s: Spec, v: u64): Spec {
    if s.parseField then s.(fieldWidth := v) else s.(width := v)
  }

  datatype Outcome = Item(text: Text, spec: Spec, next: nat, used: nat) | Attribute(next: nat, used: nat) | Unfinished

  /** What one character of a directive, or one number, does: settings to go on with, or the end. */
  datatype Step = More(next: nat, used: nat, spec: Spec) | Done(outcome: Outcome)

  function StepAt(fmt: Text, i: nat, args: seq<Arg>, k: nat, s: Spec, attrs: Attrs): (step: Step)
    requires i < |fmt|
    ensures step.More? ==> i < step.next <= |fmt| && step.spec.pad in {s.pad, ZERO}
    ensures step.Done? ==> !step.outcome.Unfinished? && step.outcome.next == i + 1
    ensures step.Done? && step.outcome.Item? ==> step.outcome.spec.pad in {s.pad, ZERO}
  {
    if Converts(fmt[i]) then
      var (text, spec) := Convert(fmt[i], ArgAt(args, k), s);
      Done(Item(text, spec, i + 1, k + 1))
    else match Letter(fmt[i])
      case '%' => Done(Item([PERCENT], s, i + 1, k))
      case ',' => More(i + 1, k, s.(comma := true))
      case '-' => More(i + 1, k, s.(padBefore := false))
      case '*' => More(i + 1, k + 1, SetField(s, ArgAt(args, k).word))
      case '.' => More(i + 1, k, s.(parseField := true))
      case '0' => More(i + 1, k, s.(pad := ZERO))
      case 'l' => More(i + 1, k, s.(long := true))
      case 'e' => More(i + 1, k, s)
      case 'h' => More(i + 1, k, s)
      case 'n' => More(i + 1, k, s)
      case 'E' => if attrs.error != 0 then Done(Attribute(i + 1, k)) else More(i + 1, k, s)
      case 'H' => if attrs.highlight != 0 then Done(Attribute(i + 1, k)) else More(i + 1, k, s)
      case 'N' => if attrs.norm != 0 then Done(Attribute(i + 1, k)) else More(i + 1, k, s)
      case _ =>
        if IsDec(fmt[i]) then
          var digits := DigitPrefix(fmt[i..], false);
          More(i + |digits|, k, SetField(s, Wrap(Number(digits, 10))))
        else Done(Item([63], s, i + 1, k))
  }

  /** The directive whose characters go on at `i`, with the settings made so far and `k` arguments used. */
  function Directive(fmt: Text, i: nat, args: seq<Arg>, k: nat, s: Spec, attrs: Attrs): (d: Outcome)
    ensures !d.Unfinished? ==> i < d.next <= |fmt|
    ensures d.Item? ==> d.spec.pad in {s.pad, ZERO}
    decreases |fmt| - i
  {
    if i >= |fmt| then Unfinished
    else match StepAt(fmt, i, args, k, s, attrs)
      case Done(outcome) => outcome
      case More(next, used, spec) => Directive(fmt, next, args, used, spec, attrs)
  }

  // ----- under which attribute

  /** The attribute that is set, and the one to go back to, 0 if there is none. */
  datatype Ink = Ink(attr: nat, restore: nat) {
    /** The attribute behind the directive. */
    function Left(): nat {
      if restore != 0 then restore else attr
    }
  }

  /** What a character of a directive does to the attribute. */
  function InkStep(c: CHAR16, attrs: Attrs, ink: Ink): Ink {
    match Letter(c)
    case 'e' => Ink(attrs.error, ink.attr)
    case 'h' => Ink(attrs.highlight, ink.attr)
    case 'n' => Ink(attrs.norm, ink.attr)
    case 'E' => if attrs.error != 0 then Ink(attrs.error, 0) else ink
    case 'H' => if attrs.highlight != 0 then Ink(attrs.highlight, 0) else ink
    case 'N' => if attrs.norm != 0 then Ink(attrs.norm, 0) else ink
    case _ => ink
  }

  /** The attributes at the end of the directive whose characters go on at `i`. */
  function DirectiveInk(fmt: Text, i: nat, args: seq<Arg>, k: nat, s: Spec, attrs: Attrs, ink: Ink): Ink
    decreases |fmt| - i
  {
    if i >= |fmt| then ink
    else match StepAt(fmt, i, args, k, s, attrs)
      case Done(_) => InkStep(fmt[i], attrs, ink)
      case More(next, used, spec) => DirectiveInk(fmt, next, args, used, spec, attrs, InkStep(fmt[i], attrs, ink))
  }

  /** The rendering of a format from `i` on, if every directive in it is finished. */
  function Render(fmt: Text, i: nat, args: seq<Arg>, k: nat, attrs: Attrs): Option<seq<CHAR16>>
    decreases |fmt| - i
  {
    if i >= |fmt| then Some([])
    else if fmt[i] != PERCENT then Before(Expand([fmt[i]]), Render(fmt, i + 1, args, k, attrs))
    else
      var d := Directive(fmt, i + 1, args, k, FRESH, attrs);
      match d
      case Unfinished => None
      case Attribute(next, used) => Render(fmt, next, args, used, attrs)
      case Item(text, spec, next, used) => Before(Expand(Layout(text, spec)), Render(fmt, next, args, used, attrs))
  }

  function Before(s: seq<CHAR16>, rest: Option<seq<CHAR16>>): Option<seq<CHAR16>> {
    if rest.None? then None else Some(s + rest.value)
  }

  /** The attributes of the rendering of a format from `i` on, and the one set behind it. */
  datatype Painting = Painting(inks: seq<nat>, attr: nat) {
    function Behind(a: nat, n: nat): Painting {
      Painting(Paint(a, n) + inks, attr)
    }
  }

  function Painted(fmt: Text, i: nat, args: seq<Arg>, k: nat, attrs: Attrs, attr: nat): Painting
    decreases |fmt| - i
  {
    if i >= |fmt| then Painting([], attr)
    else if fmt[i] != PERCENT then Painted(fmt, i + 1, args, k, attrs, attr).Behind(attr, |Expand([fmt[i]])|)
    else
      var ink := DirectiveInk(fmt, i + 1, args, k, FRESH, attrs, Ink(attr, 0));
      match Directive(fmt, i + 1, args, k, FRESH, attrs)
      case Unfinished => Painting([], attr)
      case Attribute(next, used) => Painted(fmt, next, args, used, attrs, ink.Left())
      case Item(text, spec, next, used) =>
        Painted(fmt, next, args, used, attrs, ink.Left()).Behind(ink.attr, |Expand(Layout(text, spec))|)
  }

  /** The characters of a directive that only change its settings. */
  predicate Sets(c: CHAR16) {
    Letter(c) in {',', '-', '*', '.', '0', 'l'} || (IsDec(c) && Letter(c) != '0')
  }

  /** One setting, or all digits of a number. */
  method Setting(fmt: Text, i0: nat, args: seq<Arg>, k0: nat, s0: Spec, ghost attrs: Attrs)
    returns (i: nat, k: nat, s: Spec)
    requires i0 < |fmt| && Sets(fmt[i0])
    ensures StepAt(fmt, i0, args, k0, s0, attrs) == More(i, k, s)
  {
    hide Number, DigitPrefix, Wrap;
    i, k, s := i0 + 1, k0, s0;
    match Letter(fmt[i0]) {
      case ',' => s := s.(comma := true);
      case '-' => s := s.(padBefore := false);
      case '*' =>
        s := SetField(s, ArgAt(args, k).word);
        k := k + 1;
      case '.' => s := s.(parseField := true);
      case '0' => s := s.(pad := ZERO);
      case 'l' => s := s.(long := true);
      case _ =>
        var v;
        i, v := ParseWidth(fmt, i0);
        s := SetField(s, v);
        assert i == i0 + |DigitPrefix(fmt[i0..], false)|;
    }
  }

  /** The digits of a width. */
  method ParseWidth(fmt: Text, i0: nat) returns (i: nat, v: u64)
    requires i0 < |fmt| && IsDec(fmt[i0])
    ensures i == i0 + |DigitPrefix(fmt[i0..], false)| && i0 < i
    ensures v == Wrap(Number(DigitPrefix(fmt[i0..], false), 10))
  {
    hide Number, DigitPrefix, Wrap;
    ghost var d := DigitPrefix(fmt[i0..], false);
    i, v := i0, 0;
    NoNumber(d);
    while i < |fmt| && IsDec(fmt[i])
      invariant i0 <= i <= |fmt| && i - i0 <= |d| && v == Wrap(Number(d[..i - i0], 10))
    {
      assert i - i0 < |d|;
      NumberNext(d, i - i0, 10, v);
      v := Wrap(v * 10 + (fmt[i] as int - 48));
      i := i + 1;
    }
    assert d[..i - i0] == d;
  }

  lemma DirectiveStep(fmt: Text, i: nat, args: seq<Arg>, k: nat, s: Spec, attrs: Attrs)
    requires !Directive(fmt, i, args, k, s, attrs).Unfinished?
    ensures i < |fmt| && Directive(fmt, i, args, k, s, attrs) == match StepAt(fmt, i, args, k, s, attrs)
      case Done(outcome) => outcome
      case More(next, used, spec) => Directive(fmt, next, args, used, spec, attrs)
  {
    hide StepAt;
  }

  lemma DirectiveInkStep(fmt: Text, i: nat, args: seq<Arg>, k: nat, s: Spec, attrs: Attrs, ink: Ink)
    requires i < |fmt|
    ensures DirectiveInk(fmt, i, args, k, s, attrs, ink) == match StepAt(fmt, i, args, k, s, attrs)
      case Done(outcome) => InkStep(fmt[i], attrs, ink)
      case More(next, used, spec) => DirectiveInk(fmt, next, args, used, spec, attrs, InkStep(fmt[i], attrs, ink))
  {
    hide StepAt, InkStep;
  }

  lemma InkKept(c: CHAR16, attrs: Attrs, ink: Ink)
    ensures Converts(c) || Sets(c) ==> InkStep(c, attrs, ink) == ink
  {
  }

  /** The inner loop of _Print: one directive, from behind its `%`. */
  method PrintDirective(ps: PrintState, fmt: Text, i0: nat, args: seq<Arg>, k0: nat, attrs: Attrs)
    returns (i: nat, k: nat)
    requires ps.Valid() && !Directive(fmt, i0, args, k0, FRESH, attrs).Unfinished?
    modifies ps.Repr
    ensures ps.Valid() && fresh(ps.Repr - old(ps.Repr))
    ensures var d := Directive(fmt, i0, args, k0, FRESH, attrs);
      && i == d.next && k == d.used
      && ps.Printed() == old(ps.Printed()) + if d.Item? then Expand(Layout(d.text, d.spec)) else []
    ensures var ink := DirectiveInk(fmt, i0, args, k0, FRESH, attrs, Ink(old(ps.attr), 0));
      Inked(old(ps.Inks()), ps.Inks(), ink.attr, |ps.Printed()| - |old(ps.Printed())|) && ps.attr == ink.Left()
  {
    hide PrintState.Inks, PrintState.Printed, PrintState.Good, Inked, Directive, DirectiveInk, Expand, Layout, Convert,
         Number, DigitPrefix, Wrap, IsDec;
    ghost var d := Directive(fmt, i0, args, k0, FRESH, attrs);
    var s := FRESH;
    i, k := i0, k0;
    ps.ClearRestore();
    ghost var ink := DirectiveInk(fmt, i0, args, k0, FRESH, attrs, Ink(ps.attr, 0));
    while true
      invariant ps.Valid() && fresh(ps.Repr - old(ps.Repr)) && ps.Printed() == old(ps.Printed())
      invariant Directive(fmt, i, args, k, s, attrs) == d && s.pad in {BLANK, ZERO}
      invariant DirectiveInk(fmt, i, args, k, s, attrs, Ink(ps.attr, ps.restoreAttr)) == ink
      invariant ps.Inks() == old(ps.Inks())
      decreases |fmt| - i
    {
      DirectiveStep(fmt, i, args, k, s, attrs);
      DirectiveInkStep(fmt, i, args, k, s, attrs, Ink(ps.attr, ps.restoreAttr));
      var c := fmt[i];
      InkKept(c, attrs, Ink(ps.attr, ps.restoreAttr));
      NotInked(ps.Inks(), ink.attr);
      if Converts(c) {
        var (text, spec) := Convert(c, ArgAt(args, k), s);
        i, k := i + 1, k + 1;
        PItem(ps, text, spec);
        break;
      }
      if Sets(c) {
        i, k, s := Setting(fmt, i, args, k, s, attrs);
        continue;
      }
      i := i + 1;
      match Letter(c) {
        case '%' =>
          PItem(ps, [PERCENT], s);
          break;
        case 'e' => ps.PSetAttr(attrs.error);
        case 'h' => ps.PSetAttr(attrs.highlight);
        case 'n' => ps.PSetAttr(attrs.norm);
        case 'E' => if attrs.error != 0 { ps.SetAttrForGood(attrs.error); break; }
        case 'H' => if attrs.highlight != 0 { ps.SetAttrForGood(attrs.highlight); break; }
        case 'N' => if attrs.norm != 0 { ps.SetAttrForGood(attrs.norm); break; }
        case _ =>
          PItem(ps, [63], s);
          break;
      }
    }
    if ps.restoreAttr != 0 {
      ps.PSetAttr(ps.restoreAttr);
    }
  }

  /** One step of the rendering. */
  lemma RenderStep(fmt: Text, i: nat, args: seq<Arg>, k: nat, attrs: Attrs)
    requires i < |fmt| && Render(fmt, i, args, k, attrs).Some?
    ensures var r := Render(fmt, i, args, k, attrs).value;
      if fmt[i] != PERCENT then
        Render(fmt, i + 1, args, k, attrs).Some?
        && r == (if fmt[i] == LF then [CR, LF] else [fmt[i]]) + Render(fmt, i + 1, args, k, attrs).value
      else
        var d := Directive(fmt, i + 1, args, k, FRESH, attrs);
        !d.Unfinished? && Render(fmt, d.next, args, d.used, attrs).Some?
        && r == (if d.Item? then Expand(Layout(d.text, d.spec)) else [])
           + Render(fmt, d.next, args, d.used, attrs).value
  {
    hide Directive, Layout;
    if fmt[i] != PERCENT {
      OneExpanded(fmt[i]);
    }
  }

  /** One step of its attributes. */
  lemma PaintStep(fmt: Text, i: nat, args: seq<Arg>, k: nat, attrs: Attrs, attr: nat)
    requires i < |fmt| && Render(fmt, i, args, k, attrs).Some?
    ensures var p := Painted(fmt, i, args, k, attrs, attr);
      if fmt[i] != PERCENT then
        p == Painted(fmt, i + 1, args, k, attrs, attr).Behind(attr, if fmt[i] == LF then 2 else 1)
      else
        var d := Directive(fmt, i + 1, args, k, FRESH, attrs);
        var ink := DirectiveInk(fmt, i + 1, args, k, FRESH, attrs, Ink(attr, 0));
        p == Painted(fmt, d.next, args, d.used, attrs, ink.Left())
          .Behind(ink.attr, if d.Item? then |Expand(Layout(d.text, d.spec))| else 0)
  {
    hide Directive, DirectiveInk, Layout, Expand;
    if fmt[i] != PERCENT {
      OneExpanded(fmt[i]);
    } else {
      var d := Directive(fmt, i + 1, args, k, FRESH, attrs);
      var ink := DirectiveInk(fmt, i + 1, args, k, FRESH, attrs, Ink(attr, 0));
      var rest := Painted(fmt, d.next, args, d.used, attrs, ink.Left());
      assert Paint(ink.attr, 0) + rest.inks == rest.inks;
    }
  }

  lemma PaintEnd(fmt: Text, args: seq<Arg>, k: nat, attrs: Attrs, attr: nat)
    ensures Painted(fmt, |fmt|, args, k, attrs, attr) == Painting([], attr)
  {
  }

  lemma RenderEnd(fmt: Text, args: seq<Arg>, k: nat, attrs: Attrs)
    ensures Render(fmt, |fmt|, args, k, attrs) == Some([])
  {
  }

  lemma NothingShown(ps: PrintState)
    requires ps.Valid() && ps.Printed() == []
    ensures ps.Inks() == []
  {
  }

  /** What is printed so far and what is still to come make up the whole. */
  predicate Complete(all: Painting, inks: seq<nat>, rest: Painting) {
    all == Painting(inks + rest.inks, rest.attr)
  }

  lemma PaintMore(all: Painting, before: seq<nat>, after: seq<nat>, a: nat, n: int, m: nat, p: Painting, rest: Painting)
    requires Complete(all, before, p) && Inked(before, after, a, n) && p == rest.Behind(a, m) && m == n
    ensures Complete(all, after, rest)
  {
    assert before + (Paint(a, n) + rest.inks) == before + Paint(a, n) + rest.inks;
  }

  /** MAIN: _Print delivers the rendering of the format, whatever the chunks, each character under its attribute,
      and returns its length; at the end everything is flushed. */
  method Print(ps: PrintState, fmt: Text, args: seq<Arg>, attrs: Attrs) returns (len: nat)
    requires ps.Valid() && ps.Printed() == [] && Render(fmt, 0, args, 0, attrs).Some?
    modifies ps.Repr
    ensures ps.Valid() && fresh(ps.Repr - old(ps.Repr))
    ensures ps.flushed == Render(fmt, 0, args, 0, attrs).value && len == |ps.flushed|
    ensures Painting(ps.shown, ps.attr) == Painted(fmt, 0, args, 0, attrs, old(ps.attr))
    ensures ps.Closed()
  {
    hide *;
    ghost var all := Render(fmt, 0, args, 0, attrs).value;
    ghost var painting := Painted(fmt, 0, args, 0, attrs, ps.attr);
    NothingShown(ps);
    AllToCome(painting);
    var i, k := 0, 0;
    NothingBefore(all);
    while i < |fmt|
      invariant ps.Valid() && fresh(ps.Repr - old(ps.Repr)) && i <= |fmt|
      invariant Render(fmt, i, args, k, attrs).Some?
      invariant all == ps.Printed() + Render(fmt, i, args, k, attrs).value
      invariant Complete(painting, ps.Inks(), Painted(fmt, i, args, k, attrs, ps.attr))
      decreases |fmt| - i
    {
      RenderStep(fmt, i, args, k, attrs);
      PaintStep(fmt, i, args, k, attrs, ps.attr);
      ghost var before, now := ps.Inks(), Painted(fmt, i, args, k, attrs, ps.attr);
      var c := fmt[i];
      ghost var p := ps.Printed();
      i := i + 1;
      if c != PERCENT {
        ps.PPutc(c);
        Associates(p, if c == LF then [CR, LF] else [c], Render(fmt, i, args, k, attrs).value);
        OneInked(before, ps.Inks(), ps.attr, if c == LF then 2 else 1);
        PaintMore(painting, before, ps.Inks(), ps.attr, if c == LF then 2 else 1, if c == LF then 2 else 1, now,
                  Painted(fmt, i, args, k, attrs, ps.attr));
      } else {
        ghost var d := Directive(fmt, i, args, k, FRESH, attrs);
        ghost var ink := DirectiveInk(fmt, i, args, k, FRESH, attrs, Ink(ps.attr, 0));
        i, k := PrintDirective(ps, fmt, i, args, k, attrs);
        Associates(p, if d.Item? then Expand(Layout(d.text, d.spec)) else [], Render(fmt, i, args, k, attrs).value);
        PaintMore(painting, before, ps.Inks(), ink.attr, |ps.Printed()| - |p|,
                  if d.Item? then |Expand(Layout(d.text, d.spec))| else 0, now,
                  Painted(fmt, i, args, k, attrs, ps.attr));
      }
    }
    RenderEnd(fmt, args, k, attrs);
    PaintEnd(fmt, args, k, attrs, ps.attr);
    NothingBefore(ps.Printed());
    NothingToCome(painting, ps.Inks(), ps.attr);
    len := ps.Finish();
  }

  lemma AllToCome(all: Painting)
    ensures Complete(all, [], all)
  {
  }

  lemma NothingToCome(all: Painting, inks: seq<nat>, attr: nat)
    requires Complete(all, inks, Painting([], attr))
    ensures all == Painting(inks, attr)
  {
    assert inks + [] == inks;
  }

  lemma Associates(a: seq<CHAR16>, b: seq<CHAR16>, c: seq<CHAR16>)
    ensures (a + b) + c == a + (b + c)
  {
  }

  lemma NothingBefore(a: seq<CHAR16>)
    ensures [] + a == a && a + [] == a
  {
  }

  lemma OneExpanded(c: CHAR16)
    ensures Expand([c]) == if c == LF then [CR, LF] else [c]
  {
    assert [c][..0] == [];
  }

  // ----- printing to strings; _PoolCatPrint clears the attributes

  const NO_ATTRS := Attrs(0, 0, 0)

  /** MAIN: UnicodeVSPrint writes the longest prefix of the rendering that fits, with a NUL behind it. The
      limit of a size below 2 wraps to the greatest number, so that the string must have room for all. */
  method UnicodeVSPrint(str: array<CHAR16>, strSize: nat, fmt: Text, args: seq<Arg>) returns (len: nat)
    requires Render(fmt, 0, args, 0, NO_ATTRS).Some?
    requires if strSize < 2 then |Render(fmt, 0, args, 0, NO_ATTRS).value| < str.Length && 1 < str.Length
      else strSize / 2 <= str.Length
    modifies str
    ensures var r := Render(fmt, 0, args, 0, NO_ATTRS).value; var n := strSize / 2 - 1;
      && len == (if |r| < n || strSize < 2 then |r| else n) && str[..len] == r[..len]
      && (n != 0 ==> str[len] == 0)
  {
    hide Render, PrintState.Printed;
    var maxlen := if strSize < 2 then str.Length - 1 else strSize / 2 - 1;
    var spc := new PoolPrint(str, maxlen);
    var ps := new PrintState(ToString(spc));
    var total := Print(ps, fmt, args, NO_ATTRS);
    NothingBefore(ps.flushed);
    len := spc.len;
  }

  /** MAIN: VPoolPrint returns the whole rendering, NUL-terminated, if no allocation fails. */
  method VPoolPrint(fmt: Text, args: seq<Arg>, memory: bool) returns (str: array?<CHAR16>)
    requires Render(fmt, 0, args, 0, NO_ATTRS).Some?
    ensures memory ==>
      var r := Render(fmt, 0, args, 0, NO_ATTRS).value;
      str != null && |r| < str.Length && str[..|r|] == r && str[|r|] == 0
  {
    hide Render, PrintState.Printed;
    var spc := new PoolPrint(null, 0);
    var ps := new PrintState(ToPool(spc, memory));
    var total := Print(ps, fmt, args, NO_ATTRS);
    NothingBefore(ps.flushed);
    str := spc.str;
  }

  /** CatPrint appends the rendering to what the string holds, if no allocation fails. */
  method CatPrint(spc: PoolPrint, fmt: Text, args: seq<Arg>, memory: bool) returns (str: array?<CHAR16>)
    requires spc.Valid() && Render(fmt, 0, args, 0, NO_ATTRS).Some?
    modifies spc, spc.str
    ensures spc.Valid() && str == spc.str
    ensures memory ==>
      spc.Text() == old(spc.Text()) + Render(fmt, 0, args, 0, NO_ATTRS).value
      && str != null && spc.len < str.Length && str[spc.len] == 0
  {
    hide Render, PrintState.Printed;
    var ps := new PrintState(ToPool(spc, memory));
    var total := Print(ps, fmt, args, NO_ATTRS);
    str := spc.str;
  }
}
