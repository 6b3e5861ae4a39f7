/**
 What the parts of a directive do (lib/print.c): flags, width and field width, and for every conversion of
 this unit the text it prints.
 */
module PrintWidths {
  import opened Word64
  import opened Wrappers
  import opened Numbers
  import opened PrintBuffer
  import opened PrintFormat
  import opened PrintLaws

  /** A width: none, a number in the format, or `*`, the next argument. */
  datatype Count = Absent | Digits(n: nat) | Star

  /** What may stand between `%` and the conversion: `-`, `,` and `0`, the width, a dot and the field width,
      and `l`. */
  datatype Form = Form(minus: bool, comma: bool, zero: bool, width: Count, dot: bool, field: Count, long: bool) {
    /** Numbers fit a word and are not 0, which would be the flag; the field width stands behind a dot. */
    predicate Valid() {
      && (width.Digits? ==> 0 < width.n < 0x1_0000_0000_0000_0000)
      && (field.Digits? ==> 0 < field.n < 0x1_0000_0000_0000_0000)
      && (!dot ==> field.Absent?)
    }

    function Stars(): nat {
      (if width.Star? then 1 else 0) + if field.Star? then 1 else 0
    }
  }

  const PLAIN := Form(false, false, false, Absent, false, Absent, false)

  function Flag(on: bool, c: CHAR16): (t: Text)
    requires c != 0
    ensures t == if on then [c] else []
  {
    if on then [c] else []
  }

  function CountText(c: Count): Text {
    match c
    case Absent => []
    case Digits(n) => DigitsAreText(n); DecDigits(n)
    case Star => [42]
  }

  /** `%`, the parts of the form in the order of the documentation, and the conversion. */
  function Fmt(f: Form, conversion: CHAR16): Text
    requires conversion != 0
  {
    [37] + Flag(f.minus, 45) + Flag(f.comma, 44) + Flag(f.zero, 48) + CountText(f.width)
    + Flag(f.dot, 46) + CountText(f.field) + Flag(f.long, 108) + [conversion]
  }

  /** The value of a width that is there. */
  function CountValue(c: Count, args: seq<Arg>, k: nat): u64
    requires !c.Absent? && (c.Digits? ==> c.n < 0x1_0000_0000_0000_0000) && (c.Star? ==> k < |args|)
  {
    if c.Star? then args[k].word else c.n
  }

  /** What the form asks for. */
  function Asked(f: Form, args: seq<Arg>): Spec
    requires f.Valid() && f.Stars() <= |args|
  {
    Spec(if f.width.Absent? then 0 else CountValue(f.width, args, 0),
         if f.field.Absent? then 0xFFFF_FFFF_FFFF_FFFF else CountValue(f.field, args, if f.width.Star? then 1 else 0),
         f.dot, if f.zero then 48 else 32, !f.minus, f.comma, f.long)
  }

  // ----- one part after the other

  /** Each single character that only sets something. */
  lemma FlagAt(fmt: Text, i: nat, args: seq<Arg>, k: nat, s: Spec, attrs: Attrs)
    requires i < |fmt|
    ensures fmt[i] == 45 ==>
      Directive(fmt, i, args, k, s, attrs) == Directive(fmt, i + 1, args, k, s.(padBefore := false), attrs)
    ensures fmt[i] == 44 ==>
      Directive(fmt, i, args, k, s, attrs) == Directive(fmt, i + 1, args, k, s.(comma := true), attrs)
    ensures fmt[i] == 48 ==>
      Directive(fmt, i, args, k, s, attrs) == Directive(fmt, i + 1, args, k, s.(pad := 48), attrs)
    ensures fmt[i] == 46 ==>
      Directive(fmt, i, args, k, s, attrs) == Directive(fmt, i + 1, args, k, s.(parseField := true), attrs)
    ensures fmt[i] == 108 ==>
      Directive(fmt, i, args, k, s, attrs) == Directive(fmt, i + 1, args, k, s.(long := true), attrs)
  {
    hide Convert, Number, DigitPrefix, SetField, Wrap, ArgAt;
  }

  lemma StarAt(fmt: Text, i: nat, args: seq<Arg>, k: nat, s: Spec, attrs: Attrs)
    requires i < |fmt| && fmt[i] == 42 && k < |args|
    ensures var w := args[k].word;
      Directive(fmt, i, args, k, s, attrs)
      == Directive(fmt, i + 1, args, k + 1, if s.parseField then s.(fieldWidth := w) else s.(width := w), attrs)
  {
    hide Convert, Number, DigitPrefix, Wrap;
  }

  lemma {:induction false} NoLeadingZero(n: nat)
    requires n > 0
    ensures DecDigits(n) != [] && 49 <= DecDigits(n)[0] <= 57
  {
    DecStep(n);
    if n >= 10 {
      NoLeadingZero(n / 10);
    }
  }

  lemma NumberAt(fmt: Text, i: nat, n: nat, args: seq<Arg>, k: nat, s: Spec, attrs: Attrs)
    requires 0 < n < 0x1_0000_0000_0000_0000 && i + |DecDigits(n)| < |fmt|
    requires fmt[i..i + |DecDigits(n)|] == DecDigits(n) && !IsDec(fmt[i + |DecDigits(n)|])
    ensures Directive(fmt, i, args, k, s, attrs)
      == Directive(fmt, i + |DecDigits(n)|, args, k,
                   if s.parseField then s.(fieldWidth := n) else s.(width := n), attrs)
  {
    hide Number, DigitPrefix, DecDigits, Wrap;
    var d := DecDigits(n);
    NoLeadingZero(n);
    DecDigitsRead(n);
    assert fmt[i] == d[0];
    assert fmt[i..][..|d|] == d && fmt[i..][|d|] == fmt[i + |d|];
    PrefixIs(fmt[i..], d, false);
    WrapSmall(n);
    DigitStep(fmt, i, args, k, s, attrs);
  }

  lemma DigitStep(fmt: Text, i: nat, args: seq<Arg>, k: nat, s: Spec, attrs: Attrs)
    requires i < |fmt| && 49 <= fmt[i] <= 57
    ensures var digits := DigitPrefix(fmt[i..], false);
      StepAt(fmt, i, args, k, s, attrs) == More(i + |digits|, k, SetField(s, Wrap(Number(digits, 10))))
  {
    hide Number, DigitPrefix, Wrap, SetField, Convert, ArgAt;
  }

  function WithFlag(s: Spec, c: CHAR16): Spec {
    if c == 45 then s.(padBefore := false)
    else if c == 44 then s.(comma := true)
    else if c == 48 then s.(pad := 48)
    else if c == 46 then s.(parseField := true)
    else s.(long := true)
  }

  lemma OptionalAt(q: Text, on: bool, c: CHAR16, fmt: Text, args: seq<Arg>, k: nat, s: Spec, attrs: Attrs)
    requires c in {45, 44, 48, 46, 108} && q + Flag(on, c) <= fmt
    ensures var s' := if on then WithFlag(s, c) else s;
      Directive(fmt, |q|, args, k, s, attrs) == Directive(fmt, |q + Flag(on, c)|, args, k, s', attrs)
  {
    hide Directive;
    if on {
      assert fmt[|q|] == (q + [c])[|q|];
      FlagAt(fmt, |q|, args, k, s, attrs);
    }
  }

  lemma CountAt(q: Text, c: Count, fmt: Text, args: seq<Arg>, k: nat, s: Spec, attrs: Attrs)
    requires (c.Digits? ==> 0 < c.n < 0x1_0000_0000_0000_0000) && (c.Star? ==> k < |args|)
    requires q + CountText(c) <= fmt && |q + CountText(c)| < |fmt| && !IsDec(fmt[|q + CountText(c)|])
    ensures Directive(fmt, |q|, args, k, s, attrs)
      == Directive(fmt, |q + CountText(c)|, args, if c.Star? then k + 1 else k,
                   if c.Absent? then s
                   else if s.parseField then s.(fieldWidth := CountValue(c, args, k))
                   else s.(width := CountValue(c, args, k)), attrs)
  {
    hide Directive, DecDigits;
    match c
    case Absent => assert q + [] == q;
    case Star =>
      assert fmt[|q|] == (q + [42])[|q|];
      StarAt(fmt, |q|, args, k, s, attrs);
    case Digits(n) =>
      assert fmt[|q|..|q| + |DecDigits(n)|] == DecDigits(n);
      NumberAt(fmt, |q|, n, args, k, s, attrs);
  }

  /** The form up to the width. */
  function UpToWidth(f: Form): Text {
    [37] + Flag(f.minus, 45) + Flag(f.comma, 44) + Flag(f.zero, 48) + CountText(f.width)
  }

  function WidthStars(f: Form): nat {
    if f.width.Star? then 1 else 0
  }

  /** What the form asks for up to the width. */
  function AskedWidth(f: Form, args: seq<Arg>): Spec
    requires f.Valid() && f.Stars() <= |args|
  {
    Spec(if f.width.Absent? then 0 else CountValue(f.width, args, 0), NO_WIDTH, false, if f.zero then 48 else 32,
         !f.minus, f.comma, false)
  }

  lemma WidthPart(f: Form, fmt: Text, args: seq<Arg>, attrs: Attrs)
    requires f.Valid() && f.Stars() <= |args|
    requires UpToWidth(f) <= fmt && |UpToWidth(f)| < |fmt| && !IsDec(fmt[|UpToWidth(f)|])
    ensures Directive(fmt, 1, args, 0, FRESH, attrs)
      == Directive(fmt, |UpToWidth(f)|, args, WidthStars(f), AskedWidth(f, args), attrs)
  {
    hide Directive, CountText, CountValue, Flag;
    var q0: Text := [37];
    var q1: Text := q0 + Flag(f.minus, 45);
    var q2: Text := q1 + Flag(f.comma, 44);
    var q3: Text := q2 + Flag(f.zero, 48);
    assert q1 <= q2 <= q3 <= UpToWidth(f);
    OptionalAt(q0, f.minus, 45, fmt, args, 0, FRESH, attrs);
    var s1 := if f.minus then WithFlag(FRESH, 45) else FRESH;
    OptionalAt(q1, f.comma, 44, fmt, args, 0, s1, attrs);
    var s2 := if f.comma then WithFlag(s1, 44) else s1;
    OptionalAt(q2, f.zero, 48, fmt, args, 0, s2, attrs);
    CountAt(q3, f.width, fmt, args, 0, if f.zero then WithFlag(s2, 48) else s2, attrs);
  }

  lemma FieldPart(q4: Text, f: Form, fmt: Text, args: seq<Arg>, k: nat, s: Spec, attrs: Attrs)
    requires f.Valid() && (f.field.Star? ==> k < |args|)
    requires !s.parseField && s.fieldWidth == NO_WIDTH && !s.long
    requires var q6 := q4 + Flag(f.dot, 46) + CountText(f.field);
      q6 + Flag(f.long, 108) <= fmt && |q6| < |fmt| && !IsDec(fmt[|q6|])
    ensures Directive(fmt, |q4|, args, k, s, attrs)
      == Directive(fmt, |q4 + Flag(f.dot, 46) + CountText(f.field) + Flag(f.long, 108)|, args,
                   k + if f.field.Star? then 1 else 0,
                   s.(parseField := f.dot, long := f.long,
                     fieldWidth := if f.field.Absent? then NO_WIDTH else CountValue(f.field, args, k)), attrs)
  {
    hide Directive, CountText, CountValue, Flag;
    var q5: Text := q4 + Flag(f.dot, 46);
    var q6: Text := q5 + CountText(f.field);
    assert q5 <= q6 <= q6 + Flag(f.long, 108);
    OptionalAt(q4, f.dot, 46, fmt, args, k, s, attrs);
    var s5 := if f.dot then WithFlag(s, 46) else s;
    CountAt(q5, f.field, fmt, args, k, s5, attrs);
    var s6 := if f.field.Absent? then s5 else s5.(fieldWidth := CountValue(f.field, args, k));
    OptionalAt(q6, f.long, 108, fmt, args, if f.field.Star? then k + 1 else k, s6, attrs);
  }

  /** The settings of a form, whatever converts. */
  lemma FormDirective(f: Form, c: CHAR16, args: seq<Arg>, attrs: Attrs)
    requires f.Valid() && c != 0 && !IsDec(c) && f.Stars() <= |args|
    ensures var fmt := Fmt(f, c);
      Directive(fmt, 1, args, 0, FRESH, attrs)
      == Directive(fmt, |fmt| - 1, args, f.Stars(), Asked(f, args), attrs)
  {
    hide Directive, CountText, CountValue, Flag;
    var fmt, q4 := Fmt(f, c), UpToWidth(f);
    var q7: Text := q4 + Flag(f.dot, 46) + CountText(f.field) + Flag(f.long, 108);
    assert fmt == q7 + [c];
    NoDigitBehind(q4, f, c);
    WidthPart(f, fmt, args, attrs);
    FieldPart(q4, f, fmt, args, WidthStars(f), AskedWidth(f, args), attrs);
  }

  /** Behind a width stands the dot, `l` or the conversion, and behind a field width `l` or the conversion. */
  lemma NoDigitBehind(q4: Text, f: Form, c: CHAR16)
    requires q4 == [37] + Flag(f.minus, 45) + Flag(f.comma, 44) + Flag(f.zero, 48) + CountText(f.width)
    requires f.Valid() && c != 0 && !IsDec(c)
    ensures var fmt := Fmt(f, c); var q6 := q4 + Flag(f.dot, 46) + CountText(f.field);
      && |q4| < |fmt| && !IsDec(fmt[|q4|]) && |q6| < |fmt| && !IsDec(fmt[|q6|])
  {
    hide Flag, CountText, IsDec;
    var dot, field, long := Flag(f.dot, 46), CountText(f.field), Flag(f.long, 108);
    FirstIsNoDigit(f, c);
    assert Fmt(f, c) == q4 + (dot + field + long + [c]) && Fmt(f, c) == (q4 + dot + field) + (long + [c]);
    assert Fmt(f, c)[|q4|] == (dot + field + long + [c])[0];
    assert Fmt(f, c)[|q4 + dot + field|] == (long + [c])[0];
  }

  lemma FirstIsNoDigit(f: Form, c: CHAR16)
    requires f.Valid() && c != 0 && !IsDec(c)
    ensures var dot, field, long := Flag(f.dot, 46), CountText(f.field), Flag(f.long, 108);
      !IsDec((dot + field + long + [c])[0]) && !IsDec((long + [c])[0])
  {
    hide DecDigits;
    if !f.dot {
      assert CountText(f.field) == [];
    }
  }

  // ----- what is printed

  lemma FormRenders(f: Form, c: CHAR16, args: seq<Arg>, attrs: Attrs, text: Text, s: Spec)
    requires f.Valid() && f.Stars() <= |args| && c != 0 && !IsDec(c)
    requires StepAt(Fmt(f, c), |Fmt(f, c)| - 1, args, f.Stars(), Asked(f, args), attrs).Done?
    requires var outcome := StepAt(Fmt(f, c), |Fmt(f, c)| - 1, args, f.Stars(), Asked(f, args), attrs).outcome;
      outcome.Item? && outcome.text == text && outcome.spec == s
    ensures Render(Fmt(f, c), 0, args, 0, attrs) == Some(Expand(Layout(text, s)))
  {
    hide StepAt, Asked, Expand, Layout;
    var fmt := Fmt(f, c);
    FormDirective(f, c, args, attrs);
    var d := Directive(fmt, 1, args, 0, FRESH, attrs);
    assert d.next == |fmt| && Render(fmt, |fmt|, args, d.used, attrs) == Some([]);
    assert Expand(Layout(text, s)) + [] == Expand(Layout(text, s));
  }

  /** MAIN: strings and characters. A null pointer prints as `(null)`, the character NUL as nothing. */
  lemma PrintsText(f: Form, args: seq<Arg>, attrs: Attrs)
    requires f.Valid() && f.Stars() < |args|
    ensures var a, s := args[f.Stars()], Asked(f, args); var nullText: Text := [40, 110, 117, 108, 108, 41];
      && Render(Fmt(f, 115), 0, args, 0, attrs)
         == Some(Expand(Layout(if a.wide.Some? then a.wide.value else nullText, s)))
      && Render(Fmt(f, 97), 0, args, 0, attrs)
         == Some(Expand(Layout(if a.ascii.Some? then a.ascii.value else nullText, s)))
      && Render(Fmt(f, 99), 0, args, 0, attrs)
         == Some(Expand(Layout(if a.word % 0x1_0000 == 0 then [] else [a.word % 0x1_0000], s)))
  {
    hide Render, Directive, Asked, Expand, Layout, Fmt, Hex, Dec, DigitPrefix, Number, SetField, Wrap;
    var a, s := args[f.Stars()], Asked(f, args);
    LastOf(f, 115);
    LastOf(f, 97);
    LastOf(f, 99);
    FormRenders(f, 115, args, attrs, if a.wide.Some? then a.wide.value else NULL_TEXT, s);
    FormRenders(f, 97, args, attrs, if a.ascii.Some? then a.ascii.value else NULL_TEXT, s);
    FormRenders(f, 99, args, attrs, if a.word % 0x1_0000 == 0 then [] else [a.word % 0x1_0000], s);
  }

  lemma LastOf(f: Form, c: CHAR16)
    requires c != 0
    ensures |Fmt(f, c)| > 1 && Fmt(f, c)[|Fmt(f, c)| - 1] == c
  {
  }

  lemma HexSteps(fmt: Text, i: nat, args: seq<Arg>, k: nat, s: Spec, attrs: Attrs)
    requires i < |fmt| && k < |args|
    ensures var word := args[k].word; var v: u64 := if s.long then word else word % 0x1_0000_0000;
      var step := StepAt(fmt, i, args, k, s, attrs);
      && (fmt[i] == 120 ==> step == Done(Item(Hex(v), s, i + 1, k + 1)))
      && (fmt[i] == 88 ==>
        step == Done(Item(Hex(v), s.(width := if s.long then 16 else 8, pad := 48), i + 1, k + 1)))
      && (fmt[i] == 112 ==> step == Done(Item([48, 120] + Hex(v), s.(width := 0, pad := 48), i + 1, k + 1)))
  {
    hide Hex, Dec, DigitPrefix, Number, SetField, Wrap;
  }

  /** MAIN: hexadecimal numbers, of 64 bits behind `l` and else of 32; `%X` fills 16 or 8 places with zeros
      whatever the width. */
  lemma PrintsHex(f: Form, args: seq<Arg>, attrs: Attrs)
    requires f.Valid() && f.Stars() < |args|
    ensures var s := Asked(f, args);
      var digits := HexText(if f.long then args[f.Stars()].word else args[f.Stars()].word % 0x1_0000_0000);
      && 0 !in digits
      && Render(Fmt(f, 120), 0, args, 0, attrs) == Some(Expand(Layout(digits, s)))
      && Render(Fmt(f, 88), 0, args, 0, attrs)
         == Some(Expand(Layout(digits, s.(width := if f.long then 16 else 8, pad := 48))))
  {
    hide Render, Directive, Expand, Layout, Fmt, HexText, StepAt, CountValue;
    var s, word := Asked(f, args), args[f.Stars()].word;
    var v: u64 := if f.long then word else word % 0x1_0000_0000;
    LastOf(f, 120);
    LastOf(f, 88);
    HexSteps(Fmt(f, 120), |Fmt(f, 120)| - 1, args, f.Stars(), s, attrs);
    HexSteps(Fmt(f, 88), |Fmt(f, 88)| - 1, args, f.Stars(), s, attrs);
    FormRenders(f, 120, args, attrs, Hex(v), s);
    FormRenders(f, 88, args, attrs, Hex(v), s.(width := if f.long then 16 else 8, pad := 48));
  }

  /** MAIN: pointers print as `0x` and the digits. Their width is 0, so only a field width pads them. */
  lemma PrintsPointer(f: Form, args: seq<Arg>, attrs: Attrs)
    requires f.Valid() && f.Stars() < |args|
    ensures var digits := HexText(if f.long then args[f.Stars()].word else args[f.Stars()].word % 0x1_0000_0000);
      && 0 !in digits
      && Render(Fmt(f, 112), 0, args, 0, attrs)
         == Some(Expand(Layout([48, 120] + digits, Asked(f, args).(width := 0, pad := 48))))
  {
    hide Render, Directive, Expand, Layout, Fmt, HexText, StepAt, CountValue;
    var s, word := Asked(f, args), args[f.Stars()].word;
    var v: u64 := if f.long then word else word % 0x1_0000_0000;
    LastOf(f, 112);
    HexSteps(Fmt(f, 112), |Fmt(f, 112)| - 1, args, f.Stars(), s, attrs);
    FormRenders(f, 112, args, attrs, [48, 120] + Hex(v), s.(width := 0, pad := 48));
  }

  /** A word as the signed number of 64 or of 32 bits it stands for. */
  function SignedWord(word: u64, long: bool): int {
    var v := if long then word else word % 0x1_0000_0000;
    if long && v >= 0x8000_0000_0000_0000 then v - 0x1_0000_0000_0000_0000
    else if !long && v >= 0x8000_0000 then v - 0x1_0000_0000
    else v
  }

  /** MAIN: decimal numbers: `%d` as signed numbers of 64 or 32 bits, `%u` as signed numbers of 64 bits, which
      makes a difference behind `l` only. */
  lemma PrintsDecimal(f: Form, args: seq<Arg>, attrs: Attrs)
    requires f.Valid() && f.Stars() < |args|
    ensures var s, word := Asked(f, args), args[f.Stars()].word;
      var signed, unsigned := DecText(SignedWord(word, f.long), f.comma),
                              DecText(if f.long then SignedWord(word, true) else word % 0x1_0000_0000, f.comma);
      && 0 !in signed && 0 !in unsigned
      && Render(Fmt(f, 100), 0, args, 0, attrs) == Some(Expand(Layout(signed, s)))
      && Render(Fmt(f, 117), 0, args, 0, attrs) == Some(Expand(Layout(unsigned, s)))
  {
    hide Render, Directive, Expand, Layout, Fmt, DecText, Hex, DigitPrefix, Number, SetField, Wrap, CountValue,
         ToInt64, ToInt32;
    var s, word := Asked(f, args), args[f.Stars()].word;
    LastOf(f, 100);
    LastOf(f, 117);
    SignedWords(word);
    FormRenders(f, 100, args, attrs, Dec(SignedWord(word, f.long), f.comma), s);
    FormRenders(f, 117, args, attrs,
                Dec(if f.long then SignedWord(word, true) else word % 0x1_0000_0000, f.comma), s);
  }

  lemma SignedWords(word: u64)
    ensures ToInt64(word) == SignedWord(word, true) && ToInt32(word) == SignedWord(word, false)
    ensures ToInt64(word % 0x1_0000_0000) == word % 0x1_0000_0000
  {
  }

  /** Characters that mean nothing behind `%`. */
  predicate Unknown(c: CHAR16) {
    && c != 0 && !(48 <= c <= 57) && c !in {37, 42, 44, 45, 46, 68, 69, 72, 78, 88}
    && c !in {97, 99, 100, 101, 102, 103, 104, 108, 110, 112, 114, 115, 116, 117, 120}
  }

  /** MAIN: the conversions other units format print their text, of a device path 99 characters at most;
      `%%` prints a percent sign and any other letter a question mark, and neither takes an argument. */
  lemma PrintsOthers(f: Form, c: CHAR16, args: seq<Arg>, attrs: Attrs)
    requires f.Valid() && f.Stars() < |args|
    ensures c in {102, 103, 114, 116} ==>
      Render(Fmt(f, c), 0, args, 0, attrs) == Some(Expand(Layout(args[f.Stars()].foreign, Asked(f, args))))
    ensures var t := args[f.Stars()].foreign;
      Render(Fmt(f, 68), 0, args, 0, attrs)
      == Some(Expand(Layout(if |t| > 99 then t[..99] else t, Asked(f, args))))
    ensures Render(Fmt(f, 37), 0, args, 0, attrs) == Some(Expand(Layout([37], Asked(f, args))))
    ensures Unknown(c) ==>
      Render(Fmt(f, c), 0, args, 0, attrs) == Some(Expand(Layout([63], Asked(f, args))))
  {
    hide Render, Directive, Expand, Layout, Fmt, StepAt, CountValue;
    LastOf(f, 68);
    LastOf(f, 37);
    OtherSteps(Fmt(f, 68), |Fmt(f, 68)| - 1, args, f.Stars(), Asked(f, args), attrs);
    OtherSteps(Fmt(f, 37), |Fmt(f, 37)| - 1, args, f.Stars(), Asked(f, args), attrs);
    var t := args[f.Stars()].foreign;
    FormRenders(f, 68, args, attrs, if |t| > 99 then t[..99] else t, Asked(f, args));
    FormRenders(f, 37, args, attrs, [37], Asked(f, args));
    if c in {102, 103, 114, 116} {
      LastOf(f, c);
      OtherSteps(Fmt(f, c), |Fmt(f, c)| - 1, args, f.Stars(), Asked(f, args), attrs);
      FormRenders(f, c, args, attrs, t, Asked(f, args));
    } else if Unknown(c) {
      LastOf(f, c);
      OtherSteps(Fmt(f, c), |Fmt(f, c)| - 1, args, f.Stars(), Asked(f, args), attrs);
      FormRenders(f, c, args, attrs, [63], Asked(f, args));
    }
  }

  lemma OtherSteps(fmt: Text, i: nat, args: seq<Arg>, k: nat, s: Spec, attrs: Attrs)
    requires i < |fmt| && k < |args|
    ensures var t := args[k].foreign; var step := StepAt(fmt, i, args, k, s, attrs); var c := fmt[i];
      && (c in {102, 103, 114, 116} ==> step == Done(Item(t, s, i + 1, k + 1)))
      && (c == 68 ==> step == Done(Item(if |t| > 99 then t[..99] else t, s, i + 1, k + 1)))
      && (c == 37 ==> step == Done(Item([37], s, i + 1, k)))
      && (Unknown(c) ==> step == Done(Item([63], s, i + 1, k)))
  {
    hide Hex, Dec, DigitPrefix, Number, SetField, Wrap;
  }

  // ----- widths, spelled out

  lemma PaddedToWidth(text: Text, s: Spec)
    requires s.fieldWidth == UINT64_MAX && |text| < UINT64_MAX
    ensures Layout(text, s) == Repeat(s.pad, s.width - |text|) + text
  {
  }

  lemma ClippedToField(text: Text, s: Spec, n: u64)
    requires s.fieldWidth == n < UINT64_MAX && s.width == 0
    ensures var shown := text[..if |text| < n then |text| else n]; var blanks := Repeat(32, n - |text|);
      Layout(text, s) == if s.padBefore then blanks + shown else shown + blanks
  {
    hide Repeat;
    if |text| >= n {
      assert Repeat(32, n - |text|) == [] && Repeat(s.pad, 0) == [] && Repeat(BLANK, 0) == [];
    } else {
      assert Repeat(s.pad, 0) == [];
    }
  }

  lemma PaddingExpands(c: CHAR16, n: int, text: seq<CHAR16>)
    requires c != LF && LF !in text
    ensures Expand(Repeat(c, n) + text) == Repeat(c, n) + text
  {
    hide Repeat;
    assert LF !in Repeat(c, n) + text;
    NoNewlines(Repeat(c, n) + text);
  }

  /** MAIN: `%0nx` prints the digits of 32 bits with zeros in front up to `n`, and `%nx` with blanks. */
  lemma WidthOfHex(n: u64, arg: Arg, attrs: Attrs)
    requires n > 0
    ensures var digits := HexText(arg.word % 0x1_0000_0000);
      && 0 !in DecDigits(n)
      && Render([37, 48] + DecDigits(n) + [120], 0, [arg], 0, attrs) == Some(Repeat(48, n - |digits|) + digits)
      && Render([37] + DecDigits(n) + [120], 0, [arg], 0, attrs) == Some(Repeat(32, n - |digits|) + digits)
  {
    hide Render, Expand, Layout, HexText, DecDigits, Repeat;
    var v: u64 := arg.word % 0x1_0000_0000;
    var zeros, blanks := PLAIN.(zero := true, width := Digits(n)), PLAIN.(width := Digits(n));
    DigitsAreText(n);
    FmtIs(zeros, 120, [37, 48] + DecDigits(n) + [120]);
    FmtIs(blanks, 120, [37] + DecDigits(n) + [120]);
    PrintsHex(zeros, [arg], attrs);
    PrintsHex(blanks, [arg], attrs);
    DigitText(v);
    PaddedToWidth(HexText(v), Asked(zeros, [arg]));
    PaddedToWidth(HexText(v), Asked(blanks, [arg]));
    PaddingExpands(48, n - |HexText(v)|, HexText(v));
    PaddingExpands(32, n - |HexText(v)|, HexText(v));
  }

  lemma FmtIs(f: Form, c: CHAR16, fmt: Text)
    requires c != 0
    requires fmt == [37] + Flag(f.minus, 45) + Flag(f.comma, 44) + Flag(f.zero, 48) + CountText(f.width)
                    + Flag(f.dot, 46) + CountText(f.field) + Flag(f.long, 108) + [c]
    ensures Fmt(f, c) == fmt
  {
  }

  /** MAIN: `%ns` pads a shorter text with blanks in front, and does the same behind `-`. */
  lemma WidthOfString(n: u64, text: Text, attrs: Attrs)
    requires n > 0 && |text| < UINT64_MAX
    ensures var args := [Arg(0, Some(text), None, [])];
      && 0 !in DecDigits(n)
      && Render([37] + DecDigits(n) + [115], 0, args, 0, attrs) == Some(Expand(Repeat(32, n - |text|) + text))
      && Render([37, 45] + DecDigits(n) + [115], 0, args, 0, attrs) == Some(Expand(Repeat(32, n - |text|) + text))
  {
    hide Render, Expand, Layout, DecDigits, Repeat;
    var args := [Arg(0, Some(text), None, [])];
    var right, left := PLAIN.(width := Digits(n)), PLAIN.(minus := true, width := Digits(n));
    DigitsAreText(n);
    FmtIs(right, 115, [37] + DecDigits(n) + [115]);
    FmtIs(left, 115, [37, 45] + DecDigits(n) + [115]);
    PrintsText(right, args, attrs);
    PrintsText(left, args, attrs);
    PaddedToWidth(text, Asked(right, args));
    PaddedToWidth(text, Asked(left, args));
  }

  /** MAIN: `%.ns` shows at most `n` characters, and blanks in front where the text is shorter; with `-` the
      blanks stand behind it. */
  lemma FieldOfString(n: u64, text: Text, attrs: Attrs)
    requires 0 < n < UINT64_MAX
    ensures var args := [Arg(0, Some(text), None, [])];
      var shown, blanks := text[..if |text| < n then |text| else n], Repeat(32, n - |text|);
      && 0 !in DecDigits(n)
      && Render([37, 46] + DecDigits(n) + [115], 0, args, 0, attrs) == Some(Expand(blanks + shown))
      && Render([37, 45, 46] + DecDigits(n) + [115], 0, args, 0, attrs) == Some(Expand(shown + blanks))
  {
    hide Render, Expand, Layout, DecDigits, Repeat;
    var args := [Arg(0, Some(text), None, [])];
    var right, left := PLAIN.(dot := true, field := Digits(n)), PLAIN.(minus := true, dot := true, field := Digits(n));
    DigitsAreText(n);
    FmtIs(right, 115, [37, 46] + DecDigits(n) + [115]);
    FmtIs(left, 115, [37, 45, 46] + DecDigits(n) + [115]);
    PrintsText(right, args, attrs);
    PrintsText(left, args, attrs);
    ClippedToField(text, Asked(right, args), n);
    ClippedToField(text, Asked(left, args), n);
  }

  /** MAIN: `%*x` and `%.*s` take the width from the argument in front of the one they print. */
  lemma WidthFromArgument(w: Arg, arg: Arg, text: Text, attrs: Attrs)
    requires w.word < UINT64_MAX && arg.wide == Some(text)
    ensures var digits := HexText(arg.word % 0x1_0000_0000);
      Render([37, 42, 120], 0, [w, arg], 0, attrs) == Some(Repeat(32, w.word - |digits|) + digits)
    ensures Render([37, 46, 42, 115], 0, [w, arg], 0, attrs)
         == Some(Expand(Repeat(32, w.word - |text|) + text[..if |text| < w.word then |text| else w.word]))
  {
    hide Render, Expand, Layout, HexText, Repeat;
    var args := [w, arg];
    var v: u64 := arg.word % 0x1_0000_0000;
    var width, field := PLAIN.(width := Star), PLAIN.(dot := true, field := Star);
    FmtIs(width, 120, [37, 42, 120]);
    FmtIs(field, 115, [37, 46, 42, 115]);
    PrintsHex(width, args, attrs);
    PrintsText(field, args, attrs);
    DigitText(v);
    PaddedToWidth(HexText(v), Asked(width, args));
    PaddingExpands(32, w.word - |HexText(v)|, HexText(v));
    ClippedToField(text, Asked(field, args), w.word);
  }

  /** MAIN: what `%s`, `%a`, `%c`, `%d` and `%,d` print of one argument; `%d` reads 32 bits as a signed number. */
  lemma BareConversions(arg: Arg, attrs: Attrs)
    requires arg.wide.Some? ==> |arg.wide.value| < UINT64_MAX
    requires arg.ascii.Some? ==> |arg.ascii.value| < UINT64_MAX
    ensures Render([37, 115], 0, [arg], 0, attrs)
         == Some(if arg.wide.Some? then Expand(arg.wide.value) else [40, 110, 117, 108, 108, 41])
    ensures Render([37, 97], 0, [arg], 0, attrs)
         == Some(if arg.ascii.Some? then Expand(arg.ascii.value) else [40, 110, 117, 108, 108, 41])
    ensures arg.word % 0x1_0000 !in {0, 10} ==>
      Render([37, 99], 0, [arg], 0, attrs) == Some([arg.word % 0x1_0000])
    ensures var v: u64 := arg.word % 0x1_0000_0000;
      Render([37, 100], 0, [arg], 0, attrs) == Some(DecText(if v < 0x8000_0000 then v else v - 0x1_0000_0000, false))
  {
    hide Render, Expand, Layout, DecText;
    var s := Asked(PLAIN, [arg]);
    FmtIs(PLAIN, 115, [37, 115]);
    FmtIs(PLAIN, 97, [37, 97]);
    FmtIs(PLAIN, 99, [37, 99]);
    FmtIs(PLAIN, 100, [37, 100]);
    PrintsText(PLAIN, [arg], attrs);
    PrintsDecimal(PLAIN, [arg], attrs);
    var nullText: Text := [40, 110, 117, 108, 108, 41];
    BareText(nullText, s);
    NoNewlines(nullText);
    if arg.wide.Some? {
      BareText(arg.wide.value, s);
    }
    if arg.ascii.Some? {
      BareText(arg.ascii.value, s);
    }
    if arg.word % 0x1_0000 !in {0, 10} {
      BareText([arg.word % 0x1_0000], s);
      NoNewlines([arg.word % 0x1_0000]);
    }
    SignedText(SignedWord(arg.word, false));
    BareText(DecText(SignedWord(arg.word, false), false), s);
  }

  lemma BareText(text: Text, s: Spec)
    requires s.width == 0 && s.fieldWidth == UINT64_MAX && |text| < UINT64_MAX
    ensures Layout(text, s) == text
  {
    BareLayout(text, s);
  }

  lemma {:induction false} GroupedText(d: seq<CHAR16>)
    requires LF !in d
    ensures LF !in Grouped(d) && |Grouped(d)| <= 2 * |d|
    decreases |d|
  {
    if |d| > 3 {
      GroupedText(d[..|d| - 3]);
    }
  }

  lemma {:induction false} NoCommas(v: nat)
    ensures COMMA !in DecDigits(v)
    decreases v
  {
    if v > 0 {
      NoCommas(v / 10);
    }
  }

  lemma CommaText(v: int)
    requires -0x8000_0000_0000_0000 <= v < 0x8000_0000_0000_0000
    ensures LF !in DecText(v, true) && |DecText(v, true)| <= 41
    ensures v < 0 ==> DecText(v, true) == [45] + DecText(-v, true)
    ensures v >= 0 ==> WithoutCommas(DecText(v, true)) == DecText(v, false)
    ensures v >= 0 ==>
      forall i | 0 <= i < |DecText(v, true)| :: DecText(v, true)[i] == 44 <==> (|DecText(v, true)| - i) % 4 == 0
  {
    hide WithoutCommas, Grouped, DecDigits;
    var m := if v < 0 then -v else v;
    WordLengths(m);
    DigitsHaveNoNewlines(m);
    GroupedText(DecDigits(m));
    assert [] + Grouped(DecDigits(m)) == Grouped(DecDigits(m)) && [] + DecDigits(m) == DecDigits(m);
    NoCommas(m);
    CommasEveryThree(DecDigits(m));
    NothingDeleted([ZERO]);
  }

  /** MAIN: behind a comma the digits come in groups of three: a number that is not negative has commas exactly
      at every fourth place from the right, and is the plain number without them. */
  lemma CommaGroups(arg: Arg, attrs: Attrs)
    ensures var v, printed := SignedWord(arg.word, true), Render([37, 44, 108, 100], 0, [arg], 0, attrs);
      && (v < 0 ==> printed == Some([45] + DecText(-v, true)))
      && (v >= 0 ==>
        && printed.Some? && WithoutCommas(printed.value) == DecText(v, false)
        && forall i | 0 <= i < |printed.value| :: printed.value[i] == 44 <==> (|printed.value| - i) % 4 == 0)
  {
    hide Render, Expand, Layout, DecText, WithoutCommas;
    var f, v := PLAIN.(comma := true, long := true), SignedWord(arg.word, true);
    FmtIs(f, 100, [37, 44, 108, 100]);
    PrintsDecimal(f, [arg], attrs);
    CommaText(v);
    BareText(DecText(v, true), Asked(f, [arg]));
    NoNewlines(DecText(v, true));
  }
}
