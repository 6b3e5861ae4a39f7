/**
 What the print engine is for: text is printed as it is, formats can be taken apart between directives,
 and printed numbers read back.
 */
module PrintLaws {
  import opened Word64
  import opened Wrappers
  import opened Numbers
  import opened PrintBuffer
  import opened PrintFormat

  /** Text without directives prints as itself, with a carriage return before every newline. */
  lemma {:induction false} PlainFormat(fmt: Text, i: nat, args: seq<Arg>, k: nat, attrs: Attrs)
    requires i <= |fmt| && PERCENT !in fmt
    ensures Render(fmt, i, args, k, attrs) == Some(Expand(fmt[i..]))
    decreases |fmt| - i
  {
    if i < |fmt| {
      PlainFormat(fmt, i + 1, args, k, attrs);
      assert fmt[i..] == [fmt[i]] + fmt[i + 1..];
      ExpandAppend([fmt[i]], fmt[i + 1..]);
    } else {
      assert fmt[i..] == [];
      NothingExpanded();
    }
  }

  lemma {:induction false} DigitsStay(s: seq<CHAR16>, t: seq<CHAR16>)
    requires |DigitPrefix(s, false)| < |s|
    ensures DigitPrefix(s + t, false) == DigitPrefix(s, false)
    decreases |s|
  {
    if IsDec(s[0]) {
      assert (s + t)[1..] == s[1..] + t;
      DigitsStay(s[1..], t);
    }
  }

  lemma StepStays(f: Text, g: Text, i: nat, args: seq<Arg>, k: nat, s: Spec, attrs: Attrs)
    requires i < |f| && var step := StepAt(f, i, args, k, s, attrs); step.More? ==> step.next < |f|
    ensures StepAt(f + g, i, args, k, s, attrs) == StepAt(f, i, args, k, s, attrs)
  {
    hide Convert, Number, Wrap, Converts;
    assert (f + g)[i] == f[i] && (f + g)[i..] == f[i..] + g;
    if IsDec(f[i]) && |DigitPrefix(f[i..], false)| < |f[i..]| {
      DigitsStay(f[i..], g);
    }
  }

  /** A directive that ends in `f` is the same in `f + g`. */
  lemma {:induction false} DirectiveStays(f: Text, g: Text, i: nat, args: seq<Arg>, k: nat, s: Spec, attrs: Attrs)
    requires i <= |f| && !Directive(f, i, args, k, s, attrs).Unfinished?
    ensures Directive(f + g, i, args, k, s, attrs) == Directive(f, i, args, k, s, attrs)
    decreases |f| - i
  {
    hide StepAt;
    StepStays(f, g, i, args, k, s, attrs);
    match StepAt(f, i, args, k, s, attrs)
    case Done(_) =>
    case More(next, used, spec) => DirectiveStays(f, g, next, args, used, spec, attrs);
  }

  function Shifted(d: Outcome, n: nat): Outcome {
    match d
    case Item(text, spec, next, used) => Item(text, spec, next + n, used)
    case Attribute(next, used) => Attribute(next + n, used)
    case Unfinished => Unfinished
  }

  lemma StepMoves(f: Text, g: Text, i: nat, args: seq<Arg>, k: nat, s: Spec, attrs: Attrs)
    requires i < |g|
    ensures StepAt(f + g, |f| + i, args, k, s, attrs) == match StepAt(g, i, args, k, s, attrs)
      case Done(outcome) => Done(Shifted(outcome, |f|))
      case More(next, used, spec) => More(next + |f|, used, spec)
  {
    hide Convert, Number, Wrap, Converts, DigitPrefix;
    assert (f + g)[|f| + i] == g[i] && (f + g)[|f| + i..] == g[i..];
  }

  /** A directive of `g` is the same in `f + g`, `|f|` places later. */
  lemma {:induction false} DirectiveMoves(f: Text, g: Text, i: nat, args: seq<Arg>, k: nat, s: Spec, attrs: Attrs)
    requires i <= |g|
    ensures Directive(f + g, |f| + i, args, k, s, attrs) == Shifted(Directive(g, i, args, k, s, attrs), |f|)
    decreases |g| - i
  {
    hide StepAt;
    if i < |g| {
      StepMoves(f, g, i, args, k, s, attrs);
      match StepAt(g, i, args, k, s, attrs)
      case Done(_) =>
      case More(next, used, spec) => DirectiveMoves(f, g, next, args, used, spec, attrs);
    }
  }

  lemma {:induction false} RenderMoves(f: Text, g: Text, i: nat, args: seq<Arg>, k: nat, attrs: Attrs)
    requires i <= |g|
    ensures Render(f + g, |f| + i, args, k, attrs) == Render(g, i, args, k, attrs)
    decreases |g| - i
  {
    hide Directive, Expand, Layout;
    if i < |g| {
      assert (f + g)[|f| + i] == g[i];
      if g[i] != PERCENT {
        RenderMoves(f, g, i + 1, args, k, attrs);
      } else {
        var d := Directive(g, i + 1, args, k, FRESH, attrs);
        DirectiveMoves(f, g, i + 1, args, k, FRESH, attrs);
        if !d.Unfinished? {
          RenderMoves(f, g, d.next, args, d.used, attrs);
        }
      }
    }
  }

  /** How many arguments the format has taken when it is rendered from `i` on. */
  function Used(fmt: Text, i: nat, args: seq<Arg>, k: nat, attrs: Attrs): nat
    requires Render(fmt, i, args, k, attrs).Some?
    decreases |fmt| - i
  {
    if i >= |fmt| then k
    else if fmt[i] != PERCENT then Used(fmt, i + 1, args, k, attrs)
    else
      var d := Directive(fmt, i + 1, args, k, FRESH, attrs);
      Used(fmt, d.next, args, d.used, attrs)
  }

  lemma {:induction false} RenderPieces(f: Text, g: Text, i: nat, args: seq<Arg>, k: nat, attrs: Attrs)
    requires i <= |f| && Render(f, i, args, k, attrs).Some?
    ensures Render(f + g, i, args, k, attrs)
      == Before(Render(f, i, args, k, attrs).value, Render(f + g, |f|, args, Used(f, i, args, k, attrs), attrs))
    decreases |f| - i
  {
    hide Directive, Expand, Layout;
    if i == |f| {
      BeforeNothing(Render(f + g, |f|, args, k, attrs));
    } else if f[i] != PERCENT {
      assert (f + g)[i] == f[i];
      RenderPieces(f, g, i + 1, args, k, attrs);
      BeforeTwice(Expand([f[i]]), Render(f, i + 1, args, k, attrs).value,
                  Render(f + g, |f|, args, Used(f, i + 1, args, k, attrs), attrs));
    } else {
      assert (f + g)[i] == f[i];
      var d := Directive(f, i + 1, args, k, FRESH, attrs);
      DirectiveStays(f, g, i + 1, args, k, FRESH, attrs);
      RenderPieces(f, g, d.next, args, d.used, attrs);
      if d.Item? {
        BeforeTwice(Expand(Layout(d.text, d.spec)), Render(f, d.next, args, d.used, attrs).value,
                    Render(f + g, |f|, args, Used(f, d.next, args, d.used, attrs), attrs));
      }
    }
  }

  /** MAIN: two formats one behind the other render one behind the other, the second with the arguments the
      first has left. */
  lemma RenderAppend(f: Text, g: Text, args: seq<Arg>, attrs: Attrs)
    requires Render(f, 0, args, 0, attrs).Some?
    ensures Render(f + g, 0, args, 0, attrs)
      == Before(Render(f, 0, args, 0, attrs).value, Render(g, 0, args, Used(f, 0, args, 0, attrs), attrs))
  {
    hide *;
    RenderPieces(f, g, 0, args, 0, attrs);
    RenderMoves(f, g, 0, args, Used(f, 0, args, 0, attrs), attrs);
  }

  lemma BeforeNothing(r: Option<seq<CHAR16>>)
    ensures Before([], r) == r
  {
    if r.Some? {
      assert [] + r.value == r.value;
    }
  }

  lemma BeforeTwice(s: seq<CHAR16>, t: seq<CHAR16>, r: Option<seq<CHAR16>>)
    ensures Before(s, Before(t, r)) == Before(s + t, r)
  {
    if r.Some? {
      assert s + (t + r.value) == s + t + r.value;
    }
  }

  // ----- numbers

  const LONG_HEX: Text := [PERCENT, 108, 120]
  const LONG_DEC: Text := [PERCENT, 108, 100]
  const LONG_UNSIGNED: Text := [PERCENT, 108, 117]
  const UNSIGNED: Text := [PERCENT, 117]

  lemma {:induction false} NoNewlines(s: seq<CHAR16>)
    requires LF !in s
    ensures Expand(s) == s
    decreases |s|
  {
    if s != [] {
      NoNewlines(s[..|s| - 1]);
    }
  }

  lemma {:induction false} DigitsHaveNoNewlines(v: nat)
    ensures LF !in HexDigits(v) && LF !in DecDigits(v)
    decreases v
  {
    if v > 0 {
      DigitsHaveNoNewlines(v / 16);
      DigitsHaveNoNewlines(v / 10);
    }
  }

  lemma BareLayout(text: Text, s: Spec)
    requires s.width == 0 && s.fieldWidth == NO_WIDTH && |text| < NO_WIDTH
    ensures Layout(text, s) == text
  {
  }

  /** A format that is one directive. */
  lemma OneDirective(fmt: Text, args: seq<Arg>, attrs: Attrs, text: Text, s: Spec)
    requires |fmt| > 0 && fmt[0] == PERCENT && Directive(fmt, 1, args, 0, FRESH, attrs) == Item(text, s, |fmt|, 1)
    ensures Render(fmt, 0, args, 0, attrs) == Some(Expand(Layout(text, s)))
  {
    hide Directive, Expand, Layout;
    assert Render(fmt, |fmt|, args, 1, attrs) == Some([]);
    assert Expand(Layout(text, s)) + [] == Expand(Layout(text, s));
  }

  lemma DigitText(v: u64)
    ensures LF !in HexText(v) && |HexText(v)| <= 16 && Expand(HexText(v)) == HexText(v)
  {
    WordLengths(v);
    DigitsHaveNoNewlines(v);
    NoNewlines(HexText(v));
  }

  lemma SignedText(v: int)
    requires -0x8000_0000_0000_0000 <= v < 0x8000_0000_0000_0000
    ensures LF !in DecText(v, false) && |DecText(v, false)| <= 21 && Expand(DecText(v, false)) == DecText(v, false)
  {
    var m := if v < 0 then -v else v;
    WordLengths(m);
    DigitsHaveNoNewlines(m);
    NoNewlines(DecText(v, false));
  }

  lemma LongDirectives(arg: Arg, attrs: Attrs)
    ensures Directive(LONG_HEX, 1, [arg], 0, FRESH, attrs) == Item(Hex(arg.word), FRESH.(long := true), 3, 1)
    ensures Directive(LONG_DEC, 1, [arg], 0, FRESH, attrs)
      == Item(Dec(ToInt64(arg.word), false), FRESH.(long := true), 3, 1)
  {
    hide Hex, Dec, ToInt64, DigitPrefix, Number;
    var s := FRESH.(long := true);
    assert StepAt(LONG_HEX, 1, [arg], 0, FRESH, attrs) == More(2, 0, s);
    assert StepAt(LONG_DEC, 1, [arg], 0, FRESH, attrs) == More(2, 0, s);
    assert StepAt(LONG_HEX, 2, [arg], 0, s, attrs) == Done(Item(Hex(arg.word), s, 3, 1));
    assert StepAt(LONG_DEC, 2, [arg], 0, s, attrs) == Done(Item(Dec(ToInt64(arg.word), false), s, 3, 1));
  }

  /** MAIN: what `%lx` prints, xtoi reads, for every 64-bit value. */
  lemma PrintedHexReads(arg: Arg, attrs: Attrs)
    ensures var r := Render(LONG_HEX, 0, [arg], 0, attrs);
      r == Some(HexText(arg.word)) && XtoiOf(r.value) == arg.word
  {
    hide Directive, Expand, Layout, Render, HexText;
    LongDirectives(arg, attrs);
    DigitText(arg.word);
    BareLayout(Hex(arg.word), FRESH.(long := true));
    OneDirective(LONG_HEX, [arg], attrs, Hex(arg.word), FRESH.(long := true));
    HexRoundTrip(arg.word);
  }

  /** A format that is one conversion to decimal digits. */
  lemma OneNumber(fmt: Text, args: seq<Arg>, attrs: Attrs, v: int, s: Spec)
    requires -0x8000_0000_0000_0000 <= v < 0x8000_0000_0000_0000 && s.width == 0 && s.fieldWidth == NO_WIDTH
    requires |fmt| > 0 && fmt[0] == PERCENT && Directive(fmt, 1, args, 0, FRESH, attrs)
      == Item(Dec(v, false), s, |fmt|, 1)
    ensures Render(fmt, 0, args, 0, attrs) == Some(DecText(v, false))
  {
    hide Directive, Expand, Layout, Render, DecText;
    SignedText(v);
    BareLayout(Dec(v, false), s);
    OneDirective(fmt, args, attrs, Dec(v, false), s);
  }

  /** MAIN: what `%ld` prints of a non-negative value, Atoi reads. */
  lemma PrintedDecReads(arg: Arg, attrs: Attrs)
    requires arg.word < 0x8000_0000_0000_0000
    ensures var r := Render(LONG_DEC, 0, [arg], 0, attrs);
      r == Some(DecText(arg.word, false)) && AtoiOf(r.value) == arg.word
  {
    hide Directive, Render, DecText, ToInt64, AtoiOf;
    Signs(arg.word);
    LongDirectives(arg, attrs);
    OneNumber(LONG_DEC, [arg], attrs, arg.word, FRESH.(long := true));
    DecRoundTrip(arg.word);
  }

  lemma UnsignedDirectives(arg: Arg, attrs: Attrs)
    ensures Directive(LONG_UNSIGNED, 1, [arg], 0, FRESH, attrs)
      == Item(Dec(ToInt64(arg.word), false), FRESH.(long := true), 3, 1)
    ensures Directive(UNSIGNED, 1, [arg], 0, FRESH, attrs) == Item(Dec(ToInt64(arg.word % TWO32), false), FRESH, 2, 1)
  {
    hide Dec, ToInt64, DigitPrefix, Number;
    var s := FRESH.(long := true);
    assert StepAt(LONG_UNSIGNED, 1, [arg], 0, FRESH, attrs) == More(2, 0, s);
    assert StepAt(LONG_UNSIGNED, 2, [arg], 0, s, attrs) == Done(Item(Dec(ToInt64(arg.word), false), s, 3, 1));
    assert StepAt(UNSIGNED, 1, [arg], 0, FRESH, attrs)
      == Done(Item(Dec(ToInt64(arg.word % TWO32), false), FRESH, 2, 1));
  }

  lemma Signs(w: u64)
    ensures ToInt64(w) == if w < 0x8000_0000_0000_0000 then w else w - TWO64
    ensures ToInt64(w % TWO32) == w % TWO32
  {
  }

  lemma {:induction false} NoMinus(v: nat)
    ensures MINUS !in DecDigits(v)
    decreases v
  {
    if v > 0 {
      NoMinus(v / 10);
    }
  }

  lemma MinusOnlyBelowZero(v: int, w: nat)
    requires v < 0
    ensures DecText(v, false) != DecText(w, false)
  {
    NoMinus(w);
    assert DecText(v, false)[0] == MINUS;
    assert MINUS !in DecText(w, false);
  }

  /** MAIN: `%lu` prints a value in unsigned decimal exactly if it is below 2^63. */
  lemma LongUnsigned(arg: Arg, attrs: Attrs)
    ensures Render(LONG_UNSIGNED, 0, [arg], 0, attrs) == Some(DecText(arg.word, false))
      <==> arg.word < 0x8000_0000_0000_0000
  {
    hide Directive, Render, DecText, ToInt64;
    UnsignedDirectives(arg, attrs);
    Signs(arg.word);
    OneNumber(LONG_UNSIGNED, [arg], attrs, ToInt64(arg.word), FRESH.(long := true));
    if arg.word >= 0x8000_0000_0000_0000 {
      MinusOnlyBelowZero(ToInt64(arg.word), arg.word);
    }
  }

  /** The greatest value prints as -1. */
  lemma GreatestPrintsAsMinusOne(attrs: Attrs)
    ensures Render(LONG_UNSIGNED, 0, [Arg(UINT64_MAX, None, None, [])], 0, attrs) == Some([MINUS, 49])
  {
    hide Directive, Render, ToInt64, DecText;
    var arg := Arg(UINT64_MAX, None, None, []);
    UnsignedDirectives(arg, attrs);
    Signs(UINT64_MAX);
    OneNumber(LONG_UNSIGNED, [arg], attrs, -1, FRESH.(long := true));
    MinusOneText();
  }

  lemma MinusOneText()
    ensures DecText(-1, false) == [MINUS, 49]
  {
    assert DecDigits(0) == [];
    assert DecDigits(1) == [49];
  }

  /** `%u` prints its 32 bits in unsigned decimal, always. */
  lemma ShortUnsigned(arg: Arg, attrs: Attrs)
    ensures Render(UNSIGNED, 0, [arg], 0, attrs) == Some(DecText(arg.word % TWO32, false))
  {
    hide Directive, Render, DecText, ToInt64;
    UnsignedDirectives(arg, attrs);
    Signs(arg.word);
    OneNumber(UNSIGNED, [arg], attrs, arg.word % TWO32, FRESH);
  }

  // ----- directives that do less than they look

  const LONG_POINTER: Text := [PERCENT, 108, 112]
  const NORMAL_X: Text := [PERCENT, 78, 120]

  /** `%lp` pads nothing: its width is 0, whatever the value. */
  lemma PointerUnpadded(arg: Arg, attrs: Attrs)
    ensures Render(LONG_POINTER, 0, [arg], 0, attrs) == Some([ZERO, 120] + HexText(arg.word))
  {
    hide Directive, Expand, Layout, Render, Hex, HexText;
    var text: Text := [ZERO, 120] + Hex(arg.word);
    HexIs(arg.word);
    PointerDirective(arg, attrs);
    DigitText(arg.word);
    NoNewlines(text);
    BareLayout(text, FRESH.(long := true, pad := ZERO));
    OneDirective(LONG_POINTER, [arg], attrs, text, FRESH.(long := true, pad := ZERO));
  }

  lemma HexIs(v: u64)
    ensures Hex(v) == HexText(v)
  {
  }

  lemma PointerDirective(arg: Arg, attrs: Attrs)
    ensures Directive(LONG_POINTER, 1, [arg], 0, FRESH, attrs)
      == Item([ZERO, 120] + Hex(arg.word), FRESH.(long := true, pad := ZERO), 3, 1)
  {
    hide Hex, Dec, DigitPrefix, Number;
    var s := FRESH.(long := true);
    assert StepAt(LONG_POINTER, 1, [arg], 0, FRESH, attrs) == More(2, 0, s);
    assert StepAt(LONG_POINTER, 2, [arg], 0, s, attrs)
      == Done(Item([ZERO, 120] + Hex(arg.word), s.(width := 0, pad := ZERO), 3, 1));
  }

  /** `%N` ends its directive exactly if there is an attribute for it; else the `x` behind it converts. */
  lemma NormalAttribute(arg: Arg, attrs: Attrs)
    ensures Render(NORMAL_X, 0, [arg], 0, attrs)
      == Some(if attrs.norm != 0 then [120] else HexText(arg.word % TWO32))
  {
    hide Directive, Expand, Layout, Hex, HexText;
    var v: u64 := arg.word % TWO32;
    NormalDirective(arg, attrs);
    if attrs.norm != 0 {
      RenderLast(NORMAL_X, [arg], 0, attrs);
    } else {
      DigitText(v);
      HexIs(v);
      BareLayout(Hex(v), FRESH);
      OneDirective(NORMAL_X, [arg], attrs, Hex(v), FRESH);
    }
  }

  lemma RenderLast(fmt: Text, args: seq<Arg>, k: nat, attrs: Attrs)
    requires fmt != [] && fmt[|fmt| - 1] != PERCENT && fmt[|fmt| - 1] != LF
    ensures Render(fmt, |fmt| - 1, args, k, attrs) == Some([fmt[|fmt| - 1]])
  {
    hide Expand;
    OneExpanded(fmt[|fmt| - 1]);
    RenderEnd(fmt, args, k, attrs);
    assert [fmt[|fmt| - 1]] + [] == [fmt[|fmt| - 1]];
  }

  lemma NormalDirective(arg: Arg, attrs: Attrs)
    ensures Directive(NORMAL_X, 1, [arg], 0, FRESH, attrs)
      == if attrs.norm != 0 then Attribute(2, 0) else Item(Hex(arg.word % TWO32), FRESH, 3, 1)
  {
    hide Hex, Dec, DigitPrefix, Number;
    assert StepAt(NORMAL_X, 1, [arg], 0, FRESH, attrs)
      == if attrs.norm != 0 then Done(Attribute(2, 0)) else More(2, 0, FRESH);
    assert StepAt(NORMAL_X, 2, [arg], 0, FRESH, attrs) == Done(Item(Hex(arg.word % TWO32), FRESH, 3, 1));
  }
}
