/**
 Under which attribute the print engine shows its text (lib/print.c): `%e`, `%h` and `%n` for one item, `%E`,
 `%H` and `%N` from there on.
 */
module PrintInks {
  import opened Word64
  import opened Wrappers
  import opened Numbers
  import opened PrintBuffer
  import opened PrintFormat
  import opened PrintLaws
  import opened PrintWidths

  /** Text without directives is shown under the attribute that is set. */
  lemma {:induction false} PlainInk(fmt: Text, i: nat, args: seq<Arg>, k: nat, attrs: Attrs, attr: nat)
    requires i <= |fmt| && 37 !in fmt
    ensures Painted(fmt, i, args, k, attrs, attr) == Painting(Paint(attr, |Expand(fmt[i..])|), attr)
    decreases |fmt| - i
  {
    hide Expand;
    if i < |fmt| {
      PlainInk(fmt, i + 1, args, k, attrs, attr);
      assert fmt[i..] == [fmt[i]] + fmt[i + 1..];
      ExpandAppend([fmt[i]], fmt[i + 1..]);
      var m, n := |Expand([fmt[i]])|, |Expand(fmt[i + 1..])|;
      assert Paint(attr, m) + Paint(attr, n) == Paint(attr, m + n);
    } else {
      assert fmt[i..] == [];
      NothingExpanded();
    }
  }

  /** The attribute for one item: 101 is `e`, 104 `h`, 110 `n`. */
  function ForItem(c: CHAR16, attrs: Attrs): nat {
    if c == 101 then attrs.error else if c == 104 then attrs.highlight else attrs.norm
  }

  lemma ItemInk(c: CHAR16, fmt: Text, i: nat, args: seq<Arg>, k: nat, s: Spec, attrs: Attrs, ink: Ink)
    requires i < |fmt| && fmt[i] == c && c in {101, 104, 110}
    ensures DirectiveInk(fmt, i, args, k, s, attrs, ink)
      == DirectiveInk(fmt, i + 1, args, k, s, attrs, Ink(ForItem(c, attrs), ink.attr))
    ensures Directive(fmt, i, args, k, s, attrs) == Directive(fmt, i + 1, args, k, s, attrs)
  {
    hide Convert, Number, DigitPrefix, SetField, Wrap, ArgAt;
  }

  lemma StringEnds(fmt: Text, args: seq<Arg>, k: nat, s: Spec, attrs: Attrs, ink: Ink)
    requires fmt != [] && fmt[|fmt| - 1] == 115 && k < |args| && args[k].wide.Some?
    ensures Directive(fmt, |fmt| - 1, args, k, s, attrs) == Item(args[k].wide.value, s, |fmt|, k + 1)
    ensures DirectiveInk(fmt, |fmt| - 1, args, k, s, attrs, ink) == ink
  {
    hide Number, DigitPrefix, SetField, Wrap, Hex, Dec;
  }

  /** A format that is one directive for the string argument. */
  lemma StringPainted(fmt: Text, text: Text, attrs: Attrs, attr: nat, ink: Ink)
    requires |fmt| > 1 && fmt[0] == 37 && |text| < UINT64_MAX
    requires var args := [Arg(0, Some(text), None, [])];
      && Directive(fmt, 1, args, 0, FRESH, attrs) == Item(text, FRESH, |fmt|, 1)
      && DirectiveInk(fmt, 1, args, 0, FRESH, attrs, Ink(attr, 0)) == ink
    ensures Painted(fmt, 0, [Arg(0, Some(text), None, [])], 0, attrs, attr)
      == Painting(Paint(ink.attr, |Expand(text)|), ink.Left())
  {
    hide Directive, DirectiveInk, Expand, Layout;
    var args := [Arg(0, Some(text), None, [])];
    BareLayout(text, FRESH);
    PaintEnd(fmt, args, 1, attrs, ink.Left());
    assert Paint(ink.attr, |Expand(text)|) + [] == Paint(ink.attr, |Expand(text)|);
  }

  /** MAIN: `%hs` shows the text highlighted, and likewise `%es` and `%ns`. Behind it the attribute is the one
      before exactly if that is not 0 or was asked for anyway: 0 is taken for nothing to go back to. */
  lemma OneItemOnly(c: CHAR16, text: Text, attrs: Attrs, attr: nat)
    requires c in {101, 104, 110} && |text| < UINT64_MAX
    ensures var p := Painted([37, c, 115], 0, [Arg(0, Some(text), None, [])], 0, attrs, attr);
      && p.inks == Paint(ForItem(c, attrs), |Expand(text)|)
      && (p.attr == attr <==> attr != 0 || ForItem(c, attrs) == 0)
  {
    hide Directive, DirectiveInk, Expand, Painted;
    var fmt: Text := [37, c, 115];
    var args := [Arg(0, Some(text), None, [])];
    ItemInk(c, fmt, 1, args, 0, FRESH, attrs, Ink(attr, 0));
    StringEnds(fmt, args, 0, FRESH, attrs, Ink(ForItem(c, attrs), attr));
    StringPainted(fmt, text, attrs, attr, Ink(ForItem(c, attrs), attr));
  }

  /** MAIN: of two such letters the second counts, but it is the first that stays behind the item: what was set
      before is forgotten. */
  lemma TwoForOneItem(c: CHAR16, d: CHAR16, text: Text, attrs: Attrs, attr: nat)
    requires c in {101, 104, 110} && d in {101, 104, 110} && |text| < UINT64_MAX
    ensures var p := Painted([37, c, d, 115], 0, [Arg(0, Some(text), None, [])], 0, attrs, attr);
      && p.inks == Paint(ForItem(d, attrs), |Expand(text)|)
      && p.attr == if ForItem(c, attrs) != 0 then ForItem(c, attrs) else ForItem(d, attrs)
  {
    hide Directive, DirectiveInk, Expand, Painted;
    var fmt: Text := [37, c, d, 115];
    var args := [Arg(0, Some(text), None, [])];
    ItemInk(c, fmt, 1, args, 0, FRESH, attrs, Ink(attr, 0));
    ItemInk(d, fmt, 2, args, 0, FRESH, attrs, Ink(ForItem(c, attrs), attr));
    var ink := Ink(ForItem(d, attrs), ForItem(c, attrs));
    StringEnds(fmt, args, 0, FRESH, attrs, ink);
    StringPainted(fmt, text, attrs, attr, ink);
  }

  /** MAIN: `%E`, `%H` and `%N` print nothing and set their attribute, if there is one, for all that follows. */
  lemma FromThereOn(c: CHAR16, args: seq<Arg>, attrs: Attrs, attr: nat)
    requires c in {69, 72, 78}
    requires var a := if c == 69 then attrs.error else if c == 72 then attrs.highlight else attrs.norm; a != 0
    ensures Render([37, c], 0, args, 0, attrs) == Some([])
    ensures Painted([37, c], 0, args, 0, attrs, attr)
      == Painting([], if c == 69 then attrs.error else if c == 72 then attrs.highlight else attrs.norm)
  {
    hide Number, DigitPrefix, SetField, Wrap, Hex, Dec, Convert, ArgAt;
    var fmt: Text := [37, c];
    assert StepAt(fmt, 1, args, 0, FRESH, attrs) == Done(Attribute(2, 0));
    assert Directive(fmt, 1, args, 0, FRESH, attrs) == Attribute(2, 0);
  }
}
