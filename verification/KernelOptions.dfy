/**
 The options the stub itself understands (apps/helper.c): flags set from the words of the command line.
 */
module KernelOptions {
  import opened Word64
  import opened Wrappers
  import opened CommandLine
  import opened CommandLineLaws
  import opened LoadOptions

  const COMMA: byte := 44
  const DASHES: seq<byte> := [45, 45]

  /** A string literal as bytes. */
  function Ascii(s: string): (bytes: seq<byte>)
    requires forall i | 0 <= i < |s| :: s[i] < 128 as char
  {
    seq(|s|, i requires 0 <= i < |s| => s[i] as int)
  }

  // ----- comma-separated lists

  /** The end of the element around position `i`. */
  function ElementEnd(s: seq<byte>, i: nat): (e: nat)
    requires i <= |s|
    ensures i <= e <= |s| && (e < |s| ==> s[e] == 44)
    ensures forall k | i <= k < e :: s[k] != 44
    decreases |s| - i
  {
    if i == |s| || s[i] == COMMA then i else ElementEnd(s, i + 1)
  }

  /** The elements between the commas from `i` on; nothing follows a final comma. */
  function ElementsFrom(s: seq<byte>, i: nat): seq<seq<byte>>
    requires i <= |s|
    decreases |s| - i
  {
    if i == |s| then []
    else
      var e := ElementEnd(s, i);
      [s[i..e]] + if e < |s| then ElementsFrom(s, e + 1) else []
  }

  /** MAIN: parse_option_str finds an option exactly if it is an element of the list. */
  method ParseOptionStr(str: seq<byte>, option: seq<byte>) returns (found: bool)
    requires COMMA !in option
    ensures found <==> option in ElementsFrom(str, 0)
  {
    hide ElementEnd, ElementsFrom;
    var i := 0;
    while i < |str|
      invariant i <= |str|
      invariant option in ElementsFrom(str, 0) <==> option in ElementsFrom(str, i)
      decreases |str| - i
    {
      ghost var from, end := i, ElementEnd(str, i);
      ElementsUnfold(str, i, option);
      if option <= str[i..] {
        i := i + |option|;
        MatchInside(str, from, option);
        if i == |str| || str[i] == COMMA {
          return true;
        }
      }
      while i < |str| && str[i] != COMMA
        invariant from <= i <= end
      {
        i := i + 1;
      }
      if i < |str| {
        i := i + 1;
      }
    }
    NoElements(str);
    found := false;
  }

  lemma ElementsUnfold(s: seq<byte>, i: nat, option: seq<byte>)
    requires i < |s|
    ensures var e := ElementEnd(s, i);
      && (option in ElementsFrom(s, i) <==> option == s[i..e] || (e < |s| && option in ElementsFrom(s, e + 1)))
      && (option == s[i..e] ==> option <= s[i..])
      && (e == |s| ==> ElementsFrom(s, e) == [])
  {
    hide ElementEnd;
    var e := ElementEnd(s, i);
    assert s[i..][..e - i] == s[i..e];
  }

  lemma NoElements(s: seq<byte>)
    ensures ElementsFrom(s, |s|) == []
  {
  }

  /** A match without commas stays inside the element. */
  lemma MatchInside(s: seq<byte>, i: nat, option: seq<byte>)
    requires i <= |s| && option <= s[i..] && COMMA !in option
    ensures i + |option| <= ElementEnd(s, i)
    ensures s[i..ElementEnd(s, i)] == option <==> i + |option| == ElementEnd(s, i)
  {
    hide ElementEnd;
    assert option == s[i..][..|option|] == s[i..i + |option|];
    forall k | i <= k < i + |option| ensures s[k] != COMMA {
      assert s[k] == option[k - i];
    }
  }

  // ----- the flags

  datatype Flags = Flags(nochunk: bool, nokaslr: bool, novamap: bool,
                         noinitrd: bool, nosoftreserve: bool, disablePciDma: bool)

  predicate Has(list: seq<byte>, option: string)
    requires forall i | 0 <= i < |option| :: option[i] < 128 as char
  {
    Ascii(option) in ElementsFrom(list, 0)
  }

  /** The effect of the list behind `efi=`. */
  function ApplyEfi(f: Flags, list: seq<byte>): Flags {
    f.(nochunk := Has(list, "nochunk"), novamap := f.novamap || Has(list, "novamap"), nosoftreserve := false,
       disablePciDma := if Has(list, "no_disable_early_pci_dma") then false
                        else f.disablePciDma || Has(list, "disable_early_pci_dma"))
  }

  /** The effect of one word on the flags. */
  function Apply(f: Flags, a: Arg): Flags {
    if a.name == Ascii("nokaslr") then f.(nokaslr := true)
    else if a.name == Ascii("quiet") then f
    else if a.name == Ascii("noinitrd") then f.(noinitrd := true)
    else if a.name == Ascii("efi") && a.value.Some? then ApplyEfi(f, a.value.value)
    else f
  }

  /** Words are applied in order, up to a bare `--`. */
  function ApplyAll(f: Flags, args: seq<Arg>): Flags
    decreases |args|
  {
    if args == [] || args[0] == Arg(DASHES, None) then f
    else ApplyAll(Apply(f, args[0]), args[1..])
  }

  // ----- what the flags are afterwards

  /** How many words count: those before the first bare `--`. */
  function WordCount(args: seq<Arg>): (n: nat)
    ensures n <= |args| && (n < |args| ==> args[n] == Arg([45, 45], None))
    ensures forall k | 0 <= k < n :: args[k] != Arg([45, 45], None)
  {
    if args == [] || args[0] == Arg(DASHES, None) then 0 else 1 + WordCount(args[1..])
  }

  predicate Named(a: Arg, name: string)
    requires forall i | 0 <= i < |name| :: name[i] < 128 as char
  {
    a.name == Ascii(name)
  }

  predicate EfiList(a: Arg) {
    Named(a, "efi") && a.value.Some?
  }

  predicate EfiHas(a: Arg, option: string)
    requires forall i | 0 <= i < |option| :: option[i] < 128 as char
  {
    EfiList(a) && Has(a.value.value, option)
  }

  /** The list names one of the options for early PCI DMA. */
  predicate DecidesDma(a: Arg) {
    EfiHas(a, "disable_early_pci_dma") || EfiHas(a, "no_disable_early_pci_dma")
  }

  ghost predicate LastEfiList(w: seq<Arg>, k: nat) {
    k < |w| && EfiList(w[k]) && forall j | k < j < |w| :: !EfiList(w[j])
  }

  ghost predicate LastDmaList(w: seq<Arg>, k: nat) {
    k < |w| && DecidesDma(w[k]) && forall j | k < j < |w| :: !DecidesDma(w[j])
  }

  /** Set by any word, or before. */
  ghost predicate SetByAny(f: Flags, g: Flags, w: seq<Arg>) {
    && (g.nokaslr <==> f.nokaslr || exists a <- w :: Named(a, "nokaslr"))
    && (g.noinitrd <==> f.noinitrd || exists a <- w :: Named(a, "noinitrd"))
    && (g.novamap <==> f.novamap || exists a <- w :: EfiHas(a, "novamap"))
  }

  /** Decided by the last list. */
  ghost predicate SetByLast(f: Flags, g: Flags, w: seq<Arg>) {
    && (forall k: nat | LastEfiList(w, k) :: (g.nochunk <==> EfiHas(w[k], "nochunk")) && !g.nosoftreserve)
    && ((forall a <- w :: !EfiList(a)) ==> g.nochunk == f.nochunk && g.nosoftreserve == f.nosoftreserve)
  }

  /** Decided by the last list that names one of the two options; in one list the second wins. */
  ghost predicate DmaByLast(f: Flags, g: Flags, w: seq<Arg>) {
    && (forall k: nat | LastDmaList(w, k) :: (g.disablePciDma <==> !EfiHas(w[k], "no_disable_early_pci_dma")))
    && ((forall a <- w :: !DecidesDma(a)) ==> g.disablePciDma == f.disablePciDma)
  }

  /** The flags `g` that the words `w` make of `f`. */
  ghost predicate Decided(f: Flags, g: Flags, w: seq<Arg>) {
    SetByAny(f, g, w) && SetByLast(f, g, w) && DmaByLast(f, g, w)
  }

  lemma NamesDiffer()
    ensures Ascii("nokaslr") != Ascii("quiet") && Ascii("nokaslr") != Ascii("noinitrd")
      && Ascii("nokaslr") != Ascii("efi")
    ensures Ascii("quiet") != Ascii("noinitrd") && Ascii("quiet") != Ascii("efi") && Ascii("noinitrd") != Ascii("efi")
  {
    assert |Ascii("nokaslr")| == 7 && |Ascii("quiet")| == 5 && |Ascii("noinitrd")| == 8 && |Ascii("efi")| == 3;
  }

  lemma ApplyEfiIs(f: Flags, a: Arg)
    requires EfiList(a)
    ensures var g := ApplyEfi(f, a.value.value);
      && g.nokaslr == f.nokaslr && g.noinitrd == f.noinitrd && g.novamap == (f.novamap || EfiHas(a, "novamap"))
      && g.nochunk == EfiHas(a, "nochunk") && !g.nosoftreserve
      && g.disablePciDma == if DecidesDma(a) then !EfiHas(a, "no_disable_early_pci_dma") else f.disablePciDma
  {
    hide Has, Ascii;
  }

  lemma ApplyIs(f: Flags, a: Arg)
    ensures var g := Apply(f, a);
      && g.nokaslr == (f.nokaslr || Named(a, "nokaslr"))
      && g.noinitrd == (f.noinitrd || Named(a, "noinitrd"))
      && g.novamap == (f.novamap || EfiHas(a, "novamap"))
      && g.nochunk == (if EfiList(a) then EfiHas(a, "nochunk") else f.nochunk)
      && g.nosoftreserve == (f.nosoftreserve && !EfiList(a))
      && g.disablePciDma == if DecidesDma(a) then !EfiHas(a, "no_disable_early_pci_dma") else f.disablePciDma
  {
    hide Has, Ascii, ApplyEfi;
    NamesDiffer();
    if EfiList(a) {
      ApplyEfiIs(f, a);
    }
  }

  lemma AnyNext(f: Flags, g: Flags, w: seq<Arg>, a: Arg)
    requires SetByAny(f, g, w)
    ensures SetByAny(f, Apply(g, a), w + [a])
  {
    hide Apply, Named, EfiHas, EfiList, DecidesDma;
    ApplyIs(g, a);
    assert forall b :: b in w + [a] <==> b in w || b == a;
  }

  lemma LastNext(f: Flags, g: Flags, w: seq<Arg>, a: Arg)
    requires SetByLast(f, g, w)
    ensures SetByLast(f, Apply(g, a), w + [a])
  {
    hide Apply, Named, EfiHas, EfiList, DecidesDma;
    ApplyIs(g, a);
    var v, n := w + [a], |w|;
    assert v[n] == a;
    forall k: nat | LastEfiList(v, k) && k < n ensures LastEfiList(w, k) && !EfiList(a) {
      assert !EfiList(v[n]) && w[k] == v[k];
      forall j | k < j < n ensures !EfiList(w[j]) {
        assert w[j] == v[j];
      }
    }
    if forall b <- v :: !EfiList(b) {
      assert a in v && forall b <- w :: b in v;
    }
  }

  lemma DmaNext(f: Flags, g: Flags, w: seq<Arg>, a: Arg)
    requires DmaByLast(f, g, w)
    ensures DmaByLast(f, Apply(g, a), w + [a])
  {
    hide Apply, Named, EfiHas, EfiList, DecidesDma;
    ApplyIs(g, a);
    var v, n := w + [a], |w|;
    assert v[n] == a;
    forall k: nat | LastDmaList(v, k) && k < n ensures LastDmaList(w, k) && !DecidesDma(a) {
      assert !DecidesDma(v[n]) && w[k] == v[k];
      forall j | k < j < n ensures !DecidesDma(w[j]) {
        assert w[j] == v[j];
      }
    }
    if forall b <- v :: !DecidesDma(b) {
      assert a in v && forall b <- w :: b in v;
    }
  }

  /** One word more. */
  lemma DecidedNext(f: Flags, g: Flags, w: seq<Arg>, a: Arg)
    requires Decided(f, g, w)
    ensures Decided(f, Apply(g, a), w + [a])
  {
    hide Apply, SetByAny, SetByLast, DmaByLast;
    AnyNext(f, g, w, a);
    LastNext(f, g, w, a);
    DmaNext(f, g, w, a);
  }

  lemma DecidedNone(f: Flags)
    ensures Decided(f, f, [])
  {
    hide Named, EfiHas, EfiList, DecidesDma;
  }

  /** MAIN: the flags after a line are decided by its words before a bare `--`. */
  lemma FlagsDecided(f: Flags, args: seq<Arg>)
    ensures Decided(f, ApplyAll(f, args), args[..WordCount(args)])
  {
    hide *;
    DecidedNone(f);
    DecidedFrom(f, f, [], args);
    assert [] + args[..WordCount(args)] == args[..WordCount(args)];
  }

  lemma {:induction false} DecidedFrom(f: Flags, g: Flags, done: seq<Arg>, args: seq<Arg>)
    requires Decided(f, g, done)
    ensures Decided(f, ApplyAll(g, args), done + args[..WordCount(args)])
    decreases |args|
  {
    hide Decided, Apply;
    if args == [] || args[0] == Arg(DASHES, None) {
      assert done + args[..0] == done;
    } else {
      DecidedNext(f, g, done, args[0]);
      DecidedFrom(f, Apply(g, args[0]), done + [args[0]], args[1..]);
      assert done + args[..WordCount(args)] == (done + [args[0]]) + args[1..][..WordCount(args[1..])];
    }
  }

  /** What efi_parse_options reads of a line. */
  function Read(cmdline: Text): Text {
    if |cmdline| < COMMAND_LINE_SIZE then cmdline else cmdline[..COMMAND_LINE_SIZE - 1]
  }

  class StubOptions {
    var flags: Flags

    /** The if-chain of efi_parse_options. */
    method Set(param: seq<byte>, val: Option<seq<byte>>)
      modifies this
      ensures flags == Apply(old(flags), Arg(param, val))
    {
      hide Ascii, ApplyEfi;
      if param == Ascii("nokaslr") {
        flags := flags.(nokaslr := true);
      } else if param == Ascii("quiet") {
      } else if param == Ascii("noinitrd") {
        flags := flags.(noinitrd := true);
      } else if param == Ascii("efi") && val.Some? {
        SetEfi(val.value);
      }
    }

    method SetEfi(val: seq<byte>)
      modifies this
      ensures flags == ApplyEfi(old(flags), val)
    {
      hide ElementsFrom, Ascii, Has;
      NoCommas();
      HasIs(val);
      var found := ParseOptionStr(val, Ascii("nochunk"));
      flags := flags.(nochunk := found);
      found := ParseOptionStr(val, Ascii("novamap"));
      flags := flags.(novamap := flags.novamap || found, nosoftreserve := false);
      found := ParseOptionStr(val, Ascii("disable_early_pci_dma"));
      if found {
        flags := flags.(disablePciDma := true);
      }
      found := ParseOptionStr(val, Ascii("no_disable_early_pci_dma"));
      if found {
        flags := flags.(disablePciDma := false);
      }
    }

    /** MAIN: efi_parse_options leaves the flags that the words of the line decide, in order, up to a bare
        `--`; without a line, and without memory for its copy, it changes nothing. */
    method EfiParseOptions(text: Option<Text>, memory: bool) returns (ok: bool)
      modifies this
      ensures ok == (text.None? || memory)
      ensures text.None? || !memory ==> flags == old(flags)
      ensures text.Some? && memory ==>
        var words := Line(Read(text.value));
        flags == ApplyAll(old(flags), words) && Decided(old(flags), flags, words[..WordCount(words)])
    {
      hide Read, ApplyAll, Apply, Decided, WordCount, CString, Line, Args, ParseWord, WordEnd, Behind, SkipSpaces;
      if text.None? {
        return true;
      }
      if !memory {
        return false;
      }
      ok := true;
      var line := Read(text.value);
      FlagsDecided(flags, Line(line));
      var buf := new byte[|line| + 1](i requires 0 <= i <= |line| => if i < |line| then line[i] else 0);
      var str := SkipSpacesAt(buf, 0, line);
      ghost var rest := SkipSpaces(line);
      LineIs(line);
      while buf[str] != 0
        invariant HoldsText(buf, str, rest)
        invariant ApplyAll(flags, Args(rest)) == ApplyAll(old(flags), Line(line))
        decreases |rest|
      {
        var param, val;
        ghost var arg := ParseWord(rest[..WordEnd(rest, false)]);
        OneWord(flags, rest);
        param, val, str := NextArg(buf, str, rest);
        rest := Behind(rest);
        var name := CString(buf[param..]);
        var value := if val.Some? then Some(CString(buf[val.value..])) else None;
        AsReturned(buf, arg, param, val);
        if val.None? && name == DASHES {
          return;
        }
        Set(name, value);
      }
      TextHead(buf, str, rest);
      NoneLeft(flags);
    }
  }

  lemma NoneLeft(f: Flags)
    ensures ApplyAll(f, Args([])) == f
  {
    NoArgs();
  }

  lemma ApplyFirst(f: Flags, a: Arg, more: seq<Arg>)
    ensures ApplyAll(f, [a] + more) == if a == Arg(DASHES, None) then f else ApplyAll(Apply(f, a), more)
  {
    hide Apply, Ascii;
    assert ([a] + more)[1..] == more;
  }

  lemma HasIs(v: seq<byte>)
    ensures Has(v, "nochunk") == (Ascii("nochunk") in ElementsFrom(v, 0))
    ensures Has(v, "novamap") == (Ascii("novamap") in ElementsFrom(v, 0))
    ensures Has(v, "disable_early_pci_dma") == (Ascii("disable_early_pci_dma") in ElementsFrom(v, 0))
    ensures Has(v, "no_disable_early_pci_dma") == (Ascii("no_disable_early_pci_dma") in ElementsFrom(v, 0))
  {
    hide ElementsFrom, Ascii;
  }

  lemma NoCommas()
    ensures COMMA !in Ascii("nochunk") && COMMA !in Ascii("novamap")
    ensures COMMA !in Ascii("disable_early_pci_dma") && COMMA !in Ascii("no_disable_early_pci_dma")
  {
  }

  lemma AsReturned(buf: array<byte>, arg: Arg, param: nat, val: Option<nat>)
    requires Returned(buf[..], arg, param, val)
    ensures param < buf.Length && CString(buf[param..]) == arg.name && (val.Some? <==> arg.value.Some?)
    ensures val.Some? ==> val.value < buf.Length && CString(buf[val.value..]) == arg.value.value
  {
    hide CString;
    assert buf[..][param..] == buf[param..];
    if val.Some? {
      assert buf[..][val.value..] == buf[val.value..];
    }
  }

  lemma OneWord(f: Flags, rest: seq<byte>)
    requires rest != []
    ensures var a := ParseWord(rest[..WordEnd(rest, false)]);
      ApplyAll(f, Args(rest)) == if a == Arg(DASHES, None) then f else ApplyAll(Apply(f, a), Args(Behind(rest)))
  {
    hide *;
    ArgsBehind(rest);
    ApplyFirst(f, ParseWord(rest[..WordEnd(rest, false)]), Args(Behind(rest)));
  }

  lemma ArgsBehind(rest: seq<byte>)
    requires rest != []
    ensures Args(rest) == [ParseWord(rest[..WordEnd(rest, false)])] + Args(Behind(rest))
  {
    hide *;
    ArgsUnfold(rest);
    BehindIs(rest, WordEnd(rest, false));
    NoArgs();
    LineIs(if WordEnd(rest, false) < |rest| then rest[WordEnd(rest, false) + 1..] else []);
    EmptyLine();
  }

  lemma TextHead(buf: array<byte>, at: nat, s: seq<byte>)
    requires HoldsText(buf, at, s)
    ensures s != [] ==> buf[at] == s[0] && s[0] != 0
  {
    if s != [] {
      assert buf[at + 0] == s[0];
    }
  }
}
