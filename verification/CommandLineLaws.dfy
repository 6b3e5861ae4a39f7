/**
 Laws of the word structure of command lines: cutting a line at an unquoted space keeps its first words,
 and a printed list of settings reads back as the list.
 */
module CommandLineLaws {
  import opened Word64
  import opened Wrappers
  import opened CommandLine

  // ----- cutting

  predicate OddQuotes(s: seq<byte>) {
    s != [] && (OddQuotes(s[..|s| - 1]) != (s[|s| - 1] == QUOTE))
  }

  /** Position `k` of the line is a space outside quotes. */
  predicate UnquotedSpace(s: seq<byte>, k: nat) {
    k < |s| && IsSpace(s[k]) && !OddQuotes(s[..k])
  }

  /** The quote state at `k` of a line that starts in state `q`. */
  predicate InQuote(s: seq<byte>, q: bool, k: nat)
    requires k <= |s|
    decreases k
  {
    if k == 0 then q else InQuote(s[1..], q != (s[0] == QUOTE), k - 1)
  }

  lemma {:induction false} InQuoteIsParity(s: seq<byte>, q: bool, k: nat)
    requires k <= |s|
    ensures InQuote(s, q, k) == (q != OddQuotes(s[..k]))
    decreases k
  {
    if k > 0 {
      InQuoteIsParity(s[1..], q != (s[0] == QUOTE), k - 1);
      ParityFront(s[..k]);
      assert s[..k][1..] == s[1..][..k - 1];
    }
  }

  lemma {:induction false} ParityFront(s: seq<byte>)
    requires s != []
    ensures OddQuotes(s) == (OddQuotes(s[1..]) != (s[0] == QUOTE))
  {
    if |s| > 1 {
      ParityFront(s[..|s| - 1]);
      assert s[..|s| - 1][1..] == s[1..][..|s| - 2];
    } else {
      assert s[..0] == [] && s[1..] == [];
    }
  }

  /** The first word ends at the first space outside quotes, in the line as in a longer cut of it. */
  lemma {:induction false} WordEndOfCut(s: seq<byte>, q: bool, k: nat)
    requires k < |s| && IsSpace(s[k]) && !InQuote(s, q, k)
    ensures WordEnd(s[..k], q) == WordEnd(s, q) <= k
    ensures !InQuote(s, q, WordEnd(s, q))
    decreases k
  {
    if k > 0 && !(IsSpace(s[0]) && !q) {
      WordEndOfCut(s[1..], q != (s[0] == QUOTE), k - 1);
      assert s[..k][1..] == s[1..][..k - 1];
    } else if k == 0 {
      assert s[..k] == [];
    }
  }

  lemma {:induction false} InQuoteSplit(s: seq<byte>, q: bool, j: nat, k: nat)
    requires j <= k <= |s|
    ensures InQuote(s, q, k) == InQuote(s[j..], InQuote(s, q, j), k - j)
    decreases j
  {
    if j > 0 {
      InQuoteSplit(s[1..], q != (s[0] == QUOTE), j - 1, k - 1);
      assert s[1..][j - 1..] == s[j..];
    } else {
      assert s[0..] == s;
    }
  }

  /** Spaces in front, skipped from a line and from a cut of it. */
  lemma {:induction false} SkipOfCut(s: seq<byte>, k: nat)
    requires k < |s| && IsSpace(s[k]) && !InQuote(s, false, k)
    ensures var j := |s| - |SkipSpaces(s)|;
      && (k < j ==> SkipSpaces(s[..k]) == [])
      && (k >= j ==>
            && SkipSpaces(s[..k]) == SkipSpaces(s)[..k - j] && SkipSpaces(s)[k - j] == s[k]
            && !InQuote(SkipSpaces(s), false, k - j))
  {
    hide InQuote, IsSpace, SkipSpaces;
    SkipStep(s);
    SkipStep(s[..k]);
    if IsSpace(s[0]) {
      if k > 0 {
        SpaceIsNoQuote(s[0]);
        InQuoteStep(s, false, k);
        SkipOfCut(s[1..], k - 1);
        assert s[..k][1..] == s[1..][..k - 1];
      }
    } else {
      NotEmptyCut(s, k);
    }
  }

  lemma SkipStep(s: seq<byte>)
    ensures SkipSpaces(s) == if s != [] && IsSpace(s[0]) then SkipSpaces(s[1..]) else s
  {
    hide IsSpace;
  }

  lemma SpaceIsNoQuote(c: byte)
    ensures IsSpace(c) ==> c != QUOTE
  {
  }

  lemma NotEmptyCut(s: seq<byte>, k: nat)
    requires k < |s| && !IsSpace(s[0])
    ensures SkipSpaces(s[..k]) == s[..k]
  {
  }

  /** MAIN: the words of a line up to an unquoted space are the first words of the whole line. */
  lemma CutKeepsWords(s: seq<byte>, k: nat)
    requires UnquotedSpace(s, k)
    ensures Line(s[..k]) <= Line(s)
  {
    hide OddQuotes, InQuote, Line;
    InQuoteIsParity(s, false, k);
    CutKeepsLine(s, k);
  }

  lemma {:induction false} CutKeepsLine(s: seq<byte>, k: nat)
    requires k < |s| && IsSpace(s[k]) && !InQuote(s, false, k)
    ensures Line(s[..k]) <= Line(s)
    decreases |s|, 1
  {
    hide SkipSpaces, InQuote, IsSpace, Args;
    SkipOfCut(s, k);
    var j := |s| - |SkipSpaces(s)|;
    if k > j {
      CutKeepsArgs(SkipSpaces(s), k - j);
    } else {
      NoArgs();
    }
  }

  lemma NoArgs()
    ensures Args([]) == []
  {
  }

  lemma {:induction false} CutKeepsArgs(t: seq<byte>, c: nat)
    requires 0 < c < |t| && IsSpace(t[c]) && !InQuote(t, false, c)
    ensures Args(t[..c]) <= Args(t)
    decreases |t|, 0
  {
    hide WordEnd, InQuote, IsSpace, Args, Line;
    WordEndOfCut(t, false, c);
    var e := WordEnd(t, false);
    ArgsUnfold(t);
    ArgsUnfold(t[..c]);
    assert t[..c][..e] == t[..e];
    if e < c {
      SkipWord(t, e, c);
      assert t[..c][e + 1..] == t[e + 1..][..c - e - 1];
      CutKeepsLine(t[e + 1..], c - e - 1);
    }
  }

  lemma ArgsUnfold(t: seq<byte>)
    requires t != []
    ensures var e := WordEnd(t, false);
      Args(t) == [ParseWord(t[..e])] + if e < |t| then Line(t[e + 1..]) else []
  {
    hide WordEnd, SkipSpaces, ParseWord, Line;
    var e := WordEnd(t, false);
    if e < |t| {
      LineIs(t[e + 1..]);
    }
  }

  lemma LineIs(s: seq<byte>)
    ensures Line(s) == Args(SkipSpaces(s))
  {
    hide Args, SkipSpaces;
  }

  lemma SkipWord(t: seq<byte>, e: nat, c: nat)
    requires e < c < |t| && e == WordEnd(t, false) && IsSpace(t[c]) && !InQuote(t, false, c) && !InQuote(t, false, e)
    ensures var rest := t[e + 1..]; IsSpace(rest[c - e - 1]) && !InQuote(rest, false, c - e - 1)
  {
    hide WordEnd, InQuote;
    WordEndIsSpace(t, false);
    InQuoteSplit(t, false, e, c);
    InQuoteStep(t[e..], false, c - e);
    assert t[e..][1..] == t[e + 1..];
  }

  lemma InQuoteStep(s: seq<byte>, q: bool, k: nat)
    requires 0 < k <= |s| && s[0] != QUOTE
    ensures InQuote(s, q, k) == InQuote(s[1..], q, k - 1)
  {
  }

  lemma {:induction false} WordEndIsSpace(s: seq<byte>, q: bool)
    ensures WordEnd(s, q) < |s| ==> IsSpace(s[WordEnd(s, q)]) && s[WordEnd(s, q)] != QUOTE
  {
    if s != [] && !(IsSpace(s[0]) && !q) {
      WordEndIsSpace(s[1..], q != (s[0] == QUOTE));
    }
  }

  // ----- printing and reading back

  /** Neither quotes nor NULs. */
  predicate Plain(s: seq<byte>) {
    forall k | 0 <= k < |s| :: s[k] != QUOTE && s[k] != 0
  }

  predicate NoSpaces(s: seq<byte>) {
    forall k | 0 <= k < |s| :: !IsSpace(s[k])
  }

  /** A name has no spaces and no `=` but in front; a value may have anything but quotes. */
  predicate Printable(a: Arg) {
    && a.name != [] && Plain(a.name) && NoSpaces(a.name) && EqualsAt(a.name) == 0
    && (a.value.Some? ==> Plain(a.value.value))
  }

  /** One setting as text: the value is quoted if it has spaces. */
  function PrintWord(a: Arg): seq<byte> {
    match a.value
    case None => a.name
    case Some(v) => a.name + [EQUALS] + if NoSpaces(v) then v else [QUOTE] + v + [QUOTE]
  }

  function PrintLine(list: seq<Arg>): seq<byte> {
    if list == [] then []
    else PrintWord(list[0]) + if |list| == 1 then [] else [SPACE] + PrintLine(list[1..])
  }

  lemma {:induction false} WordEndPlain(a: seq<byte>, b: seq<byte>, q: bool)
    requires Plain(a) && (q || NoSpaces(a))
    ensures WordEnd(a + b, q) == |a| + WordEnd(b, q)
    decreases |a|
  {
    if a == [] {
      assert a + b == b;
    } else {
      assert (a + b)[1..] == a[1..] + b;
      WordEndPlain(a[1..], b, q);
    }
  }

  lemma WordEndQuote(b: seq<byte>, q: bool)
    ensures WordEnd([QUOTE] + b, q) == 1 + WordEnd(b, !q)
  {
    assert ([QUOTE] + b)[1..] == b;
  }

  lemma QuotedValueEnd(front: seq<byte>, v: seq<byte>, rest: seq<byte>)
    requires Plain(front) && NoSpaces(front) && Plain(v) && WordEnd(rest, false) == 0
    ensures WordEnd(front + [QUOTE] + v + [QUOTE] + rest, false) == |front| + |v| + 2
  {
    hide WordEnd, Plain, NoSpaces;
    var tail := [QUOTE] + rest;
    WordEndPlain(front, [QUOTE] + (v + tail), false);
    WordEndQuote(v + tail, false);
    WordEndPlain(v, tail, true);
    WordEndQuote(rest, true);
    assert front + [QUOTE] + v + [QUOTE] + rest == front + ([QUOTE] + (v + tail));
  }

  /** A printed word ends where its text ends. */
  lemma PrintedWordEnd(a: Arg, rest: seq<byte>)
    requires Printable(a) && (rest == [] || rest[0] == SPACE)
    ensures WordEnd(PrintWord(a) + rest, false) == |PrintWord(a)|
  {
    hide EqualsAt;
    var w := PrintWord(a);
    assert WordEnd(rest, false) == 0;
    match a.value
    case None => WordEndPlain(w, rest, false);
    case Some(v) =>
      if NoSpaces(v) {
        WordEndPlain(w, rest, false);
      } else {
        QuotedValueEnd(a.name + [EQUALS], v, rest);
        assert w + rest == a.name + [EQUALS] + [QUOTE] + v + [QUOTE] + rest;
      }
  }

  lemma {:induction false} EqualsBehindName(name: seq<byte>, v: seq<byte>)
    requires name != [] && EqualsAt(name) == 0
    ensures EqualsAt(name + [EQUALS] + v) == |name|
    decreases |v|
  {
    var t := name + [EQUALS] + v;
    if v == [] {
      assert t[..|t| - 1] == name;
    } else {
      EqualsBehindName(name, v[..|v| - 1]);
      assert t[..|t| - 1] == name + [EQUALS] + v[..|v| - 1];
    }
  }

  lemma PrintedWordReads(a: Arg)
    requires Printable(a)
    ensures ParseWord(PrintWord(a)) == a
  {
    hide EqualsAt;
    var w := PrintWord(a);
    assert w[0] == a.name[0] != QUOTE;
    if a.value.Some? {
      var v := a.value.value;
      var u := if NoSpaces(v) then v else [QUOTE] + v + [QUOTE];
      EqualsBehindName(a.name, u);
      assert w[..|a.name|] == a.name && w[|a.name| + 1..] == u;
      PrintedValueReads(v, u);
    }
  }

  lemma PrintedValueReads(v: seq<byte>, u: seq<byte>)
    requires Plain(v) && u == if NoSpaces(v) then v else [QUOTE] + v + [QUOTE]
    ensures var valueQuoted := u != [] && u[0] == QUOTE;
      StripQuote(if valueQuoted then u[1..] else u, valueQuoted) == v
  {
    hide NoSpaces;
    if u != v {
      assert u[1..] == v + [QUOTE];
      assert (v + [QUOTE])[..|v|] == v;
    }
  }

  lemma NoLeadingSpace(s: seq<byte>)
    requires s != [] && !IsSpace(s[0])
    ensures SkipSpaces(s) == s
  {
  }

  lemma PrintLineStep(list: seq<Arg>)
    requires list != []
    ensures PrintLine(list) == PrintWord(list[0]) + if |list| == 1 then [] else [SPACE] + PrintLine(list[1..])
  {
    hide PrintWord;
  }

  /** MAIN: what is printed reads back, whatever the values contain but quotes. */
  lemma {:induction false} PrintThenRead(list: seq<Arg>)
    requires forall a | a in list :: Printable(a)
    ensures Line(PrintLine(list)) == list
    decreases |list|
  {
    hide *;
    if list == [] {
      NothingPrinted();
    } else {
      PrintLineStep(list);
      var rest := if |list| == 1 then [] else [SPACE] + PrintLine(list[1..]);
      PrintedHead(list[0]);
      PrintedWordEnd(list[0], rest);
      PrintedWordReads(list[0]);
      var w := PrintWord(list[0]);
      var s := w + rest;
      NoLeadingSpace(s);
      LineIs(s);
      ArgsUnfold(s);
      assert s[..|w|] == w && (rest != [] ==> s[|w| + 1..] == rest[1..]);
      if |list| > 1 {
        PrintThenRead(list[1..]);
        assert rest[1..] == PrintLine(list[1..]);
      }
    }
  }

  lemma NothingPrinted()
    ensures Line(PrintLine([])) == []
  {
    EmptyLine();
  }

  lemma PrintedHead(a: Arg)
    requires Printable(a)
    ensures PrintWord(a) != [] && !IsSpace(PrintWord(a)[0])
  {
    hide EqualsAt;
  }

  lemma EmptyLine()
    ensures Line([]) == []
  {
  }
}
