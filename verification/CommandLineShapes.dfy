/**
 Words, quotes and lists of the command line in terms of their characters: 34 is the quote, 61 the equals
 sign, 44 the comma (apps/lib/cmdline.c, apps/helper.c).
 */
module CommandLineShapes {
  import opened Word64
  import opened Wrappers
  import opened CommandLine
  import opened CommandLineLaws
  import opened LoadOptions
  import opened KernelOptions

  predicate Blank(c: byte) {
    c in {9, 10, 11, 12, 13, 32, 160}
  }

  function QuoteCount(s: seq<byte>): nat {
    if s == [] then 0 else QuoteCount(s[..|s| - 1]) + if s[|s| - 1] == 34 then 1 else 0
  }

  lemma {:induction false} OddIsCount(s: seq<byte>)
    ensures OddQuotes(s) <==> QuoteCount(s) % 2 == 1
  {
    if s != [] {
      OddIsCount(s[..|s| - 1]);
    }
  }

  lemma BlankIsSpace(c: byte)
    ensures IsSpace(c) <==> Blank(c)
  {
  }

  /** A blank behind an even number of quotes. */
  predicate Divides(s: seq<byte>, k: nat)
    requires k < |s|
  {
    Blank(s[k]) && QuoteCount(s[..k]) % 2 == 0
  }

  lemma {:induction false} WordEndIs(s: seq<byte>, q: bool)
    ensures var e := WordEnd(s, q);
      && (e < |s| ==> IsSpace(s[e]) && !InQuote(s, q, e))
      && forall k | 0 <= k < e :: !(IsSpace(s[k]) && !InQuote(s, q, k))
  {
    hide IsSpace;
    if s != [] && !(IsSpace(s[0]) && !q) {
      var p := q != (s[0] == QUOTE);
      WordEndIs(s[1..], p);
      forall k | 0 <= k < WordEnd(s, q) ensures !(IsSpace(s[k]) && !InQuote(s, q, k)) {
        if k > 0 {
          assert s[k] == s[1..][k - 1] && InQuote(s, q, k) == InQuote(s[1..], p, k - 1);
        }
      }
    }
  }

  lemma DividesIs(s: seq<byte>, k: nat)
    requires k < |s|
    ensures Divides(s, k) <==> IsSpace(s[k]) && !InQuote(s, false, k)
  {
    hide InQuote, IsSpace, OddQuotes;
    BlankIsSpace(s[k]);
    OddIsCount(s[..k]);
    InQuoteIsParity(s, false, k);
  }

  /** MAIN: the first word of a line ends at the first blank behind an even number of quotes, or with the line. */
  lemma FirstWordEnds(s: seq<byte>, e: nat)
    requires e <= |s|
    ensures e == WordEnd(s, false)
      <==> (e < |s| ==> Divides(s, e)) && forall k | 0 <= k < e :: !Divides(s, k)
  {
    hide WordEnd, InQuote, IsSpace, Divides;
    WordEndIs(s, false);
    forall k | 0 <= k < |s| ensures Divides(s, k) <==> IsSpace(s[k]) && !InQuote(s, false, k) {
      DividesIs(s, k);
    }
  }

  /** The first equals sign of `t` that is not in front is at `e`. */
  predicate FirstEquals(t: seq<byte>, e: nat) {
    0 < e < |t| && t[e] == 61 && forall k | 0 < k < e :: t[k] != 61
  }

  lemma {:induction false} EqualsIs(t: seq<byte>, e: nat)
    ensures FirstEquals(t, e) ==> EqualsAt(t) == e
    ensures (forall k | 0 < k < |t| :: t[k] != 61) ==> EqualsAt(t) == 0
  {
    if |t| >= 2 {
      var front := t[..|t| - 1];
      EqualsIs(front, e);
      assert forall k | 0 <= k < |front| :: front[k] == t[k];
      if e == |t| - 1 {
        EqualsIs(front, 0);
      }
    }
  }

  /** `t` without its last character if that is a quote. */
  function WithoutLastQuote(t: seq<byte>): seq<byte> {
    if t != [] && t[|t| - 1] == 34 then t[..|t| - 1] else t
  }

  /** MAIN: what a word stands for, a quote in front apart: without an equals sign behind the first character the
      whole word, and else what stands before and behind the first such sign. A quote in front, or behind the
      sign, is left out together with one at the end. */
  lemma WordStandsFor(w: seq<byte>, e: nat)
    ensures var quoted := w != [] && w[0] == 34; var t := if quoted then w[1..] else w;
      && ((forall k | 0 < k < |t| :: t[k] != 61) ==>
        ParseWord(w) == Arg(if quoted then WithoutLastQuote(t) else t, None))
      && (FirstEquals(t, e) ==>
        var inner := e + 1 < |t| && t[e + 1] == 34;
        var v := if inner then t[e + 2..] else t[e + 1..];
        ParseWord(w) == Arg(t[..e], Some(if quoted || inner then WithoutLastQuote(v) else v)))
  {
    hide WordArg, WithoutLastQuote, FirstEquals;
    var quoted := w != [] && w[0] == 34;
    TextStandsFor(if quoted then w[1..] else w, quoted, e);
  }

  lemma TextStandsFor(t: seq<byte>, quoted: bool, e: nat)
    ensures (forall k | 0 < k < |t| :: t[k] != 61) ==>
      WordArg(t, quoted) == Arg(if quoted then WithoutLastQuote(t) else t, None)
    ensures FirstEquals(t, e) ==>
      var inner := e + 1 < |t| && t[e + 1] == 34;
      var v := if inner then t[e + 2..] else t[e + 1..];
      WordArg(t, quoted) == Arg(t[..e], Some(if quoted || inner then WithoutLastQuote(v) else v))
  {
    hide EqualsAt;
    EqualsIs(t, e);
  }

  /** MAIN: a too long command line can be cut at an ASCII blank behind an even number of quotes, and nowhere else. */
  lemma CutsExactly(s: seq<byte>, k: nat)
    requires k < |s|
    ensures CutPoint(s, k) <==> s[k] in {9, 10, 11, 12, 13, 32} && QuoteCount(s[..k]) % 2 == 0
  {
    hide OddQuotes;
    OddIsCount(s[..k]);
  }

  function Join(list: seq<seq<byte>>): seq<byte> {
    if list == [] then [] else list[0] + if |list| == 1 then [] else [44] + Join(list[1..])
  }

  lemma {:induction false} ElementsPlain(s: seq<byte>, i: nat)
    requires i <= |s|
    ensures forall x | x in ElementsFrom(s, i) :: 44 !in x
    ensures i < |s| ==> ElementsFrom(s, i) != []
    decreases |s| - i
  {
    hide ElementEnd, ElementsFrom;
    ElementsStep(s, i);
    if i < |s| && ElementEnd(s, i) < |s| {
      ElementsPlain(s, ElementEnd(s, i) + 1);
    }
  }

  /** MAIN: the elements of a list have no commas, and with commas between them make up the list but for a
      comma at its end. */
  lemma {:induction false} ElementsJoin(s: seq<byte>, i: nat)
    requires i <= |s|
    ensures forall x | x in ElementsFrom(s, i) :: 44 !in x
    ensures i < |s| ==> ElementsFrom(s, i) != []
    ensures s[i..] == Join(ElementsFrom(s, i)) + if i < |s| && s[|s| - 1] == 44 then [44] else []
    decreases |s| - i
  {
    hide ElementEnd, ElementsFrom, Join;
    ElementsPlain(s, i);
    JoinedFrom(s, i);
  }

  lemma {:induction false} JoinedFrom(s: seq<byte>, i: nat)
    requires i <= |s|
    ensures s[i..] == Join(ElementsFrom(s, i)) + if i < |s| && s[|s| - 1] == 44 then [44] else []
    decreases |s| - i
  {
    hide ElementEnd, ElementsFrom, Join;
    ElementsStep(s, i);
    if i < |s| {
      var e := ElementEnd(s, i);
      JoinNext(s[i..e], if e < |s| then ElementsFrom(s, e + 1) else []);
      if e < |s| {
        JoinedFrom(s, e + 1);
        ElementsStep(s, e + 1);
        Reassembled(s, i, e, Join(ElementsFrom(s, e + 1)));
      } else {
        assert s[i..] == s[i..e] && s[i..e][|s| - 1 - i] == s[|s| - 1];
      }
    } else {
      JoinNothing();
    }
  }

  lemma ElementsStep(s: seq<byte>, i: nat)
    requires i <= |s|
    ensures i == |s| ==> ElementsFrom(s, i) == []
    ensures i < |s| ==>
      var e := ElementEnd(s, i);
      ElementsFrom(s, i) == [s[i..e]] + if e < |s| then ElementsFrom(s, e + 1) else []
  {
    hide ElementEnd;
  }

  lemma Reassembled(s: seq<byte>, i: nat, e: nat, joined: seq<byte>)
    requires i <= e < |s| && s[e] == 44
    requires s[e + 1..] == joined + if e + 1 < |s| && s[|s| - 1] == 44 then [44] else []
    ensures s[i..] == (if e + 1 < |s| then s[i..e] + ([44] + joined) else s[i..e])
      + if s[|s| - 1] == 44 then [44] else []
  {
    assert s[i..] == s[i..e] + [44] + s[e + 1..];
  }

  lemma JoinNothing()
    ensures Join([]) == []
  {
  }

  lemma JoinNext(x: seq<byte>, rest: seq<seq<byte>>)
    ensures Join([x] + rest) == if rest == [] then x else x + ([44] + Join(rest))
  {
    assert ([x] + rest)[1..] == rest;
    if rest == [] {
      assert [x] + rest == [x];
    }
  }
}
