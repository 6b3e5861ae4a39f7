/**
 The conversion of the command line (apps/helper.c) only knows ASCII spaces, next_arg (apps/lib/cmdline.c)
 also takes the byte 0xA0 for one, which is part of the UTF-8 of some characters: when the two agree.
 */
module AsciiWords {
  import opened Word64
  import opened Wrappers
  import opened CommandLine
  import opened CommandLineLaws
  import opened LoadOptions

  const NBSP: byte := 0xA0

  predicate AsciiSpace(c: byte) {
    9 <= c <= 13 || c == SPACE
  }

  // ----- the words between ASCII spaces outside quotes

  function AsciiWordEnd(s: seq<byte>, inQuote: bool): (e: nat)
    ensures e <= |s| && (e < |s| ==> AsciiSpace(s[e]))
  {
    if s == [] || (AsciiSpace(s[0]) && !inQuote) then 0
    else 1 + AsciiWordEnd(s[1..], inQuote != (s[0] == QUOTE))
  }

  function AsciiSkip(s: seq<byte>): (rest: seq<byte>)
    ensures |rest| <= |s| && rest == s[|s| - |rest|..]
  {
    if s != [] && AsciiSpace(s[0]) then AsciiSkip(s[1..]) else s
  }

  function AsciiArgs(s: seq<byte>): seq<Arg>
    decreases |s|
  {
    if s == [] then []
    else
      var e := AsciiWordEnd(s, false);
      [ParseWord(s[..e])] + if e < |s| then AsciiArgs(AsciiSkip(s[e + 1..])) else []
  }

  function AsciiLine(s: seq<byte>): seq<Arg> {
    AsciiArgs(AsciiSkip(s))
  }

  // ----- where a word ends

  /** Up to `n`, every 0xA0 is inside quotes, in a line that starts in state `q`. */
  predicate Quoted(s: seq<byte>, q: bool, n: nat)
    requires n <= |s|
  {
    forall k: nat | k < n && s[k] == NBSP :: InQuote(s, q, k)
  }

  lemma QuotedStep(s: seq<byte>, q: bool, n: nat)
    requires 0 < n <= |s|
    ensures Quoted(s, q, n) <==> (s[0] == NBSP ==> q) && Quoted(s[1..], q != (s[0] == QUOTE), n - 1)
  {
    var r := q != (s[0] == QUOTE);
    assert InQuote(s, q, 0) == q;
    if Quoted(s, q, n) {
      forall k: nat | k < n - 1 && s[1..][k] == NBSP ensures InQuote(s[1..], r, k) {
        assert s[k + 1] == NBSP && InQuote(s, q, k + 1);
      }
    }
    if (s[0] == NBSP ==> q) && Quoted(s[1..], r, n - 1) {
      forall k: nat | k < n && s[k] == NBSP ensures InQuote(s, q, k) {
        if k > 0 {
          assert s[1..][k - 1] == NBSP;
        }
      }
    }
  }

  /** next_arg's word ends no later, and elsewhere only at a 0xA0 outside quotes. */
  lemma {:induction false} WordEnds(s: seq<byte>, q: bool)
    ensures WordEnd(s, q) <= AsciiWordEnd(s, q)
    ensures WordEnd(s, q) == AsciiWordEnd(s, q) <==> Quoted(s, q, AsciiWordEnd(s, q))
    ensures WordEnd(s, q) < AsciiWordEnd(s, q) ==> s[WordEnd(s, q)] == NBSP
    decreases |s|
  {
    hide Quoted;
    var e := AsciiWordEnd(s, q);
    if e == 0 {
      QuotedNone(s, q);
    } else {
      QuotedStep(s, q, e);
      WordEnds(s[1..], q != (s[0] == QUOTE));
    }
  }

  lemma QuotedNone(s: seq<byte>, q: bool)
    ensures Quoted(s, q, 0)
  {
  }

  // ----- a word cut short is another argument

  lemma {:induction false} EqualsAtPrefix(t: seq<byte>, n: nat)
    requires n <= |t| && EqualsAt(t[..n]) > 0
    ensures EqualsAt(t) == EqualsAt(t[..n])
    decreases |t|
  {
    if n == |t| {
      assert t[..n] == t;
    } else {
      var u := t[..|t| - 1];
      assert u[..n] == t[..n];
      EqualsAtPrefix(u, n);
    }
  }

  /** Stripping a closing quote does not make up for a missing end that is no quote. */
  lemma StripShorter(u: seq<byte>, n: nat, strip: bool)
    requires n < |u| && u[n] != QUOTE
    ensures |StripQuote(u[..n], strip)| < |StripQuote(u, strip)|
  {
  }

  lemma CutTextDiffers(t: seq<byte>, m: nat, quoted: bool)
    requires m < |t| && t[m] != QUOTE
    ensures WordArg(t[..m], quoted) != WordArg(t, quoted)
  {
    hide EqualsAt, StripQuote;
    var e := EqualsAt(t[..m]);
    if e == 0 {
      StripShorter(t, m, quoted);
    } else {
      EqualsAtPrefix(t, m);
      var from := if ValueQuoted(t, e) then e + 2 else e + 1;
      assert ValueQuoted(t[..m], e) == ValueQuoted(t, e);
      assert t[..m][from..] == t[from..][..m - from] && t[from..][m - from] == t[m];
      StripShorter(t[from..], m - from, quoted || ValueQuoted(t, e));
    }
  }

  lemma CutWordDiffers(w: seq<byte>, n: nat)
    requires 0 < n < |w| && w[n] != QUOTE
    ensures ParseWord(w[..n]) != ParseWord(w)
  {
    hide WordArg;
    if w[0] == QUOTE {
      assert w[..n][1..] == w[1..][..n - 1];
      CutTextDiffers(w[1..], n - 1, true);
    } else {
      CutTextDiffers(w, n, false);
    }
  }

  // ----- UTF-8

  /** Every 0xA0 continues a character outside ASCII. */
  predicate Continued(s: seq<byte>) {
    forall k: nat | k < |s| && s[k] == NBSP :: k > 0 && s[k - 1] >= 0x80
  }

  lemma Utf8Continued(c: CodePoint)
    ensures Continued(Utf8(c))
  {
  }

  lemma ContinuedAppend(s: seq<byte>, t: seq<byte>)
    requires Continued(s) && Continued(t)
    ensures Continued(s + t)
  {
    var u := s + t;
    forall k: nat | k < |u| && u[k] == NBSP ensures k > 0 && u[k - 1] >= 0x80 {
      if k >= |s| {
        assert t[k - |s|] == NBSP;
      }
    }
  }

  lemma {:induction false} EncodeContinued(points: seq<CodePoint>)
    ensures Continued(Encode(points))
    decreases |points|
  {
    hide Continued, Utf8;
    if points == [] {
      NoneContinued();
    } else {
      Utf8Continued(points[0]);
      EncodeContinued(points[1..]);
      ContinuedAppend(Utf8(points[0]), Encode(points[1..]));
    }
  }

  lemma NoneContinued()
    ensures Continued([])
  {
  }

  lemma ContinuedTail(s: seq<byte>, e: nat)
    requires e < |s| && s[e] < 0x80 && Continued(s)
    ensures Continued(s[e + 1..])
  {
    var t := s[e + 1..];
    forall k: nat | k < |t| && t[k] == NBSP ensures k > 0 && t[k - 1] >= 0x80 {
      assert s[e + 1 + k] == NBSP;
    }
  }

  // ----- the two readings of a line

  /** In UTF-8 both skip the same spaces. */
  lemma {:induction false} SkipSame(s: seq<byte>)
    requires Continued(s)
    ensures SkipSpaces(s) == AsciiSkip(s) && Continued(AsciiSkip(s))
    ensures AsciiSkip(s) != [] ==> !IsSpace(AsciiSkip(s)[0])
    ensures Quoted(s, false, |s|) <==> Quoted(AsciiSkip(s), false, |AsciiSkip(s)|)
    decreases |s|
  {
    hide Quoted;
    if s != [] && AsciiSpace(s[0]) {
      ContinuedTail(s, 0);
      QuotedStep(s, false, |s|);
      SkipSame(s[1..]);
    }
  }

  lemma {:induction false} OutsideAtEnd(s: seq<byte>, q: bool)
    ensures AsciiWordEnd(s, q) < |s| ==> !InQuote(s, q, AsciiWordEnd(s, q))
    decreases |s|
  {
    if s != [] && !(AsciiSpace(s[0]) && !q) {
      OutsideAtEnd(s[1..], q != (s[0] == QUOTE));
    }
  }

  lemma QuotedSplit(t: seq<byte>, e: nat)
    requires e < |t| && AsciiSpace(t[e]) && !InQuote(t, false, e)
    ensures var rest := t[e + 1..];
      Quoted(t, false, |t|) <==> Quoted(t, false, e) && Quoted(rest, false, |rest|)
  {
    hide InQuote;
    var rest := t[e + 1..];
    forall k: nat | k < |rest| ensures InQuote(rest, false, k) == InQuote(t, false, e + 1 + k) {
      InQuoteSplit(t, false, e, e + 1 + k);
      InQuoteStep(t[e..], false, 1 + k);
      assert t[e..][1..] == rest;
    }
    if Quoted(t, false, |t|) {
      forall k: nat | k < |rest| && rest[k] == NBSP ensures InQuote(rest, false, k) {
        assert t[e + 1 + k] == NBSP;
      }
    }
    if Quoted(t, false, e) && Quoted(rest, false, |rest|) {
      forall k: nat | k < |t| && t[k] == NBSP ensures InQuote(t, false, k) {
        if k > e {
          assert rest[k - e - 1] == NBSP;
        }
      }
    }
  }

  lemma QuotedShorter(t: seq<byte>, e: nat)
    requires e <= |t| && Quoted(t, false, |t|)
    ensures Quoted(t, false, e)
  {
  }

  lemma AsciiUnfold(t: seq<byte>)
    requires t != []
    ensures var e := AsciiWordEnd(t, false);
      AsciiArgs(t) == [ParseWord(t[..e])] + if e < |t| then AsciiArgs(AsciiSkip(t[e + 1..])) else []
  {
    hide AsciiWordEnd, AsciiSkip, ParseWord;
  }

  lemma SameTail(a: Arg, s: seq<Arg>, t: seq<Arg>)
    ensures [a] + s == [a] + t <==> s == t
  {
    if [a] + s == [a] + t {
      assert ([a] + s)[1..] == s && ([a] + t)[1..] == t;
    }
  }

  lemma WordIsNotEmpty(t: seq<byte>)
    requires t != [] && !IsSpace(t[0])
    ensures WordEnd(t, false) > 0
  {
  }

  lemma {:induction false} ArgsAgree(t: seq<byte>)
    requires Continued(t) && (t != [] ==> !IsSpace(t[0]))
    ensures Args(t) == AsciiArgs(t) <==> Quoted(t, false, |t|)
    decreases |t|
  {
    hide *;
    if t == [] {
      QuotedNone(t, false);
      NoWords();
    } else {
      var d, e := WordEnd(t, false), AsciiWordEnd(t, false);
      WordEnds(t, false);
      WordIsNotEmpty(t);
      ArgsUnfold(t);
      AsciiUnfold(t);
      if d < e {
        assert t[..e][..d] == t[..d];
        NoQuote();
        CutWordDiffers(t[..e], d);
        assert Args(t)[0] == ParseWord(t[..d]) && AsciiArgs(t)[0] == ParseWord(t[..e]);
        if Quoted(t, false, |t|) {
          QuotedShorter(t, e);
        }
      } else if e < |t| {
        AfterWord(t, e);
        var rest := t[e + 1..];
        LineIs(rest);
        SkipSame(rest);
        ArgsAgree(AsciiSkip(rest));
        SameTail(ParseWord(t[..e]), Line(rest), AsciiArgs(AsciiSkip(rest)));
      }
    }
  }

  lemma NoWords()
    ensures Args([]) == [] && AsciiArgs([]) == []
  {
  }

  lemma NoQuote()
    ensures NBSP != QUOTE
  {
  }

  lemma AfterWord(t: seq<byte>, e: nat)
    requires Continued(t) && e == AsciiWordEnd(t, false) < |t|
    ensures var rest := t[e + 1..];
      Continued(rest) && (Quoted(t, false, |t|) <==> Quoted(t, false, e) && Quoted(rest, false, |rest|))
  {
    hide AsciiWordEnd, Quoted, Continued, InQuote;
    OutsideAtEnd(t, false);
    ContinuedTail(t, e);
    QuotedSplit(t, e);
  }

  /** MAIN: next_arg reads the words that ASCII spaces divide, of every command line as UTF-8, exactly if
      every byte 0xA0 of it stands inside quotes. */
  lemma SpacesAgree(units: seq<CHAR16>)
    ensures var s := Full(units);
      Line(s) == AsciiLine(s) <==> forall k: nat | k < |s| && s[k] == NBSP :: OddQuotes(s[..k])
  {
    hide Line, AsciiLine, CodePoints, Encode, OddQuotes, InQuote;
    var s := Full(units);
    EncodeContinued(CodePoints(units));
    LinesAgree(s);
    forall k: nat | k < |s| ensures InQuote(s, false, k) == OddQuotes(s[..k]) {
      InQuoteIsParity(s, false, k);
    }
  }

  lemma LinesAgree(s: seq<byte>)
    requires Continued(s)
    ensures Line(s) == AsciiLine(s) <==> Quoted(s, false, |s|)
  {
    hide AsciiSkip, SkipSpaces, Args, AsciiArgs, Quoted, Continued;
    SkipSame(s);
    ArgsAgree(AsciiSkip(s));
  }

  /** It does not for the letter U+00E0: its second byte is 0xA0, and the word ends inside it. */
  lemma LetterIsSplit()
    ensures Utf8(0xE0) == [0xC3, NBSP] && Full([0xE0]) == [0xC3, NBSP]
    ensures WordEnd(Full([0xE0]), false) == 1 && Line(Full([0xE0])) == [Arg([0xC3], None)]
    ensures AsciiLine(Full([0xE0])) == [Arg([0xC3, NBSP], None)]
  {
    hide Line, Args, AsciiArgs, AsciiSkip, ParseWord, Full, Utf8;
    var s: seq<byte> := [0xC3, NBSP];
    LetterBytes();
    assert s[1..] == [NBSP] && s[..1] == [0xC3] && s[1 + 1..] == [] && s[..2] == s;
    NoLeadingSpace(s);
    LineIs(s);
    ArgsUnfold(s);
    EmptyLine();
    AsciiUnfold(s);
    BareWord();
  }

  lemma LetterBytes()
    ensures Utf8(0xE0) == [0xC3, NBSP] && Full([0xE0]) == [0xC3, NBSP]
  {
    hide Full;
    FullUnfolds([0xE0]);
    FullUnfolds([]);
    var units: seq<CHAR16> := [0xE0];
    assert units[1..] == [];
    assert Utf8(0xE0) + [] == Utf8(0xE0);
  }

  lemma BareWord()
    ensures ParseWord([0xC3]) == Arg([0xC3], None) && ParseWord([0xC3, NBSP]) == Arg([0xC3, NBSP], None)
    ensures AsciiLine([0xC3, NBSP]) == AsciiArgs([0xC3, NBSP])
  {
    assert [0xC3, NBSP][..1] == [0xC3];
  }
}
