/**
 The file-name matcher MetaMatch of lib/str.c against a declarative language: `*` is any sequence,
 `?` any one character, `[...]` one character of a set, anything else itself.
 */
module Glob {
  import opened Word64

  /** A NUL-terminated string is the sequence of its characters; reading at its length gives the NUL. */
  type CString = s: seq<CHAR16> | 0 !in s

  const STAR: CHAR16 := 42
  const QUESTION: CHAR16 := 63
  const DASH: CHAR16 := 45
  const OPEN: CHAR16 := 91
  const CLOSE: CHAR16 := 93

  function At(s: CString, i: nat): CHAR16
    requires i <= |s|
  {
    if i < |s| then s[i] else 0
  }

  // ----- the language of a pattern

  datatype Item = AnySequence | AnyOne | OneOf(body: seq<CHAR16>) | Literal(c: CHAR16)

  /** Position of the first `]`, or the length if there is none. */
  function SetEnd(p: seq<CHAR16>): (e: nat)
    ensures e <= |p| && CLOSE !in p[..e]
    ensures e < |p| ==> p[e] == CLOSE
  {
    if p == [] || p[0] == CLOSE then 0 else 1 + SetEnd(p[1..])
  }

  /** Every `[` that opens a set has its `]`. */
  predicate Closed(p: seq<CHAR16>)
    decreases |p|
  {
    p == [] ||
    if p[0] == OPEN then
      var e := SetEnd(p[1..]);
      1 + e < |p| && Closed(p[e + 2..])
    else Closed(p[1..])
  }

  function Parse(p: seq<CHAR16>): seq<Item>
    requires Closed(p)
    decreases |p|
  {
    if p == [] then []
    else if p[0] == OPEN then
      var e := SetEnd(p[1..]);
      [OneOf(p[1..][..e])] + Parse(p[e + 2..])
    else
      [if p[0] == STAR then AnySequence else if p[0] == QUESTION then AnyOne else Literal(p[0])] + Parse(p[1..])
  }

  /** `c` stands in the set itself; a dash does only as the upper end of a range. */
  ghost predicate Listed(c: CHAR16, body: seq<CHAR16>) {
    exists j | 0 <= j < |body| :: body[j] == c && (c == DASH ==> j > 0 && body[j - 1] == DASH)
  }

  /** `c` lies in a range `low-high`; a range that opens the set has no lower end. */
  ghost predicate InRange(c: CHAR16, body: seq<CHAR16>) {
    exists j: nat | j < |body| - 1 :: RangeAt(c, body, j)
  }

  predicate RangeAt(c: CHAR16, body: seq<CHAR16>, j: nat)
    requires j < |body| - 1
  {
    body[j] == DASH && (j > 0 ==> body[j - 1] <= c) && c <= body[j + 1]
  }

  ghost predicate InSet(c: CHAR16, body: seq<CHAR16>) {
    Listed(c, body) || InRange(c, body)
  }

  /** The words one item stands for. */
  ghost predicate ItemWord(item: Item, w: seq<CHAR16>) {
    match item
    case AnySequence => true
    case AnyOne => |w| == 1
    case OneOf(body) => |w| == 1 && InSet(w[0], body)
    case Literal(c) => w == [c]
  }

  /** Concatenations of words of the items. */
  ghost predicate InLanguage(items: seq<Item>, t: seq<CHAR16>) {
    if items == [] then t == []
    else exists k | 0 <= k <= |t| :: ItemWord(items[0], t[..k]) && InLanguage(items[1..], t[k..])
  }

  // ----- unfolding the language at the head of a pattern

  lemma OneCharacterItem(item: Item, rest: seq<Item>, t: seq<CHAR16>)
    requires !item.AnySequence?
    ensures InLanguage([item] + rest, t)
        <==> t != [] && ItemWord(item, [t[0]]) && InLanguage(rest, t[1..])
  {
    var items := [item] + rest;
    assert items[1..] == rest;
    if InLanguage(items, t) {
      var k :| 0 <= k <= |t| && ItemWord(item, t[..k]) && InLanguage(rest, t[k..]);
      assert k == |t[..k]| == 1 && t[..k] == [t[0]];
    }
    if t != [] && ItemWord(item, [t[0]]) && InLanguage(rest, t[1..]) {
      assert t[..1] == [t[0]];
    }
  }

  lemma StarItem(rest: seq<Item>, t: seq<CHAR16>)
    ensures InLanguage([AnySequence] + rest, t) <==> exists k | 0 <= k <= |t| :: InLanguage(rest, t[k..])
  {
    var items := [AnySequence] + rest;
    assert items[1..] == rest;
    if k :| 0 <= k <= |t| && InLanguage(rest, t[k..]) {
      assert ItemWord(items[0], t[..k]);
    }
  }

  // ----- the set scan

  /** What the scan at position `j` of a set body accepts. */
  ghost predicate Hit(c: CHAR16, body: seq<CHAR16>, j: nat)
    requires j < |body|
  {
    if body[j] == DASH then
      j + 1 < |body| && (((j > 0 ==> body[j - 1] <= c) && c <= body[j + 1]) || c == body[j + 1])
    else c == body[j]
  }

  lemma ListedIsHit(c: CHAR16, body: seq<CHAR16>)
    requires Listed(c, body)
    ensures exists j: nat | j < |body| :: Hit(c, body, j)
  {
    var j :| 0 <= j < |body| && body[j] == c && (c == DASH ==> j > 0 && body[j - 1] == DASH);
    assert Hit(c, body, if c == DASH then j - 1 else j);
  }

  lemma RangeIsHit(c: CHAR16, body: seq<CHAR16>)
    requires InRange(c, body)
    ensures exists j: nat | j < |body| :: Hit(c, body, j)
  {
    var j: nat :| j < |body| - 1 && RangeAt(c, body, j);
    assert Hit(c, body, j);
  }

  lemma HitIsIn(c: CHAR16, body: seq<CHAR16>, j: nat)
    requires j < |body| && Hit(c, body, j)
    ensures InSet(c, body)
  {
    if body[j] != DASH {
      assert body[j] == c;
    } else if c == body[j + 1] {
      assert body[j + 1] == c && body[j + 1 - 1] == DASH;
    } else {
      assert RangeAt(c, body, j);
    }
  }

  lemma SetIsHits(c: CHAR16, body: seq<CHAR16>)
    ensures InSet(c, body) <==> exists j: nat | j < |body| :: Hit(c, body, j)
  {
    hide Listed, InRange, Hit;
    if Listed(c, body) {
      ListedIsHit(c, body);
    } else if InRange(c, body) {
      RangeIsHit(c, body);
    } else if j: nat :| j < |body| && Hit(c, body, j) {
      HitIsIn(c, body, j);
    }
  }

  lemma SetStops(pattern: CString, start: nat)
    requires start <= |pattern| && start + SetEnd(pattern[start..]) < |pattern|
    ensures var end := start + SetEnd(pattern[start..]);
      pattern[end] == CLOSE && forall k | start <= k < end :: pattern[k] != CLOSE
  {
    var rest := pattern[start..];
    assert forall k | start <= k < |pattern| :: pattern[k] == rest[k - start];
  }

  /** What the scan sees at `j`, with `l` the character it remembers. */
  lemma HitAt(c: CHAR16, pattern: CString, start: nat, end: nat, j: nat, l: CHAR16)
    requires start <= end < |pattern| && j < end - start && pattern[end] == CLOSE
    requires forall k | start <= k < end :: pattern[k] != CLOSE
    requires if j == 0 then l == 0
      else l == if pattern[start + j - 1] == DASH then pattern[start + j] else pattern[start + j - 1]
    ensures var p := pattern[start + j];
      Hit(c, pattern[start..][..end - start], j)
      <==> if p == DASH then var q := pattern[start + j + 1]; q != CLOSE && (l <= c <= q || c == q) else c == p
  {
    var body := pattern[start..][..end - start];
    assert body[j] == pattern[start + j];
    if j > 0 {
      assert body[j - 1] == pattern[start + j - 1];
    }
    if j + 1 < |body| {
      assert body[j + 1] == pattern[start + j + 1];
    }
  }

  /** `[`: looks for `c` in the set that starts at `start`; on success `next` is behind its `]`. */
  method MatchSet(c: CHAR16, pattern: CString, start: nat) returns (found: bool, next: nat)
    requires c != 0 && start <= |pattern|
    requires start + SetEnd(pattern[start..]) < |pattern|
    ensures found == InSet(c, pattern[start..][..SetEnd(pattern[start..])])
    ensures found ==> next == start + SetEnd(pattern[start..]) + 1
  {
    hide InSet, Hit, SetEnd;
    ghost var end := start + SetEnd(pattern[start..]);
    ghost var body := pattern[start..][..end - start];
    SetStops(pattern, start);
    SetIsHits(c, body);
    var l: CHAR16 := 0;
    var p: CHAR16;
    next := start;
    found := false;
    while true
      invariant start <= next <= end && !found
      invariant forall j: nat | j < next - start :: !Hit(c, body, j)
      invariant next == start ==> l == 0
      invariant next > start ==> l == if pattern[next - 1] == DASH then pattern[next] else pattern[next - 1]
      decreases |pattern| - next
    {
      p := At(pattern, next);
      ghost var j := next - start;
      next := next + 1;
      if p == CLOSE {
        return;
      }
      HitAt(c, pattern, start, end, j, l);
      if p == DASH {
        p := At(pattern, next);
        if p == 0 || p == CLOSE {
          return;
        }
        if c >= l && c <= p {
          found := true;
          break;
        }
      }
      l := p;
      if c == p {
        found := true;
        break;
      }
    }
    // skip to the end of the set
    while p != 0 && p != CLOSE
      invariant start <= next <= end + 1
      invariant p != 0 && (p == CLOSE <==> next == end + 1)
      decreases |pattern| - next
    {
      p := At(pattern, next);
      next := next + 1;
    }
  }

  // ----- the matcher

  /** What a match from positions `si` and `pi` means. */
  ghost predicate Matches(s: CString, pattern: CString, si: nat, pi: nat)
    requires si <= |s| && pi <= |pattern| && Closed(pattern[pi..])
  {
    InLanguage(Parse(pattern[pi..]), s[si..])
  }

  /** The rest of the pattern matches some suffix of the string. */
  ghost predicate MatchesLater(s: CString, pattern: CString, si: nat, pi: nat)
    requires si <= |s| && pi <= |pattern| && Closed(pattern[pi..])
  {
    exists k | si <= k <= |s| :: Matches(s, pattern, k, pi)
  }

  lemma MatchesUnfold(s: CString, pattern: CString, si: nat, pi: nat)
    requires si <= |s| && pi < |pattern| && Closed(pattern[pi..])
    ensures pattern[pi] != OPEN ==> Closed(pattern[pi + 1..])
    ensures pattern[pi] == STAR ==>
      Matches(s, pattern, si, pi) == MatchesLater(s, pattern, si, pi + 1)
    ensures pattern[pi] == QUESTION ==>
      (Matches(s, pattern, si, pi) <==> si < |s| && Matches(s, pattern, si + 1, pi + 1))
    ensures pattern[pi] !in {STAR, QUESTION, OPEN} ==>
      (Matches(s, pattern, si, pi) <==> si < |s| && s[si] == pattern[pi] && Matches(s, pattern, si + 1, pi + 1))
  {
    var p, t := pattern[pi..], s[si..];
    assert p[1..] == pattern[pi + 1..] && (t != [] ==> t[1..] == s[si + 1..]);
    if p[0] == STAR {
      var rest := Parse(p[1..]);
      StarItem(rest, t);
      assert forall k | 0 <= k <= |t| :: t[k..] == s[si + k..];
      if Matches(s, pattern, si, pi) {
        var k :| 0 <= k <= |t| && InLanguage(rest, t[k..]);
        assert Matches(s, pattern, si + k, pi + 1);
      }
      if MatchesLater(s, pattern, si, pi + 1) {
        var k :| si <= k <= |s| && Matches(s, pattern, k, pi + 1);
        assert InLanguage(rest, t[k - si..]);
      }
    } else if p[0] != OPEN {
      OneCharacterItem(Parse(p)[0], Parse(p[1..]), t);
    }
    hide InLanguage;
  }

  lemma SetInFront(p: CString, t: CString)
    requires p != [] && p[0] == OPEN && Closed(p)
    ensures var e := SetEnd(p[1..]);
      && e + 2 <= |p| && Closed(p[e + 2..])
      && (InLanguage(Parse(p), t) <==> t != [] && InSet(t[0], p[1..][..e]) && InLanguage(Parse(p[e + 2..]), t[1..]))
  {
    hide InLanguage, InSet, SetEnd;
    var e := SetEnd(p[1..]);
    assert p[1..][e + 1..] == p[e + 2..];
    OneCharacterItem(OneOf(p[1..][..e]), Parse(p[e + 2..]), t);
  }

  lemma MatchesUnfoldSet(s: CString, pattern: CString, si: nat, pi: nat)
    requires si <= |s| && pi < |pattern| && Closed(pattern[pi..]) && pattern[pi] == OPEN
    ensures var e := SetEnd(pattern[pi + 1..]); var next := pi + 2 + e;
      && next <= |pattern| && Closed(pattern[next..])
      && (Matches(s, pattern, si, pi) <==>
          si < |s| && InSet(s[si], pattern[pi + 1..][..e]) && Matches(s, pattern, si + 1, next))
  {
    hide InLanguage, InSet, Parse, SetEnd, Closed;
    var p, t := pattern[pi..], s[si..];
    assert p[1..] == pattern[pi + 1..] && (t != [] ==> t[1..] == s[si + 1..]);
    SetInFront(p, t);
    assert p[SetEnd(p[1..]) + 2..] == pattern[pi + 2 + SetEnd(p[1..])..];
  }

  /** MAIN: for every closed pattern the matcher decides the language, and terminates: each recursive
      call and each round has less pattern left, each step of the star loop less string. */
  method MetaMatch(s: CString, pattern: CString, si0: nat, pi0: nat) returns (matched: bool)
    requires si0 <= |s| && pi0 <= |pattern| && Closed(pattern[pi0..])
    ensures matched == Matches(s, pattern, si0, pi0)
    decreases |pattern| - pi0
  {
    hide InLanguage, InSet, Parse, SetEnd, Closed;
    var si, pi := si0, pi0;
    while true
      invariant pi0 <= pi <= |pattern| && si0 <= si <= |s| && Closed(pattern[pi..])
      invariant Matches(s, pattern, si0, pi0) == Matches(s, pattern, si, pi)
      decreases |pattern| - pi
    {
      var p := At(pattern, pi);
      if p == 0 {
        EmptyPattern(s, pattern, si);
        return At(s, si) == 0;
      }
      if p == OPEN {
        MatchesUnfoldSet(s, pattern, si, pi);
        var c := At(s, si);
        if c == 0 {
          return false;
        }
        var found, next := MatchSet(c, pattern, pi + 1);
        if !found {
          return false;
        }
        si, pi := si + 1, next;
      } else {
        MatchesUnfold(s, pattern, si, pi);
        pi := pi + 1;
        if p == STAR {
          ghost var from := si;
          while At(s, si) != 0
            invariant from <= si <= |s|
            invariant forall k | from <= k < si :: !Matches(s, pattern, k, pi)
            decreases |s| - si
          {
            var here := MetaMatch(s, pattern, si, pi);
            if here {
              return true;
            }
            si := si + 1;
          }
          matched := MetaMatch(s, pattern, si, pi);
          return;
        } else if p == QUESTION {
          if At(s, si) == 0 {
            return false;
          }
          si := si + 1;
        } else {
          if At(s, si) != p {
            return false;
          }
          si := si + 1;
        }
      }
    }
  }

  lemma EmptyPattern(s: CString, pattern: CString, si: nat)
    requires si <= |s|
    ensures Closed(pattern[|pattern|..]) && (Matches(s, pattern, si, |pattern|) <==> si == |s|)
  {
    assert pattern[|pattern|..] == [] && (s[si..] == [] <==> si == |s|);
  }

  /** A pattern without special characters matches only itself. */
  lemma {:induction false} PlainPattern(p: seq<CHAR16>, t: seq<CHAR16>)
    requires forall c | c in p :: c !in {STAR, QUESTION, OPEN}
    ensures Closed(p) && (InLanguage(Parse(p), t) <==> t == p)
  {
    if p != [] {
      var rest := if t == [] then [] else t[1..];
      assert forall c | c in p[1..] :: c in p;
      assert p[0] in p;
      PlainPattern(p[1..], rest);
      OneCharacterItem(Literal(p[0]), Parse(p[1..]), t);
      assert p == [p[0]] + p[1..] && (t != [] ==> t == [t[0]] + rest);
    }
  }
}
