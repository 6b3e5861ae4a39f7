/**
 Patterns of MetaMatch in terms of their characters: 42 is `*`, 63 `?`, 91 `[`, 93 `]`, and 45 the dash of a
 range (lib/str.c).
 */
module GlobLaws {
  import opened Word64
  import opened Glob

  /** What a whole pattern means for a whole string. */
  ghost predicate Means(s: CString, pattern: CString)
    requires Closed(pattern)
  {
    assert pattern[0..] == pattern;
    Matches(s, pattern, 0, 0)
  }

  lemma LaterMeans(s: CString, pattern: CString, p: CString, si: nat, pi: nat)
    requires si <= |s| && pi <= |pattern| && pattern[pi..] == p && Closed(p)
    ensures Matches(s, pattern, si, pi) == Means(s[si..], p)
  {
    assert s[si..][0..] == s[si..] && p[0..] == p;
  }

  /** MAIN: the meaning of a pattern by its first character: nothing matches the empty string, `*` any characters
      in front, `?` one character, and every other but `[` itself. */
  lemma FirstCharacter(s: CString, c: CHAR16, p: CString)
    requires Closed(p) && c != 0
    ensures Means(s, []) <==> s == []
    ensures c != 91 ==> Closed([c] + p)
    ensures c == 42 ==> (Means(s, [c] + p) <==> exists k | 0 <= k <= |s| :: Means(s[k..], p))
    ensures c == 63 ==> (Means(s, [c] + p) <==> s != [] && Means(s[1..], p))
    ensures c !in {42, 63, 91} ==> (Means(s, [c] + p) <==> s != [] && s[0] == c && Means(s[1..], p))
  {
    hide Matches, MatchesLater, Means;
    NothingMeans(s);
    if c != 91 {
      StaysClosed(c, p);
      var pattern: CString := [c] + p;
      assert pattern[0..] == pattern && pattern[1..] == p;
      MatchesUnfold(s, pattern, 0, 0);
      LaterMeans(s, pattern, pattern, 0, 0);
      assert s[0..] == s;
      forall k | 0 <= k <= |s| ensures Matches(s, pattern, k, 1) == Means(s[k..], p) {
        LaterMeans(s, pattern, p, k, 1);
      }
      LaterIs(s, pattern, 1);
    }
  }

  lemma NothingMeans(s: CString)
    ensures Closed([]) && (Means(s, []) <==> s == [])
  {
    var nothing: CString := [];
    assert nothing[0..] == [] && s[0..] == s;
    assert Parse([]) == [];
  }

  lemma StaysClosed(c: CHAR16, p: CString)
    requires Closed(p) && c != 91
    ensures Closed([c] + p)
  {
    assert ([c] + p)[1..] == p;
  }

  lemma LaterIs(s: CString, pattern: CString, pi: nat)
    requires pi <= |pattern| && Closed(pattern[pi..])
    ensures MatchesLater(s, pattern, 0, pi) <==> exists k | 0 <= k <= |s| :: Matches(s, pattern, k, pi)
  {
    hide Matches;
  }

  /** The character stands in the set by itself, the dash only behind a dash. */
  ghost predicate Stands(c: CHAR16, body: seq<CHAR16>, j: nat)
    requires j < |body|
  {
    body[j] == c && (c == 45 ==> j > 0 && body[j - 1] == 45)
  }

  /** A dash at `j` has the character between its neighbours; in front it has no lower neighbour. */
  ghost predicate Between(c: CHAR16, body: seq<CHAR16>, j: nat)
    requires j + 1 < |body|
  {
    body[j] == 45 && (j > 0 ==> body[j - 1] <= c) && c <= body[j + 1]
  }

  /** MAIN: `[`, a body without `]`, and `]` match one character: one that stands in the body or lies in a range
      of it. */
  lemma SetInPattern(s: CString, body: CString, p: CString)
    requires Closed(p) && 93 !in body
    ensures Closed([91] + body + [93] + p)
    ensures Means(s, [91] + body + [93] + p) <==>
      && s != [] && Means(s[1..], p)
      && ((exists j: nat | j < |body| :: Stands(s[0], body, j))
        || exists j: nat | j + 1 < |body| :: Between(s[0], body, j))
  {
    hide *;
    var pattern: CString := [91] + body + [93] + p;
    SetParts(pattern, body, p);
    SetCloses(pattern, |body|);
    MatchesUnfoldSet(s, pattern, 0, 0);
    LaterMeans(s, pattern, pattern, 0, 0);
    assert s[0..] == s;
    if s != [] {
      LaterMeans(s, pattern, p, 1, |body| + 2);
      SetHas(s[0], body);
    }
  }

  lemma SetParts(pattern: CString, body: CString, p: CString)
    requires pattern == [91] + body + [93] + p && 93 !in body
    ensures pattern[0] == OPEN && pattern[0..] == pattern
    ensures SetEnd(pattern[1..]) == |body| && pattern[1..][..|body|] == body && pattern[|body| + 2..] == p
  {
    hide SetEnd;
    assert pattern[1..][|body|] == 93 && pattern[1..][..|body|] == body;
    SetEndIs(pattern[1..], body);
  }

  lemma SetCloses(pattern: CString, e: nat)
    requires pattern != [] && pattern[0] == OPEN && e == SetEnd(pattern[1..]) && e + 2 <= |pattern|
    requires Closed(pattern[e + 2..])
    ensures Closed(pattern)
  {
    hide SetEnd;
  }

  lemma {:induction false} SetEndIs(q: seq<CHAR16>, body: seq<CHAR16>)
    requires |body| < |q| && q[..|body|] == body && q[|body|] == 93 && 93 !in body
    ensures SetEnd(q) == |body|
    decreases |body|
  {
    if body != [] {
      assert q[0] == body[0];
      assert q[1..][..|body| - 1] == body[1..];
      SetEndIs(q[1..], body[1..]);
    }
  }

  lemma SetHas(c: CHAR16, body: seq<CHAR16>)
    ensures InSet(c, body) <==>
      || (exists j: nat | j < |body| :: Stands(c, body, j))
      || exists j: nat | j + 1 < |body| :: Between(c, body, j)
  {
    if Listed(c, body) {
      var j :| 0 <= j < |body| && body[j] == c && (c == DASH ==> j > 0 && body[j - 1] == DASH);
      assert Stands(c, body, j);
    }
    if InRange(c, body) {
      var j: nat :| j < |body| - 1 && RangeAt(c, body, j);
      assert Between(c, body, j);
    }
    if j: nat :| j < |body| && Stands(c, body, j) {
      assert body[j] == c;
    }
    if j: nat :| j + 1 < |body| && Between(c, body, j) {
      assert RangeAt(c, body, j);
    }
  }
}
