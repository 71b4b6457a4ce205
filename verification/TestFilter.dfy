/** The wildcard filters of gtest.cc, by which death test cases are told from others. */
module TestFilter {
  import opened Bytes

  /** UnitTestOptions::PatternMatchesString; a colon ends the pattern. */
  predicate PatternMatchesString(p: string, s: string)
    decreases |p| + |s|
  {
    if p == [] || p[0] == ':' then s == []
    else if p[0] == '?' then s != [] && PatternMatchesString(p[1..], s[1..])
    else if p[0] == '*' then (s != [] && PatternMatchesString(p, s[1..])) || PatternMatchesString(p[1..], s)
    else s != [] && p[0] == s[0] && PatternMatchesString(p[1..], s[1..])
  }

  /** The pattern without what follows its colon. */
  function FirstPattern(p: string): string {
    if p == [] || p[0] == ':' then [] else [p[0]] + FirstPattern(p[1..])
  }

  predicate Fits(c: char, piece: string) {
    if c == '?' then |piece| == 1 else c == '*' || piece == [c]
  }

  /** s is cut into one piece for each character of p, and each fits. */
  ghost predicate Cut(p: string, s: string, pieces: seq<string>) {
    |pieces| == |p| && Concat(pieces) == s && forall i :: 0 <= i < |p| ==> Fits(p[i], pieces[i])
  }

  lemma {:induction false} CutFound(p: string, s: string) returns (pieces: seq<string>)
    requires PatternMatchesString(p, s)
    ensures Cut(FirstPattern(p), s, pieces)
    decreases |p| + |s|
  {
    if p == [] || p[0] == ':' {
      pieces := [];
    } else if p[0] == '*' && s != [] && PatternMatchesString(p, s[1..]) {
      var rest := CutFound(p, s[1..]);
      pieces := [[s[0]] + rest[0]] + rest[1..];
      assert Concat(pieces) == [s[0]] + Concat(rest);
    } else if p[0] == '*' {
      var rest := CutFound(p[1..], s);
      pieces := [[]] + rest;
      assert Concat(pieces) == s;
    } else {
      var rest := CutFound(p[1..], s[1..]);
      pieces := [[s[0]]] + rest;
      assert Concat(pieces) == [s[0]] + s[1..];
    }
  }

  lemma {:induction false} CutMatches(p: string, s: string, pieces: seq<string>)
    requires Cut(FirstPattern(p), s, pieces)
    ensures PatternMatchesString(p, s)
    decreases |p| + |s|
  {
    if p != [] && p[0] != ':' {
      var q, first, rest := FirstPattern(p), pieces[0], pieces[1..];
      assert q[1..] == FirstPattern(p[1..]) && Fits(q[0], first);
      assert s == first + Concat(rest);
      if p[0] == '*' && first != [] {
        var shorter := [first[1..]] + rest;
        assert Concat(shorter) == first[1..] + Concat(rest) == s[1..];
        CutMatches(p, s[1..], shorter);
      } else {
        assert Concat(rest) == s[|first|..];
        CutMatches(p[1..], s[|first|..], rest);
        assert p[0] == '*' ==> s[|first|..] == s;
      }
    }
  }

  /** The recursion decides exactly whether the string can be cut to fit the wildcards. */
  lemma PatternMatchesExactly(p: string, s: string)
    ensures PatternMatchesString(p, s) <==> exists pieces :: Cut(FirstPattern(p), s, pieces)
  {
    hide PatternMatchesString;
    if PatternMatchesString(p, s) {
      var pieces := CutFound(p, s);
      assert Cut(FirstPattern(p), s, pieces);
    }
    forall pieces | Cut(FirstPattern(p), s, pieces)
      ensures PatternMatchesString(p, s)
    {
      CutMatches(p, s, pieces);
    }
  }

  /** A pattern starts at the front of the filter and after each colon. */
  predicate StartsAt(filter: string, i: nat) {
    i == 0 || (i <= |filter| && filter[i - 1] == ':')
  }

  /** A name passes when one of the colon-separated patterns matches it. */
  method MatchesFilter(name: string, filter: string) returns (r: bool)
    ensures r <==> exists i: nat :: i <= |filter| && StartsAt(filter, i) && PatternMatchesString(filter[i..], name)
  {
    hide PatternMatchesString;
    var cur := 0;
    while true
      invariant cur <= |filter| && StartsAt(filter, cur)
      invariant forall i: nat :: i < cur && StartsAt(filter, i) ==> !PatternMatchesString(filter[i..], name)
      decreases |filter| - cur
    {
      if PatternMatchesString(filter[cur..], name) {
        return true;
      }
      var next := cur;
      while next < |filter| && filter[next] != ':'
        invariant cur <= next <= |filter|
        invariant forall j :: cur <= j < next ==> filter[j] != ':'
      {
        next := next + 1;
      }
      if next == |filter| {
        return false;
      }
      cur := next + 1;
    }
  }

  // ---- Death test names ----

  const DEATH_TEST_CASE_FILTER: string := "*DeathTest:*DeathTest/*"

  /** word occurs in s at k. */
  predicate At(s: string, word: string, k: nat) {
    k + |word| <= |s| && s[k..k + |word|] == word
  }

  predicate Literal(word: string) {
    forall i :: 0 <= i < |word| ==> word[i] != '*' && word[i] != '?' && word[i] != ':'
  }

  /** A literal word is matched character by character. */
  lemma {:induction false} WordMatches(word: string, p: string, s: string)
    requires Literal(word)
    ensures PatternMatchesString(word + p, s) <==> At(s, word, 0) && PatternMatchesString(p, s[|word|..])
    decreases |word|
  {
    if word == [] {
      assert word + p == p && s[0..] == s;
    } else {
      assert (word + p)[1..] == word[1..] + p;
      if s != [] {
        WordMatches(word[1..], p, s[1..]);
        assert |word| <= |s| ==> s[1..][|word| - 1..] == s[|word|..];
        assert At(s, word, 0) <==> s[0] == word[0] && At(s[1..], word[1..], 0) by {
          if At(s, word, 0) {
            assert s[1..][..|word| - 1] == s[..|word|][1..];
          }
          if s[0] == word[0] && At(s[1..], word[1..], 0) {
            assert s[..|word|] == [s[0]] + s[1..][..|word| - 1] && word == [word[0]] + word[1..];
          }
        }
      }
    }
  }

  /** A star tries every suffix. */
  lemma {:induction false} StarMatches(p: string, s: string)
    ensures PatternMatchesString("*" + p, s) <==> exists k: nat :: k <= |s| && PatternMatchesString(p, s[k..])
    decreases |s|
  {
    assert ("*" + p)[1..] == p;
    assert s[0..] == s;
    if s != [] {
      StarMatches(p, s[1..]);
      forall k: nat | 0 < k <= |s|
        ensures s[k..] == s[1..][k - 1..]
      {
      }
      if k: nat :| k <= |s| - 1 && PatternMatchesString(p, s[1..][k..]) {
        assert s[k + 1..] == s[1..][k..];
      }
      if k: nat :| k <= |s| && PatternMatchesString(p, s[k..]) {
        if k > 0 {
          assert s[1..][k - 1..] == s[k..];
        }
      }
    }
  }

  lemma EndMatches(p: string, s: string)
    requires p == [] || p[0] == ':'
    ensures PatternMatchesString(p, s) <==> s == []
  {
  }

  predicate EndsIn(s: string, word: string) {
    |word| <= |s| && s[|s| - |word|..] == word
  }

  /** A star, a word and the end of the pattern: the name ends in the word. */
  lemma StarWordEnd(word: string, end: string, s: string)
    requires Literal(word) && (end == [] || end[0] == ':')
    ensures PatternMatchesString("*" + (word + end), s) <==> EndsIn(s, word)
  {
    hide PatternMatchesString;
    StarMatches(word + end, s);
    forall k: nat | k <= |s|
      ensures PatternMatchesString(word + end, s[k..]) <==> At(s, word, k) && k + |word| == |s|
    {
      WordMatches(word, end, s[k..]);
      if k + |word| <= |s| {
        EndMatches(end, s[k..][|word|..]);
        assert s[k..][..|word|] == s[k..k + |word|];
      }
    }
    if EndsIn(s, word) {
      assert s[|s| - |word|..|s|] == s[|s| - |word|..];
      assert At(s, word, |s| - |word|);
    }
  }

  /** A star, a word and another star: the word occurs in the name. */
  lemma StarWordStar(word: string, s: string)
    requires Literal(word)
    ensures PatternMatchesString("*" + (word + "*"), s) <==> exists k: nat :: At(s, word, k)
  {
    hide PatternMatchesString;
    StarMatches(word + "*", s);
    forall k: nat | k <= |s|
      ensures PatternMatchesString(word + "*", s[k..]) <==> At(s, word, k)
    {
      WordMatches(word, "*", s[k..]);
      if k + |word| <= |s| {
        StarAlone(s[k..][|word|..]);
        assert s[k..][..|word|] == s[k..k + |word|];
      }
    }
  }

  lemma StarAlone(s: string)
    ensures PatternMatchesString("*", s)
  {
    hide PatternMatchesString;
    StarMatches([], s);
    assert "*" + [] == "*";
    EndMatches([], s[|s|..]);
  }

  /** A death test case is one whose name ends in DeathTest or contains DeathTest/. */
  lemma DeathTestNames(name: string)
    ensures (exists i: nat :: i <= |DEATH_TEST_CASE_FILTER| && StartsAt(DEATH_TEST_CASE_FILTER, i) &&
                              PatternMatchesString(DEATH_TEST_CASE_FILTER[i..], name))
            <==> IsDeathTestCase(name)
  {
    hide PatternMatchesString;
    hide StartsAt;
    FilterParts(DEATH_TEST_CASE_FILTER);
    FilterStarts(DEATH_TEST_CASE_FILTER);
    StarWordEnd("DeathTest", ":*DeathTest/*", name);
    StarWordStar("DeathTest/", name);
  }

  lemma FilterParts(filter: string)
    requires filter == DEATH_TEST_CASE_FILTER
    ensures |filter| == 23 && filter[0..] == "*" + ("DeathTest" + ":*DeathTest/*")
    ensures filter[11..] == "*" + ("DeathTest/" + "*")
  {
  }

  lemma FilterStarts(filter: string)
    requires filter == DEATH_TEST_CASE_FILTER
    ensures forall i: nat :: i <= |filter| ==> (StartsAt(filter, i) <==> i == 0 || i == 11)
  {
    assert filter[10] == ':';
  }

  predicate IsDeathTestCase(name: string) {
    EndsIn(name, "DeathTest") || exists k :: 0 <= k < |name| && At(name, "DeathTest/", k)
  }

  method MatchesDeathTestFilter(name: string) returns (r: bool)
    ensures r == IsDeathTestCase(name)
  {
    DeathTestNames(name);
    hide PatternMatchesString;
    r := MatchesFilter(name, DEATH_TEST_CASE_FILTER);
  }
}
