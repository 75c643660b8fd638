/** The tokenizer: lower-case the text, find every match of the word pattern
    `[a-z']{2,}`, strip apostrophes from both ends of each match, keep what is
    still at least two characters long, and remove the stop words. */
module Tokenizer {
  import opened Text

  /** The fixed stop-word set. */
  const StopWords: set<string> := {"able", "about", "if", "in", "into", "is", "it", "its", "just"}

  /** The `{2,}` of the word pattern, and the length a stripped word must keep. */
  const MinWordLength: nat := 2

  /** What every word produced by the tokenizer looks like. */
  predicate IsTerm(w: string) {
    && |w| >= MinWordLength
    && AllWordChars(w)
    && w[0] != '\''
    && w[|w| - 1] != '\''
    && w !in StopWords
  }

  // ---------------------------------------------------------------------------
  // The regular-expression scanner
  // ---------------------------------------------------------------------------

  /** The end of the longest run of word characters that starts at `i`. */
  function RunEnd(t: string, i: nat): (j: nat)
    requires i <= |t|
    ensures i <= j <= |t|
    ensures forall k :: i <= k < j ==> IsWordChar(t[k])
    ensures j == |t| || !IsWordChar(t[j])
    decreases |t| - i
  {
    if i < |t| && IsWordChar(t[i]) then RunEnd(t, i + 1) else i
  }

  /** The matches `finditer` reports when it starts searching at `i`: at each
      position the greedy pattern `[a-z']{2,}` takes the whole run of word
      characters there; a run of two or more is a match and the search resumes
      after it, otherwise the search moves on by one character. */
  function ScanFrom(t: string, i: nat): (ms: seq<string>)
    requires i <= |t|
    decreases |t| - i
  {
    if i == |t| then []
    else
      var j := RunEnd(t, i);
      if j - i >= MinWordLength then [t[i..j]] + ScanFrom(t, j) else ScanFrom(t, i + 1)
  }

  /** Every reported match is at least two word characters long. */
  lemma {:induction false} ScanFromWords(t: string, i: nat)
    requires i <= |t|
    ensures forall m :: m in ScanFrom(t, i) ==> |m| >= MinWordLength && AllWordChars(m)
    decreases |t| - i
  {
    if i < |t| {
      var j := RunEnd(t, i);
      if j - i >= MinWordLength {
        ScanFromWords(t, j);
      } else {
        ScanFromWords(t, i + 1);
      }
    }
  }

  /** Reference definition of a match: `t[a..b]` is a maximal run of word
      characters, at least two long. */
  ghost predicate IsWordMatch(t: string, a: int, b: int) {
    && 0 <= a
    && a + MinWordLength <= b <= |t|
    && (forall k :: a <= k < b ==> IsWordChar(t[k]))
    && (a == 0 || !IsWordChar(t[a - 1]))
    && (b == |t| || !IsWordChar(t[b]))
  }

  /** A position where no run of word characters is cut in two. */
  ghost predicate AtBoundary(t: string, i: nat)
    requires i <= |t|
  {
    i == 0 || i == |t| || !IsWordChar(t[i - 1]) || !IsWordChar(t[i])
  }

  /** A match ends where the run of word characters from its start ends. */
  lemma MatchEndsAtRunEnd(t: string, a: int, b: int)
    requires IsWordMatch(t, a, b)
    ensures b == RunEnd(t, a)
  {
  }

  /** Where the run at `i` is long enough to match, the matches from `i` on are
      that run and the matches from its end on. */
  lemma MatchesAfterRun(t: string, i: nat, a: int, b: int)
    requires i < |t| && AtBoundary(t, i)
    requires RunEnd(t, i) - i >= MinWordLength
    ensures (i <= a && IsWordMatch(t, a, b))
        <==> (a == i && b == RunEnd(t, i)) || (RunEnd(t, i) <= a && IsWordMatch(t, a, b))
  {
    var j := RunEnd(t, i);
    if i <= a && IsWordMatch(t, a, b) {
      if a == i {
        MatchEndsAtRunEnd(t, a, b);
      }
    }
  }

  /** Where the run at `i` is too short to match, no match starts at `i`. */
  lemma NoMatchAtShortRun(t: string, i: nat, a: int, b: int)
    requires i < |t|
    requires RunEnd(t, i) - i < MinWordLength
    ensures (i <= a && IsWordMatch(t, a, b)) <==> (i + 1 <= a && IsWordMatch(t, a, b))
  {
    if a == i && IsWordMatch(t, a, b) {
      MatchEndsAtRunEnd(t, a, b);
    }
  }

  /** The scanner is sound and complete with respect to the reference
      definition: from a boundary `i`, it reports exactly the matches that
      start at or after `i`. */
  lemma {:induction false} ScanFromExact(t: string, i: nat, m: string)
    requires i <= |t|
    requires AtBoundary(t, i)
    ensures m in ScanFrom(t, i) <==> exists a, b :: i <= a && IsWordMatch(t, a, b) && t[a..b] == m
    decreases |t| - i
  {
    if i < |t| {
      var j := RunEnd(t, i);
      if j - i >= MinWordLength {
        ScanFromExact(t, j, m);
        assert ScanFrom(t, i) == [t[i..j]] + ScanFrom(t, j);
        forall a, b
          ensures (i <= a && IsWordMatch(t, a, b))
              <==> (a == i && b == j) || (j <= a && IsWordMatch(t, a, b))
        {
          MatchesAfterRun(t, i, a, b);
        }
        if m == t[i..j] {
          assert IsWordMatch(t, i, j);
        }
      } else {
        ScanFromExact(t, i + 1, m);
        forall a, b
          ensures (i <= a && IsWordMatch(t, a, b)) <==> (i + 1 <= a && IsWordMatch(t, a, b))
        {
          NoMatchAtShortRun(t, i, a, b);
        }
      }
    }
  }

  // ---------------------------------------------------------------------------
  // Stripping apostrophes
  // ---------------------------------------------------------------------------

  /** Removes every leading apostrophe. */
  function StripLeading(w: string): (r: string)
    ensures |r| <= |w| && r == w[|w| - |r|..]
    ensures forall k :: 0 <= k < |w| - |r| ==> w[k] == '\''
    ensures r == [] || r[0] != '\''
  {
    if w != [] && w[0] == '\'' then StripLeading(w[1..]) else w
  }

  /** Removes every trailing apostrophe. */
  function StripTrailing(w: string): (r: string)
    ensures |r| <= |w| && r == w[..|r|]
    ensures forall k :: |r| <= k < |w| ==> w[k] == '\''
    ensures r == [] || r[|r| - 1] != '\''
  {
    if w != [] && w[|w| - 1] == '\'' then StripTrailing(w[..|w| - 1]) else w
  }

  /** `r` is `w` with an all-apostrophe prefix of length `a` and an
      all-apostrophe suffix cut off, and `r` itself has no apostrophe at
      either end. */
  ghost predicate IsQuoteTrim(w: string, a: int, r: string) {
    && 0 <= a
    && a + |r| <= |w|
    && w[a..a + |r|] == r
    && (forall k :: 0 <= k < a ==> w[k] == '\'')
    && (forall k :: a + |r| <= k < |w| ==> w[k] == '\'')
    && (r == [] || (r[0] != '\'' && r[|r| - 1] != '\''))
  }

  /** `str.strip("'")`: apostrophes removed from both ends. */
  function StripQuotes(w: string): (r: string)
    ensures exists a :: IsQuoteTrim(w, a, r)
  {
    var l := StripLeading(w);
    var r := StripTrailing(l);
    assert r != [] ==> r[0] == l[0];
    assert IsQuoteTrim(w, |w| - |l|, r);
    r
  }

  /** The trimming is determined by `w`: at most one string is a quote trim
      of `w`, so `StripQuotes` is the only function meeting its contract. */
  lemma QuoteTrimUnique(w: string, a: int, r: string, a': int, r': string)
    requires IsQuoteTrim(w, a, r) && IsQuoteTrim(w, a', r')
    ensures r == r'
  {
    if r != [] && r' != [] {
      assert w[a] == r[0] && w[a'] == r'[0];
      assert w[a + |r| - 1] == r[|r| - 1] && w[a' + |r'| - 1] == r'[|r'| - 1];
    }
  }

  /** Stripping keeps only characters of the word itself. */
  lemma StripKeepsWordChars(w: string)
    requires AllWordChars(w)
    ensures AllWordChars(StripQuotes(w))
  {
    var r := StripQuotes(w);
    var a :| IsQuoteTrim(w, a, r);
    forall k | 0 <= k < |r|
      ensures IsWordChar(r[k])
    {
      assert r[k] == w[a + k];
    }
  }

  // ---------------------------------------------------------------------------
  // tokenize
  // ---------------------------------------------------------------------------

  /** The stripped matches that are still long enough. */
  function Candidates(ms: seq<string>): set<string> {
    set m | m in ms && |StripQuotes(m)| >= MinWordLength :: StripQuotes(m)
  }

  /** The stripped matches that are long enough and are not stop words. */
  function Terms(ms: seq<string>): (words: set<string>)
    requires forall m :: m in ms ==> AllWordChars(m)
    ensures forall w :: w in words ==> IsTerm(w)
  {
    var words := Candidates(ms) - StopWords;
    assert forall w :: w in words ==> IsTerm(w) by {
      forall w | w in words
        ensures IsTerm(w)
      {
        CandidatesMember(ms, w);
        var m :| m in ms && |StripQuotes(m)| >= MinWordLength && StripQuotes(m) == w;
        StripKeepsWordChars(m);
        var a :| IsQuoteTrim(m, a, w);
      }
    }
    words
  }

  /** `tokenize(content)`: the set of index terms of a text. */
  function Tokenize(content: string): (words: set<string>)
    ensures forall w :: w in words ==> IsTerm(w)
  {
    var t := Lower(content);
    ScanFromWords(t, 0);
    Terms(ScanFrom(t, 0))
  }

  // ---------------------------------------------------------------------------
  // Properties of tokenize
  // ---------------------------------------------------------------------------

  /** `w` is some match of `t` with its edge apostrophes stripped. */
  ghost predicate IsStrippedMatch(t: string, w: string) {
    exists a, b :: IsWordMatch(t, a, b) && StripQuotes(t[a..b]) == w
  }

  /** Membership in `Candidates`, spelled out. */
  lemma CandidatesMember(ms: seq<string>, w: string)
    ensures w in Candidates(ms) <==>
      exists m :: m in ms && |StripQuotes(m)| >= MinWordLength && StripQuotes(m) == w
  {
  }

  /** `tokenize` against the reference definition of a match: a word is
      produced exactly when it is a match in the lower-cased text with its edge
      apostrophes stripped, still at least two long, and not a stop word. */
  lemma TokenizeExact(content: string, w: string)
    ensures w in Tokenize(content) <==>
      |w| >= MinWordLength && w !in StopWords && IsStrippedMatch(Lower(content), w)
  {
    var t := Lower(content);
    var ms := ScanFrom(t, 0);
    CandidatesMember(ms, w);
    if w in Candidates(ms) {
      var m :| m in ms && |StripQuotes(m)| >= MinWordLength && StripQuotes(m) == w;
      ScanFromExact(t, 0, m);
    }
    if IsStrippedMatch(t, w) {
      var a, b :| IsWordMatch(t, a, b) && StripQuotes(t[a..b]) == w;
      ScanFromExact(t, 0, t[a..b]);
    }
  }

  /** A text that is one run of word characters, at least two long, is a
      single match. */
  lemma ScanOfOneRun(t: string)
    requires |t| >= MinWordLength && AllWordChars(t)
    ensures ScanFrom(t, 0) == [t]
  {
    assert RunEnd(t, 0) == |t|;
    assert t[0..|t|] == t;
    assert ScanFrom(t, |t|) == [];
  }

  /** A word with no apostrophe at either end is its own stripped form. */
  lemma StripWithoutEdgeQuotes(w: string)
    requires w == [] || (w[0] != '\'' && w[|w| - 1] != '\'')
    ensures StripQuotes(w) == w
  {
    var a :| IsQuoteTrim(w, a, StripQuotes(w));
    assert IsQuoteTrim(w, 0, w);
    QuoteTrimUnique(w, a, StripQuotes(w), 0, w);
  }

  /** A text whose lower-cased form is one run of word characters yields at
      most one word: that run, stripped. */
  lemma TokenizeOneRun(content: string)
    requires |content| >= MinWordLength && AllWordChars(Lower(content))
    ensures var w := StripQuotes(Lower(content));
      Tokenize(content) == if |w| >= MinWordLength && w !in StopWords then {w} else {}
  {
    var t := Lower(content);
    ScanOfOneRun(t);
    forall v | v in Candidates([t]) ensures v == StripQuotes(t) {
      CandidatesMember([t], v);
    }
    CandidatesMember([t], StripQuotes(t));
  }

  /** Round trip: a term, tokenized, gives back exactly itself. */
  lemma TermTokenizesToItself(w: string)
    requires IsTerm(w)
    ensures Tokenize(w) == {w}
  {
    LowerOfWordChars(w);
    StripWithoutEdgeQuotes(w);
    TokenizeOneRun(w);
  }

  /** `In`, lower-cased, is the stop word `in`. */
  lemma LowerIn(text: string)
    requires text == "In"
    ensures Lower(text) == "in" && AllWordChars(Lower(text))
  {
    LowerPointwise(text);
  }

  /** A term never comes out of a text whose lower-cased form is a stop word. */
  lemma ExampleIn(text: string)
    requires text == "In"
    ensures Tokenize(text) == {}
  {
    LowerIn(text);
    assert "in" in StopWords;
    StripWithoutEdgeQuotes("in");
    TokenizeOneRun(text);
  }

  /** The stripped form of `'it'`. */
  lemma StripQuotedIt()
    ensures StripQuotes("'it'") == "it"
  {
    var t := "'it'";
    assert IsQuoteTrim(t, 1, "it");
    var a :| IsQuoteTrim(t, a, StripQuotes(t));
    QuoteTrimUnique(t, a, StripQuotes(t), 1, "it");
  }

  /** Apostrophes around a stop word are stripped before the stop-word check. */
  lemma ExampleQuotedIt()
    ensures Tokenize("'it'") == {}
  {
    var t := "'it'";
    assert Lower(t) == t;
    assert AllWordChars(t);
    StripQuotedIt();
    assert "it" in StopWords;
    TokenizeOneRun(t);
  }

  /** An inner apostrophe belongs to the word. */
  lemma ExampleDont()
    ensures Tokenize("don't") == {"don't"}
  {
    assert IsTerm("don't");
    TermTokenizesToItself("don't");
  }

  /** The empty text has no words. */
  lemma TokenizeEmpty()
    ensures Tokenize("") == {}
  {
    assert ScanFrom(Lower(""), 0) == [];
  }

  /** `tokenize` ignores case: a text and its lower-cased form give the same
      words. */
  lemma TokenizeIgnoresCase(content: string)
    ensures Tokenize(Lower(content)) == Tokenize(content)
  {
    LowerIdempotent(content);
  }

  /** Characters of `x + [c] + y`, by position. */
  lemma SplitIndex(x: string, c: char, y: string, k: int)
    requires 0 <= k < |x| + 1 + |y|
    ensures k < |x| ==> (x + [c] + y)[k] == x[k]
    ensures k == |x| ==> (x + [c] + y)[k] == c
    ensures k > |x| ==> (x + [c] + y)[k] == y[k - |x| - 1]
  {
  }

  /** The left part of `x + [c] + y` is `x`. */
  lemma LeftPart(x: string, c: char, y: string)
    ensures forall k :: 0 <= k < |x| ==> (x + [c] + y)[k] == x[k]
    ensures (x + [c] + y)[|x|] == c
  {
    forall k | 0 <= k <= |x| {
      SplitIndex(x, c, y, k);
    }
  }

  /** The right part of `x + [c] + y` is `y`, shifted by `|x| + 1`. */
  lemma RightPart(x: string, c: char, y: string)
    ensures forall k :: 0 <= k < |y| ==> (x + [c] + y)[k + |x| + 1] == y[k]
  {
    forall k | 0 <= k < |y|
      ensures (x + [c] + y)[k + |x| + 1] == y[k]
    {
      SplitIndex(x, c, y, k + |x| + 1);
    }
  }

  /** Every match of `x` is a match of `x + [c] + y` when `c` separates. */
  lemma LeftMatchLifts(x: string, c: char, y: string, a: int, b: int)
    requires !IsWordChar(c)
    requires IsWordMatch(x, a, b)
    ensures IsWordMatch(x + [c] + y, a, b) && (x + [c] + y)[a..b] == x[a..b]
  {
    var t := x + [c] + y;
    LeftPart(x, c, y);
    assert t[a..b] == x[a..b];
  }

  /** Every match of `y` is a match of `x + [c] + y` when `c` separates. */
  lemma RightMatchLifts(x: string, c: char, y: string, a: int, b: int)
    requires !IsWordChar(c)
    requires IsWordMatch(y, a, b)
    ensures var d := |x| + 1;
      IsWordMatch(x + [c] + y, a + d, b + d) && (x + [c] + y)[a + d..b + d] == y[a..b]
  {
    var t, d := x + [c] + y, |x| + 1;
    assert t[d..] == y;
    assert t[a + d..b + d] == t[d..][a..b];
    assert t[d - 1] == c;
    assert forall k :: a + d <= k < b + d ==> IsWordChar(t[k]) by {
      forall k | a + d <= k < b + d ensures IsWordChar(t[k]) {
        assert t[k] == t[d..][k - d];
      }
    }
    assert a + d == d || !IsWordChar(t[a + d - 1]) by {
      if a > 0 { assert t[a + d - 1] == t[d..][a - 1]; }
    }
    assert b + d == |t| || !IsWordChar(t[b + d]) by {
      if b < |y| { assert t[b + d] == t[d..][b]; }
    }
  }

  /** A match of `x + [c] + y` that ends before the separator is a match of
      `x`. */
  lemma LeftMatchLowers(x: string, c: char, y: string, a: int, b: int)
    requires IsWordMatch(x + [c] + y, a, b) && b <= |x|
    ensures IsWordMatch(x, a, b) && (x + [c] + y)[a..b] == x[a..b]
  {
    var t := x + [c] + y;
    LeftPart(x, c, y);
    assert t[a..b] == x[a..b];
  }

  /** A match of `x + [c] + y` that starts after the separator is a match of
      `y`. */
  lemma RightMatchLowers(x: string, c: char, y: string, a: int, b: int)
    requires IsWordMatch(x + [c] + y, a, b) && |x| + 1 <= a
    ensures var d := |x| + 1;
      IsWordMatch(y, a - d, b - d) && (x + [c] + y)[a..b] == y[a - d..b - d]
  {
    var t, d := x + [c] + y, |x| + 1;
    assert t[d..] == y;
    assert t[a..b] == t[d..][a - d..b - d];
    assert forall k :: a - d <= k < b - d ==> IsWordChar(y[k]) by {
      forall k | a - d <= k < b - d ensures IsWordChar(y[k]) {
        assert t[k + d] == t[d..][k];
      }
    }
    assert a - d == 0 || !IsWordChar(y[a - d - 1]) by {
      if a - d > 0 { assert t[a - 1] == t[d..][a - d - 1]; }
    }
    assert b - d == |y| || !IsWordChar(y[b - d]) by {
      if b - d < |y| { assert t[b] == t[d..][b - d]; }
    }
  }

  /** A match of `x + [c] + y` lies wholly on one side of the separator `c`. */
  lemma MatchLiesOnOneSide(x: string, c: char, y: string, a: int, b: int)
    requires !IsWordChar(c)
    requires IsWordMatch(x + [c] + y, a, b)
    ensures var d := |x| + 1;
      || (IsWordMatch(x, a, b) && (x + [c] + y)[a..b] == x[a..b])
      || (d <= a && IsWordMatch(y, a - d, b - d) && (x + [c] + y)[a..b] == y[a - d..b - d])
  {
    LeftPart(x, c, y);
    if b <= |x| {
      LeftMatchLowers(x, c, y, a, b);
    } else if |x| < a {
      RightMatchLowers(x, c, y, a, b);
    }
  }

  /** A character outside the word class (after lower-casing) separates: the
      words of `x + [c] + y` are the words of `x` together with those of `y`. */
  lemma TokenizeAtSeparator(x: string, c: char, y: string)
    requires !IsWordChar(LowerChar(c))
    ensures Tokenize(x + [c] + y) == Tokenize(x) + Tokenize(y)
  {
    var lx, lc, ly := Lower(x), LowerChar(c), Lower(y);
    LowerConcat(x + [c], y);
    LowerConcat(x, [c]);
    assert Lower(x + [c] + y) == lx + [lc] + ly;
    forall w
      ensures w in Tokenize(x + [c] + y) <==> w in Tokenize(x) || w in Tokenize(y)
    {
      TokenizeExact(x + [c] + y, w);
      TokenizeExact(x, w);
      TokenizeExact(y, w);
      StrippedMatchSplits(lx, lc, ly, w);
    }
  }

  /** The stripped matches of `x + [c] + y` are those of `x` and of `y`, when
      `c` is not a word character. */
  lemma StrippedMatchSplits(x: string, c: char, y: string, w: string)
    requires !IsWordChar(c)
    ensures IsStrippedMatch(x + [c] + y, w) <==> IsStrippedMatch(x, w) || IsStrippedMatch(y, w)
  {
    var t := x + [c] + y;
    if IsStrippedMatch(t, w) {
      var a, b :| IsWordMatch(t, a, b) && StripQuotes(t[a..b]) == w;
      MatchLiesOnOneSide(x, c, y, a, b);
    }
    if IsStrippedMatch(x, w) {
      var a, b :| IsWordMatch(x, a, b) && StripQuotes(x[a..b]) == w;
      LeftMatchLifts(x, c, y, a, b);
    }
    if IsStrippedMatch(y, w) {
      var a, b :| IsWordMatch(y, a, b) && StripQuotes(y[a..b]) == w;
      RightMatchLifts(x, c, y, a, b);
    }
  }

  /** Words are collected into a set: repeating a text adds no word. */
  lemma TokenizeRepeated(x: string)
    ensures Tokenize(x + " " + x) == Tokenize(x)
  {
    TokenizeAtSeparator(x, ' ', x);
  }

  /** A single word whose lower-cased form is a term yields that term. */
  lemma TokenizeWord(w: string, term: string)
    requires Lower(w) == term && IsTerm(term)
    ensures Tokenize(w) == {term}
  {
    TokenizeIgnoresCase(w);
    TermTokenizesToItself(term);
  }

  /** The first word of a text, when its lower-cased form is a term, adds
      exactly that term to the words of the rest. */
  lemma PeelWord(w: string, term: string, rest: string)
    requires Lower(w) == term && IsTerm(term)
    ensures Tokenize(w + " " + rest) == {term} + Tokenize(rest)
  {
    TokenizeAtSeparator(w, ' ', rest);
    TokenizeWord(w, term);
  }

  /** `These`, lower-cased, is the term `these`. */
  lemma TheseIsTerm()
    ensures Lower("These") == "these" && IsTerm("these")
  {
    LowerPointwise("These");
  }

  /** `are`, lower-cased, is the term `are`. */
  lemma AreIsTerm()
    ensures Lower("are") == "are" && IsTerm("are")
  {
    LowerPointwise("are");
  }

  /** `from`, lower-cased, is the term `from`. */
  lemma FromIsTerm()
    ensures Lower("from") == "from" && IsTerm("from")
  {
    LowerPointwise("from");
  }

  /** `Redis`, lower-cased, is the term `redis`. */
  lemma RedisIsTerm()
    ensures Lower("Redis") == "redis" && IsTerm("redis")
  {
    LowerPointwise("Redis");
  }

  /** `Action`, lower-cased, is the term `action`. */
  lemma ActionIsTerm()
    ensures Lower("Action") == "action" && IsTerm("action")
  {
    LowerPointwise("Action");
  }

  /** Words that a longer stop-word list would drop are kept by this one. */
  lemma ExampleKeptWords(text: string)
    requires text == "These are from"
    ensures Tokenize(text) == {"these", "are", "from"}
  {
    var s1 := "are" + " " + "from";
    assert text == "These" + " " + s1;
    assert {"these"} + ({"are"} + {"from"}) == {"these", "are", "from"};
    TheseIsTerm();
    AreIsTerm();
    FromIsTerm();
    TokenizeWord("from", "from");
    PeelWord("are", "are", "from");
    PeelWord("These", "these", s1);
  }

  /** Words are case-folded, and `In` is dropped as a stop word. */
  lemma ExampleCaseAndStopWord(text: string)
    requires text == "Redis In Action"
    ensures Tokenize(text) == {"redis", "action"}
  {
    var s1 := "In" + " " + "Action";
    assert text == "Redis" + " " + s1;
    assert {"redis"} + ({} + {"action"}) == {"redis", "action"};
    RedisIsTerm();
    ActionIsTerm();
    TokenizeWord("Action", "action");
    ExampleIn("In");
    TokenizeAtSeparator("In", ' ', "Action");
    PeelWord("Redis", "redis", s1);
  }
}
