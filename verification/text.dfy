/** Character-level vocabulary shared by the tokenizer: the word character
    class `[a-z']` and ASCII lower-casing. */
module Text {

  /** The character class `[a-z']` of the word pattern. */
  predicate IsWordChar(c: char) {
    ('a' <= c <= 'z') || c == '\''
  }

  /** True iff every character of `s` belongs to the word class. */
  predicate AllWordChars(s: string) {
    forall k :: 0 <= k < |s| ==> IsWordChar(s[k])
  }

  /** Lower-casing of one character, restricted to ASCII: `A`..`Z` become
      `a`..`z`, every other character is left as it is. */
  function LowerChar(c: char): (r: char)
    ensures 'A' <= c <= 'Z' ==> 'a' <= r <= 'z' && r as int == c as int - 'A' as int + 'a' as int
    ensures !('A' <= c <= 'Z') ==> r == c
  {
    if 'A' <= c <= 'Z' then (c as int - 'A' as int + 'a' as int) as char else c
  }

  /** Lower-casing of a whole string, one character at a time. */
  function Lower(s: string): (r: string)
    ensures |r| == |s|
  {
    if s == [] then [] else [LowerChar(s[0])] + Lower(s[1..])
  }

  /** Lower-casing works character by character. */
  lemma {:induction false} LowerAt(s: string, k: int)
    requires 0 <= k < |s|
    ensures Lower(s)[k] == LowerChar(s[k])
    decreases |s|
  {
    if k > 0 {
      LowerAt(s[1..], k - 1);
    }
  }

  /** Every character of `Lower(s)` is the lower-cased character of `s`. */
  lemma LowerPointwise(s: string)
    ensures forall k :: 0 <= k < |s| ==> Lower(s)[k] == LowerChar(s[k])
  {
    forall k | 0 <= k < |s| {
      LowerAt(s, k);
    }
  }

  /** Lower-casing never produces an upper-case ASCII letter, so applying it
      twice is the same as applying it once. */
  lemma LowerIdempotent(s: string)
    ensures Lower(Lower(s)) == Lower(s)
  {
  }

  /** Lower-casing works character by character, so it distributes over
      concatenation. */
  lemma LowerConcat(x: string, y: string)
    ensures Lower(x + y) == Lower(x) + Lower(y)
  {
    LowerPointwise(x + y);
    LowerPointwise(x);
    LowerPointwise(y);
  }

  /** Word characters are already lower case. */
  lemma LowerOfWordChars(s: string)
    requires AllWordChars(s)
    ensures Lower(s) == s
  {
    LowerPointwise(s);
  }
}
