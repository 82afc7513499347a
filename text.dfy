/**
 * The two string primitives the classifier relies on: `str.lower()` and the
 * substring test `phrase in text`.
 */
module Text {

  /** `str.lower()` on one character, for ASCII letters: an upper-case letter
      becomes its lower-case partner and every other character is kept. */
  function LowerChar(c: char): (r: char)
    ensures !('A' <= r <= 'Z')
    ensures r == c <==> !('A' <= c <= 'Z')
    ensures 'a' <= r <= 'z' <==> 'a' <= c <= 'z' || 'A' <= c <= 'Z'
    ensures 'A' <= c <= 'Z' ==> r as int - c as int == 'a' as int - 'A' as int
  {
    if 'A' <= c <= 'Z' then (c as int + 32) as char else c
  }

  /** `str.lower()`: the string with every character lowered. */
  function Lower(s: string): (r: string)
    ensures |r| == |s|
  {
    seq(|s|, k requires 0 <= k < |s| => LowerChar(s[k]))
  }

  /** After lowering no ASCII upper-case letter remains, and only ASCII
      upper-case letters were changed. */
  lemma LowerLeavesNoUpper(s: string)
    ensures forall k :: 0 <= k < |s| ==> !('A' <= Lower(s)[k] <= 'Z')
    ensures forall k :: 0 <= k < |s| && Lower(s)[k] != s[k] ==> 'A' <= s[k] <= 'Z'
  {
  }

  /** `pat` occurs in `s` starting at index `i`. */
  predicate OccursAt(s: string, pat: string, i: nat) {
    i + |pat| <= |s| && s[i..i + |pat|] == pat
  }

  /** Declarative substring relation: some index holds an occurrence of `pat`. */
  ghost predicate Occurs(s: string, pat: string) {
    exists i: nat :: OccursAt(s, pat, i)
  }

  /** Left-to-right search for `pat` in `s` from index `i` on. */
  function ContainsFrom(s: string, pat: string, i: nat): (b: bool)
    decreases |s| - i
    ensures b <==> exists k: nat :: i <= k && OccursAt(s, pat, k)
  {
    if i + |pat| > |s| then false
    else if s[i..i + |pat|] == pat then assert OccursAt(s, pat, i); true
    else ContainsFrom(s, pat, i + 1)
  }

  /** The substring test `pat in s`. */
  function Contains(s: string, pat: string): (b: bool)
    ensures b <==> Occurs(s, pat)
  {
    ContainsFrom(s, pat, 0)
  }

  /** `c` and `d` are the same character, or one ASCII letter in its two cases. */
  predicate SameUpToCase(c: char, d: char) {
    c == d
    || ('A' <= c <= 'Z' && d as int == c as int + ('a' as int - 'A' as int))
    || ('A' <= d <= 'Z' && c as int == d as int + ('a' as int - 'A' as int))
  }

  /** Two characters lower to the same character exactly when they agree up
      to ASCII case. */
  lemma LowerCharEqualIff(c: char, d: char)
    ensures LowerChar(c) == LowerChar(d) <==> SameUpToCase(c, d)
  {
  }

  /** Two strings lower to the same string exactly when they have the same
      length and agree character by character up to ASCII case. */
  lemma LowerEqualIff(s: string, t: string)
    ensures Lower(s) == Lower(t) <==>
      |s| == |t| && forall k :: 0 <= k < |s| ==> SameUpToCase(s[k], t[k])
  {
    if |s| == |t| {
      forall k | 0 <= k < |s|
        ensures Lower(s)[k] == Lower(t)[k] <==> SameUpToCase(s[k], t[k])
      {
        LowerCharEqualIff(s[k], t[k]);
      }
      if forall k :: 0 <= k < |s| ==> SameUpToCase(s[k], t[k]) {
        assert forall k :: 0 <= k < |s| ==> Lower(s)[k] == Lower(t)[k];
      }
    }
  }

  /** Lowering a lowered string changes nothing. */
  lemma LowerIdempotent(s: string)
    ensures Lower(Lower(s)) == Lower(s)
  {
    assert forall k :: 0 <= k < |s| ==> Lower(Lower(s))[k] == Lower(s)[k];
  }

  /** Lowering distributes over concatenation. */
  lemma LowerConcat(s: string, t: string)
    ensures Lower(s + t) == Lower(s) + Lower(t)
  {
    assert forall k :: 0 <= k < |s + t| ==> Lower(s + t)[k] == (Lower(s) + Lower(t))[k];
  }

  /** An occurrence in a prefix is an occurrence in the whole string. */
  lemma {:induction false} OccursInPrefix(s: string, t: string, pat: string)
    requires Occurs(s, pat)
    ensures Occurs(s + t, pat)
  {
    var i: nat :| OccursAt(s, pat, i);
    assert (s + t)[i..i + |pat|] == s[i..i + |pat|];
    assert OccursAt(s + t, pat, i);
  }

  /** A string lacking one of the characters of `pat` cannot contain `pat`. */
  lemma MissingCharNoOccurrence(s: string, pat: string, c: char)
    requires c in pat && c !in s
    ensures !Occurs(s, pat)
  {
    var n :| 0 <= n < |pat| && pat[n] == c;
    forall i: nat
      ensures !OccursAt(s, pat, i)
    {
      if i + |pat| <= |s| {
        assert s[i..i + |pat|][n] == s[i + n];
      }
    }
  }

  /** A lower-case phrase standing between `a` and `c` is mentioned in any case
      of the whole text. */
  lemma PhraseInMiddle(a: string, phrase: string, c: string)
    requires Lower(phrase) == phrase
    ensures Occurs(Lower(a + phrase + c), phrase)
  {
    LowerConcat(a + phrase, c);
    LowerConcat(a, phrase);
    var lowered := Lower(a) + phrase + Lower(c);
    assert lowered[|a|..|a| + |phrase|] == phrase;
    assert OccursAt(lowered, phrase, |a|);
  }
}
