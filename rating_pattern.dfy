/**
 * The regular expression the classifier searches with, modelled by hand. The
 * pattern is a rating group nested inside a second group, a lazy `.*?`, then a
 * second rating group nested the same way; a rating group offers the
 * alternatives `B-`, `B` with an optional `+`, `BB-`, `BB` with an optional
 * `+`, `BBB-` and `BBB` with an optional `+`, in that order. It is searched
 * with `re.IGNORECASE`. The engine tries start positions left to right; at each
 * one it tries the alternatives of the first rating in order, backtracking
 * into the next alternative when the rest of the pattern fails; `.*?` is lazy
 * and does not cross a line break.
 */
module RatingPattern {
  import opened Text
  import opened Wrappers

  /** A `b` or `B`: the only characters that match the pattern letter `B` under
      `re.IGNORECASE`. */
  predicate IsB(c: char) {
    c == 'b' || c == 'B'
  }

  /** The alternatives of `ratings_pattern` in the order the engine tries them;
      the greedy `\+?` tries the form with `+` before the bare one. */
  const Alternatives: seq<string> := ["B-", "B+", "B", "BB-", "BB+", "BB", "BBB-", "BBB+", "BBB"]

  /** The pattern literal `lit` matches `text` at `p` under `re.IGNORECASE`. */
  predicate LiteralAt(text: string, p: nat, lit: string) {
    p + |lit| <= |text| && Lower(text[p..p + |lit|]) == Lower(lit)
  }

  /** Some alternative from index `k` on matches at `q`: the second rating group,
      whose captured text the caller never reads. */
  function AnyAlternativeFrom(text: string, q: nat, k: nat): (found: bool)
    requires k <= |Alternatives|
    decreases |Alternatives| - k
    ensures found <==> exists m :: k <= m < |Alternatives| && LiteralAt(text, q, Alternatives[m])
  {
    if k == |Alternatives| then false
    else LiteralAt(text, q, Alternatives[k]) || AnyAlternativeFrom(text, q, k + 1)
  }

  /** No line break in `text[a..b]`. */
  predicate NoNewlineIn(text: string, a: nat, b: nat)
    requires a <= b <= |text|
  {
    forall k :: a <= k < b ==> text[k] != '\n'
  }

  /** `.*?` followed by the second rating group, tried from `p`: the lazy star
      first consumes nothing, then one more character at a time, never a line
      break. It succeeds exactly when a `b`/`B` follows on the same line. */
  function LazyThenGroup(text: string, p: nat): (found: bool)
    requires p <= |text|
    decreases |text| - p
    ensures found <==> exists j :: p <= j < |text| && IsB(text[j]) && NoNewlineIn(text, p, j)
  {
    AnyAlternativeIff(text, p);
    if AnyAlternativeFrom(text, p, 0) then
      assert NoNewlineIn(text, p, p);
      true
    else if p == |text| || text[p] == '\n' then
      false
    else
      LazyThenGroup(text, p + 1)
  }

  /** The first rating group tried at `i` with the alternatives from index `k`
      on: an alternative is kept only when the rest of the pattern then matches,
      otherwise the engine backtracks into the next one. The result is the index
      of the alternative the engine settles on. */
  function FirstGroupFrom(text: string, i: nat, k: nat): (r: Option<nat>)
    requires k <= |Alternatives|
    decreases |Alternatives| - k
    ensures r.Some? ==> k <= r.value < |Alternatives| && LiteralAt(text, i, Alternatives[r.value])
  {
    if k == |Alternatives| then None
    else if LiteralAt(text, i, Alternatives[k]) && LazyThenGroup(text, i + |Alternatives[k]|) then Some(k)
    else FirstGroupFrom(text, i, k + 1)
  }

  /** A half-open index range of the searched text. */
  datatype Span = Span(start: nat, end: nat)

  /** The spans of the groups the caller reads: group 1 is the outer parentheses
      around the first rating and group 2 the parentheses of `ratings_pattern`
      inside it, so both enclose the same text. */
  datatype Match = Match(group1: Span, group2: Span)

  /** The match attempt anchored at start position `i`. */
  function MatchAt(text: string, i: nat): (r: Option<Match>)
    ensures r.Some? ==> r.value.group1.start == i && i < r.value.group1.end <= |text|
  {
    match FirstGroupFrom(text, i, 0)
    case None => None
    case Some(k) =>
      var s := Span(i, i + |Alternatives[k]|);
      Some(Match(s, s))
  }

  /** `re.search` from start position `i` on: the leftmost start whose attempt
      succeeds. */
  function SearchFrom(text: string, i: nat): (r: Option<Match>)
    requires i <= |text|
    decreases |text| - i
    ensures r.Some? ==> i <= r.value.group1.start < r.value.group1.end <= |text|
  {
    match MatchAt(text, i)
    case Some(m) => Some(m)
    case None => if i == |text| then None else SearchFrom(text, i + 1)
  }

  /** `re.search(old_new_pattern, text, re.IGNORECASE)`. */
  function Search(text: string): (r: Option<Match>)
    ensures r.Some? ==> r.value.group1.start < r.value.group1.end <= |text|
  {
    SearchFrom(text, 0)
  }

  /** The text a group captured. */
  function Group(text: string, s: Span): string
    requires s.start <= s.end <= |text|
  {
    text[s.start..s.end]
  }

  // ----- Declarative characterisation -----

  /** `i` can start a match: a `b`/`B` there and another one later on the same
      line. */
  ghost predicate Anchor(text: string, i: nat) {
    i < |text| && IsB(text[i]) &&
    exists j :: i < j < |text| && IsB(text[j]) && NoNewlineIn(text, i + 1, j)
  }

  /** `i` is the leftmost index that can start a match. */
  ghost predicate FirstAnchor(text: string, i: nat) {
    Anchor(text, i) && forall i': nat :: i' < i ==> !Anchor(text, i')
  }

  /** There is at most one leftmost anchor. */
  lemma FirstAnchorUnique(text: string, i: nat, j: nat)
    requires FirstAnchor(text, i) && FirstAnchor(text, j)
    ensures i == j
  {
  }

  /** The rating captured at `i`: the `b`/`B` there together with a following
      `-` or `+`, if any, in the case the text has. */
  function RatingAt(text: string, i: nat): string
    requires i < |text|
  {
    if i + 1 < |text| && (text[i + 1] == '-' || text[i + 1] == '+') then text[i..i + 2]
    else text[i..i + 1]
  }

  /** The second group matches at `q` exactly when a `b`/`B` stands there. */
  lemma AnyAlternativeIff(text: string, q: nat)
    ensures AnyAlternativeFrom(text, q, 0) <==> q < |text| && IsB(text[q])
  {
    if q < |text| && IsB(text[q]) {
      assert Lower(text[q..q + 1]) == Lower("B");
      assert LiteralAt(text, q, Alternatives[2]);
      AnyAlternativeReaches(text, q, 0, 2);
    } else {
      NoAlternativeWithoutB(text, q, 0);
    }
  }

  /** A matching alternative at index `m` makes every search from `k <= m` succeed. */
  lemma {:induction false} AnyAlternativeReaches(text: string, q: nat, k: nat, m: nat)
    requires k <= m < |Alternatives| && LiteralAt(text, q, Alternatives[m])
    ensures AnyAlternativeFrom(text, q, k)
    decreases m - k
  {
    if k < m {
      AnyAlternativeReaches(text, q, k + 1, m);
    }
  }

  /** Every alternative begins with `B`, so none matches where no `b`/`B` stands. */
  lemma {:induction false} NoAlternativeWithoutB(text: string, q: nat, k: nat)
    requires k <= |Alternatives|
    requires !(q < |text| && IsB(text[q]))
    ensures !AnyAlternativeFrom(text, q, k)
    decreases |Alternatives| - k
  {
    if k < |Alternatives| {
      AlternativesShape();
      LiteralNeedsLetters(text, q, Alternatives[k]);
      NoAlternativeWithoutB(text, q, k + 1);
    }
  }

  /** Every alternative is `B`, `B` followed by a sign, or `B` followed by more
      `B`s and an optional sign. */
  lemma AlternativesShape()
    ensures forall m :: 0 <= m < |Alternatives| ==> 1 <= |Alternatives[m]| <= 4 && Alternatives[m][0] == 'B'
    ensures forall m :: 3 <= m < |Alternatives| ==> 2 <= |Alternatives[m]| && Alternatives[m][1] == 'B'
  {
  }

  /** Where a literal matches, each text character lowers to the literal's. */
  lemma LiteralChars(text: string, p: nat, lit: string)
    ensures LiteralAt(text, p, lit) ==>
      forall n :: 0 <= n < |lit| ==> LowerChar(text[p + n]) == LowerChar(lit[n])
  {
    if LiteralAt(text, p, lit) {
      forall n | 0 <= n < |lit|
        ensures LowerChar(text[p + n]) == LowerChar(lit[n])
      {
        assert Lower(text[p..p + |lit|])[n] == Lower(lit)[n];
      }
    }
  }

  /** Where a literal matches, each of its `B`s stands on a `b`/`B` of the text. */
  lemma LiteralNeedsLetters(text: string, p: nat, lit: string)
    ensures LiteralAt(text, p, lit) ==>
      forall n :: 0 <= n < |lit| && lit[n] == 'B' ==> IsB(text[p + n])
  {
    LiteralChars(text, p, lit);
  }

  /** A literal of one or two characters matches wherever the text has the same
      characters up to the case of letters. */
  lemma LiteralFromChars(text: string, p: nat, lit: string)
    requires 1 <= |lit| <= 2 && p + |lit| <= |text|
    requires forall n :: 0 <= n < |lit| ==> LowerChar(text[p + n]) == LowerChar(lit[n])
    ensures LiteralAt(text, p, lit)
  {
    assert Lower(text[p..p + |lit|]) == Lower(lit);
  }

  /** A settled first group means some alternative matches at `i`. */
  lemma {:induction false} FirstGroupNeedsAlternative(text: string, i: nat, k: nat)
    requires k <= |Alternatives|
    ensures FirstGroupFrom(text, i, k).Some? ==> AnyAlternativeFrom(text, i, k)
    decreases |Alternatives| - k
  {
    if k < |Alternatives| && !LiteralAt(text, i, Alternatives[k]) {
      FirstGroupNeedsAlternative(text, i, k + 1);
    }
  }

  /** A sign after the first `B` is skipped by `.*?` like any other character. */
  lemma SignSkipped(text: string, i: nat)
    requires i + 1 < |text| && (text[i + 1] == '-' || text[i + 1] == '+')
    ensures LazyThenGroup(text, i + 2) == LazyThenGroup(text, i + 1)
  {
    AnyAlternativeIff(text, i + 1);
  }

  /** When no `b`/`B` follows on the line of `i`, backtracking exhausts every
      alternative: the sign forms fail like the bare `B`, and the `BB`/`BBB` forms
      cannot even match literally, since a second `b`/`B` would have let the bare
      `B` succeed. */
  lemma {:induction false} Backtracks(text: string, i: nat, k: nat)
    requires k <= |Alternatives|
    requires i < |text| && !LazyThenGroup(text, i + 1)
    ensures FirstGroupFrom(text, i, k) == None
    decreases |Alternatives| - k
  {
    if k < |Alternatives| {
      AlternativesShape();
      var a := Alternatives[k];
      LiteralChars(text, i, a);
      if i + 1 < |text| {
        assert NoNewlineIn(text, i + 1, i + 1);
      }
      if k < 2 && LiteralAt(text, i, a) {
        assert LowerChar(text[i + 1]) == LowerChar(a[1]);
        SignSkipped(text, i);
      }
      Backtracks(text, i, k + 1);
    }
  }

  /** An attempt succeeds only at an anchor. */
  lemma FirstGroupOnlyAtAnchor(text: string, i: nat)
    ensures FirstGroupFrom(text, i, 0).Some? ==> Anchor(text, i)
  {
    FirstGroupNeedsAlternative(text, i, 0);
    AnyAlternativeIff(text, i);
    if i < |text| && !LazyThenGroup(text, i + 1) {
      Backtracks(text, i, 0);
    }
  }

  /** At an anchor followed by `-`, the first alternative `B-` is kept. */
  lemma FirstGroupAtMinus(text: string, i: nat)
    requires Anchor(text, i) && i + 1 < |text| && text[i + 1] == '-'
    ensures FirstGroupFrom(text, i, 0) == Some(0)
  {
    assert LazyThenGroup(text, i + 1);
    LiteralFromChars(text, i, Alternatives[0]);
    SignSkipped(text, i);
  }

  /** At an anchor followed by `+`, `B-` fails and the greedy `B+` is kept. */
  lemma FirstGroupAtPlus(text: string, i: nat)
    requires Anchor(text, i) && i + 1 < |text| && text[i + 1] == '+'
    ensures FirstGroupFrom(text, i, 0) == Some(1)
  {
    assert LazyThenGroup(text, i + 1);
    assert Lower(text[i..i + 2])[1] == '+';
    LiteralFromChars(text, i, Alternatives[1]);
    SignSkipped(text, i);
  }

  /** At an anchor without a following sign, both sign forms fail and the bare
      `B` is kept. */
  lemma FirstGroupAtBare(text: string, i: nat)
    requires Anchor(text, i) && !(i + 1 < |text| && (text[i + 1] == '-' || text[i + 1] == '+'))
    ensures FirstGroupFrom(text, i, 0) == Some(2)
  {
    assert LazyThenGroup(text, i + 1);
    if i + 1 < |text| {
      assert Lower(text[i..i + 2])[1] == LowerChar(text[i + 1]);
    }
    LiteralFromChars(text, i, Alternatives[2]);
  }

  /** The attempt at `i` succeeds exactly at an anchor and captures the rating
      there: `B-` is tried first, then `B+`, then the bare `B`. */
  lemma FirstGroupCharacterised(text: string, i: nat)
    ensures FirstGroupFrom(text, i, 0).Some? <==> Anchor(text, i)
    ensures FirstGroupFrom(text, i, 0).Some? ==>
      i + |Alternatives[FirstGroupFrom(text, i, 0).value]| <= |text| &&
      text[i..i + |Alternatives[FirstGroupFrom(text, i, 0).value]|] == RatingAt(text, i)
  {
    FirstGroupOnlyAtAnchor(text, i);
    if Anchor(text, i) {
      if i + 1 < |text| && text[i + 1] == '-' {
        FirstGroupAtMinus(text, i);
      } else if i + 1 < |text| && text[i + 1] == '+' {
        FirstGroupAtPlus(text, i);
      } else {
        FirstGroupAtBare(text, i);
      }
    }
  }

  /** The attempt at `i` succeeds exactly at an anchor; both groups then span
      the rating there. */
  lemma MatchAtCharacterised(text: string, i: nat)
    ensures MatchAt(text, i).Some? <==> Anchor(text, i)
    ensures MatchAt(text, i).Some? ==>
      var m := MatchAt(text, i).value;
      m.group1.start == i && m.group2 == m.group1 && Group(text, m.group1) == RatingAt(text, i)
  {
    FirstGroupCharacterised(text, i);
  }

  /** `re.search` from `i` fails exactly when no anchor lies at or after `i`. */
  lemma {:induction false} SearchFromFails(text: string, i: nat)
    requires i <= |text|
    decreases |text| - i
    ensures SearchFrom(text, i).None? <==> forall i': nat :: i <= i' ==> !Anchor(text, i')
  {
    MatchAtCharacterised(text, i);
    if MatchAt(text, i).None? && i < |text| {
      SearchFromFails(text, i + 1);
    }
  }

  /** When `re.search` from `i` succeeds, the attempt at its start succeeds. */
  lemma {:induction false} SearchFromStartsAtMatch(text: string, i: nat)
    requires i <= |text|
    decreases |text| - i
    ensures SearchFrom(text, i).Some? ==> MatchAt(text, SearchFrom(text, i).value.group1.start).Some?
  {
    if MatchAt(text, i).None? && i < |text| {
      SearchFromStartsAtMatch(text, i + 1);
    }
  }

  /** When `re.search` from `i` succeeds, every attempt between `i` and its
      start has failed. */
  lemma {:induction false} SearchFromSkips(text: string, i: nat, k: nat)
    requires i <= k <= |text|
    requires SearchFrom(text, i).Some? && k < SearchFrom(text, i).value.group1.start
    decreases k - i
    ensures MatchAt(text, k).None?
  {
    if i < k {
      SearchFromSkips(text, i + 1, k);
    }
  }

  /** Whatever start `re.search` settles on, groups 1 and 2 both capture the
      rating there. */
  lemma {:induction false} SearchFromCaptures(text: string, i: nat)
    requires i <= |text|
    decreases |text| - i
    ensures SearchFrom(text, i).Some? ==>
      var m := SearchFrom(text, i).value;
      m.group2 == m.group1 && Group(text, m.group1) == RatingAt(text, m.group1.start)
  {
    MatchAtCharacterised(text, i);
    if MatchAt(text, i).None? && i < |text| {
      SearchFromCaptures(text, i + 1);
    }
  }

  /** The declarative reading of the search: a match exists exactly when two
      `b`/`B` stand on one line; it starts at the leftmost `b`/`B` with such a
      partner, and groups 1 and 2 both capture that letter in its own case,
      together with a following `-` or `+`, if there is one. */
  lemma SearchCharacterised(text: string)
    ensures Search(text).None? <==> forall i: nat :: !Anchor(text, i)
    ensures Search(text).Some? ==>
      var m := Search(text).value;
      FirstAnchor(text, m.group1.start) &&
      m.group2 == m.group1 &&
      Group(text, m.group1) == RatingAt(text, m.group1.start)
  {
    SearchFromFails(text, 0);
    SearchFromStartsAtMatch(text, 0);
    SearchFromCaptures(text, 0);
    if Search(text).Some? {
      var start := Search(text).value.group1.start;
      MatchAtCharacterised(text, start);
      forall i': nat | i' < start
        ensures !Anchor(text, i')
      {
        SearchFromSkips(text, 0, i');
        MatchAtCharacterised(text, i');
      }
    }
  }
}
