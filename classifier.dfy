/**
 * `extract_rating_change`: classifies one press-release text (title, a space,
 * then summary) into an action and an old and a new rating.
 */
module Classifier {
  import opened Wrappers
  import opened Text
  import opened RatingPattern

  /** The actions the classifier reports; Python's `None` is `Option.None`. */
  datatype Action = Upgrade | Downgrade

  /** The string the source stores in the "Action" column. */
  function Label(a: Action): string {
    match a
    case Upgrade => "Upgrade"
    case Downgrade => "Downgrade"
  }

  /** The lower-cased text contains `phrase`. */
  ghost predicate Mentions(text: string, phrase: string) {
    Occurs(Lower(text), phrase)
  }

  /** One of the upgrade triggers occurs, in any letter case. */
  ghost predicate MentionsUpgrade(text: string) {
    Mentions(text, "upgrade") || Mentions(text, "revised upwards")
  }

  /** One of the downgrade triggers occurs, in any letter case. */
  ghost predicate MentionsDowngrade(text: string) {
    Mentions(text, "downgrade") || Mentions(text, "revised downwards")
  }

  /** The keyword test: the upgrade triggers are checked first, so a text that
      mentions both kinds is an upgrade. */
  function DetectAction(text: string): (r: Option<Action>)
    ensures r == Some(Upgrade) <==> MentionsUpgrade(text)
    ensures r == Some(Downgrade) <==> !MentionsUpgrade(text) && MentionsDowngrade(text)
    ensures r == None <==> !MentionsUpgrade(text) && !MentionsDowngrade(text)
  {
    var lowered := Lower(text);
    if Contains(lowered, "upgrade") || Contains(lowered, "revised upwards") then Some(Upgrade)
    else if Contains(lowered, "downgrade") || Contains(lowered, "revised downwards") then Some(Downgrade)
    else None
  }

  /** The triple `(action, old_rating, new_rating)` the source returns. */
  datatype RatingChange = RatingChange(action: Option<Action>, oldRating: Option<string>, newRating: Option<string>)

  /** Every rating a match can capture: a `b` or `B` with an optional sign. */
  const CapturableRatings: set<string> := {"B", "b", "B-", "b-", "B+", "b+"}

  /** `extract_rating_change`. The ratings are groups 1 and 2 of the search;
      since group 2 is the group nested inside group 1, both are the first rating. */
  function ExtractRatingChange(text: string): (r: RatingChange)
    ensures r.action == Some(Upgrade) <==> MentionsUpgrade(text)
    ensures r.action == Some(Downgrade) <==> !MentionsUpgrade(text) && MentionsDowngrade(text)
    ensures r.action == None <==> !MentionsUpgrade(text) && !MentionsDowngrade(text)
    ensures r.oldRating.Some? <==> r.newRating.Some?
    ensures r.newRating == r.oldRating
    ensures r.oldRating.None? <==> forall i: nat :: !Anchor(text, i)
    ensures r.oldRating.Some? ==>
      exists i: nat :: FirstAnchor(text, i) && r.oldRating.value == RatingAt(text, i)
    ensures r.oldRating.Some? ==> r.oldRating.value in CapturableRatings
  {
    SearchCharacterised(text);
    var action := DetectAction(text);
    match Search(text)
    case None => RatingChange(action, None, None)
    case Some(m) =>
      RatingAtCapturable(text, m.group1.start);
      RatingChange(action, Some(Group(text, m.group1)), Some(Group(text, m.group2)))
  }

  /** At an anchor the captured rating is one of the six capturable forms, never
      a `BB` or `BBB` rating. */
  lemma RatingAtCapturable(text: string, i: nat)
    requires Anchor(text, i)
    ensures RatingAt(text, i) in CapturableRatings
  {
    var r := RatingAt(text, i);
    if |r| == 2 {
      assert r == [text[i], text[i + 1]];
    } else {
      assert r == [text[i]];
    }
  }

  /** Keyword detection ignores letter case: lower-casing the text first changes
      nothing. */
  lemma ActionIgnoresCase(text: string)
    ensures DetectAction(Lower(text)) == DetectAction(text)
  {
    LowerIdempotent(text);
  }

  /** Two texts that differ only in the case of ASCII letters get the same
      action: "UPGRADE" and "upgrade" are both an upgrade. */
  lemma ActionIgnoresCaseOf(s: string, t: string)
    requires |s| == |t| && forall k :: 0 <= k < |s| ==> SameUpToCase(s[k], t[k])
    ensures DetectAction(s) == DetectAction(t)
  {
    LowerEqualIff(s, t);
  }

  /** Both reported ratings are the rating at the leftmost anchor. */
  lemma RatingsFromFirstAnchor(text: string, i: nat)
    requires FirstAnchor(text, i)
    ensures ExtractRatingChange(text).oldRating == Some(RatingAt(text, i))
    ensures ExtractRatingChange(text).newRating == Some(RatingAt(text, i))
  {
    var r := ExtractRatingChange(text);
    var i': nat :| FirstAnchor(text, i') && r.oldRating.value == RatingAt(text, i');
    FirstAnchorUnique(text, i, i');
  }
}
