/**
 * What the dashboard does with the classifier's results: the row each fetcher
 * appends for a feed entry, the "Show only" filter on the Action column and
 * the colour given to an Action cell.
 */
module Dashboard {
  import opened Wrappers
  import opened Text
  import opened RatingPattern
  import opened Classifier

  /** One row of the results table; the publication date is not modelled. */
  datatype Row = Row(
    agency: string,
    title: string,
    link: string,
    action: Option<string>,
    oldRating: Option<string>,
    newRating: Option<string>)

  /** The text a fetcher classifies: the title, a space, then the summary, or
      nothing after the space when the entry has no summary. */
  function EntryText(title: string, summary: Option<string>): (text: string)
    ensures |text| == |title| + 1 + |summary.GetOr("")|
    ensures text[..|title|] == title && text[|title|] == ' '
    ensures text[|title| + 1..] == summary.GetOr("")
    ensures summary.None? ==> text == title + " "
  {
    title + " " + summary.GetOr("")
  }

  /** The Action cell: the label of the action, or an empty cell. */
  function ActionCell(a: Option<Action>): (cell: Option<string>)
    ensures cell.Some? <==> a.Some?
    ensures cell == Some("Upgrade") <==> a == Some(Upgrade)
    ensures cell == Some("Downgrade") <==> a == Some(Downgrade)
  {
    match a
    case None => None
    case Some(x) => Some(Label(x))
  }

  /** A row whose cells the classifier can have produced. */
  predicate ClassifierRow(row: Row) {
    row.action == None || row.action == Some("Upgrade") || row.action == Some("Downgrade")
  }

  /** The row a fetcher appends for one feed entry. */
  function MakeRow(agency: string, title: string, summary: Option<string>, link: string): (row: Row)
    ensures row.agency == agency && row.title == title && row.link == link
    ensures ClassifierRow(row)
    ensures row.action == Some("Upgrade") <==> MentionsUpgrade(EntryText(title, summary))
    ensures row.action == Some("Downgrade") <==>
      !MentionsUpgrade(EntryText(title, summary)) && MentionsDowngrade(EntryText(title, summary))
    ensures row.newRating == row.oldRating
    ensures row.oldRating.None? <==> forall i: nat :: !Anchor(EntryText(title, summary), i)
    ensures row.oldRating.Some? ==>
      exists i: nat :: FirstAnchor(EntryText(title, summary), i) &&
        row.oldRating.value == RatingAt(EntryText(title, summary), i)
    ensures row.oldRating.Some? ==> row.oldRating.value in CapturableRatings
  {
    var change := ExtractRatingChange(EntryText(title, summary));
    Row(agency, title, link, ActionCell(change.action), change.oldRating, change.newRating)
  }

  /** An upgrade trigger in the title makes the row an upgrade, whatever the
      summary says. */
  lemma TitleUpgradeWins(agency: string, title: string, summary: Option<string>, link: string)
    requires MentionsUpgrade(title)
    ensures MakeRow(agency, title, summary, link).action == Some("Upgrade")
  {
    var rest := " " + summary.GetOr("");
    assert EntryText(title, summary) == title + rest;
    LowerConcat(title, rest);
    if Mentions(title, "upgrade") {
      OccursInPrefix(Lower(title), Lower(rest), "upgrade");
    } else {
      OccursInPrefix(Lower(title), Lower(rest), "revised upwards");
    }
  }

  /** An anchor of the whole text before the title's leftmost one would be an
      anchor of the title: its partner is either inside the title or beyond the
      title's own anchor, which then serves as partner. */
  lemma AnchorBeforeTitleAnchor(title: string, rest: string, k: nat, i: nat)
    requires k < i < |title| && IsB(title[i])
    ensures Anchor(title + rest, k) ==> Anchor(title, k)
  {
    var text := title + rest;
    if Anchor(text, k) {
      var j :| k < j < |text| && IsB(text[j]) && NoNewlineIn(text, k + 1, j);
      assert forall m :: 0 <= m < |title| ==> text[m] == title[m];
      if j < |title| {
        assert IsB(title[j]) && NoNewlineIn(title, k + 1, j);
      } else {
        assert IsB(title[i]) && NoNewlineIn(title, k + 1, i);
      }
    }
  }

  /** A title that holds a rating pair decides both ratings of its row: the
      summary is never consulted, because the title's leftmost anchor and its
      partner both lie inside the title. */
  lemma TitleRatingWins(agency: string, title: string, summary: Option<string>, link: string, i: nat)
    requires FirstAnchor(title, i)
    ensures MakeRow(agency, title, summary, link).oldRating == Some(RatingAt(title, i))
    ensures MakeRow(agency, title, summary, link).newRating == Some(RatingAt(title, i))
  {
    var rest := " " + summary.GetOr("");
    var text := EntryText(title, summary);
    assert text == title + rest;
    var j :| i < j < |title| && IsB(title[j]) && NoNewlineIn(title, i + 1, j);
    assert IsB(text[j]) && NoNewlineIn(text, i + 1, j);
    forall k: nat | k < i
      ensures !Anchor(text, k)
    {
      AnchorBeforeTitleAnchor(title, rest, k, i);
    }
    assert FirstAnchor(text, i);
    assert RatingAt(text, i) == RatingAt(title, i);
    RatingsFromFirstAnchor(text, i);
  }

  /** The sidebar's "Show only" choices: "All" first, then two choices that
      name no action label the classifier writes. */
  function ShowOnlyChoices(): (choices: seq<string>)
    ensures |choices| == 3 && choices[0] == "All"
    ensures forall n :: 1 <= n < |choices| ==>
      choices[n] != "All" && choices[n] != Label(Upgrade) && choices[n] != Label(Downgrade)
  {
    ["All", "Upgrades", "Downgrades"]
  }

  /** `df[df["Action"] == choice]`: the rows whose Action cell equals `choice`,
      in their order. */
  function KeepAction(rows: seq<Row>, choice: string): (kept: seq<Row>)
    ensures |kept| <= |rows|
    ensures forall r :: r in kept <==> r in rows && r.action == Some(choice)
    ensures forall r :: multiset(kept)[r] == if r.action == Some(choice) then multiset(rows)[r] else 0
  {
    if rows == [] then []
    else
      var rest := KeepAction(rows[1..], choice);
      assert rows == [rows[0]] + rows[1..];
      assert multiset(rows) == multiset{rows[0]} + multiset(rows[1..]);
      if rows[0].action == Some(choice) then [rows[0]] + rest else rest
  }

  /** Filtering keeps the order of the rows: filtering a concatenation is
      concatenating the filtered parts. */
  lemma {:induction false} KeepActionConcat(a: seq<Row>, b: seq<Row>, choice: string)
    ensures KeepAction(a + b, choice) == KeepAction(a, choice) + KeepAction(b, choice)
  {
    if a == [] {
      assert a + b == b;
    } else {
      assert (a + b)[0] == a[0];
      assert (a + b)[1..] == a[1..] + b;
      KeepActionConcat(a[1..], b, choice);
    }
  }

  /** The table after the filter: every row for "All", otherwise the rows whose
      Action cell equals the choice. */
  function FilterRows(rows: seq<Row>, choice: string): (shown: seq<Row>)
    ensures choice == "All" ==> shown == rows
    ensures choice != "All" ==> forall r :: r in shown <==> r in rows && r.action == Some(choice)
    ensures choice != "All" ==>
      forall r :: multiset(shown)[r] == if r.action == Some(choice) then multiset(rows)[r] else 0
  {
    if choice == "All" then rows else KeepAction(rows, choice)
  }

  /** When no row has the chosen action, nothing is kept. */
  lemma {:induction false} NoMatchKeepsNothing(rows: seq<Row>, choice: string)
    requires forall r :: r in rows ==> r.action != Some(choice)
    ensures KeepAction(rows, choice) == []
  {
    if rows != [] {
      NoMatchKeepsNothing(rows[1..], choice);
    }
  }

  /** The choices "Upgrades" and "Downgrades" never equal an Action cell the
      classifier writes ("Upgrade", "Downgrade" or empty), so they empty the
      table; "All" keeps it whole. */
  lemma DirectionChoicesShowNothing(rows: seq<Row>)
    requires forall r :: r in rows ==> ClassifierRow(r)
    ensures FilterRows(rows, ShowOnlyChoices()[1]) == []
    ensures FilterRows(rows, ShowOnlyChoices()[2]) == []
    ensures FilterRows(rows, ShowOnlyChoices()[0]) == rows
  {
    NoMatchKeepsNothing(rows, "Upgrades");
    NoMatchKeepsNothing(rows, "Downgrades");
  }

  /** `highlight_action`: the style of an Action cell. */
  function HighlightAction(val: Option<string>): (style: string)
    ensures val == Some("Upgrade") ==> style == "color: green; font-weight: bold"
    ensures val == Some("Downgrade") ==> style == "color: red; font-weight: bold"
    ensures style == "" <==> val != Some("Upgrade") && val != Some("Downgrade")
  {
    if val == Some("Upgrade") then "color: green; font-weight: bold"
    else if val == Some("Downgrade") then "color: red; font-weight: bold"
    else ""
  }

  /** The colour of a row's Action cell follows the trigger phrases of its
      text: green for an upgrade trigger, red for a downgrade trigger alone,
      no style otherwise. */
  lemma HighlightFollowsTriggers(agency: string, title: string, summary: Option<string>, link: string)
    ensures var style := HighlightAction(MakeRow(agency, title, summary, link).action);
      var text := EntryText(title, summary);
      (style == "color: green; font-weight: bold" <==> MentionsUpgrade(text)) &&
      (style == "color: red; font-weight: bold" <==> !MentionsUpgrade(text) && MentionsDowngrade(text)) &&
      (style == "" <==> !MentionsUpgrade(text) && !MentionsDowngrade(text))
  {
  }
}
