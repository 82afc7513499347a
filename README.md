# Rating-action classifier of the Ratings Action Tracker

The Ratings Action Tracker is a Streamlit dashboard. It reads press-release
feeds of Indian credit-rating agencies and shows one table row per release,
with the release's action (upgrade or downgrade) and an old and a new rating.
This project models the part of the dashboard that holds logic:

- `extract_rating_change` classifies one text, the entry's title, a space,
  then its summary. It returns the triple `(action, old_rating, new_rating)`.
- The row a fetcher builds from that triple.
- The "Show only" filter on the Action column.
- `highlight_action`, which colours an Action cell.

The model follows the code as written:

- **Action.** The action is `Upgrade` when the lower-cased text contains
  "upgrade" or "revised upwards". Otherwise it is `Downgrade` when the text
  contains "downgrade" or "revised downwards". Otherwise there is no action.
  Upgrade triggers are tested first, so they win when both kinds appear.
- **The regular expression.** The pattern is a rating group nested inside a
  second group, a lazy `.*?`, then a second rating nested the same way. A
  rating group offers `B-`, `B` with an optional `+`, `BB-`, `BB` with an
  optional `+`, `BBB-` and `BBB` with an optional `+`, in that order. It is
  searched case-insensitively and modelled by hand, as the engine runs it:
  - start positions are tried left to right;
  - the first rating's alternatives are tried in order, and the engine
    backtracks into the next one when the rest of the pattern fails;
  - the lazy `.*?` never crosses a line break.
- **What the search finds.** `RatingPattern.SearchCharacterised` proves the
  search equal to a declarative reading:
  - a match exists exactly when a `b`/`B` has another `b`/`B` later on the
    same line;
  - the match starts at the leftmost such letter;
  - it captures that letter in its own case, together with a following `-` or `+`, if there is one.
- **Only `B` ratings.** The alternative `B\+?` always succeeds before the
  `BB` and `BBB` forms are tried. So a captured rating is always `B`, `b`,
  `B-`, `b-`, `B+` or `b+`, never a `BB` or `BBB` rating.
- **Both ratings are the same.** `ratings_pattern` already contains a group.
  So group 2, which the source reads as the new rating, is the group nested
  inside group 1, and the new rating always equals the old one.
- **The filter.** The sidebar offers "All", "Upgrades" and "Downgrades". The
  Action column only ever holds "Upgrade", "Downgrade" or nothing, so both
  direction choices show an empty table.

The code has no "reaffirm" verdict and never compares the old and the new
rating, so the model has neither.

Modules:

- `Wrappers` (`wrappers.dfy`): `Option`, which stands for Python's `None`.
- `Text` (`text.dfy`): `str.lower()` and the substring test, with a scanning
  definition proved equal to a declarative one.
- `RatingPattern` (`rating_pattern.dfy`): the regular expression and its
  characterisation.
- `Classifier` (`classifier.dfy`): `extract_rating_change`.
- `Scenarios` (`scenarios.dfy`): concrete texts worked through the classifier.
- `Dashboard` (`dashboard.dfy`): rows, the filter and the highlight.

## Model

| member | source | states |
|---|---|---|
| `Text.LowerChar` | rating-action-tracker-streamlit.py:22 | lowering one character turns an ASCII upper-case letter into its own lower-case letter (offset `'a' - 'A'`), keeps every other character, and leaves no ASCII upper-case letter |
| `Text.LowerCharEqualIff` | rating-action-tracker-streamlit.py:22 | two characters lower to the same character exactly when they are equal or one ASCII letter in its two cases |
| `Text.LowerEqualIff` | rating-action-tracker-streamlit.py:22 | two strings lower to the same string exactly when they have the same length and agree character by character up to ASCII case |
| `Text.Lower` | rating-action-tracker-streamlit.py:22 | `text.lower()` keeps the length of the text (ASCII model) |
| `Text.LowerLeavesNoUpper` | rating-action-tracker-streamlit.py:22 | the lowered text holds no ASCII upper-case letter, and only upper-case letters differ from the original |
| `Text.Contains` | rating-action-tracker-streamlit.py:23-25 | the substring test `phrase in text`, a left-to-right scan, holds exactly when the phrase occurs at some index |
| `Text.PhraseInMiddle` | rating-action-tracker-streamlit.py:22-23 | a lower-case phrase placed anywhere in a text is found in the lower-cased text |
| `RatingPattern.LazyThenGroup` | rating-action-tracker-streamlit.py:17 | `.*?` followed by the second rating group succeeds from a position exactly when a `b`/`B` follows on the same line |
| `RatingPattern.AnyAlternativeFrom` | rating-action-tracker-streamlit.py:16-17 | the second rating group matches at a position exactly when one of the remaining alternatives of `ratings_pattern`, in order, matches there case-insensitively |
| `RatingPattern.AnyAlternativeIff` | rating-action-tracker-streamlit.py:16 | some alternative of `ratings_pattern` matches at a position exactly when a `b` or `B` stands there (case-insensitive) |
| `RatingPattern.FirstGroupFrom` | rating-action-tracker-streamlit.py:16-17 | the alternative the engine settles on for the first rating, after backtracking, matches the text literally at the start position |
| `RatingPattern.Backtracks` | rating-action-tracker-streamlit.py:16-17 | when no second `b`/`B` follows on the line, every alternative of the first rating fails, including the `BB`/`BBB` forms |
| `RatingPattern.FirstGroupOnlyAtAnchor` | rating-action-tracker-streamlit.py:16-17 | the first rating is settled only at a `b`/`B` that has another `b`/`B` later on its line |
| `RatingPattern.FirstGroupAtMinus` | rating-action-tracker-streamlit.py:16 | at such a letter followed by `-`, the first alternative `B-` is kept |
| `RatingPattern.FirstGroupAtPlus` | rating-action-tracker-streamlit.py:16 | at such a letter followed by `+`, `B-` fails and the greedy `B\+?` keeps `B+` |
| `RatingPattern.FirstGroupAtBare` | rating-action-tracker-streamlit.py:16 | at such a letter without a following sign, the bare `B` is kept, before any `BB`/`BBB` form is tried |
| `RatingPattern.FirstGroupCharacterised` | rating-action-tracker-streamlit.py:16-17 | an attempt at a position succeeds exactly at an anchor and captures `B-`, `B+` or `B` there, in that order of preference |
| `RatingPattern.MatchAt` | rating-action-tracker-streamlit.py:17 | a match attempted at a start position begins there and ends inside the text |
| `RatingPattern.MatchAtCharacterised` | rating-action-tracker-streamlit.py:16-17 | an attempt succeeds exactly at an anchor; group 1 and group 2 then span the same rating |
| `RatingPattern.SearchFrom` | rating-action-tracker-streamlit.py:28 | a match found from a position starts at or after it and lies inside the text |
| `RatingPattern.Search` | rating-action-tracker-streamlit.py:28 | `re.search` returns a non-empty group-1 span inside the text |
| `RatingPattern.SearchFromFails` | rating-action-tracker-streamlit.py:28 | the search from a position fails exactly when no anchor lies at or after it |
| `RatingPattern.SearchFromStartsAtMatch` | rating-action-tracker-streamlit.py:28 | a successful search starts where a match attempt succeeds |
| `RatingPattern.SearchFromSkips` | rating-action-tracker-streamlit.py:28 | every start position before the one a successful search reports has a failing attempt |
| `RatingPattern.SearchFromCaptures` | rating-action-tracker-streamlit.py:16-17 | whatever start the search settles on, groups 1 and 2 are equal and capture the rating at that start |
| `RatingPattern.SearchCharacterised` | rating-action-tracker-streamlit.py:16-17 | a match exists iff two `b`/`B` stand on one line; it starts at the leftmost such letter and both groups capture it, in its own case, together with a following `-` or `+`, if there is one |
| `RatingPattern.FirstAnchorUnique` | rating-action-tracker-streamlit.py:28 | the leftmost start position of a match is unique |
| `Classifier.DetectAction` | rating-action-tracker-streamlit.py:19-26 | Upgrade iff an upgrade trigger occurs in any case; Downgrade iff a downgrade trigger occurs and no upgrade trigger does; no action iff neither |
| `Classifier.ExtractRatingChange` | rating-action-tracker-streamlit.py:14-32 | the action as above; old and new rating both present or both absent, and always equal; present iff two `b`/`B` share a line; equal to the rating at the leftmost anchor; always one of B, b, B-, b-, B+, b+ |
| `Classifier.RatingAtCapturable` | rating-action-tracker-streamlit.py:16 | the rating at an anchor is one of the six `B` forms, never a `BB` or `BBB` rating |
| `Classifier.ActionIgnoresCase` | rating-action-tracker-streamlit.py:22-23 | lower-casing the text first does not change the detected action |
| `Classifier.ActionIgnoresCaseOf` | rating-action-tracker-streamlit.py:22-26 | two texts that differ only in the case of ASCII letters get the same action, so "UPGRADE" is an upgrade like "upgrade" |
| `Classifier.RatingsFromFirstAnchor` | rating-action-tracker-streamlit.py:28-30 | both returned ratings are the rating at the leftmost anchor |
| `Scenarios.DowngradeFromBBB` | rating-action-tracker-streamlit.py:14-32 | "downgraded from BBB to BB" gives (Downgrade, "B", "B"): not BBB and BB |
| `Scenarios.UpgradeRatingFromCompanyName` | rating-action-tracker-streamlit.py:14-32 | "ABC upgrade downgrade BB-" gives (Upgrade, "B", "B"): the upgrade trigger wins and the rating comes from the `B` in "ABC" |
| `Scenarios.LowerCaseRatingWithSign` | rating-action-tracker-streamlit.py:14-32 | "rated b+ by agency" gives (None, "b+", "b+"): the sign and the lower case are kept |
| `Scenarios.LineBreakBlocksMatch` | rating-action-tracker-streamlit.py:17 | "B", a line break, then "B" gives no ratings |
| `Scenarios.MatchOnLaterLine` | rating-action-tracker-streamlit.py:17 | "B", a line break, then "BB" gives the rating "B" from the second line |
| `Dashboard.EntryText` | rating-action-tracker-streamlit.py:46 | the classified text is the title, one space, then the summary, or nothing after the space when the entry has no summary (`entry.get("summary", "")`); the same text is built at line 69 |
| `Dashboard.ActionCell` | rating-action-tracker-streamlit.py:24-26 | the Action cell holds "Upgrade" or "Downgrade" exactly for those actions and is empty for no action |
| `Dashboard.MakeRow` | rating-action-tracker-streamlit.py:46-55 | a fetcher's row keeps agency, title and link; its action cell follows the triggers of title + " " + summary; its old rating is absent iff that text has no anchor, and otherwise is the rating at the leftmost anchor; its new rating equals its old rating |
| `Dashboard.TitleUpgradeWins` | rating-action-tracker-streamlit.py:46 | an upgrade trigger in the title makes the row an upgrade whatever the summary holds |
| `Dashboard.AnchorBeforeTitleAnchor` | rating-action-tracker-streamlit.py:46 | appending the summary cannot create a match start before the title's own leftmost one |
| `Dashboard.TitleRatingWins` | rating-action-tracker-streamlit.py:46 | when the title holds a rating pair, the row's ratings come from the title and the summary is never consulted |
| `Dashboard.ShowOnlyChoices` | rating-action-tracker-streamlit.py:105 | the radio offers three choices, "All" first, and neither other choice equals an Action label the classifier writes |
| `Dashboard.KeepAction` | rating-action-tracker-streamlit.py:128 | the kept rows are exactly the rows whose Action cell equals the choice, each kept as often as it occurs in the table, and no others |
| `Dashboard.KeepActionConcat` | rating-action-tracker-streamlit.py:128 | filtering keeps row order: filtering a concatenation concatenates the filtered parts |
| `Dashboard.FilterRows` | rating-action-tracker-streamlit.py:127-128 | "All" keeps the table; any other choice keeps exactly the rows whose Action cell equals it, with their multiplicities |
| `Dashboard.NoMatchKeepsNothing` | rating-action-tracker-streamlit.py:128 | when no row carries the chosen action, the filtered table is empty |
| `Dashboard.DirectionChoicesShowNothing` | rating-action-tracker-streamlit.py:105 | on rows the classifier produced, "Upgrades" and "Downgrades" leave an empty table and "All" leaves it whole |
| `Dashboard.HighlightAction` | rating-action-tracker-streamlit.py:131-136 | "Upgrade" is green and bold, "Downgrade" red and bold, any other cell unstyled |
| `Dashboard.HighlightFollowsTriggers` | rating-action-tracker-streamlit.py:131-136 | a row's Action cell is green iff its text has an upgrade trigger, red iff it has only a downgrade trigger, unstyled otherwise |

## Left out

- Feed retrieval (`feedparser`), the limit of 30 entries per feed and the
  error reporting of the fetchers: these are I/O. Only the text a fetcher
  classifies and the row it appends are modelled.
- The Date column: parsing dates with `dateutil` is library behaviour, so
  the row has no date.
- The ICRA and India Ratings fetchers: they only show a warning and return
  no rows.
- The Streamlit page, the sidebar widgets, the refresh button and the
  15-minute cache: these are UI and caching.
- Building the pandas table, sorting it by date and rendering the styled
  table: this is library behaviour.
- `Text.Lower`: `str.lower()` and `re.IGNORECASE` are modelled on ASCII
  letters only, and lowering keeps the length. Python lowers a few other
  characters to ASCII letters: `İ` (U+0130) becomes `i` followed by U+0307,
  and the Kelvin sign becomes `k`. Neither changes the detected action: no
  trigger phrase holds a `k`, and that `i` is always followed by U+0307, so
  it cannot continue "revised". No character other than `b`/`B` folds to
  `b` under `re.IGNORECASE`.
- `RatingPattern.AnyAlternativeFrom` only tells whether the second rating
  group matches. It does not compute groups 3 and 4, the text of the second
  rating, because the source never reads them.
- Python's regular-expression engine in general: only the one fixed pattern
  is modelled.
