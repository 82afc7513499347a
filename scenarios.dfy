/**
 * Press-release texts worked through the classifier, showing what it reports
 * for headlines of the kind the tracker reads.
 */
module Scenarios {
  import opened Wrappers
  import opened Text
  import opened RatingPattern
  import opened Classifier

  /** A downgrade from BBB to BB reports the first `B` of "BBB" as both the old
      and the new rating. */
  lemma DowngradeFromBBB()
    ensures ExtractRatingChange("downgraded from BBB to BB")
         == RatingChange(Some(Downgrade), Some("B"), Some("B"))
  {
    var t := "downgraded from BBB to BB";
    assert !MentionsUpgrade(t) && MentionsDowngrade(t) by {
      assert Lower(t) == "downgraded from bbb to bb";
      MissingCharNoOccurrence(Lower(t), "upgrade", 'p');
      MissingCharNoOccurrence(Lower(t), "revised upwards", 'p');
      assert OccursAt(Lower(t), "downgrade", 0);
    }
    assert t[16..17] == "B";
    assert RatingAt(t, 16) == "B";
    assert FirstAnchor(t, 16) by {
      assert IsB(t[17]) && NoNewlineIn(t, 17, 17);
      assert forall i: nat :: i < 16 ==> !IsB(t[i]);
    }
    RatingsFromFirstAnchor(t, 16);
  }

  /** The rating is taken from the first `b`/`B` with another one on its line,
      here the one in the company name "ABC", not from "BB-"; an upgrade
      trigger wins over a downgrade trigger. */
  lemma UpgradeRatingFromCompanyName()
    ensures ExtractRatingChange("ABC upgrade downgrade BB-")
         == RatingChange(Some(Upgrade), Some("B"), Some("B"))
  {
    CompanyNameMentionsUpgrade();
    CompanyNameFirstAnchor();
    RatingsFromFirstAnchor("ABC upgrade downgrade BB-", 1);
  }

  /** The upgrade trigger of the company-name text. */
  lemma CompanyNameMentionsUpgrade()
    ensures MentionsUpgrade("ABC upgrade downgrade BB-")
  {
    assert Lower("upgrade") == "upgrade";
    PhraseInMiddle("ABC ", "upgrade", " downgrade BB-");
    assert "ABC " + "upgrade" + " downgrade BB-" == "ABC upgrade downgrade BB-";
  }

  /** The leftmost anchor of the company-name text is the `B` of "ABC". */
  lemma CompanyNameFirstAnchor()
    ensures FirstAnchor("ABC upgrade downgrade BB-", 1)
    ensures RatingAt("ABC upgrade downgrade BB-", 1) == "B"
  {
    var t := "ABC upgrade downgrade BB-";
    assert t[1] == 'B' && t[2] == 'C';
    assert t[1..2] == "B";
    assert IsB(t[22]) && NoNewlineIn(t, 2, 22);
  }

  /** A lower-case `b` followed by `+` is captured with its sign and its case,
      and a text without trigger phrases has no action. */
  lemma LowerCaseRatingWithSign()
    ensures ExtractRatingChange("rated b+ by agency") == RatingChange(None, Some("b+"), Some("b+"))
  {
    var t := "rated b+ by agency";
    assert !MentionsUpgrade(t) && !MentionsDowngrade(t) by {
      assert Lower(t) == t;
      MissingCharNoOccurrence(t, "upgrade", 'p');
      MissingCharNoOccurrence(t, "revised upwards", 'p');
      MissingCharNoOccurrence(t, "downgrade", 'w');
      MissingCharNoOccurrence(t, "revised downwards", 'w');
    }
    assert t[6..8] == "b+";
    assert RatingAt(t, 6) == "b+";
    assert FirstAnchor(t, 6) by {
      assert IsB(t[9]) && NoNewlineIn(t, 7, 9);
      assert forall i: nat :: i < 6 ==> !IsB(t[i]);
    }
    RatingsFromFirstAnchor(t, 6);
  }

  /** The second `b`/`B` must be on the same line as the first: `.` does not
      match a line break. */
  lemma LineBreakBlocksMatch()
    ensures ExtractRatingChange("B\nB").oldRating == None
  {
    var u := "B\nB";
    forall i: nat
      ensures !Anchor(u, i)
    {
      if i == 0 {
        assert u[1] == '\n';
        assert !NoNewlineIn(u, 1, 2);
      }
    }
  }

  /** A match is found on a later line when the first line has no pair. */
  lemma MatchOnLaterLine()
    ensures ExtractRatingChange("B\nBB").oldRating == Some("B")
  {
    var t := "B\nBB";
    assert t[2..3] == "B";
    assert RatingAt(t, 2) == "B";
    assert FirstAnchor(t, 2) by {
      assert IsB(t[3]) && NoNewlineIn(t, 3, 3);
      assert t[1] == '\n' && !NoNewlineIn(t, 1, 2);
      assert !Anchor(t, 0) && !Anchor(t, 1);
    }
    RatingsFromFirstAnchor(t, 2);
  }
}
