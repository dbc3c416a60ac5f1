/** Addresses the e-mail shape accepts and rejects. */
module EmailExamples {

  import opened EmailRegex
  import Text

  lemma AcceptedExamples()
    ensures Matches("a@b.com")
    ensures Matches("a@b.c.d")
  {
    assert MatchAt("a@b.com", 1, 3);
    assert MatchAt("a@b.c.d", 1, 3);
  }

  /** No `@`, no `.` after the `@`, nothing between the `@` and the `.`, and
      nothing after the `.`: each is refused. */
  lemma RejectedExamples()
    ensures !Matches("ab.com")
    ensures !Matches("a@bcom")
    ensures !Matches("a@.com")
    ensures !Matches("a@b.")
  {
    MatchesIffFeatures("ab.com");
    MatchesIffFeatures("a@bcom");
    MatchesIffFeatures("a@.com");
    MatchesIffFeatures("a@b.");
  }

  /** A second `@` and a space are refused wherever they appear. */
  lemma RejectedByCharacterExamples()
    ensures !Matches("a@@b.com")
    ensures !Matches("a b@c.com")
  {
    var twoAts := "a@@b.com";
    MatchesIffFeatures(twoAts);
    assert twoAts[1] == '@' && twoAts[2] == '@';
    var space := "a b@c.com";
    MatchesIffFeatures(space);
    assert Text.IsWhitespace(space[1]);
  }
}
