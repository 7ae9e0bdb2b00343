/** Worked inputs for the name matcher. */
module MatcherExamples {
  import Text
  import Pattern
  import opened Matcher

  lemma JaneShort()
    ensures ShortForm("Jane Doe") == "JaneDoe"
  {
  }

  lemma JanePlain()
    ensures PlainName("Jane Doe") && '.' !in "Jane Doe"
  {
  }

  lemma AlPlain()
    ensures PlainName("Al Jr.")
  {
  }

  lemma AlBare()
    ensures BareForm("Al Jr.") == "AlJr"
  {
    assert ShortForm("Al Jr.") == "AlJr.";
  }

  /** No colon, no mention. */
  lemma NothingRelevant()
    ensures !MessageMentions("nothing relevant here", "Jane Doe")
  {
    NoColonNoMention("nothing relevant here", "Jane Doe");
  }

  /** The name and its handle both appear, but there is no colon. */
  lemma HandleWithoutColon()
    ensures !MessageMentions("Al Jr. is here, @AlJr thanks", "Al Jr.")
  {
    NoColonNoMention("Al Jr. is here, @AlJr thanks", "Al Jr.");
  }

  /** A first name alone is neither the full name nor a short form. */
  lemma FirstNameOnly()
    ensures !MessageMentions("hey Jane: can you help", "Jane Doe")
  {
    MissingLetterNoMention("hey Jane: can you help", "Jane Doe", 'D');
  }

  lemma AlBareMatch()
    ensures Pattern.MatchesAt("AlJr: hi", BareForm("Al Jr."), 0)
  {
    AlBare();
  }

  lemma AlUntagged()
    ensures !Text.Occurs("AlJr: hi", "@" + BareForm("Al Jr."))
  {
    AlBare();
    assert "@" + BareForm("Al Jr.") == "@AlJr";
    Text.OccursNeedsChar("AlJr: hi", "@AlJr", '@');
  }

  /** The bare form catches a name written without spaces and dots. */
  lemma DotlessShortForm()
    ensures MessageMentions("AlJr: hi", "Al Jr.")
  {
    AlPlain();
    AlBare();
    AlBareMatch();
    AlUntagged();
    BareFormMention("AlJr: hi", "Al Jr.", 0, 4);
  }

  lemma JaneNotFull()
    ensures !FullRule("@JaneDoe:+1", "Jane Doe")
  {
    Pattern.LiteralMissing("@JaneDoe:+1", "Jane Doe", 4);
  }

  lemma JaneTagged()
    ensures Text.Occurs("@JaneDoe:+1", "@" + ShortForm("Jane Doe"))
  {
    JaneShort();
    assert "@" + ShortForm("Jane Doe") == "@JaneDoe";
    assert Text.OccursAt("@JaneDoe:+1", "@JaneDoe", 0);
  }

  /** Tagging the handle suppresses the short-form mention. */
  lemma TaggedHandle()
    ensures !MessageMentions("@JaneDoe:+1", "Jane Doe")
  {
    JanePlain();
    JaneNotFull();
    JaneTagged();
    HandleBlocksDotlessName("@JaneDoe:+1", "Jane Doe");
  }

  /** The unescaped `.` of "Jr." matches any character, here an `x`. */
  lemma DotIsWildcard()
    ensures MessageMentions("Al Jrx: hi", "Al Jr.")
  {
    var msg := "Al Jrx: hi";
    assert Pattern.MatchesAt(msg, "Al Jr.", 0);
    FullNameBeatsHandle(msg, "Al Jr.", 0, 6);
  }
}
