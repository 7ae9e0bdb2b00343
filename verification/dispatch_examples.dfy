/** A worked conversation: Jane Doe and Bob Lee are known users, and Jane
    writes to Bob. */
module DispatchExamples {
  import opened Seqs
  import Text
  import Pattern
  import Matcher
  import Roster
  import opened Dispatch

  function Users(): seq<Roster.User> {
    [Roster.User("Jane Doe", "jane"), Roster.User("Bob Lee", "bob")]
  }

  lemma UsersPlain()
    ensures PlainNames(Users())
  {
    assert Matcher.PlainName("Jane Doe");
    assert Matcher.PlainName("Bob Lee");
  }

  lemma JaneKnown()
    ensures Roster.HasKey(Users(), "Jane Doe")
  {
    assert Roster.Names(Users())[0] == "Jane Doe";
  }

  lemma BobOnlyOther(u: Roster.User)
    requires u in Users() && u.name != "Jane Doe"
    ensures u == Roster.User("Bob Lee", "bob")
  {
  }

  lemma BobNotMentionedByFirstName()
    ensures Matcher.PlainName("Bob Lee")
    ensures !Matcher.MessageMentions("hey Bob: check this out", "Bob Lee")
  {
    Matcher.MissingLetterNoMention("hey Bob: check this out", "Bob Lee", 'L');
  }

  /** A first name is not enough, so Jane's message produces no reply. */
  lemma FirstNameNoReply()
    ensures HandleMessage([], Users(), "Jane Doe", "hey Bob: check this out") == None
  {
    UsersPlain();
    BobNotMentionedByFirstName();
    forall u | u in Users() && u.name != "Jane Doe"
      ensures !Matcher.MessageMentions("hey Bob: check this out", u.name)
    {
      BobOnlyOther(u);
    }
  }

  lemma BobMentionedByFullName()
    ensures Matcher.PlainName("Bob Lee")
    ensures Matcher.MessageMentions("hey Bob Lee: check this out", "Bob Lee")
  {
    assert Pattern.MatchesAt("hey Bob Lee: check this out", "Bob Lee", 4);
    Matcher.FullNameBeatsHandle("hey Bob Lee: check this out", "Bob Lee", 4, 11);
  }

  lemma OnlyBobCollected()
    ensures PlainNames(Users())
    ensures Mentions(Users(), "Jane Doe", "hey Bob Lee: check this out") == ["bob"]
  {
    UsersPlain();
    BobMentionedByFullName();
    SingleMention(Users(), "Jane Doe", "hey Bob Lee: check this out", 1);
  }

  lemma BobReply()
    ensures Reply(["bob"]) == "@bob ^^^"
  {
    var tags := Tags(["bob"]);
    assert tags[0] == "@" + "bob" == "@bob";
    assert tags == ["@bob"];
    assert Text.Join(tags, ' ') == "@bob";
  }

  /** The full name followed by a colon tags Bob, and only Bob: Jane's own
      entry is skipped. */
  lemma FullNameReply()
    ensures HandleMessage([], Users(), "Jane Doe", "hey Bob Lee: check this out") == Some("@bob ^^^")
  {
    UsersPlain();
    JaneKnown();
    BobMentionedByFullName();
    OnlyBobCollected();
    BobReply();
    assert Users()[1] in Users();
  }

  /** An ignored sender gets no reply, whatever the message says. */
  lemma IgnoredSenderNoReply()
    ensures PlainNames(Users())
    ensures HandleMessage(["Jane Doe"], Users(), "Jane Doe", "hey Bob Lee: check this out") == None
  {
    UsersPlain();
  }
}
