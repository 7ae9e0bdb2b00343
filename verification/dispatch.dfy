/** `handle_message`: what the bot says, if anything, in reply to one chat
    message. Messages from ignored nicks and from nicks that are not keys of
    the user lookup are dropped; otherwise every other lookup entry whose full
    name the message mentions contributes its mention name, in lookup order,
    and a single reply `@h1 @h2 ... ^^^` is said when there is at least one.
    Saying the reply on the room is the caller's business: the function
    returns it. */
module Dispatch {
  import opened Seqs
  import Text
  import Matcher
  import Roster

  /** Every full name in the lookup lies inside the modelled regex fragment. */
  ghost predicate PlainNames(lookup: seq<Roster.User>) {
    forall u :: u in lookup ==> Matcher.PlainName(u.name)
  }

  /** The message sent by `nick` mentions this entry, and the entry is not
      the sender's own. */
  predicate Addressed(msg: string, nick: string, u: Roster.User) {
    u.name != nick && Matcher.PlainName(u.name) && Matcher.MessageMentions(msg, u.name)
  }

  /** `Addressed` as a filter criterion. */
  function AddressedBy(msg: string, nick: string): Roster.User -> bool {
    (u: Roster.User) => Addressed(msg, nick, u)
  }

  /** The mention names collected by the loop over
      `lookup.reject { |k, v| k == nick }`: one per matching entry, in lookup
      order. */
  function Mentions(lookup: seq<Roster.User>, nick: string, msg: string): (hs: seq<string>)
    requires PlainNames(lookup)
    ensures |hs| <= |lookup|
    ensures var idx := Positions(lookup, AddressedBy(msg, nick));
      && |hs| == |idx|
      && Increasing(idx)
      && (forall i :: 0 <= i < |idx| ==> idx[i] < |lookup| && hs[i] == lookup[idx[i]].mentionName)
      && (forall j :: 0 <= j < |lookup| ==>
            (j in idx <==> lookup[j].name != nick && Matcher.MessageMentions(msg, lookup[j].name)))
  {
    var picked := Filter(lookup, AddressedBy(msg, nick));
    PositionsSelect(lookup, AddressedBy(msg, nick));
    seq(|picked|, i requires 0 <= i < |picked| => picked[i].mentionName)
  }

  /** Each handle prefixed with `@`. */
  function Tags(handles: seq<string>): (tags: seq<string>)
    ensures |tags| == |handles|
    ensures forall i :: 0 <= i < |handles| ==> tags[i] == "@" + handles[i]
  {
    seq(|handles|, i requires 0 <= i < |handles| => "@" + handles[i])
  }

  /** The reply text: the tags joined by single spaces, then ` ^^^`. */
  function Reply(handles: seq<string>): (r: string)
    requires |handles| > 0
    ensures |r| >= 5 && r[0] == '@' && r[|r| - 4..] == " ^^^"
  {
    var body := Text.Join(Tags(handles), ' ');
    assert body[..|"@" + handles[0]|] == "@" + handles[0];
    body + " ^^^"
  }

  /** Reads the handles back out of a reply; `None` for any text that is not
      of the reply's shape. */
  function ParseReply(r: string): Option<seq<string>> {
    if |r| < 4 || r[|r| - 4..] != " ^^^" then None
    else
      var words := Text.Split(r[..|r| - 4], ' ');
      if forall w :: w in words ==> |w| > 0 && w[0] == '@'
      then Some(seq(|words|, i requires 0 <= i < |words| => words[i][1..]))
      else None
  }

  /** The reply names exactly the matched handles, in order: reading it back
      recovers the list (mention names hold no spaces). */
  lemma ReplyRoundTrip(handles: seq<string>)
    requires |handles| > 0
    requires forall h :: h in handles ==> ' ' !in h
    ensures ParseReply(Reply(handles)) == Some(handles)
  {
    var tags := Tags(handles);
    var body := Text.Join(tags, ' ');
    var r := Reply(handles);
    assert r[..|r| - 4] == body;
    forall i | 0 <= i < |tags|
      ensures ' ' !in tags[i]
    {
      assert handles[i] in handles;
      assert tags[i] == "@" + handles[i];
    }
    Text.SplitJoin(tags, ' ');
    var words := Text.Split(r[..|r| - 4], ' ');
    assert words == tags;
    forall w | w in words
      ensures |w| > 0 && w[0] == '@'
    {
      var i :| 0 <= i < |tags| && tags[i] == w;
      assert tags[i] == "@" + handles[i];
    }
    var stripped := seq(|words|, i requires 0 <= i < |words| => words[i][1..]);
    forall i | 0 <= i < |tags|
      ensures stripped[i] == handles[i]
    {
      assert tags[i] == "@" + handles[i];
    }
    assert stripped == handles;
  }

  /** At least one handle is collected exactly when some entry other than
      the sender's is mentioned. */
  lemma MentionsNonEmpty(lookup: seq<Roster.User>, nick: string, msg: string)
    requires PlainNames(lookup)
    ensures |Mentions(lookup, nick, msg)| > 0 <==>
      exists u :: u in lookup && u.name != nick && Matcher.MessageMentions(msg, u.name)
  {
    var hs := Mentions(lookup, nick, msg);
    var idx := Positions(lookup, AddressedBy(msg, nick));
    if u :| u in lookup && u.name != nick && Matcher.MessageMentions(msg, u.name) {
      var j :| 0 <= j < |lookup| && lookup[j] == u;
      assert j in idx;
    }
    if |hs| > 0 {
      assert lookup[idx[0]] in lookup;
    }
  }

  /** When exactly one entry other than the sender's is mentioned, the
      reply tags that entry alone. */
  lemma SingleMention(lookup: seq<Roster.User>, nick: string, msg: string, j: nat)
    requires PlainNames(lookup)
    requires j < |lookup| && lookup[j].name != nick && Matcher.MessageMentions(msg, lookup[j].name)
    requires forall k :: 0 <= k < |lookup| && k != j ==>
      lookup[k].name == nick || !Matcher.MessageMentions(msg, lookup[k].name)
    ensures Mentions(lookup, nick, msg) == [lookup[j].mentionName]
  {
    var hs := Mentions(lookup, nick, msg);
    var idx := Positions(lookup, AddressedBy(msg, nick));
    assert j in idx;
    assert forall i :: 0 <= i < |idx| ==> idx[i] == j;
    IncreasingSpread(idx);
  }

  /** `handle_message`: the reply said on the room, if any. */
  function HandleMessage(ignore: seq<string>, lookup: seq<Roster.User>, nick: string, msg: string)
    : (reply: Option<string>)
    requires PlainNames(lookup)
    ensures nick in ignore ==> reply == None
    ensures !Roster.HasKey(lookup, nick) ==> reply == None
    ensures reply.Some? <==>
      && nick !in ignore
      && Roster.HasKey(lookup, nick)
      && exists u :: u in lookup && u.name != nick && Matcher.MessageMentions(msg, u.name)
    ensures reply.Some? ==> reply.value == Reply(Mentions(lookup, nick, msg))
  {
    if nick in ignore then None
    else if !Roster.HasKey(lookup, nick) then None
    else
      var hs := Mentions(lookup, nick, msg);
      MentionsNonEmpty(lookup, nick, msg);
      if |hs| > 0 then Some(Reply(hs)) else None
  }

  /** The reply lists, in lookup order, the mention name of every entry other
      than the sender's whose full name the message mentions, and nothing
      else; the sender's own entry is skipped. */
  lemma ReplyNamesMatchedEntries(ignore: seq<string>, lookup: seq<Roster.User>, nick: string, msg: string)
    requires PlainNames(lookup)
    requires HandleMessage(ignore, lookup, nick, msg).Some?
    requires forall u :: u in lookup ==> ' ' !in u.mentionName
    ensures ParseReply(HandleMessage(ignore, lookup, nick, msg).value) == Some(Mentions(lookup, nick, msg))
  {
    var hs := Mentions(lookup, nick, msg);
    var idx := Positions(lookup, AddressedBy(msg, nick));
    forall h | h in hs
      ensures ' ' !in h
    {
      var i :| 0 <= i < |hs| && hs[i] == h;
      assert lookup[idx[i]] in lookup;
    }
    ReplyRoundTrip(hs);
  }
}
