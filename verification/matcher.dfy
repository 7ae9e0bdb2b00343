/** The name matcher `message_mentions`: does a chat message address the
    participant with this full name? Three rules are tried in order, and each
    needs a colon after the name on the same line so that off-hand mentions do
    not count:
      1. the full name (its `.`s are wildcards);
      2. the short form, the full name with its spaces removed, unless the
         message anywhere contains `@` followed by that short form literally;
      3. the bare form, the short form with its dots removed as well (for
         names like "Ricardo Chimal Jr."), under the same `@` exclusion. */
module Matcher {
  import Text
  import Pattern

  /** Characters that would act as regex operators if spliced into the
      pattern; `.` is handled by the model as the wildcard it becomes. */
  predicate Operator(c: char) {
    || c == '\\' || c == '^' || c == '$' || c == '|' || c == '?' || c == '*' || c == '+'
    || c == '(' || c == ')' || c == '[' || c == ']' || c == '{' || c == '}'
  }

  /** A name inside the regex fragment the model covers. */
  predicate PlainName(name: string) {
    forall k :: 0 <= k < |name| ==> !Operator(name[k])
  }

  /** The full name with its spaces removed (`full.gsub(" ", "")`). */
  function ShortForm(full: string): string {
    Text.Remove(full, ' ')
  }

  /** The short form with its dots removed as well. */
  function BareForm(full: string): string {
    Text.Remove(ShortForm(full), '.')
  }

  /** Rule 1: the full name, then a colon on the same line. */
  ghost predicate FullRule(msg: string, full: string) {
    Pattern.Found(msg, full)
  }

  /** Rule 2: the short form, then a colon, and no literal `@`+short form
      anywhere in the message. */
  ghost predicate ShortRule(msg: string, full: string) {
    Pattern.Found(msg, ShortForm(full)) && !Text.Occurs(msg, "@" + ShortForm(full))
  }

  /** Rule 3: rule 2 for the bare form. */
  ghost predicate BareRule(msg: string, full: string) {
    Pattern.Found(msg, BareForm(full)) && !Text.Occurs(msg, "@" + BareForm(full))
  }

  /** Whether `msg` mentions the participant named `full`. */
  predicate MessageMentions(msg: string, full: string)
    requires PlainName(full)
    ensures MessageMentions(msg, full) <==>
      FullRule(msg, full) || ShortRule(msg, full) || BareRule(msg, full)
  {
    var short := ShortForm(full);
    var bare := BareForm(full);
    || Pattern.Search(msg, full)
    || (Pattern.Search(msg, short) && !Text.Contains(msg, "@" + short))
    || (Pattern.Search(msg, bare) && !Text.Contains(msg, "@" + bare))
  }

  /** Every rule needs a colon: a message without one mentions nobody. */
  lemma NoColonNoMention(msg: string, full: string)
    requires PlainName(full)
    requires ':' !in msg
    ensures !MessageMentions(msg, full)
  {
    Pattern.NoColonNoMatch(msg, full);
    Pattern.NoColonNoMatch(msg, ShortForm(full));
    Pattern.NoColonNoMatch(msg, BareForm(full));
  }

  /** The full-name rule ignores `@` handles: the full name followed by a
      colon on the same line is a mention even when the message also tags the
      participant's handle. */
  lemma FullNameBeatsHandle(msg: string, full: string, i: nat, e: nat)
    requires PlainName(full)
    requires Pattern.MatchesAt(msg, full, i)
    requires i + |full| <= e < |msg| && msg[e] == ':'
    requires forall k :: i + |full| <= k < e ==> msg[k] != '\n'
    ensures MessageMentions(msg, full)
  {
    Pattern.MatchWitness(msg, full, i, e);
  }

  /** `@` followed by the short form and by the bare form, anywhere in the
      message (not only next to the match), disables both short-form rules:
      only the full name can then make a mention. */
  lemma HandleBlocksShortForms(msg: string, full: string)
    requires PlainName(full)
    requires Text.Occurs(msg, "@" + ShortForm(full))
    requires Text.Occurs(msg, "@" + BareForm(full))
    ensures MessageMentions(msg, full) <==> FullRule(msg, full)
  {
  }

  /** For a name without dots the two short forms coincide, so one `@`+short
      form anywhere leaves only the full-name rule. */
  lemma HandleBlocksDotlessName(msg: string, full: string)
    requires PlainName(full)
    requires '.' !in full
    requires Text.Occurs(msg, "@" + ShortForm(full))
    ensures MessageMentions(msg, full) <==> FullRule(msg, full)
    ensures !FullRule(msg, full) ==> !MessageMentions(msg, full)
  {
    Text.RemoveAddsNothing(full, ' ', '.');
    Text.RemoveAbsent(ShortForm(full), '.');
    assert BareForm(full) == ShortForm(full);
  }

  /** A letter of the name that the message lacks rules out every rule: the
      letter survives into both short forms. */
  lemma MissingLetterNoMention(msg: string, full: string, c: char)
    requires PlainName(full)
    requires c in full && c != ' ' && c != '.'
    requires c !in msg
    ensures !MessageMentions(msg, full)
  {
    var k :| 0 <= k < |full| && full[k] == c;
    Pattern.LiteralMissing(msg, full, k);
    var short := ShortForm(full);
    Text.RemoveKeeps(full, ' ', c);
    var ks :| 0 <= ks < |short| && short[ks] == c;
    Pattern.LiteralMissing(msg, short, ks);
    var bare := BareForm(full);
    Text.RemoveKeeps(short, '.', c);
    var kb :| 0 <= kb < |bare| && bare[kb] == c;
    Pattern.LiteralMissing(msg, bare, kb);
  }

  /** The short form, then a colon, with no `@`-tag of it, is a mention. */
  lemma ShortFormMention(msg: string, full: string, i: nat, e: nat)
    requires PlainName(full)
    requires Pattern.MatchesAt(msg, ShortForm(full), i)
    requires i + |ShortForm(full)| <= e < |msg| && msg[e] == ':'
    requires forall k :: i + |ShortForm(full)| <= k < e ==> msg[k] != '\n'
    requires !Text.Occurs(msg, "@" + ShortForm(full))
    ensures MessageMentions(msg, full)
  {
    Pattern.MatchWitness(msg, ShortForm(full), i, e);
  }

  /** The bare form, then a colon, with no `@`-tag of it, is a mention. */
  lemma BareFormMention(msg: string, full: string, i: nat, e: nat)
    requires PlainName(full)
    requires Pattern.MatchesAt(msg, BareForm(full), i)
    requires i + |BareForm(full)| <= e < |msg| && msg[e] == ':'
    requires forall k :: i + |BareForm(full)| <= k < e ==> msg[k] != '\n'
    requires !Text.Occurs(msg, "@" + BareForm(full))
    ensures MessageMentions(msg, full)
  {
    Pattern.MatchWitness(msg, BareForm(full), i, e);
  }
}
