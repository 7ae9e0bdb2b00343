# Scrivener mention bot — Dafny model

Scrivener sits in HipChat rooms as an XMPP participant. When a chat message
addresses someone by name, it replies in the room, tagging that person's
`@mention` handle. This project models the bot's decision logic in Dafny
and proves properties about it. The logic lives in `Scrivener::Main` in
`scrivener.rb`:

- **The name matcher `message_mentions`** (modules `Pattern`, `Matcher`).
  It asks whether a message mentions a participant with a given full name.
  It tries three forms of the name, and each one must be followed by a
  colon later on the same line:
  1. the full name;
  2. the full name without spaces;
  3. the form without spaces or dots.

  Forms 2 and 3 are refused when the message contains `@` followed by that
  form anywhere. The name is spliced into a regular expression without
  escaping, so `Pattern` models that fragment as written: a `.` in the name
  matches any character except a newline, and `.*` does not cross a newline.
- **The dispatcher `handle_message`** (module `Dispatch`). It drops messages
  from ignored nicks and from nicks that are not keys of the user lookup.
  It runs the matcher against every other entry and collects the mention
  names of the entries that match, in lookup order. It composes at most one
  reply, `@h1 @h2 ... ^^^`. Saying the reply in the room becomes the
  function's return value (`Option<string>`).
- **The user lookup built by `cache_users`** (module `Roster`). The lookup
  is a Ruby hash, which iterates in insertion order and keeps a key's
  position when the key is assigned again. It is therefore an ordered
  association list. Its construction is a fold of hash assignments over the
  fetched user list. `Roster` also models the one-retry rule of `request`
  over abstract attempt outcomes, and the wholesale replacement of the
  lookup after a successful fetch.
- **Room selection** (module `Rooms`). `get_rooms` keeps the rooms that are
  neither archived nor private and projects each to its name and JID.
  `init_xmpp` joins such a room when the `ROOMS` allowlist is empty or names
  it.

Two support modules sit underneath:

- `Seqs`: order-preserving filtering, plus the positions that filtering
  keeps.
- `Text`: character removal (`gsub`), literal substring search
  (`String#index`), and joining and splitting on one separator.

The `*_examples` modules hold worked inputs, each proved.

Two consequences of the code are worth stating, because a looser reading of
the matcher suggests the opposite:

- **A first name alone is never a mention.** Take the message
  `hey Jane: can you help` and the participant `Jane Doe`. None of the three
  forms (`Jane Doe`, `JaneDoe`, `JaneDoe`) occurs in the message, so the
  matcher answers false (`MatcherExamples.FirstNameOnly`).
- **So a first name gets no reply.** With the lookup
  `{"Jane Doe" => "jane", "Bob Lee" => "bob"}`, Jane's message
  `hey Bob: check this out` produces no reply
  (`DispatchExamples.FirstNameNoReply`). `hey Bob Lee: check this out`
  produces `@bob ^^^` (`DispatchExamples.FullNameReply`).

The model follows the code.

## Model

| member | source | states |
|---|---|---|
| Matcher.MessageMentions | scrivener.rb:109-122 | The message mentions the name exactly when one of three rules holds. Rule 1: the full name, with a colon later on the same line. Rule 2: the space-free form the same way, with no literal `@`+form anywhere in the message. Rule 3: the same for the space- and dot-free form. |
| Matcher.NoColonNoMention | scrivener.rb:112-121 | A message without a colon mentions nobody, because every rule needs a colon after the name. |
| Matcher.FullNameBeatsHandle | scrivener.rb:112 | The full name followed by a colon on the same line is a mention, whatever `@` handles the message also holds. |
| Matcher.HandleBlocksShortForms | scrivener.rb:115-119 | When `@`+short form and `@`+bare form occur anywhere in the message, only the full-name rule can make a mention. |
| Matcher.HandleBlocksDotlessName | scrivener.rb:114-119 | For a name without dots, one `@`+short form anywhere in the message leaves the full-name rule as the only way to a mention. |
| Matcher.MissingLetterNoMention | scrivener.rb:112-119 | A letter of the name other than space or dot that the message lacks rules out all three rules. |
| Matcher.ShortFormMention | scrivener.rb:114-115 | The space-free form followed by a colon on the same line, with no `@`+form in the message, is a mention. |
| Matcher.BareFormMention | scrivener.rb:117-119 | The space- and dot-free form followed by a colon on the same line, with no `@`+form in the message, is a mention. |
| Pattern.Search | scrivener.rb:112 | The unanchored match of `/name.*:/` succeeds exactly when, at some index, the name matches (`.` matching any non-newline character) and a colon follows with no newline in between. |
| Pattern.ColonFrom | scrivener.rb:112 | The `.*:` tail succeeds from an index exactly when a colon lies ahead on the same line. |
| Pattern.LiteralMissing | scrivener.rb:112 | A literal character of the name that the message lacks makes the pattern fail. |
| Pattern.ColonStopsAtNewline | scrivener.rb:112 | A newline before any colon makes the `.*:` tail fail. |
| Text.Contains | scrivener.rb:115 | `message.index(t)` is non-nil exactly when `t` occurs in the message at some index. |
| Text.RemoveChars | scrivener.rb:114 | `gsub` of one character removes every occurrence of it. Every other character stays, as many times as it occurred (the multiset of the result is that of the input with the character's count set to zero). |
| Text.RemoveConcat | scrivener.rb:118 | Deleting distributes over concatenation, so the surviving characters keep their original order. |
| Text.Join | scrivener.rb:138 | Joining a non-empty list of words puts the first word at the front of the result. |
| Text.SplitJoin | scrivener.rb:138 | Splitting a joined text at the separator gives back exactly the words, when no word holds the separator. |
| MatcherExamples.HandleWithoutColon | scrivener.rb:109-122 | `Al Jr. is here, @AlJr thanks` does not mention `Al Jr.`: it has no colon. |
| MatcherExamples.FirstNameOnly | scrivener.rb:109-122 | `hey Jane: can you help` does not mention `Jane Doe`. |
| MatcherExamples.DotlessShortForm | scrivener.rb:117-119 | `AlJr: hi` mentions `Al Jr.` through the dot-free form. |
| MatcherExamples.TaggedHandle | scrivener.rb:114-119 | `@JaneDoe:+1` does not mention `Jane Doe`: the handle tag blocks the short form. |
| MatcherExamples.DotIsWildcard | scrivener.rb:112 | `Al Jrx: hi` mentions `Al Jr.`, because the name's dot matches any character. |
| Dispatch.Mentions | scrivener.rb:132-135 | The collected handles are, in lookup order, the mention names of exactly those entries whose key differs from the sender's nick and whose name the message mentions. Each entry contributes at most once. |
| Dispatch.MentionsNonEmpty | scrivener.rb:132-136 | At least one handle is collected exactly when some entry other than the sender's is mentioned. |
| Dispatch.SingleMention | scrivener.rb:133-135 | When exactly one other entry is mentioned, the handles are that entry's mention name alone. |
| Dispatch.Tags | scrivener.rb:138 | Each handle becomes `@` followed by the handle, one tag per handle, in order. |
| Dispatch.Reply | scrivener.rb:138 | The reply starts with `@` and ends with ` ^^^`. |
| Dispatch.ReplyRoundTrip | scrivener.rb:138 | Parsing the reply text back recovers exactly the handle list, in order, when the handles hold no spaces. |
| Dispatch.HandleMessage | scrivener.rb:124-141 | Ignored senders and senders that are not lookup keys get no reply. Otherwise there is a reply exactly when some other entry is mentioned, and the reply is built from the collected handles. |
| Dispatch.ReplyNamesMatchedEntries | scrivener.rb:133-139 | When no mention name holds a space, the single reply names, in order, exactly the handles of the matched entries. |
| DispatchExamples.FirstNameNoReply | scrivener.rb:124-141 | With the lookup Jane Doe/jane, Bob Lee/bob, Jane's `hey Bob: check this out` gets no reply. |
| DispatchExamples.FullNameReply | scrivener.rb:124-141 | With the same lookup, Jane's `hey Bob Lee: check this out` gets exactly `@bob ^^^`. |
| DispatchExamples.IgnoredSenderNoReply | scrivener.rb:126 | An ignored sender gets no reply even for a message that mentions someone. |
| Roster.HasKey | scrivener.rb:130 | `include?` holds exactly when some entry of the lookup has the name as its key. |
| Roster.Lookup | scrivener.rb:51 | Reading a key finds a value exactly when the name is a key of the lookup. The contracts of `Put` and `CacheUsers` are stated through this read. |
| Roster.Put | scrivener.rb:51 | Assigning a key appends it if new and otherwise keeps its position. The key then holds the new value. Every other key keeps its value. |
| Roster.CacheUsers | scrivener.rb:49-53 | The keys of the built lookup are the input names in order of first appearance. Each key holds the mention name of the last user carrying that name. |
| Roster.CacheUsersKeys | scrivener.rb:49-53 | The built lookup has exactly the input names as keys, each once. |
| Roster.LastMentionIsLast | scrivener.rb:50-51 | The value a name ends up with is that of a user with the name after whom no user carries it. |
| Roster.LaterDuplicateWins | scrivener.rb:50-51 | A later user with a repeated name overwrites the earlier value. |
| Roster.Request | scrivener.rb:143-158 | A request makes one or two attempts. A 403 is re-raised after the first attempt. Any other client error is retried exactly once. The result is the body of the first successful attempt. |
| Roster.Refresh | scrivener.rb:40-54 | A failed fetch leaves the current lookup in place. A successful one installs the lookup built from the fetched list. |
| Roster.RefreshIgnoresPrevious | scrivener.rb:49-54 | After a successful fetch the new lookup does not depend on the previous one: it is replaced whole. |
| RosterExamples.DuplicateKeepsPosition | scrivener.rb:49-53 | Ann/a1, Bo/b, Ann/a2 builds the lookup Ann/a2, Bo/b. |
| RosterExamples.RefreshOutcomes | scrivener.rb:143-158 | An error then a 403 keeps the current lookup. An error then a success installs the fetched list. |
| Rooms.GetRooms | scrivener.rb:65-67 | The result lists, in input order, exactly the rooms that are neither archived nor private, each as its name and JID. |
| Rooms.ShouldJoin | scrivener.rb:94 | A listed room is skipped exactly when the allowlist is non-empty and does not contain its name. |
| Rooms.RoomsToJoin | scrivener.rb:91-94 | A target is joined exactly when it comes from an open room and the allowlist is empty or contains its name. The joined targets are those of `get_rooms` that the allowlist admits, in listing order. |
| Rooms.EmptyAllowlistJoinsAll | scrivener.rb:94 | With an empty allowlist every listed room is joined, in order. |

## Left out

- Matcher.MessageMentions: requires the name to hold no regex operator other than `.` (`\ ^ $ | ? * + ( ) [ ] { }`). The code splices such names into the regex unescaped, and their meaning there is not modelled.
- Dispatch.Mentions: carries the same requirement, for every key of the lookup.
- Dispatch.HandleMessage: carries the same requirement, for every key of the lookup.
- Dispatch.ReplyRoundTrip: assumes mention names hold no spaces. The code promises nothing for handles with spaces, and such a reply cannot be read back.
- Dispatch.ReplyNamesMatchedEntries: assumes the same of every mention name in the lookup, for the same reason.
- Text.Remove: carries no contract of its own, because one makes the worked examples over literal names too costly to verify. Its meaning is stated by `Text.RemoveChars` (which characters survive, and how many) and `Text.RemoveConcat` (their order).
- Roster.Request: models the outcome of the HTTP attempts, not the requests. A JSON decoding error is not an Excon error, so the code does not retry it; the model has no such outcome.
- patch.rb: an encoding workaround for other libraries, with no bot logic.
- XMPP connection, authentication, presence, room join and `say`: calls into the XMPP library. The reply is returned instead of said.
- HTTP calls and JSON decoding: network I/O. They become the abstract attempt outcomes of `Roster.Request`, and `cache_users` and `get_rooms` take the decoded list as input.
- `http_loop`: an endless sleep-and-retry loop with no decision logic beyond `Roster.Refresh`.
- Concurrency between the refresh loop and the message callback: the lookup is an immutable value replaced whole.
- Logging (`log`, `puts`).
- Configuration: reading `ENV`, splitting `ROOMS` and `IGNORE_USERS` on commas, and `abort` when a variable is missing. The ignore list and the allowlist are parameters.
- Message timestamps: the callback ignores its time argument, and the code keeps no watermark of processed messages.
- Malformed directory listings, such as a missing `users` or `rooms` key: the model takes the lists as given.
