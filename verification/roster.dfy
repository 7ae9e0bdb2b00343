/** The user lookup: a map from full display name to mention name, rebuilt
    from the directory's user list and swapped in whole. A Ruby hash iterates
    in insertion order and keeps a key's position when the key is assigned
    again, so the lookup is modelled as an ordered association list. */
module Roster {
  import opened Seqs

  /** A user record of the directory listing, and equally an entry of the
      lookup: full name and mention name. */
  datatype User = User(name: string, mentionName: string)

  /** The full names, in order. */
  function Names(us: seq<User>): (ns: seq<string>)
    ensures |ns| == |us|
    ensures forall i :: 0 <= i < |us| ==> ns[i] == us[i].name
  {
    seq(|us|, i requires 0 <= i < |us| => us[i].name)
  }

  /** No name appears twice. */
  ghost predicate Distinct(xs: seq<string>) {
    forall i, j :: 0 <= i < j < |xs| ==> xs[i] != xs[j]
  }

  /** `lookup.include?(name)`: some entry has `name` as its key. */
  predicate HasKey(lookup: seq<User>, name: string)
    ensures HasKey(lookup, name) <==> exists i :: 0 <= i < |lookup| && lookup[i].name == name
  {
    name in Names(lookup)
  }

  /** `lookup[name]`: the mention name stored under `name`, if any. */
  function Lookup(lookup: seq<User>, name: string): (r: Option<string>)
    ensures r.Some? <==> HasKey(lookup, name)
    decreases |lookup|
  {
    if |lookup| == 0 then None
    else if lookup[0].name == name then Some(lookup[0].mentionName)
    else
      assert Names(lookup) == [lookup[0].name] + Names(lookup[1..]);
      Lookup(lookup[1..], name)
  }

  lemma NamesCons(x: User, rest: seq<User>)
    ensures Names([x] + rest) == [x.name] + Names(rest)
  {
  }

  lemma LookupCons(x: User, rest: seq<User>)
    ensures forall n :: Lookup([x] + rest, n) == if x.name == n then Some(x.mentionName) else Lookup(rest, n)
  {
    assert ([x] + rest)[1..] == rest;
  }

  /** Assigning the key held by the first entry replaces that entry. */
  lemma ReplaceHead(head: User, tail: seq<User>, u: User)
    requires head.name == u.name
    ensures Names([u] + tail) == Names([head] + tail)
    ensures Lookup([u] + tail, u.name) == Some(u.mentionName)
    ensures forall n :: n != u.name ==> Lookup([u] + tail, n) == Lookup([head] + tail, n)
  {
    NamesCons(head, tail);
    NamesCons(u, tail);
    LookupCons(head, tail);
    LookupCons(u, tail);
  }

  /** Assigning a key the first entry does not hold keeps that entry's
      name in front of the updated tail's names. */
  lemma KeepHeadNames(head: User, tail: seq<User>, rest: seq<User>, u: User)
    requires head.name != u.name
    requires Names(rest) == if u.name in Names(tail) then Names(tail) else Names(tail) + [u.name]
    ensures var before := Names([head] + tail);
      Names([head] + rest) == if u.name in before then before else before + [u.name]
  {
    NamesCons(head, tail);
    NamesCons(head, rest);
    assert u.name in Names([head] + tail) <==> u.name in Names(tail);
    if u.name !in Names(tail) {
      assert [head.name] + (Names(tail) + [u.name]) == ([head.name] + Names(tail)) + [u.name];
    }
  }

  /** Assigning a key the first entry does not hold leaves that entry's
      value alone. */
  lemma KeepHeadValues(head: User, tail: seq<User>, rest: seq<User>, u: User)
    requires head.name != u.name
    requires Lookup(rest, u.name) == Some(u.mentionName)
    requires forall n :: n != u.name ==> Lookup(rest, n) == Lookup(tail, n)
    ensures Lookup([head] + rest, u.name) == Some(u.mentionName)
    ensures forall n :: n != u.name ==> Lookup([head] + rest, n) == Lookup([head] + tail, n)
  {
    LookupCons(head, tail);
    LookupCons(head, rest);
  }

  /** `lookup[u.name] = u.mentionName`: overwrites the value in place when
      the key exists, otherwise appends a new entry at the end. */
  function Put(lookup: seq<User>, u: User): (r: seq<User>)
    ensures Names(r) == if u.name in Names(lookup) then Names(lookup) else Names(lookup) + [u.name]
    ensures Lookup(r, u.name) == Some(u.mentionName)
    ensures forall n :: n != u.name ==> Lookup(r, n) == Lookup(lookup, n)
    decreases |lookup|
  {
    if |lookup| == 0 then
      LookupCons(u, []);
      [u]
    else
      var head := lookup[0];
      var tail := lookup[1..];
      assert lookup == [head] + tail;
      if head.name == u.name then
        ReplaceHead(head, tail, u);
        [u] + tail
      else
        var rest := Put(tail, u);
        KeepHeadNames(head, tail, rest, u);
        KeepHeadValues(head, tail, rest, u);
        [head] + rest
  }

  /** Reference order of the keys: each name at the position of its first
      occurrence. */
  function FirstOccurrences(xs: seq<string>): (r: seq<string>)
    ensures Distinct(r)
    ensures forall x :: x in r <==> x in xs
    decreases |xs|
  {
    if |xs| == 0 then []
    else
      var init := xs[..|xs| - 1];
      var last := xs[|xs| - 1];
      assert xs == init + [last];
      var prev := FirstOccurrences(init);
      if last in init then prev else prev + [last]
  }

  /** Reference value of a key: the mention name of the last user with that
      name, if any. */
  function LastMention(users: seq<User>, name: string): Option<string>
    decreases |users|
  {
    if |users| == 0 then None
    else if users[|users| - 1].name == name then Some(users[|users| - 1].mentionName)
    else LastMention(users[..|users| - 1], name)
  }

  /** The body of `cache_users`: folds the user list into a fresh lookup. Its
      keys are the input names, each once, in order of first appearance, and
      each key holds the mention name of the last user with that name. */
  function CacheUsers(users: seq<User>): (lookup: seq<User>)
    ensures Names(lookup) == FirstOccurrences(Names(users))
    ensures forall n :: Lookup(lookup, n) == LastMention(users, n)
    decreases |users|
  {
    if |users| == 0 then []
    else
      var init := users[..|users| - 1];
      assert Names(init) == Names(users)[..|users| - 1];
      Put(CacheUsers(init), users[|users| - 1])
  }

  /** The key set of the rebuilt lookup is exactly the set of input names,
      and no key repeats. */
  lemma CacheUsersKeys(users: seq<User>)
    ensures Distinct(Names(CacheUsers(users)))
    ensures forall n :: HasKey(CacheUsers(users), n) <==> n in Names(users)
  {
  }

  /** User `i` carries `name` with mention name `m`, and no later user
      carries `name`. */
  ghost predicate LastAt(users: seq<User>, name: string, m: string, i: nat) {
    i < |users| && users[i] == User(name, m) &&
    forall j :: i < j < |users| ==> users[j].name != name
  }

  lemma {:induction false} LastMentionSound(users: seq<User>, name: string, m: string)
    requires LastMention(users, name) == Some(m)
    ensures exists i: nat :: LastAt(users, name, m, i)
    decreases |users|
  {
    var n := |users| - 1;
    if users[n].name == name {
      assert LastAt(users, name, m, n);
    } else {
      var init := users[..n];
      LastMentionSound(init, name, m);
      var i: nat :| LastAt(init, name, m, i);
      assert LastAt(users, name, m, i);
    }
  }

  lemma {:induction false} LastMentionComplete(users: seq<User>, name: string, m: string, i: nat)
    requires LastAt(users, name, m, i)
    ensures LastMention(users, name) == Some(m)
    decreases |users|
  {
    var n := |users| - 1;
    if i < n {
      var init := users[..n];
      assert users[n].name != name;
      assert LastAt(init, name, m, i);
      LastMentionComplete(init, name, m, i);
    }
  }

  /** `LastMention` means what its name says: `Some(m)` exactly when some
      user carries the name with mention name `m` and no later user carries
      the name. */
  lemma LastMentionIsLast(users: seq<User>, name: string, m: string)
    ensures LastMention(users, name) == Some(m) <==> exists i: nat :: LastAt(users, name, m, i)
  {
    if LastMention(users, name) == Some(m) {
      LastMentionSound(users, name, m);
    }
    if i: nat :| LastAt(users, name, m, i) {
      LastMentionComplete(users, name, m, i);
    }
  }

  /** A later user with the same name overwrites an earlier one. */
  lemma LaterDuplicateWins(users: seq<User>, u: User)
    ensures Lookup(CacheUsers(users + [u]), u.name) == Some(u.mentionName)
  {
    assert (users + [u])[..|users|] == users;
  }

  // ---------------------------------------------------------------------
  // Fetching the user list and replacing the lookup

  /** What one HTTP attempt produced: a decoded body, a 403 (rate limit), or
      any other client error (connection failure, unexpected status). */
  datatype Attempt<T> = Response(body: T) | Forbidden | ApiError

  /** The outcome of `request`, with the number of attempts it made. */
  datatype Fetch<T> = Fetched(body: T, tries: nat) | RateLimited(tries: nat) | Failed(tries: nat)

  /** `request`: one attempt, retried once after an ordinary client error; a
      403 is re-raised at once. `second` is what the retry would produce. */
  function Request<T>(first: Attempt<T>, second: Attempt<T>): (f: Fetch<T>)
    ensures 1 <= f.tries <= 2
    ensures f.tries == 2 <==> first.ApiError?
    ensures first.Forbidden? ==> f == RateLimited(1)
    ensures f.Fetched? <==> first.Response? || (first.ApiError? && second.Response?)
    ensures f.Fetched? ==> f.body == (if first.Response? then first.body else second.body)
    ensures f.RateLimited? <==> first.Forbidden? || (first.ApiError? && second.Forbidden?)
  {
    match first
    case Response(b) => Fetched(b, 1)
    case Forbidden => RateLimited(1)
    case ApiError =>
      match second
      case Response(b) => Fetched(b, 2)
      case Forbidden => RateLimited(2)
      case ApiError => Failed(2)
  }

  /** One `cache_users` call: on success the lookup is replaced by one built
      from the fetched list alone; on failure the exception leaves the current
      lookup in place. */
  function Refresh(current: seq<User>, f: Fetch<seq<User>>): (next: seq<User>)
    ensures !f.Fetched? ==> next == current
    ensures f.Fetched? ==>
      && Names(next) == FirstOccurrences(Names(f.body))
      && forall n :: Lookup(next, n) == LastMention(f.body, n)
  {
    if f.Fetched? then CacheUsers(f.body) else current
  }

  /** Replacement is wholesale: after a successful refresh nothing of the
      previous lookup survives, whatever it held. */
  lemma RefreshIgnoresPrevious(a: seq<User>, b: seq<User>, f: Fetch<seq<User>>)
    requires f.Fetched?
    ensures Refresh(a, f) == Refresh(b, f)
  {
  }
}
