/** The regular expression `/#{name}.*:/` the matcher builds from a name.
    The name is spliced in unescaped, so each `.` in it is the wildcard that
    matches any character except a newline; every other character of the name
    stands for itself (names holding other regex operators are outside this
    fragment). `.*` cannot cross a newline either, so the colon must follow
    the name on the same line. The search is unanchored: any start position
    will do. */
module Pattern {

  /** One pattern character against one message character. */
  predicate CharMatches(p: char, c: char) {
    if p == '.' then c != '\n' else c == p
  }

  /** The name pattern matches the message starting at index `i`. */
  predicate MatchesAt(msg: string, pat: string, i: nat) {
    i + |pat| <= |msg| && forall k :: 0 <= k < |pat| ==> CharMatches(pat[k], msg[i + k])
  }

  /** No newline between indices `j` (inclusive) and `e` (exclusive). */
  ghost predicate SameLine(msg: string, j: nat, e: nat) {
    forall k :: j <= k < e && k < |msg| ==> msg[k] != '\n'
  }

  /** `.*:` matches from index `j`: a colon at or after `j` with no newline
      before it. */
  ghost predicate ColonAhead(msg: string, j: nat) {
    exists e: nat :: j <= e < |msg| && msg[e] == ':' && SameLine(msg, j, e)
  }

  /** The whole regex matches with the name starting at index `i`. */
  ghost predicate Hit(msg: string, pat: string, i: nat) {
    MatchesAt(msg, pat, i) && ColonAhead(msg, i + |pat|)
  }

  /** `msg =~ /#{pat}.*:/` succeeds. */
  ghost predicate Found(msg: string, pat: string) {
    exists i: nat :: Hit(msg, pat, i)
  }

  /** Scans for `.*:` from index `j`: stops with success at a colon and with
      failure at a newline or the end of the message. */
  function ColonFrom(msg: string, j: nat): (r: bool)
    ensures r <==> ColonAhead(msg, j)
    decreases |msg| - j
  {
    if j >= |msg| then false
    else if msg[j] == ':' then
      assert SameLine(msg, j, j);
      true
    else if msg[j] == '\n' then
      assert !SameLine(msg, j, j + 1);
      false
    else
      assert forall e: nat :: j + 1 <= e ==> (SameLine(msg, j, e) <==> SameLine(msg, j + 1, e));
      ColonFrom(msg, j + 1)
  }

  /** Tries every start position from `i` on. */
  function SearchFrom(msg: string, pat: string, i: nat): (r: bool)
    ensures r <==> exists k: nat :: i <= k && Hit(msg, pat, k)
    decreases |msg| + 1 - i
  {
    if i + |pat| > |msg| then
      assert forall k: nat :: i <= k ==> !MatchesAt(msg, pat, k);
      false
    else
      assert Hit(msg, pat, i) <==> MatchesAt(msg, pat, i) && ColonFrom(msg, i + |pat|);
      (MatchesAt(msg, pat, i) && ColonFrom(msg, i + |pat|)) || SearchFrom(msg, pat, i + 1)
  }

  /** Decides `msg =~ /#{pat}.*:/`. */
  function Search(msg: string, pat: string): (r: bool)
    ensures r <==> Found(msg, pat)
  {
    SearchFrom(msg, pat, 0)
  }

  /** Every match ends in a colon, so a message without one matches no name. */
  lemma NoColonNoMatch(msg: string, pat: string)
    requires ':' !in msg
    ensures !Found(msg, pat)
  {
  }

  /** A literal (non-wildcard) character of the name that the message lacks
      rules the name out. */
  lemma LiteralMissing(msg: string, pat: string, k: nat)
    requires k < |pat| && pat[k] != '.'
    requires pat[k] !in msg
    ensures !Found(msg, pat)
  {
  }

  /** The name at index `i` followed by a colon later on the same line is a
      match, whatever else the message holds. */
  lemma MatchWitness(msg: string, pat: string, i: nat, e: nat)
    requires MatchesAt(msg, pat, i)
    requires i + |pat| <= e < |msg| && msg[e] == ':'
    requires forall k :: i + |pat| <= k < e ==> msg[k] != '\n'
    ensures Found(msg, pat)
  {
    assert SameLine(msg, i + |pat|, e);
    assert Hit(msg, pat, i);
  }

  /** A newline ends the line: a match whose name starts before the newline
      needs its colon before it too. */
  lemma ColonStopsAtNewline(msg: string, j: nat, n: nat)
    requires j <= n < |msg| && msg[n] == '\n'
    requires forall k :: j <= k < n ==> msg[k] != ':'
    ensures !ColonAhead(msg, j)
  {
  }
}
