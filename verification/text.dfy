/** The plain string operations the bot uses: deleting one character
    everywhere (`gsub` with a one-character pattern), literal substring search
    (`String#index` compared with nil) and joining words with a separator, with a
    splitter as its inverse. */
module Text {

  /** `s` with every occurrence of `c` deleted, as `s.gsub(c, "")`. */
  function Remove(s: string, c: char): string
    decreases |s|
  {
    if |s| == 0 then ""
    else (if s[0] == c then "" else [s[0]]) + Remove(s[1..], c)
  }

  /** `Remove` deletes every `c` and keeps every other character, as often
      as it occurred. */
  lemma {:induction false} RemoveChars(s: string, c: char)
    ensures c !in Remove(s, c)
    ensures forall x :: x in Remove(s, c) <==> x in s && x != c
    ensures multiset(Remove(s, c)) == multiset(s)[c := 0]
    decreases |s|
  {
    if |s| > 0 {
      RemoveChars(s[1..], c);
      assert s == [s[0]] + s[1..];
      assert multiset(s) == multiset{s[0]} + multiset(s[1..]);
    }
  }

  /** A character other than `c` survives the deletion. */
  lemma RemoveKeeps(s: string, c: char, x: char)
    requires x in s && x != c
    ensures x in Remove(s, c)
  {
    RemoveChars(s, c);
  }

  /** Deleting adds no character. */
  lemma RemoveAddsNothing(s: string, c: char, x: char)
    requires x !in s
    ensures x !in Remove(s, c)
  {
    RemoveChars(s, c);
  }

  /** Deleting distributes over concatenation, so `Remove` keeps every other
      character in its original order. */
  lemma {:induction false} RemoveConcat(a: string, b: string, c: char)
    ensures Remove(a + b, c) == Remove(a, c) + Remove(b, c)
    decreases |a|
  {
    if |a| > 0 {
      assert (a + b)[1..] == a[1..] + b;
      RemoveConcat(a[1..], b, c);
    } else {
      assert a + b == b;
    }
  }

  /** Deleting a character the string does not contain changes nothing. */
  lemma {:induction false} RemoveAbsent(s: string, c: char)
    requires c !in s
    ensures Remove(s, c) == s
    decreases |s|
  {
    if |s| > 0 {
      RemoveAbsent(s[1..], c);
      assert s == [s[0]] + s[1..];
    }
  }

  ghost predicate OccursAt(s: string, t: string, i: nat) {
    i + |t| <= |s| && s[i..i + |t|] == t
  }

  /** `t` occurs somewhere in `s`. */
  ghost predicate Occurs(s: string, t: string) {
    exists i: nat :: OccursAt(s, t, i)
  }

  /** Literal search for `t` in `s` from index `i` on. */
  function ContainsFrom(s: string, t: string, i: nat): (r: bool)
    ensures r <==> exists k: nat :: i <= k && OccursAt(s, t, k)
    decreases |s| - i
  {
    if i + |t| > |s| then false
    else
      assert OccursAt(s, t, i) <==> s[i..i + |t|] == t;
      s[i..i + |t|] == t || ContainsFrom(s, t, i + 1)
  }

  /** Whether `s.index(t)` finds anything: `t` occurs in `s` literally (a `.`
      in `t` is an ordinary character here). */
  function Contains(s: string, t: string): (r: bool)
    ensures r <==> Occurs(s, t)
  {
    ContainsFrom(s, t, 0)
  }

  /** A string cannot occur where one of its characters is missing. */
  lemma OccursNeedsChar(s: string, t: string, c: char)
    requires c in t
    requires c !in s
    ensures !Occurs(s, t)
  {
  }

  /** The words joined with one `sep` between neighbours, as `Array#join`. */
  function Join(words: seq<string>, sep: char): (r: string)
    ensures |words| > 0 ==> |r| >= |words[0]| && r[..|words[0]|] == words[0]
    decreases |words|
  {
    if |words| == 0 then ""
    else if |words| == 1 then words[0]
    else words[0] + [sep] + Join(words[1..], sep)
  }

  /** `s` cut at every `sep`; always at least one (possibly empty) piece. */
  function Split(s: string, sep: char): (r: seq<string>)
    ensures |r| > 0
    decreases |s|
  {
    if |s| == 0 then [""]
    else
      var rest := Split(s[1..], sep);
      if s[0] == sep then [""] + rest else [[s[0]] + rest[0]] + rest[1..]
  }

  /** A string without the separator is a single piece. */
  lemma {:induction false} SplitWord(w: string, sep: char)
    requires sep !in w
    ensures Split(w, sep) == [w]
    decreases |w|
  {
    if |w| > 0 {
      SplitWord(w[1..], sep);
      assert [w[0]] + w[1..] == w;
    }
  }

  /** A leading word followed by the separator splits off as the first
      piece. */
  lemma {:induction false} SplitLeadingWord(w: string, sep: char, rest: string)
    requires sep !in w
    ensures Split(w + [sep] + rest, sep) == [w] + Split(rest, sep)
    decreases |w|
  {
    var s := w + [sep] + rest;
    if |w| == 0 {
      assert s == [sep] + rest;
      assert s[1..] == rest;
    } else {
      assert s[1..] == w[1..] + [sep] + rest;
      SplitLeadingWord(w[1..], sep, rest);
      assert [w[0]] + w[1..] == w;
    }
  }

  /** Splitting undoes joining whenever no word contains the separator. */
  lemma {:induction false} SplitJoin(words: seq<string>, sep: char)
    requires |words| > 0
    requires forall i :: 0 <= i < |words| ==> sep !in words[i]
    ensures Split(Join(words, sep), sep) == words
    decreases |words|
  {
    if |words| == 1 {
      SplitWord(words[0], sep);
    } else {
      SplitJoin(words[1..], sep);
      SplitLeadingWord(words[0], sep, Join(words[1..], sep));
      assert [words[0]] + words[1..] == words;
    }
  }
}
