/** Rebuilding the lookup from a listing that repeats a name. */
module RosterExamples {
  import opened Roster

  lemma PutNew()
    ensures Put([User("Ann", "a1")], User("Bo", "b")) == [User("Ann", "a1"), User("Bo", "b")]
  {
    assert [User("Ann", "a1")][1..] == [];
  }

  lemma PutExisting()
    ensures Put([User("Ann", "a1"), User("Bo", "b")], User("Ann", "a2")) == [User("Ann", "a2"), User("Bo", "b")]
  {
    assert [User("Ann", "a1"), User("Bo", "b")][1..] == [User("Bo", "b")];
  }

  lemma CacheFirst()
    ensures CacheUsers([User("Ann", "a1")]) == [User("Ann", "a1")]
  {
    assert [User("Ann", "a1")][..0] == [];
  }

  lemma CacheFirstTwo()
    ensures CacheUsers([User("Ann", "a1"), User("Bo", "b")]) == [User("Ann", "a1"), User("Bo", "b")]
  {
    assert [User("Ann", "a1"), User("Bo", "b")][..1] == [User("Ann", "a1")];
    CacheFirst();
    PutNew();
  }

  /** The repeated name keeps its first position and takes its last
      mention name. */
  lemma DuplicateKeepsPosition()
    ensures CacheUsers([User("Ann", "a1"), User("Bo", "b"), User("Ann", "a2")])
      == [User("Ann", "a2"), User("Bo", "b")]
  {
    assert [User("Ann", "a1"), User("Bo", "b"), User("Ann", "a2")][..2] == [User("Ann", "a1"), User("Bo", "b")];
    CacheFirstTwo();
    PutExisting();
  }

  /** A failed fetch keeps the current lookup; a successful one replaces it. */
  lemma RefreshOutcomes(current: seq<User>)
    ensures Refresh(current, Request(ApiError, Forbidden)) == current
    ensures Refresh(current, Request(ApiError, Response([User("Bo", "b")]))) == [User("Bo", "b")]
  {
    assert [User("Bo", "b")][..0] == [];
  }
}
