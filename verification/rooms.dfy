/** Room selection: `get_rooms` keeps the rooms that are neither archived nor
    private and projects each to its name and XMPP JID; `init_xmpp` then joins
    a listed room when the configured allowlist is empty or names it. */
module Rooms {
  import opened Seqs

  /** A room record of the directory listing. */
  datatype Room = Room(name: string, jid: string, isArchived: bool, isPrivate: bool)

  /** The `[name, xmpp_jid]` pair `get_rooms` yields for a room. */
  datatype Target = Target(name: string, jid: string)

  /** The room is open: not archived and not private. */
  predicate Listed(r: Room) {
    !r.isArchived && !r.isPrivate
  }

  function ToTarget(r: Room): Target {
    Target(r.name, r.jid)
  }

  /** `get_rooms`: the open rooms, in input order, as name/JID pairs. */
  function GetRooms(rooms: seq<Room>): (ts: seq<Target>)
    ensures var idx := Positions(rooms, Listed);
      && |ts| == |idx|
      && Increasing(idx)
      && (forall i :: 0 <= i < |idx| ==> idx[i] < |rooms| && ts[i] == ToTarget(rooms[idx[i]]))
      && (forall j :: 0 <= j < |rooms| ==> (j in idx <==> !rooms[j].isArchived && !rooms[j].isPrivate))
  {
    var kept := Filter(rooms, Listed);
    PositionsSelect(rooms, Listed);
    seq(|kept|, i requires 0 <= i < |kept| => ToTarget(kept[i]))
  }

  /** The allowlist check of `init_xmpp`: a listed room is skipped when the
      allowlist is non-empty and does not name it. */
  predicate ShouldJoin(allow: seq<string>, name: string)
    ensures ShouldJoin(allow, name) <==> !(|allow| > 0 && name !in allow)
    ensures |allow| == 0 ==> ShouldJoin(allow, name)
  {
    |allow| == 0 || name in allow
  }

  function Admitted(allow: seq<string>): Target -> bool {
    (t: Target) => ShouldJoin(allow, t.name)
  }

  /** One target is joined exactly when it comes from an open room and the
      allowlist admits its name. */
  lemma JoinedMember(allow: seq<string>, rooms: seq<Room>, t: Target)
    ensures t in Filter(GetRooms(rooms), Admitted(allow)) <==>
      (|allow| == 0 || t.name in allow) &&
      exists r :: r in rooms && !r.isArchived && !r.isPrivate && ToTarget(r) == t
  {
    var ts := GetRooms(rooms);
    var idx := Positions(rooms, Listed);
    if t in ts {
      var i :| 0 <= i < |ts| && ts[i] == t;
      assert rooms[idx[i]] in rooms;
    }
    if r :| r in rooms && !r.isArchived && !r.isPrivate && ToTarget(r) == t {
      var j :| 0 <= j < |rooms| && rooms[j] == r;
      assert j in idx;
      var i :| 0 <= i < |idx| && idx[i] == j;
      assert ts[i] == t;
    }
  }

  lemma JoinedAll(allow: seq<string>, rooms: seq<Room>)
    ensures forall t :: t in Filter(GetRooms(rooms), Admitted(allow)) <==>
      (|allow| == 0 || t.name in allow) &&
      exists r :: r in rooms && !r.isArchived && !r.isPrivate && ToTarget(r) == t
  {
    forall t {
      JoinedMember(allow, rooms, t);
    }
  }

  /** The rooms `init_xmpp` joins: the listed rooms the allowlist admits, in
      listing order. A target is joined exactly when it comes from an open
      room and the allowlist is empty or names it. */
  function RoomsToJoin(allow: seq<string>, rooms: seq<Room>): (js: seq<Target>)
    ensures forall t :: t in js <==>
      (|allow| == 0 || t.name in allow) &&
      exists r :: r in rooms && !r.isArchived && !r.isPrivate && ToTarget(r) == t
    ensures var ts := GetRooms(rooms);
      var idx := Positions(ts, Admitted(allow));
      && |js| == |idx|
      && Increasing(idx)
      && (forall i :: 0 <= i < |idx| ==> idx[i] < |ts| && js[i] == ts[idx[i]])
      && (forall j :: 0 <= j < |ts| ==> (j in idx <==> |allow| == 0 || ts[j].name in allow))
  {
    var ts := GetRooms(rooms);
    PositionsSelect(ts, Admitted(allow));
    JoinedAll(allow, rooms);
    Filter(ts, Admitted(allow))
  }

  /** Without an allowlist every open room is joined, in listing order. */
  lemma EmptyAllowlistJoinsAll(rooms: seq<Room>)
    ensures RoomsToJoin([], rooms) == GetRooms(rooms)
  {
    FilterKeepsAll(GetRooms(rooms), Admitted([]));
  }
}
