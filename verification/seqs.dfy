/** Small helpers over sequences shared by the roster, the dispatcher and the
    room selection: the optional-value wrapper, an order-preserving filter and
    the positions a filter keeps. */
module Seqs {

  /** The conventional Some/None wrapper, for "no reply" and "no such key". */
  datatype Option<+T> = None | Some(value: T)

  /** Indices strictly increase from left to right. */
  ghost predicate Increasing(idx: seq<nat>) {
    forall i, j :: 0 <= i < j < |idx| ==> idx[i] < idx[j]
  }

  /** The elements of `xs` that satisfy `keep`, in their original order
      (Ruby's `select`). */
  function Filter<T(!new)>(xs: seq<T>, keep: T -> bool): (r: seq<T>)
    ensures |r| <= |xs|
    ensures forall x :: x in r <==> x in xs && keep(x)
    decreases |xs|
  {
    if |xs| == 0 then []
    else (if keep(xs[0]) then [xs[0]] else []) + Filter(xs[1..], keep)
  }

  /** The positions of `xs` whose elements `Filter` keeps, left to right. */
  function Positions<T(!new)>(xs: seq<T>, keep: T -> bool): (idx: seq<nat>)
    ensures |idx| == |Filter(xs, keep)|
    decreases |xs|
  {
    if |xs| == 0 then []
    else
      var shifted := Shift(Positions(xs[1..], keep));
      if keep(xs[0]) then [0] + shifted else shifted
  }

  /** Every index moved one place to the right. */
  function Shift(idx: seq<nat>): (r: seq<nat>)
    ensures |r| == |idx|
    ensures forall i :: 0 <= i < |r| ==> r[i] == idx[i] + 1
  {
    seq(|idx|, i requires 0 <= i < |idx| => idx[i] + 1)
  }

  /** `Positions` picks out `Filter`'s result one by one, in increasing order,
      and holds exactly the indices whose element satisfies `keep`. */
  lemma PositionsSelect<T(!new)>(xs: seq<T>, keep: T -> bool)
    ensures var idx := Positions(xs, keep);
      && (forall i :: 0 <= i < |idx| ==> idx[i] < |xs| && Filter(xs, keep)[i] == xs[idx[i]])
      && Increasing(idx)
      && (forall j :: 0 <= j < |xs| ==> (j in idx <==> keep(xs[j])))
  {
    PositionsPick(xs, keep);
    PositionsIncreasing(xs, keep);
    PositionsExact(xs, keep);
  }

  /** The defining equation of `Positions` at a non-empty sequence. */
  lemma PositionsUnfold<T(!new)>(xs: seq<T>, keep: T -> bool)
    requires |xs| > 0
    ensures Positions(xs, keep) ==
      if keep(xs[0]) then [0] + Shift(Positions(xs[1..], keep)) else Shift(Positions(xs[1..], keep))
  {
  }

  /** The defining equation of `Filter` at a non-empty sequence. */
  lemma FilterUnfold<T(!new)>(xs: seq<T>, keep: T -> bool)
    requires |xs| > 0
    ensures Filter(xs, keep) ==
      if keep(xs[0]) then [xs[0]] + Filter(xs[1..], keep) else Filter(xs[1..], keep)
  {
  }

  /** Every position points at the kept element of the same rank. */
  ghost predicate Picks<T(!new)>(xs: seq<T>, keep: T -> bool) {
    forall i :: 0 <= i < |Positions(xs, keep)| ==>
      Positions(xs, keep)[i] < |xs| && Filter(xs, keep)[i] == xs[Positions(xs, keep)[i]]
  }

  /** Position `i` points at the `i`-th kept element, given that `k`, the
      matching rank in the tail, does so there. */
  lemma PickAt<T(!new)>(xs: seq<T>, keep: T -> bool, i: nat)
    requires |xs| > 0 && Picks(xs[1..], keep)
    requires i < |Positions(xs, keep)|
    ensures Positions(xs, keep)[i] < |xs| && Filter(xs, keep)[i] == xs[Positions(xs, keep)[i]]
  {
    var tail := xs[1..];
    var rest := Positions(tail, keep);
    var sel := Filter(tail, keep);
    var idx := Positions(xs, keep);
    var r := Filter(xs, keep);
    PositionsUnfold(xs, keep);
    FilterUnfold(xs, keep);
    if keep(xs[0]) && i == 0 {
      assert idx[0] == 0 && r[0] == xs[0];
    } else {
      var k := if keep(xs[0]) then i - 1 else i;
      assert k < |rest|;
      assert idx[i] == Shift(rest)[k] == rest[k] + 1;
      assert r[i] == sel[k];
      assert rest[k] < |tail| && sel[k] == tail[rest[k]];
      assert tail[rest[k]] == xs[rest[k] + 1];
    }
  }

  lemma {:induction false} PositionsPick<T(!new)>(xs: seq<T>, keep: T -> bool)
    ensures Picks(xs, keep)
    decreases |xs|
  {
    if |xs| > 0 {
      PositionsPick(xs[1..], keep);
      forall i | 0 <= i < |Positions(xs, keep)|
        ensures Positions(xs, keep)[i] < |xs| && Filter(xs, keep)[i] == xs[Positions(xs, keep)[i]]
      {
        PickAt(xs, keep, i);
      }
    }
  }

  lemma {:induction false} PositionsIncreasing<T(!new)>(xs: seq<T>, keep: T -> bool)
    ensures Increasing(Positions(xs, keep))
    decreases |xs|
  {
    if |xs| > 0 {
      var rest := Positions(xs[1..], keep);
      PositionsIncreasing(xs[1..], keep);
      var shifted := Shift(rest);
      assert Increasing(shifted);
      assert forall i :: 0 <= i < |shifted| ==> shifted[i] > 0;
    }
  }

  /** The positions are exactly the indices whose element is kept. */
  ghost predicate Exact<T(!new)>(xs: seq<T>, keep: T -> bool) {
    forall j :: 0 <= j < |xs| ==> (j in Positions(xs, keep) <==> keep(xs[j]))
  }

  /** Shifting moves membership one place up and leaves 0 out. */
  lemma ShiftMember(idx: seq<nat>, n: nat)
    ensures n + 1 in Shift(idx) <==> n in idx
    ensures 0 !in Shift(idx)
  {
    var sh := Shift(idx);
    if n in idx {
      var k :| 0 <= k < |idx| && idx[k] == n;
      assert sh[k] == n + 1;
    }
  }

  /** Index 0 is among the positions exactly when the first element is
      kept. */
  lemma ExactHead<T(!new)>(xs: seq<T>, keep: T -> bool)
    requires |xs| > 0
    ensures 0 in Positions(xs, keep) <==> keep(xs[0])
  {
    PositionsUnfold(xs, keep);
    ShiftMember(Positions(xs[1..], keep), 0);
  }

  /** A later index `j` is among the positions exactly when `keep` holds
      there, given that this holds for the tail. */
  lemma ExactAt<T(!new)>(xs: seq<T>, keep: T -> bool, j: nat)
    requires 0 < j < |xs|
    requires Exact(xs[1..], keep)
    ensures j in Positions(xs, keep) <==> keep(xs[j])
  {
    var rest := Positions(xs[1..], keep);
    PositionsUnfold(xs, keep);
    ShiftMember(rest, j - 1);
    assert xs[j] == xs[1..][j - 1];
    assert j - 1 in rest <==> keep(xs[1..][j - 1]);
  }

  lemma {:induction false} PositionsExact<T(!new)>(xs: seq<T>, keep: T -> bool)
    ensures Exact(xs, keep)
    decreases |xs|
  {
    if |xs| > 0 {
      PositionsExact(xs[1..], keep);
      forall j | 0 <= j < |xs|
        ensures j in Positions(xs, keep) <==> keep(xs[j])
      {
        if j == 0 {
          ExactHead(xs, keep);
        } else {
          ExactAt(xs, keep, j);
        }
      }
    }
  }

  /** A filter that rejects nothing returns its input unchanged. */
  lemma {:induction false} FilterKeepsAll<T(!new)>(xs: seq<T>, keep: T -> bool)
    requires forall x :: x in xs ==> keep(x)
    ensures Filter(xs, keep) == xs
    decreases |xs|
  {
    if |xs| > 0 {
      FilterKeepsAll(xs[1..], keep);
    }
  }

  /** Strictly increasing indices spread out: the last is at least as far
      above the first as the sequence is long, less one. */
  lemma {:induction false} IncreasingSpread(idx: seq<nat>)
    requires Increasing(idx) && |idx| > 0
    ensures idx[|idx| - 1] >= idx[0] + |idx| - 1
    decreases |idx|
  {
    if |idx| > 1 {
      var n := |idx|;
      var init := idx[..n - 1];
      assert Increasing(init);
      IncreasingSpread(init);
      assert idx[n - 2] < idx[n - 1];
    }
  }
}
