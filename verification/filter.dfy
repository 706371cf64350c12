/** Order-preserving filtering of a sequence, the shape of both scans of the search. */
module Filtering {

  /** The elements of `xs` that satisfy `keep`, in their original order. */
  function Filter<T>(keep: T -> bool, xs: seq<T>): (r: seq<T>)
    ensures |r| <= |xs|
  {
    if xs == [] then []
    else if keep(xs[0]) then [xs[0]] + Filter(keep, xs[1..])
    else Filter(keep, xs[1..])
  }

  /** One step of the scan, taken at position `k`. */
  lemma FilterFrom<T>(keep: T -> bool, xs: seq<T>, k: nat)
    requires k < |xs|
    ensures Filter(keep, xs[k..]) == (if keep(xs[k]) then [xs[k]] else []) + Filter(keep, xs[k + 1..])
  {
    assert xs[k..][0] == xs[k] && xs[k..][1..] == xs[k + 1..];
  }

  /** Filtering a concatenation filters each part: the scan keeps the order of the candidates. */
  lemma {:induction false} FilterAppend<T>(keep: T -> bool, xs: seq<T>, ys: seq<T>)
    ensures Filter(keep, xs + ys) == Filter(keep, xs) + Filter(keep, ys)
  {
    if xs == [] {
      assert xs + ys == ys;
    } else {
      assert (xs + ys)[0] == xs[0] && (xs + ys)[1..] == xs[1..] + ys;
      FilterAppend(keep, xs[1..], ys);
    }
  }

  /** `idx` gives, for each element of `r`, a position of `xs` holding it. */
  ghost predicate PicksOut<T>(xs: seq<T>, r: seq<T>, idx: seq<nat>) {
    |idx| == |r| && forall k :: 0 <= k < |idx| ==> idx[k] < |xs| && r[k] == xs[idx[k]]
  }

  ghost predicate IsIncreasing(idx: seq<nat>) {
    forall k, l :: 0 <= k < l < |idx| ==> idx[k] < idx[l]
  }

  /** A position of `xs` is listed in `idx` exactly when its element satisfies `keep`. */
  ghost predicate Covers<T>(keep: T -> bool, xs: seq<T>, idx: seq<nat>) {
    forall i :: 0 <= i < |xs| ==> (i in idx <==> keep(xs[i]))
  }

  /**
   * `idx` lists, strictly increasing, the positions in `xs` of the
   * elements of `r`, and a position is listed exactly when the element
   * there satisfies `keep`.
   */
  ghost predicate ArePositions<T>(keep: T -> bool, xs: seq<T>, r: seq<T>, idx: seq<nat>) {
    PicksOut(xs, r, idx) && IsIncreasing(idx) && Covers(keep, xs, idx)
  }

  function Shift(idx: seq<nat>): (r: seq<nat>)
    ensures |r| == |idx| && forall k :: 0 <= k < |idx| ==> r[k] == idx[k] + 1
  {
    seq(|idx|, k requires 0 <= k < |idx| => idx[k] + 1)
  }

  lemma ShiftHas(idx: seq<nat>, i: nat)
    ensures i + 1 in Shift(idx) <==> i in idx
  {
    if i in idx {
      var k :| 0 <= k < |idx| && idx[k] == i;
      assert Shift(idx)[k] == i + 1;
    }
    if i + 1 in Shift(idx) {
      var k :| 0 <= k < |idx| && Shift(idx)[k] == i + 1;
      assert idx[k] == i;
    }
  }

  lemma ShiftIncreasing(idx: seq<nat>)
    requires IsIncreasing(idx)
    ensures IsIncreasing(Shift(idx)) && IsIncreasing([0] + Shift(idx))
  {
    var s := [0] + Shift(idx);
    forall k, l | 0 < k < l < |s| ensures s[k] < s[l] {
      assert s[k] == idx[k - 1] + 1 && s[l] == idx[l - 1] + 1;
    }
  }

  lemma PicksOutStep<T>(xs: seq<T>, rt: seq<T>, tail: seq<nat>, kept: bool)
    requires xs != [] && PicksOut(xs[1..], rt, tail)
    ensures kept ==> PicksOut(xs, [xs[0]] + rt, [0] + Shift(tail))
    ensures !kept ==> PicksOut(xs, rt, Shift(tail))
  {
    var idx := Shift(tail);
    forall k | 0 <= k < |idx| ensures idx[k] < |xs| && rt[k] == xs[idx[k]] {
      assert xs[1..][tail[k]] == xs[idx[k]];
    }
    if kept {
      var r, idx' := [xs[0]] + rt, [0] + idx;
      forall k | 0 < k < |idx'| ensures idx'[k] < |xs| && r[k] == xs[idx'[k]] {
        assert idx'[k] == idx[k - 1] && r[k] == rt[k - 1];
      }
    }
  }

  lemma CoversStep<T>(keep: T -> bool, xs: seq<T>, tail: seq<nat>)
    requires xs != [] && Covers(keep, xs[1..], tail)
    ensures Covers(keep, xs, if keep(xs[0]) then [0] + Shift(tail) else Shift(tail))
  {
    var idx := if keep(xs[0]) then [0] + Shift(tail) else Shift(tail);
    forall i | 0 <= i < |xs| ensures (i in idx <==> keep(xs[i])) {
      if i > 0 {
        assert xs[i] == xs[1..][i - 1];
        ShiftHas(tail, i - 1);
        assert i in idx <==> i in Shift(tail);
      } else {
        assert 0 !in Shift(tail);
      }
    }
  }

  /**
   * The filter result is exactly the elements that satisfy `keep`, each
   * once, in the order of `xs`: strictly increasing positions pick it out
   * of `xs`, and a position is picked exactly when its element is kept.
   */
  lemma {:induction false} FilterPositions<T>(keep: T -> bool, xs: seq<T>) returns (idx: seq<nat>)
    ensures ArePositions(keep, xs, Filter(keep, xs), idx)
  {
    if xs == [] {
      idx := [];
    } else {
      var tail := FilterPositions(keep, xs[1..]);
      PicksOutStep(xs, Filter(keep, xs[1..]), tail, keep(xs[0]));
      ShiftIncreasing(tail);
      CoversStep(keep, xs, tail);
      idx := if keep(xs[0]) then [0] + Shift(tail) else Shift(tail);
    }
  }

  /** An element is in the filter result exactly when it is in `xs` and satisfies `keep`. */
  lemma FilterMembers<T>(keep: T -> bool, xs: seq<T>, x: T)
    ensures x in Filter(keep, xs) <==> x in xs && keep(x)
  {
    var idx := FilterPositions(keep, xs);
    var r := Filter(keep, xs);
    if x in r {
      var k :| 0 <= k < |r| && r[k] == x;
      assert xs[idx[k]] == x;
    }
    if x in xs && keep(x) {
      var i :| 0 <= i < |xs| && xs[i] == x;
      assert i in idx;
      var k :| 0 <= k < |idx| && idx[k] == i;
      assert r[k] == x;
    }
  }
}
