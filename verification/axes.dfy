/** `_roll_last`: the axis permutation that moves the reduced axis `dim` of
    an `ndim`-axis tensor to the end, keeping the other axes in order, so
    that a boolean row mask can select the unsolved rows. */
module Axes {
  import opened Rows

  /** `[i for i in range(n) if i != d]`. */
  function Others(n: nat, d: int): (r: seq<int>)
    ensures forall x :: x in r <==> 0 <= x < n && x != d
    ensures forall i, j :: 0 <= i < j < |r| ==> r[i] < r[j]
    ensures |r| == if 0 <= d < n then n - 1 else n
  {
    if n == 0 then []
    else
      var prev := Others(n - 1, d);
      assert forall i :: 0 <= i < |prev| ==> prev[i] in prev;
      prev + (if n - 1 != d then [n - 1] else [])
  }

  /** `p` lists every axis `0..n-1` exactly once. */
  ghost predicate IsPermutation(p: seq<int>, n: nat)
  {
    |p| == n
    && (forall x :: x in p <==> 0 <= x < n)
    && (forall i, j :: 0 <= i < j < |p| ==> p[i] != p[j])
  }

  /** `p` lists the axes `0..n-1` other than `d` in increasing order,
      then `d`. */
  ghost predicate OthersThenLast(p: seq<int>, n: nat, d: int)
  {
    |p| >= 1 && p[|p| - 1] == d && OthersInOrder(p[..|p| - 1], n, d)
  }

  /** `q` lists the axes `0..n-1` other than `d`, in increasing order. */
  ghost predicate OthersInOrder(q: seq<int>, n: nat, d: int)
  {
    (forall x :: x in q <==> 0 <= x < n && x != d)
    && (forall i, j :: 0 <= i < j < |q| ==> q[i] < q[j])
  }

  /** `_roll_last` as the source writes it. `None` stands for the early
      return of the tensor unchanged when `dim == -1`; any other negative
      `dim` is turned into `X.dim() - dim`. The list is then the other axes
      in order followed by that axis, which is a permutation of the axes
      only when `dim` is nonnegative. */
  function RollLastAsWritten(ndim: nat, dim: int): (perm: Option<seq<int>>)
    ensures perm.None? <==> dim == -1
    ensures perm.Some? ==> OthersThenLast(perm.value, ndim, if dim < 0 then ndim - dim else dim)
    ensures 0 <= dim < ndim ==> perm.Some? && IsPermutation(perm.value, ndim)
  {
    if dim == -1 then None
    else
      var d := if dim < 0 then ndim - dim else dim;
      var others := Others(ndim, d);
      var p := others + [d];
      assert p[..|p| - 1] == others;
      assert forall i :: 0 <= i < |others| ==> p[i] == others[i];
      OthersThenLastIsPermutation(p, ndim, d);
      Some(p)
  }

  /** Listing the other axes and then `d` is a permutation when `d` is a
      real axis. */
  lemma OthersThenLastIsPermutation(p: seq<int>, n: nat, d: int)
    requires OthersThenLast(p, n, d)
    ensures 0 <= d < n ==> IsPermutation(p, n)
  {
    if d < 0 || d >= n {
      return;
    }
    var others := p[..|p| - 1];
    assert p == others + [d];
    assert |others| == n - 1 by {
      OthersSize(others, n, d);
    }
    forall i, j | 0 <= i < j < |p|
      ensures p[i] != p[j]
    {
      if j == |p| - 1 {
        assert p[i] == others[i] && others[i] in others;
      }
    }
  }

  /** An increasing list of exactly the axes other than `d` has `n - 1`
      entries. */
  lemma OthersSize(q: seq<int>, n: nat, d: int)
    requires 0 <= d < n && OthersInOrder(q, n, d)
    ensures |q| == n - 1
  {
    var r := Others(n, d);
    IncreasingSameSet(q, r);
  }

  /** Two increasing lists holding the same values are equal. */
  lemma {:induction false} IncreasingSameSet(q: seq<int>, r: seq<int>)
    requires forall i, j :: 0 <= i < j < |q| ==> q[i] < q[j]
    requires forall i, j :: 0 <= i < j < |r| ==> r[i] < r[j]
    requires forall x :: x in q <==> x in r
    ensures q == r
    decreases |q|
  {
    if |q| > 0 {
      assert q[0] in q;
    }
    if |r| > 0 {
      assert r[0] in r;
    }
    if |q| > 0 && |r| > 0 {
      assert q[0] in r && r[0] in q;
      assert q[0] == r[0] by {
        var i :| 0 <= i < |r| && r[i] == q[0];
        var j :| 0 <= j < |q| && q[j] == r[0];
      }
      forall x
        ensures x in q[1..] <==> x in r[1..]
      {
        if x in q[1..] {
          var i :| 0 <= i < |q[1..]| && q[1..][i] == x;
          assert q[i + 1] == x && x != q[0];
          assert x in r;
        }
        if x in r[1..] {
          var i :| 0 <= i < |r[1..]| && r[1..][i] == x;
          assert r[i + 1] == x && x != r[0];
          assert x in q;
        }
      }
      IncreasingSameSet(q[1..], r[1..]);
      assert q == [q[0]] + q[1..] && r == [r[0]] + r[1..];
    }
  }

  /** Concrete input: a 3-axis tensor reduced over `dim = -2` (the middle
      axis) asks `permute` for axis 5, which does not exist. */
  lemma RollLastAsWrittenExample()
    ensures RollLastAsWritten(3, -2) == Some([0, 1, 2, 5])
    ensures !IsPermutation([0, 1, 2, 5], 3)
  {
    hide Others;
    OthersOfThree();
    assert [0, 1, 2] + [5] == [0, 1, 2, 5];
    assert 5 in [0, 1, 2, 5];
  }

  lemma OthersOfThree()
    ensures Others(3, 5) == [0, 1, 2]
  {
    assert Others(0, 5) == [];
    assert Others(1, 5) == [0];
    assert Others(2, 5) == [0, 1];
  }

  /** For every negative `dim` other than `-1` that names a real axis, the
      permutation as written is not a permutation of the axes. */
  lemma RollLastAsWrittenBreaks(ndim: nat, dim: int)
    requires -(ndim as int) <= dim < -1
    ensures RollLastAsWritten(ndim, dim).Some?
    ensures !IsPermutation(RollLastAsWritten(ndim, dim).value, ndim)
  {
    var p := RollLastAsWritten(ndim, dim).value;
    var d := ndim - dim;
    assert p[|p| - 1] == d;
    assert d in p;
  }

  /** A valid `dim`, counted from the end when negative (`dim + X.dim()`). */
  function NormalizeDim(ndim: nat, dim: int): (d: nat)
    requires -(ndim as int) <= dim < ndim
    ensures d < ndim
    ensures dim >= 0 ==> d == dim
    ensures dim < 0 ==> d == dim + ndim
  {
    if dim < 0 then dim + ndim else dim
  }

  /** `_roll_last` with the negative axis counted from the end: the other
      axes in order, then the reduced axis. */
  function RollLast(ndim: nat, dim: int): (perm: seq<int>)
    requires -(ndim as int) <= dim < ndim
    ensures IsPermutation(perm, ndim)
    ensures perm[ndim - 1] == NormalizeDim(ndim, dim)
    ensures forall i, j :: 0 <= i < j < ndim - 1 ==> perm[i] < perm[j]
  {
    var d := NormalizeDim(ndim, dim);
    var others := Others(ndim, d);
    var perm := others + [d];
    assert forall i :: 0 <= i < |others| ==> perm[i] == others[i] && others[i] in others;
    perm
  }

  /** The corrected permutation agrees with the source wherever the source
      is right: it is the identity for `dim == -1`, where the source returns
      the tensor unchanged, and it is the source's permutation for every
      nonnegative `dim`. */
  lemma RollLastAgrees(ndim: nat, dim: int)
    requires -(ndim as int) <= dim < ndim
    ensures dim == -1 ==> forall i :: 0 <= i < ndim ==> RollLast(ndim, dim)[i] == i
    ensures dim >= 0 ==> RollLastAsWritten(ndim, dim) == Some(RollLast(ndim, dim))
  {
    if dim == -1 {
      var p := RollLast(ndim, dim);
      forall i | 0 <= i < ndim - 1
        ensures p[i] < p[ndim - 1]
      {
        assert p[i] in p;
      }
      IncreasingIsIdentity(p, ndim);
    }
  }

  /** An increasing permutation of `0..n-1` is the identity. */
  lemma {:induction false} IncreasingIsIdentity(p: seq<int>, n: nat)
    requires IsPermutation(p, n)
    requires forall i, j :: 0 <= i < j < n ==> p[i] < p[j]
    ensures forall i :: 0 <= i < n ==> p[i] == i
  {
    forall i | 0 <= i < n
      ensures p[i] == i
    {
      LowerBound(p, n, i);
      UpperBound(p, n, i);
    }
  }

  lemma {:induction false} LowerBound(p: seq<int>, n: nat, i: nat)
    requires IsPermutation(p, n) && i < n
    requires forall i, j :: 0 <= i < j < n ==> p[i] < p[j]
    ensures p[i] >= i
    decreases i
  {
    assert p[i] in p;
    if i > 0 {
      LowerBound(p, n, i - 1);
    }
  }

  lemma {:induction false} UpperBound(p: seq<int>, n: nat, i: nat)
    requires IsPermutation(p, n) && i < n
    requires forall i, j :: 0 <= i < j < n ==> p[i] < p[j]
    ensures p[i] <= i
    decreases n - i
  {
    assert p[i] in p;
    if i < n - 1 {
      UpperBound(p, n, i + 1);
    }
  }
}
