/** Descending sort of a row and the top-k candidate window both solvers
    search. Ties can be ordered any way: a descending row is fixed by the
    multiset of its values, so every correct sort gives the same row. */
module Sorting {
  import opened Rows

  ghost predicate SortedDesc(a: seq<real>)
  {
    forall i, j :: 0 <= i < j < |a| ==> a[i] >= a[j]
  }

  /** Inserts `v` into a descending row, keeping it descending. */
  function Insert(v: real, a: seq<real>): (r: seq<real>)
    requires SortedDesc(a)
    ensures |r| == |a| + 1
    ensures multiset(r) == multiset(a) + multiset{v}
    ensures SortedDesc(r)
  {
    if |a| == 0 then [v]
    else if v >= a[0] then [v] + a
    else
      var rest := Insert(v, a[1..]);
      InsertBelowHead(v, a, rest);
      [a[0]] + rest
  }

  lemma InsertBelowHead(v: real, a: seq<real>, rest: seq<real>)
    requires SortedDesc(a) && |a| > 0 && v < a[0]
    requires SortedDesc(rest)
    requires multiset(rest) == multiset(a[1..]) + multiset{v}
    ensures SortedDesc([a[0]] + rest)
    ensures multiset([a[0]] + rest) == multiset(a) + multiset{v}
  {
    assert a == [a[0]] + a[1..];
    forall i | 0 <= i < |rest|
      ensures a[0] >= rest[i]
    {
      assert rest[i] in multiset(rest);
      if rest[i] != v {
        assert rest[i] in multiset(a[1..]);
        var j :| 0 <= j < |a[1..]| && a[1..][j] == rest[i];
        assert a[j + 1] == rest[i];
      }
    }
  }

  /** `torch.sort(X, descending=True)` on one row, as an insertion sort. */
  function SortDesc(a: seq<real>): (r: seq<real>)
    ensures |r| == |a|
    ensures multiset(r) == multiset(a)
    ensures SortedDesc(r)
  {
    if |a| == 0 then []
    else
      assert a == [a[0]] + a[1..];
      Insert(a[0], SortDesc(a[1..]))
  }

  /** Two descending rows holding the same values are equal, so the sorted
      row does not depend on how the sort breaks ties. */
  lemma {:induction false} SortedUnique(a: seq<real>, b: seq<real>)
    requires SortedDesc(a) && SortedDesc(b)
    requires multiset(a) == multiset(b)
    ensures a == b
    decreases |a|
  {
    assert |b| == |multiset(b)| == |multiset(a)| == |a|;
    if |a| > 0 {
      HeadBounds(a, b[0]);
      HeadBounds(b, a[0]);
      var ta, tb := a[1..], b[1..];
      assert a == [a[0]] + ta;
      assert b == [a[0]] + tb;
      assert multiset(a) == multiset{a[0]} + multiset(ta);
      assert multiset(b) == multiset{a[0]} + multiset(tb);
      AddCancel(a[0], multiset(ta), multiset(tb));
      SortedUnique(ta, tb);
    }
  }

  /** The head of a descending row bounds every value it holds. */
  lemma HeadBounds(a: seq<real>, x: real)
    requires SortedDesc(a) && x in multiset(a)
    ensures a[0] >= x
  {
    var i :| 0 <= i < |a| && a[i] == x;
  }

  /** `torch.topk(X, k)`: the `k` largest entries, largest first. The
      window holds entries of the row, and each of them is at least every
      entry left out. */
  function TopK(a: seq<real>, k: nat): (r: seq<real>)
    requires k <= |a|
    ensures |r| == k
    ensures SortedDesc(r)
    ensures multiset(r) <= multiset(a)
    ensures forall v :: v in multiset(a) - multiset(r) ==> forall i :: 0 <= i < k ==> r[i] >= v
    ensures forall i, j :: 0 <= i < k <= j < |a| ==> r[i] >= SortDesc(a)[j]
  {
    var s := SortDesc(a);
    PrefixBoundsRest(s, k);
    s[..k]
  }

  /** A prefix of a descending row is part of it, and bounds from above
      every value the row holds beyond it. */
  lemma PrefixBoundsRest(s: seq<real>, k: nat)
    requires SortedDesc(s) && k <= |s|
    ensures multiset(s[..k]) <= multiset(s)
    ensures forall v :: v in multiset(s) - multiset(s[..k]) ==> forall i :: 0 <= i < k ==> s[i] >= v
  {
    assert s == s[..k] + s[k..];
    assert multiset(s) == multiset(s[..k]) + multiset(s[k..]);
    assert multiset(s) - multiset(s[..k]) == multiset(s[k..]);
    forall v | v in multiset(s[k..])
      ensures forall i :: 0 <= i < k ==> s[i] >= v
    {
      var j :| 0 <= j < |s[k..]| && s[k..][j] == v;
      assert s[k + j] == v;
    }
  }

  /** The sorted candidates a solver searches: the whole row under a full
      sort when `k` is absent or reaches the row length, otherwise the top
      `k` entries. */
  function Candidates(a: seq<real>, k: Option<nat>): (z: seq<real>)
    ensures |z| == if k.Some? && k.value < |a| then k.value else |a|
    ensures SortedDesc(z)
    ensures z == SortDesc(a)[..|z|]
  {
    if k.None? || k.value >= |a| then SortDesc(a) else TopK(a, k.value)
  }
}
