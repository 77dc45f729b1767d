/** Rows of real scores and the element-wise and cumulative operations the
    sparse normalisers apply along the last axis of a tensor. A "row" is one
    slice along that axis, modelled in exact real arithmetic. */
module Rows {

  /** The source's `Optional[int]` candidate count. */
  datatype Option<T> = None | Some(value: T)

  /** Per-row result of a threshold search: the threshold and the number of
      sorted entries that form the support. */
  datatype Threshold = Threshold(tau: real, size: nat)

  /** Sum of a row, accumulated from the left. */
  function Sum(a: seq<real>): (s: real)
  {
    if |a| == 0 then 0.0 else Sum(a[..|a| - 1]) + a[|a| - 1]
  }

  lemma {:induction false} SumConcat(a: seq<real>, b: seq<real>)
    ensures Sum(a + b) == Sum(a) + Sum(b)
    decreases |b|
  {
    if |b| == 0 {
      assert a + b == a;
    } else {
      assert (a + b)[..|a + b| - 1] == a + b[..|b| - 1];
      SumConcat(a, b[..|b| - 1]);
    }
  }

  /** Largest entry of a nonempty row (`X.max(dim)`). */
  function Max(a: seq<real>): (m: real)
    requires |a| > 0
    ensures m in a
    ensures forall i :: 0 <= i < |a| ==> a[i] <= m
  {
    if |a| == 1 then a[0]
    else
      var m := Max(a[..|a| - 1]);
      assert m in a by { assert a[..|a| - 1] <= a; }
      if a[|a| - 1] > m then a[|a| - 1] else m
  }

  /** Adds the same constant to every entry of a row. */
  function Shift(a: seq<real>, c: real): (r: seq<real>)
    ensures |r| == |a|
    ensures forall i :: 0 <= i < |a| ==> r[i] == a[i] + c
  {
    seq(|a|, i requires 0 <= i < |a| => a[i] + c)
  }

  /** Halves every entry of a row (`X / 2`). */
  function Halve(a: seq<real>): (r: seq<real>)
    ensures |r| == |a|
    ensures forall i :: 0 <= i < |a| ==> r[i] == a[i] / 2.0
  {
    seq(|a|, i requires 0 <= i < |a| => a[i] / 2.0)
  }

  /** The maximum is the unique entry that bounds the row from above. */
  lemma MaxUnique(a: seq<real>, m: real)
    requires m in a
    requires forall i :: 0 <= i < |a| ==> a[i] <= m
    ensures Max(a) == m
  {
    hide Max;
    var j :| 0 <= j < |a| && a[j] == Max(a);
    var l :| 0 <= l < |a| && a[l] == m;
    assert a[l] <= Max(a);
  }

  lemma MaxShift(a: seq<real>, c: real)
    requires |a| > 0
    ensures Max(Shift(a, c)) == Max(a) + c
  {
    hide Max, Shift;
    var r := Shift(a, c);
    var j :| 0 <= j < |a| && a[j] == Max(a);
    assert r[j] == Max(a) + c;
    assert Max(a) + c in r;
    forall i | 0 <= i < |r|
      ensures r[i] <= Max(a) + c
    {
      assert a[i] <= Max(a);
    }
    MaxUnique(r, Max(a) + c);
  }

  /** Numerical stabilisation: subtract the row maximum from every entry.
      Afterwards the largest entry is exactly zero. */
  function Stabilize(a: seq<real>): (r: seq<real>)
    requires |a| > 0
    ensures |r| == |a|
    ensures forall i :: 0 <= i < |a| ==> r[i] == a[i] - Max(a)
    ensures Max(r) == 0.0
  {
    var r := Shift(a, -Max(a));
    assert Max(r) == 0.0 by {
      var j :| 0 <= j < |a| && a[j] == Max(a);
      assert r[j] == 0.0;
      MaxUnique(r, 0.0);
    }
    r
  }

  /** Stabilisation forgets any constant added to the whole row. */
  lemma StabilizeShift(a: seq<real>, c: real)
    requires |a| > 0
    ensures Stabilize(Shift(a, c)) == Stabilize(a)
  {
    hide Max;
    MaxShift(a, c);
  }

  /** `torch.arange(start, stop)` as reals. */
  function Arange(start: int, stop: int): (r: seq<real>)
    ensures |r| == if start <= stop then stop - start else 0
    ensures forall i :: 0 <= i < |r| ==> r[i] == (start + i) as real
    decreases stop - start
  {
    if start >= stop then [] else [start as real] + Arange(start + 1, stop)
  }

  /** The rank row `1, 2, ..., d` used as the divisor of cumulative means
      and as the rank factor of the sparsemax support test. */
  function Ranks(d: nat): (rho: seq<real>)
    ensures |rho| == d
    ensures forall i :: 0 <= i < d ==> rho[i] == (i + 1) as real
    ensures forall i :: 0 <= i < d ==> rho[i] >= 1.0
  {
    Arange(1, d + 1)
  }

  /** Running sum along the row (`cumsum`). Entry `i` is the sum of the
      first `i + 1` entries. */
  function Cumsum(a: seq<real>): (c: seq<real>)
    ensures |c| == |a|
    ensures forall i :: 0 <= i < |a| ==> c[i] == Sum(a[..i + 1])
  {
    if |a| == 0 then []
    else
      var prev := Cumsum(a[..|a| - 1]);
      var last := (if |prev| == 0 then 0.0 else prev[|prev| - 1]) + a[|a| - 1];
      assert last == Sum(a[..|a|]) by {
        assert a[..|a|] == a;
        if |prev| > 0 {
          assert a[..|a| - 1][..|a| - 1] == a[..|a| - 1];
        }
      }
      PrefixOfPrefix(a, prev);
      prev + [last]
  }

  lemma PrefixOfPrefix(a: seq<real>, prev: seq<real>)
    requires |a| > 0 && |prev| == |a| - 1
    requires forall i :: 0 <= i < |prev| ==> prev[i] == Sum(a[..|a| - 1][..i + 1])
    ensures forall i :: 0 <= i < |prev| ==> prev[i] == Sum(a[..i + 1])
  {
    forall i | 0 <= i < |prev|
      ensures prev[i] == Sum(a[..i + 1])
    {
      assert a[..|a| - 1][..i + 1] == a[..i + 1];
    }
  }

  /** `n` copies of `v` added up: a whole-number multiple, which the rank
      factors and support sizes of the solvers are. */
  function Times(n: nat, v: real): (t: real)
  {
    if n == 0 then 0.0 else Times(n - 1, v) + v
  }

  lemma {:induction false} TimesIsProduct(n: nat, v: real)
    ensures Times(n, v) == n as real * v
  {
    if n > 0 {
      TimesIsProduct(n - 1, v);
    }
  }

  /** A positive multiple keeps the order of its arguments, both ways. */
  lemma {:induction false} TimesOrder(n: nat, a: real, b: real)
    requires n >= 1
    ensures Times(n, a) <= Times(n, b) <==> a <= b
    ensures Times(n, a) < Times(n, b) <==> a < b
  {
    if n > 1 {
      TimesOrder(n - 1, a, b);
    }
  }

  lemma {:induction false} TimesZero(n: nat)
    ensures Times(n, 0.0) == 0.0
  {
    if n > 0 {
      TimesZero(n - 1);
    }
  }

  /** Entry-wise product of two rows of equal length. Built by recursion
      so that the products stay out of sight until `MulAt` names one. */
  function Mul(a: seq<real>, b: seq<real>): (r: seq<real>)
    requires |a| == |b|
    ensures |r| == |a|
  {
    if |a| == 0 then [] else Mul(a[..|a| - 1], b[..|b| - 1]) + [a[|a| - 1] * b[|b| - 1]]
  }

  lemma {:induction false} MulAt(a: seq<real>, b: seq<real>, i: nat)
    requires |a| == |b| && i < |a|
    ensures Mul(a, b)[i] == a[i] * b[i]
    decreases |a|
  {
    if i < |a| - 1 {
      MulAt(a[..|a| - 1], b[..|b| - 1], i);
    }
  }

  /** The product of two prefixes is the prefix of the product. */
  lemma {:induction false} MulPrefix(a: seq<real>, b: seq<real>, n: nat)
    requires |a| == |b| && n <= |a|
    ensures Mul(a[..n], b[..n]) == Mul(a, b)[..n]
    decreases |a|
  {
    if n < |a| {
      var m := |a| - 1;
      assert a[..m][..n] == a[..n];
      assert b[..m][..n] == b[..n];
      MulPrefix(a[..m], b[..m], n);
    } else {
      assert a[..n] == a;
      assert b[..n] == b;
    }
  }

  /** Entry-wise comparison of two rows of equal length (`a > b`). */
  function Greater(a: seq<real>, b: seq<real>): (r: seq<bool>)
    requires |a| == |b|
    ensures |r| == |a|
    ensures forall i :: 0 <= i < |a| ==> (r[i] <==> a[i] > b[i])
  {
    seq(|a|, i requires 0 <= i < |a| => a[i] > b[i])
  }

  /** Entry-wise comparison of two rows of equal length (`a <= b`). */
  function AtMost(a: seq<real>, b: seq<real>): (r: seq<bool>)
    requires |a| == |b|
    ensures |r| == |a|
    ensures forall i :: 0 <= i < |a| ==> (r[i] <==> a[i] <= b[i])
  {
    seq(|a|, i requires 0 <= i < |a| => a[i] <= b[i])
  }

  /** Entry-wise square of a row (`X ** 2`). */
  function Squares(a: seq<real>): (r: seq<real>)
    ensures |r| == |a|
  {
    Mul(a, a)
  }

  lemma SquaresAt(a: seq<real>)
    ensures forall i :: 0 <= i < |a| ==> Squares(a)[i] == a[i] * a[i]
  {
    forall i | 0 <= i < |a|
      ensures Squares(a)[i] == a[i] * a[i]
    {
      MulAt(a, a, i);
    }
  }

  /** `torch.clamp(v, min=0)`. */
  function Clamp0(v: real): real
  {
    if v < 0.0 then 0.0 else v
  }

  /** Applies a scalar function to every entry. */
  function Map(f: real -> real, a: seq<real>): (r: seq<real>)
    ensures |r| == |a|
    ensures forall i :: 0 <= i < |a| ==> r[i] == f(a[i])
  {
    seq(|a|, i requires 0 <= i < |a| => f(a[i]))
  }

  /** Number of true entries of a boolean row (`mask.sum(dim)`). */
  function Count(b: seq<bool>): (n: nat)
    ensures n <= |b|
  {
    if |b| == 0 then 0 else Count(b[..|b| - 1]) + (if b[|b| - 1] then 1 else 0)
  }

  /** A boolean row whose true entries form a prefix. */
  ghost predicate PrefixClosed(b: seq<bool>)
  {
    forall i, j :: 0 <= i <= j < |b| && b[j] ==> b[i]
  }

  lemma {:induction false} StepDown(b: seq<bool>, i: nat, j: nat)
    requires forall l :: 0 < l < |b| && b[l] ==> b[l - 1]
    requires i <= j < |b| && b[j]
    ensures b[i]
    decreases j - i
  {
    if i < j {
      StepDown(b, i, j - 1);
    }
  }

  /** A row in which every true entry has a true predecessor is prefix closed. */
  lemma AdjacentPrefixClosed(b: seq<bool>)
    requires forall l :: 0 < l < |b| && b[l] ==> b[l - 1]
    ensures PrefixClosed(b)
  {
    forall i, j | 0 <= i <= j < |b| && b[j]
      ensures b[i]
    {
      StepDown(b, i, j);
    }
  }

  /** In a prefix-closed row, entry `i` is true exactly when `i` is below the
      number of true entries: counting finds the boundary. */
  lemma {:induction false} CountPrefixClosed(b: seq<bool>)
    requires PrefixClosed(b)
    ensures forall i :: 0 <= i < |b| ==> (b[i] <==> i < Count(b))
  {
    if |b| > 0 {
      var n := |b| - 1;
      var p := b[..n];
      assert PrefixClosed(p);
      CountPrefixClosed(p);
      if b[n] {
        assert forall i :: 0 <= i < n ==> p[i];
        if n > 0 {
          assert p[n - 1];
        }
      }
    }
  }

  /** Counting over a window of the first `k` entries finds the same boundary
      as counting over the whole row, as soon as the window holds a false
      entry. */
  lemma CountWindow(b: seq<bool>, k: nat)
    requires PrefixClosed(b)
    requires k <= |b|
    requires Count(b[..k]) < k
    ensures Count(b) == Count(b[..k])
  {
    var w := b[..k];
    assert PrefixClosed(w);
    CountPrefixClosed(w);
    CountPrefixClosed(b);
    var c := Count(w);
    assert !w[c];
    if c > 0 {
      assert w[c - 1];
    }
  }

  lemma {:induction false} SumPerm(a: seq<real>, b: seq<real>)
    requires multiset(a) == multiset(b)
    ensures Sum(a) == Sum(b)
    decreases |a|
  {
    if |a| == 0 {
      assert |b| == |multiset(b)| == 0;
    } else {
      var n := |a| - 1;
      var x := a[n];
      assert x in multiset(b) by { assert x in multiset(a); }
      var j :| 0 <= j < |b| && b[j] == x;
      var rest := b[..j] + b[j + 1..];
      assert b == b[..j] + [x] + b[j + 1..];
      assert a == a[..n] + [x];
      assert multiset(a) == multiset(a[..n]) + multiset{x};
      assert multiset(b) == multiset(b[..j]) + multiset{x} + multiset(b[j + 1..]);
      assert multiset(rest) == multiset(b[..j]) + multiset(b[j + 1..]);
      assert multiset(a[..n]) == multiset(a) - multiset{x};
      assert multiset(rest) == multiset(b) - multiset{x};
      SumPerm(a[..n], rest);
      SumConcat(b[..j], [x]);
      SumConcat(b[..j] + [x], b[j + 1..]);
      SumConcat(b[..j], b[j + 1..]);
      assert Sum([x]) == x by { assert [x][..0] == []; }
    }
  }

  lemma MapConcat(f: real -> real, a: seq<real>, b: seq<real>)
    ensures Map(f, a + b) == Map(f, a) + Map(f, b)
  {
  }

  lemma MapSplitAt(f: real -> real, b: seq<real>, j: nat)
    requires j < |b|
    ensures Map(f, b) == Map(f, b[..j]) + ([f(b[j])] + Map(f, b[j + 1..]))
  {
    var rest := [b[j]] + b[j + 1..];
    assert b == b[..j] + rest;
    MapConcat(f, b[..j], rest);
    MapConcat(f, [b[j]], b[j + 1..]);
    assert Map(f, [b[j]]) == [f(b[j])];
  }

  lemma MultisetMiddle(l: seq<real>, x: real, r: seq<real>)
    ensures multiset(l + ([x] + r)) == multiset(l + r) + multiset{x}
  {
  }

  /** Mapping a row, then removing the image of entry `j`, is mapping the
      row with entry `j` removed. */
  lemma MapRemove(f: real -> real, b: seq<real>, j: nat)
    requires j < |b|
    ensures multiset(Map(f, b)) == multiset(Map(f, b[..j] + b[j + 1..])) + multiset{f(b[j])}
  {
    MapSplitAt(f, b, j);
    MapConcat(f, b[..j], b[j + 1..]);
    MultisetMiddle(Map(f, b[..j]), f(b[j]), Map(f, b[j + 1..]));
  }

  /** One copy of `x` can be cancelled from both sides. */
  lemma AddCancel(x: real, p: multiset<real>, q: multiset<real>)
    requires multiset{x} + p == multiset{x} + q
    ensures p == q
  {
    forall e: real
      ensures p[e] == q[e]
    {
      assert (multiset{x} + p)[e] == (multiset{x} + q)[e];
    }
  }

  /** Removing the last entry of `a` and a matching entry of `b` keeps two
      equal multisets equal. */
  lemma RemoveMatching(a: seq<real>, b: seq<real>, j: nat)
    requires |a| > 0 && j < |b| && b[j] == a[|a| - 1]
    requires multiset(a) == multiset(b)
    ensures multiset(a[..|a| - 1]) == multiset(b[..j] + b[j + 1..])
  {
    var n, x := |a| - 1, a[|a| - 1];
    assert b == b[..j] + ([x] + b[j + 1..]);
    MultisetMiddle(b[..j], x, b[j + 1..]);
    assert a == a[..n] + [x];
    assert multiset(a) == multiset(a[..n]) + multiset{x};
    forall e: real
      ensures multiset(a[..n])[e] == multiset(b[..j] + b[j + 1..])[e]
    {
      assert multiset(a)[e] == multiset(b)[e];
    }
  }

  lemma {:induction false} MapPerm(f: real -> real, a: seq<real>, b: seq<real>)
    requires multiset(a) == multiset(b)
    ensures multiset(Map(f, a)) == multiset(Map(f, b))
    decreases |a|
  {
    if |a| == 0 {
      assert |b| == |multiset(b)| == 0;
    } else {
      hide Map;
      var n := |a| - 1;
      var x := a[n];
      assert x in multiset(b) by { assert x in multiset(a); }
      var j :| 0 <= j < |b| && b[j] == x;
      var rest := b[..j] + b[j + 1..];
      RemoveMatching(a, b, j);
      MapPerm(f, a[..n], rest);
      MapRemove(f, a, n);
      assert a[..n] + a[n + 1..] == a[..n];
      MapRemove(f, b, j);
    }
  }

  /** A scalar sum over the entries of a row does not depend on their order. */
  lemma SumMapPerm(f: real -> real, a: seq<real>, b: seq<real>)
    requires multiset(a) == multiset(b)
    ensures Sum(Map(f, a)) == Sum(Map(f, b))
  {
    MapPerm(f, a, b);
    SumPerm(Map(f, a), Map(f, b));
  }

  lemma {:induction false} SumZeros(a: seq<real>)
    requires forall i :: 0 <= i < |a| ==> a[i] == 0.0
    ensures Sum(a) == 0.0
    decreases |a|
  {
    if |a| > 0 {
      SumZeros(a[..|a| - 1]);
    }
  }

  /** Entry `i + 1` of the running sum adds entry `i + 1` to entry `i`. */
  lemma SumStep(a: seq<real>, i: nat)
    requires i < |a|
    ensures Sum(a[..i + 1]) == Sum(a[..i]) + a[i]
  {
    assert a[..i + 1][..i] == a[..i];
  }

  lemma {:induction false} CountHasTrue(b: seq<bool>, i: nat)
    requires i < |b| && b[i]
    ensures Count(b) >= 1
    decreases |b|
  {
    if i < |b| - 1 {
      CountHasTrue(b[..|b| - 1], i);
    }
  }

  /** Multiplying both sides by a positive factor preserves order. */
  lemma CancelPositive(r: real, a: real, b: real)
    requires r > 0.0
    ensures r * a <= r * b <==> a <= b
    ensures r * a < r * b <==> a < b
  {
    if a < b {
      assert r * b - r * a == r * (b - a);
    } else if b < a {
      assert r * a - r * b == r * (a - b);
    }
  }

  lemma DivideBack(a: real, r: real)
    requires r != 0.0
    ensures (a / r) * r == a
  {
  }

  /** The linear margin above a threshold, `clamp(X - tau, min=0)`, entry
      by entry. */
  function Margin(y: seq<real>, tau: real): (p: seq<real>)
    ensures |p| == |y|
    ensures forall i :: 0 <= i < |y| ==> p[i] >= 0.0
    ensures forall i :: 0 <= i < |y| ==> (p[i] > 0.0 <==> y[i] > tau)
  {
    seq(|y|, i requires 0 <= i < |y| => Clamp0(y[i] - tau))
  }

  /** `Margin` as the map of one scalar function, for order-free sums. */
  function Ramp(tau: real): (f: real -> real)
  {
    v => Clamp0(v - tau)
  }

  lemma MarginIsMap(y: seq<real>, tau: real)
    ensures Margin(y, tau) == Map(Ramp(tau), y)
  {
    forall i | 0 <= i < |y|
      ensures Margin(y, tau)[i] == Map(Ramp(tau), y)[i]
    {
      assert Ramp(tau)(y[i]) == Clamp0(y[i] - tau);
    }
  }

  lemma {:induction false} MarginAbove(a: seq<real>, tau: real)
    requires forall i :: 0 <= i < |a| ==> a[i] > tau
    ensures Sum(Margin(a, tau)) == Sum(a) - Times(|a|, tau)
    decreases |a|
  {
    if |a| > 0 {
      var n := |a| - 1;
      assert Margin(a, tau)[..n] == Margin(a[..n], tau);
      MarginAbove(a[..n], tau);
      assert Clamp0(a[n] - tau) == a[n] - tau;
    }
  }

  lemma MarginBelow(a: seq<real>, tau: real)
    requires forall i :: 0 <= i < |a| ==> a[i] <= tau
    ensures Sum(Margin(a, tau)) == 0.0
  {
    SumZeros(Margin(a, tau));
  }

  lemma MarginConcat(a: seq<real>, b: seq<real>, tau: real)
    ensures Margin(a + b, tau) == Margin(a, tau) + Margin(b, tau)
  {
  }

  /** Reordering a row does not change the sum of its margin. */
  lemma MarginSumPerm(y: seq<real>, z: seq<real>, tau: real)
    requires multiset(y) == multiset(z)
    ensures Sum(Margin(y, tau)) == Sum(Margin(z, tau))
  {
    MarginIsMap(y, tau);
    MarginIsMap(z, tau);
    SumMapPerm(Ramp(tau), y, z);
  }

  /** A stabilised row of equal entries is all zeros. */
  lemma UniformStabilized(x: seq<real>)
    requires |x| > 0
    requires forall i :: 0 <= i < |x| ==> x[i] == x[0]
    ensures forall i :: 0 <= i < |x| ==> Stabilize(x)[i] == 0.0
  {
    assert x[0] <= Max(x);
    assert Max(x) in x;
  }
}
