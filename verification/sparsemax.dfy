/** Sparsemax on one row: the Euclidean projection of the row onto the
    probability simplex, found by a threshold search over the row sorted in
    descending order (`sparsemax` and `_sparsemax_threshold_and_support`). */
module Sparsemax {
  import opened Rows
  import opened Sorting

  /** Each sorted candidate times its rank (`rhos * topk`, with
      `rhos = 1, 2, ..., d`), written as a whole-number multiple. */
  function RankMultiples(z: seq<real>): (w: seq<real>)
    ensures |w| == |z|
  {
    seq(|z|, i requires 0 <= i < |z| => Times(i + 1, z[i]))
  }

  /** Support test at every rank of the sorted candidates: the rank times the
      entry exceeds the running sum minus one (`rhos * topk > topk_cumsum`). */
  function SupportMask(z: seq<real>): (b: seq<bool>)
    ensures |b| == |z|
  {
    Greater(RankMultiples(z), Shift(Cumsum(z), -1.0))
  }

  /** The support test at one rank, in closed form. */
  lemma SupportTest(z: seq<real>, i: nat)
    requires i < |z|
    ensures SupportMask(z)[i] <==> Times(i + 1, z[i]) > Sum(z[..i + 1]) - 1.0
  {
  }

  /** The same test with the rank as a real factor, as `rhos * topk`. */
  lemma SupportTestProduct(z: seq<real>, i: nat)
    requires i < |z|
    ensures SupportMask(z)[i] <==> (i + 1) as real * z[i] > Sum(z[..i + 1]) - 1.0
  {
    SupportTest(z, i);
    TimesIsProduct(i + 1, z[i]);
  }

  /** Number of sorted candidates that pass the support test
      (`support.sum(dim)`). Rank 1 always passes, so the gather index
      `size - 1` is in range. */
  function SupportSize(z: seq<real>): (s: nat)
    requires |z| > 0
    ensures 1 <= s <= |z|
  {
    RankOnePasses(z);
    CountHasTrue(SupportMask(z), 0);
    Count(SupportMask(z))
  }

  /** Threshold and support size from sorted candidates: the running sum
      minus one at the last passing rank, divided by the support size. */
  function Solve(z: seq<real>): (t: Threshold)
    requires |z| > 0
    ensures 1 <= t.size <= |z|
    ensures t.size == Count(SupportMask(z))
  {
    var size := SupportSize(z);
    var cumsumMinusOne := Shift(Cumsum(z), -1.0);
    Threshold(cumsumMinusOne[size - 1] / size as real, size)
  }

  /** The support size times the threshold is the sum of the support minus
      one: the support entries less the threshold sum to one. */
  lemma SolveBalance(z: seq<real>)
    requires |z| > 0
    ensures Times(Solve(z).size, Solve(z).tau) == Sum(z[..Solve(z).size]) - 1.0
  {
    hide SupportSize, SupportMask, Count;
    var s := Solve(z).size;
    TimesIsProduct(s, Solve(z).tau);
    DivideBack(Sum(z[..s]) - 1.0, s as real);
  }

  lemma RankOnePasses(z: seq<real>)
    requires |z| > 0
    ensures SupportMask(z)[0]
  {
    SupportTest(z, 0);
    assert z[..1] == [z[0]];
    assert Sum(z[..1]) == z[0];
  }

  /** Threshold and support size of a row, searching only the top `k`
      entries when `k` is given and below the row length, and solving again
      with `2k` when the support fills the whole window. */
  function ThresholdAndSupport(x: seq<real>, k: Option<nat>): (t: Threshold)
    requires |x| > 0
    requires k.Some? ==> k.value >= 1
    ensures 1 <= t.size <= |x|
    decreases if k.Some? && k.value < |x| then |x| - k.value else 0
  {
    var t := Solve(Candidates(x, k));
    if k.Some? && k.value < |x| && t.size == k.value then
      ThresholdAndSupport(x, Some(2 * k.value))
    else
      t
  }

  /** Sparsemax of a row: stabilise, find the threshold, keep the margin. */
  function Sparsemax(x: seq<real>, k: Option<nat>): (p: seq<real>)
    requires |x| > 0
    requires k.Some? ==> k.value >= 1
    ensures |p| == |x|
    ensures forall i :: 0 <= i < |p| ==> p[i] >= 0.0
    ensures forall i :: 0 <= i < |p| ==>
              (p[i] > 0.0 <==> Stabilize(x)[i] > ThresholdAndSupport(Stabilize(x), k).tau)
  {
    var y := Stabilize(x);
    var t := ThresholdAndSupport(y, k);
    Margin(y, t.tau)
  }

  // ---------------------------------------------------------------------
  // The support is a prefix of the sorted row

  /** On a descending row, a rank that passes the support test has a
      predecessor that passes it too. */
  lemma SupportStepsDown(z: seq<real>, l: nat)
    requires SortedDesc(z)
    requires 0 < l < |z|
    requires SupportMask(z)[l]
    ensures SupportMask(z)[l - 1]
  {
    SupportTest(z, l);
    SupportTest(z, l - 1);
    SumStep(z, l);
    assert z[..l - 1 + 1] == z[..l];
    TimesOrder(l, z[l], z[l - 1]);
  }

  lemma SupportPrefixClosed(z: seq<real>)
    requires SortedDesc(z)
    ensures PrefixClosed(SupportMask(z))
  {
    var b := SupportMask(z);
    forall l | 0 < l < |b| && b[l]
      ensures b[l - 1]
    {
      SupportStepsDown(z, l);
    }
    AdjacentPrefixClosed(b);
  }

  /** The support test holds for ranks `1..size` and fails for every later
      rank, so the gather at `size - 1` reads the boundary rank. */
  lemma SupportIsPrefix(z: seq<real>)
    requires SortedDesc(z) && |z| > 0
    ensures forall i :: 0 <= i < |z| ==> (SupportMask(z)[i] <==> i < Solve(z).size)
  {
    SupportPrefixClosed(z);
    CountPrefixClosed(SupportMask(z));
  }

  /** The last rank of the support lies strictly above the threshold. */
  lemma LastSupportedAbove(z: seq<real>)
    requires SortedDesc(z) && |z| > 0
    ensures z[Solve(z).size - 1] > Solve(z).tau
  {
    var t := Solve(z);
    var s := t.size;
    SupportIsPrefix(z);
    assert SupportMask(z)[s - 1];
    SupportTest(z, s - 1);
    SolveBalance(z);
    assert z[..s - 1 + 1] == z[..s];
    TimesOrder(s, t.tau, z[s - 1]);
  }

  /** The first rank after the support lies on or below the threshold. */
  lemma FirstUnsupportedBelow(z: seq<real>)
    requires SortedDesc(z) && |z| > 0 && Solve(z).size < |z|
    ensures z[Solve(z).size] <= Solve(z).tau
  {
    var t := Solve(z);
    var s := t.size;
    SupportIsPrefix(z);
    assert !SupportMask(z)[s];
    SupportTest(z, s);
    SumStep(z, s);
    SolveBalance(z);
    TimesOrder(s, z[s], t.tau);
  }

  /** The threshold separates the sorted row: exactly the first `size`
      entries lie strictly above it. */
  lemma ThresholdSeparates(z: seq<real>)
    requires SortedDesc(z) && |z| > 0
    ensures forall i :: 0 <= i < |z| ==> (z[i] > Solve(z).tau <==> i < Solve(z).size)
  {
    var t := Solve(z);
    var s := t.size;
    LastSupportedAbove(z);
    if s < |z| {
      FirstUnsupportedBelow(z);
    }
    forall i | 0 <= i < |z|
      ensures z[i] > t.tau <==> i < s
    {
      if i < s {
        assert z[i] >= z[s - 1];
      } else {
        assert z[i] <= z[s];
      }
    }
  }

  // ---------------------------------------------------------------------
  // The top-k window gives the full-sort answer

  lemma SupportMaskPrefix(z: seq<real>, k: nat)
    requires k <= |z|
    ensures SupportMask(z[..k]) == SupportMask(z)[..k]
  {
    forall i | 0 <= i < k
      ensures SupportMask(z[..k])[i] == SupportMask(z)[i]
    {
      assert z[..k][i] == z[i];
      assert Cumsum(z[..k])[i] == Cumsum(z)[i] by {
        assert z[..k][..i + 1] == z[..i + 1];
      }
    }
  }

  /** When the support found in the first `k` sorted entries is smaller than
      `k`, searching the whole sorted row finds the same threshold and size. */
  lemma SolveWindow(z: seq<real>, k: nat)
    requires SortedDesc(z)
    requires 1 <= k <= |z|
    requires Solve(z[..k]).size < k
    ensures Solve(z[..k]) == Solve(z)
  {
    SupportMaskPrefix(z, k);
    SupportPrefixClosed(z);
    CountWindow(SupportMask(z), k);
    var s := Solve(z).size;
    assert z[..k][..s] == z[..s];
    SolveBalance(z);
    SolveBalance(z[..k]);
    TimesOrder(s, Solve(z[..k]).tau, Solve(z).tau);
    TimesOrder(s, Solve(z).tau, Solve(z[..k]).tau);
  }

  /** The top-k path, with its doubling fallback, returns the same threshold
      and support size as the full sort, and the doubling terminates. */
  lemma {:induction false} TopKAgrees(x: seq<real>, k: Option<nat>)
    requires |x| > 0
    requires k.Some? ==> k.value >= 1
    ensures ThresholdAndSupport(x, k) == ThresholdAndSupport(x, None)
    ensures ThresholdAndSupport(x, None) == Solve(SortDesc(x))
    decreases if k.Some? && k.value < |x| then |x| - k.value else 0
  {
    hide SupportMask, SupportSize, Solve, Count, SortDesc;
    if k.Some? && k.value < |x| {
      var z := SortDesc(x);
      if Solve(Candidates(x, k)).size == k.value {
        TopKAgrees(x, Some(2 * k.value));
      } else {
        SolveWindow(z, k.value);
      }
    }
  }

  // ---------------------------------------------------------------------
  // Properties of the sparsemax output

  /** A row cut at `s`, with the first `s` entries above `tau`, the rest on
      or below it, and `s` copies of `tau` one less than the first `s`
      entries, has margin summing to one. */
  lemma MarginSplitSum(z: seq<real>, tau: real, s: nat)
    requires s <= |z|
    requires forall i :: 0 <= i < s ==> z[i] > tau
    requires forall i :: s <= i < |z| ==> z[i] <= tau
    requires Times(s, tau) == Sum(z[..s]) - 1.0
    ensures Sum(Margin(z, tau)) == 1.0
  {
    assert z == z[..s] + z[s..];
    MarginConcat(z[..s], z[s..], tau);
    SumConcat(Margin(z[..s], tau), Margin(z[s..], tau));
    MarginAbove(z[..s], tau);
    MarginBelow(z[s..], tau);
  }

  /** On the sorted row, the margin above the solved threshold sums to one. */
  lemma SortedMarginSum(z: seq<real>)
    requires SortedDesc(z) && |z| > 0
    ensures Sum(Margin(z, Solve(z).tau)) == 1.0
  {
    ThresholdSeparates(z);
    SolveBalance(z);
    MarginSplitSum(z, Solve(z).tau, Solve(z).size);
  }

  /** Over the reals, the sparsemax output sums to one. */
  lemma SumsToOne(x: seq<real>, k: Option<nat>)
    requires |x| > 0
    requires k.Some? ==> k.value >= 1
    ensures Sum(Sparsemax(x, k)) == 1.0
  {
    var y := Stabilize(x);
    var z := SortDesc(y);
    TopKAgrees(y, k);
    SortedMarginSum(z);
    MarginSumPerm(y, z, Solve(z).tau);
  }

  /** With the sorted row cut at `s` by `tau`, an entry of the unsorted row
      is above `tau` exactly when it reaches the boundary entry `z[s - 1]`. */
  lemma AboveIffTop(y: seq<real>, z: seq<real>, tau: real, s: nat)
    requires multiset(y) == multiset(z)
    requires SortedDesc(z) && 1 <= s <= |z|
    requires forall i :: 0 <= i < |z| ==> (z[i] > tau <==> i < s)
    ensures forall i :: 0 <= i < |y| ==> (y[i] > tau <==> y[i] >= z[s - 1])
  {
    forall i | 0 <= i < |y|
      ensures y[i] > tau <==> y[i] >= z[s - 1]
    {
      assert y[i] in multiset(z) by { assert y[i] in multiset(y); }
      var j :| 0 <= j < |z| && z[j] == y[i];
      if j < s {
        assert z[j] >= z[s - 1];
      }
    }
  }

  /** Sparsemax is the margin of the stabilised row above the threshold
      solved on its full sort, whatever the candidate window. */
  lemma ViaFullSort(x: seq<real>, k: Option<nat>)
    requires |x| > 0
    requires k.Some? ==> k.value >= 1
    ensures Sparsemax(x, k) == Margin(Stabilize(x), Solve(SortDesc(Stabilize(x))).tau)
  {
    TopKAgrees(Stabilize(x), k);
  }

  /** The nonzero outputs are exactly the entries at or above the boundary
      entry of the sorted row: the support is the top `size` entries. */
  lemma SupportIsTopEntries(x: seq<real>, k: Option<nat>)
    requires |x| > 0
    requires k.Some? ==> k.value >= 1
    ensures var y := Stabilize(x);
            var s := ThresholdAndSupport(y, k).size;
            forall i :: 0 <= i < |x| ==>
              (Sparsemax(x, k)[i] > 0.0 <==> y[i] >= SortDesc(y)[s - 1])
  {
    hide Solve, Margin, SortDesc, ThresholdAndSupport, Sparsemax, Stabilize;
    var y := Stabilize(x);
    var z := SortDesc(y);
    var t := Solve(z);
    TopKAgrees(y, k);
    ViaFullSort(x, k);
    ThresholdSeparates(z);
    AboveIffTop(y, z, t.tau, t.size);
    MarginPositive(y, t.tau, z[t.size - 1]);
  }

  lemma MarginPositive(y: seq<real>, tau: real, bound: real)
    requires forall i :: 0 <= i < |y| ==> (y[i] > tau <==> y[i] >= bound)
    ensures forall i :: 0 <= i < |y| ==> (Margin(y, tau)[i] > 0.0 <==> y[i] >= bound)
  {
  }

  /** Adding a constant to every entry leaves the output unchanged. */
  lemma ShiftInvariant(x: seq<real>, c: real, k: Option<nat>)
    requires |x| > 0
    requires k.Some? ==> k.value >= 1
    ensures Sparsemax(Shift(x, c), k) == Sparsemax(x, k)
  {
    StabilizeShift(x, c);
  }

  /** The candidate window only changes the cost, never the output. */
  lemma TopKOutputAgrees(x: seq<real>, k: Option<nat>)
    requires |x| > 0
    requires k.Some? ==> k.value >= 1
    ensures Sparsemax(x, k) == Sparsemax(x, None)
  {
    TopKAgrees(Stabilize(x), k);
  }

  /** On a sorted row of zeros every rank passes, and the threshold is
      `-1/d`. */
  lemma ZerosSolve(z: seq<real>)
    requires |z| > 0 && SortedDesc(z)
    requires forall i :: 0 <= i < |z| ==> z[i] == 0.0
    ensures Clamp0(0.0 - Solve(z).tau) == 1.0 / |z| as real
  {
    var n := |z|;
    SupportIsPrefix(z);
    SumZeros(z[..n - 1 + 1]);
    TimesZero(n - 1 + 1);
    SupportTest(z, n - 1);
    assert SupportMask(z)[n - 1];
    assert Solve(z).size == n;
    SumZeros(z[..n]);
    SolveBalance(z);
    EvenShare(n, Solve(z).tau);
  }

  /** `n` equal shares of `-tau` that make up one are each `1/n`. */
  lemma EvenShare(n: nat, tau: real)
    requires n >= 1 && Times(n, tau) == 0.0 - 1.0
    ensures Clamp0(0.0 - tau) == 1.0 / n as real
  {
    TimesIsProduct(n, tau);
  }

  /** A row of equal entries is spread uniformly: every output is `1/d`. */
  lemma UniformRow(x: seq<real>, k: Option<nat>)
    requires |x| > 0
    requires k.Some? ==> k.value >= 1
    requires forall i :: 0 <= i < |x| ==> x[i] == x[0]
    ensures forall i :: 0 <= i < |x| ==> Sparsemax(x, k)[i] == 1.0 / |x| as real
  {
    hide Solve, SortDesc, ThresholdAndSupport, Sparsemax, Stabilize, SupportMask;
    var y := Stabilize(x);
    var z := SortDesc(y);
    ViaFullSort(x, k);
    UniformStabilized(x);
    forall i | 0 <= i < |z|
      ensures z[i] == 0.0
    {
      assert z[i] in multiset(y) by { assert z[i] in multiset(z); }
    }
    ZerosSolve(z);
  }
}
