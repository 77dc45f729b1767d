/** Entmax with alpha = 1.5 on one row (`entmax15` and
    `_entmax_threshold_and_support`). The row is stabilised and halved, a
    threshold `tau` is found on the row sorted in descending order, and the
    output is `clamp(y - tau, min=0) ** 2`.

    The source takes square roots in floating point. The model takes the
    square root as a parameter `sqrt` and asks only that it be one on the
    nonnegative reals (`IsSqrt`). */
module Entmax {
  import opened Rows
  import opened Sorting

  /** `sqrt` returns the nonnegative square root of every nonnegative real. */
  ghost predicate IsSqrt(sqrt: real -> real)
  {
    forall y :: y >= 0.0 ==> sqrt(y) >= 0.0 && sqrt(y) * sqrt(y) == y
  }

  function Sq(v: real): (q: real)
  {
    v * v
  }

  /** Sum of squared deviations of a row from `v`. */
  function SqDev(a: seq<real>, v: real): (dev: real)
  {
    if |a| == 0 then 0.0 else SqDev(a[..|a| - 1], v) + Sq(a[|a| - 1] - v)
  }

  // ---------------------------------------------------------------------
  // The candidate threshold at one rank

  /** `delta = (1 - ss) / rho` at rank `rho`, from the running sum `cs` and
      the running sum of squares `cs2` of the first `rho` sorted entries:
      `mean = cs / rho`, `mean_sq = cs2 / rho`,
      `ss = rho * (mean_sq - mean ** 2)`. */
  function Delta(rho: real, cs: real, cs2: real): (delta: real)
    requires rho >= 1.0
  {
    var mean := cs / rho;
    var meanSq := cs2 / rho;
    var ss := rho * (meanSq - mean * mean);
    (1.0 - ss) / rho
  }

  /** `tau = mean - sqrt(clamp(delta, 0))` at one rank. */
  function CandidateFrom(rho: real, cs: real, cs2: real, sqrt: real -> real): (tau: real)
    requires rho >= 1.0
  {
    cs / rho - sqrt(Clamp0(Delta(rho, cs, cs2)))
  }

  /** The squared deviations of `r` entries with sum `s1` and sum of squares
      `s2` from `v`, expanded. */
  function DevFrom(r: real, s1: real, s2: real, v: real): (dev: real)
  {
    s2 - 2.0 * v * s1 + r * (v * v)
  }

  /** The deviations from the mean plus those of the mean from `v`. */
  lemma DevSplit(r: real, s1: real, s2: real, v: real)
    requires r >= 1.0
    ensures DevFrom(r, s1, s2, v)
            == r * (s2 / r - (s1 / r) * (s1 / r)) + r * Sq(s1 / r - v)
  {
    var m := s1 / r;
    var q := s2 / r;
    assert s1 == r * m;
    assert s2 == r * q;
    calc {
      DevFrom(r, s1, s2, v);
      r * q - 2.0 * v * (r * m) + r * (v * v);
      r * (q - 2.0 * v * m + v * v);
      r * ((q - m * m) + (m - v) * (m - v));
      r * (q - m * m) + r * ((m - v) * (m - v));
    }
  }

  /** `r * delta` is one less the deviations from the mean. */
  lemma DeltaTimesRank(r: real, s1: real, s2: real)
    requires r >= 1.0
    ensures r * Delta(r, s1, s2) == 1.0 - r * (s2 / r - (s1 / r) * (s1 / r))
  {
  }

  lemma SqMonotone(a: real, b: real)
    requires a >= 0.0 && b >= 0.0
    ensures a <= b <==> Sq(a) <= Sq(b)
  {
    if a < b {
      assert Sq(b) - Sq(a) == (b - a) * (b + a);
      CancelPositive(b - a, 0.0, b + a);
    } else if b < a {
      assert Sq(a) - Sq(b) == (a - b) * (a + b);
      CancelPositive(a - b, 0.0, a + b);
    }
  }

  lemma SqZero(a: real)
    ensures Sq(a) == 0.0 <==> a == 0.0
  {
    if a != 0.0 {
      if a > 0.0 {
        SqMonotone(a, 0.0);
      } else {
        assert Sq(a) == Sq(-a);
        SqMonotone(-a, 0.0);
      }
    }
  }

  /** The support test at one rank on plain numbers. Let `v` be the entry
      at the rank, at most the mean of the first `r` entries, and equal to
      it only when they all are. Then the candidate threshold lies at or
      below `v` exactly when the squared deviations from `v` are at most one,
      and in that case `delta` is nonnegative. */
  lemma CandidateTestAlgebra(r: real, s1: real, s2: real, v: real, sqrt: real -> real)
    requires IsSqrt(sqrt) && r >= 1.0
    requires s1 / r >= v
    requires s1 / r == v ==> DevFrom(r, s1, s2, v) == 0.0
    ensures CandidateFrom(r, s1, s2, sqrt) <= v <==> DevFrom(r, s1, s2, v) <= 1.0
    ensures CandidateFrom(r, s1, s2, sqrt) <= v ==> Delta(r, s1, s2) >= 0.0
  {
    var m := s1 / r;
    var ss := r * (s2 / r - m * m);
    var delta := Delta(r, s1, s2);
    var sq := sqrt(Clamp0(delta));
    var gap := m - v;
    DevSplit(r, s1, s2, v);
    DeltaTimesRank(r, s1, s2);
    assert DevFrom(r, s1, s2, v) == ss + r * Sq(gap);
    assert r * delta == 1.0 - ss;
    assert sq >= 0.0 && Sq(sq) == Clamp0(delta);
    assert CandidateFrom(r, s1, s2, sqrt) == m - sq;
    hide Sq, Delta, DevFrom, CandidateFrom;
    SqMonotone(gap, sq);
    if delta >= 0.0 {
      assert Sq(sq) == delta;
      CancelPositive(r, Sq(gap), delta);
      assert CandidateFrom(r, s1, s2, sqrt) <= v <==> gap <= sq;
      assert gap <= sq <==> r * Sq(gap) <= r * delta;
      assert DevFrom(r, s1, s2, v) <= 1.0 <==> r * Sq(gap) <= r * delta;
    } else {
      SqZero(sq);
      SqZero(gap);
      assert r * Sq(gap) >= 0.0;
    }
  }

  /** When `delta` is nonnegative the candidate threshold balances the
      first `r` entries: their squared deviations from it sum to one. */
  lemma CandidateBalanceAlgebra(r: real, s1: real, s2: real, sqrt: real -> real)
    requires IsSqrt(sqrt) && r >= 1.0
    requires Delta(r, s1, s2) >= 0.0
    ensures DevFrom(r, s1, s2, CandidateFrom(r, s1, s2, sqrt)) == 1.0
  {
    var m := s1 / r;
    var ss := r * (s2 / r - m * m);
    var delta := Delta(r, s1, s2);
    var sq := sqrt(Clamp0(delta));
    var t := CandidateFrom(r, s1, s2, sqrt);
    DevSplit(r, s1, s2, t);
    DeltaTimesRank(r, s1, s2);
    assert Sq(sq) == delta;
    assert t == m - sq;
    assert Sq(m - t) == Sq(sq);
  }

  // ---------------------------------------------------------------------
  // Squared deviations of a row

  /** One more entry `x` adds its squared deviation to the expansion. */
  lemma DevStep(n: real, s1: real, s2: real, x: real, v: real, n1: real, t1: real, t2: real)
    requires n1 == n + 1.0 && t1 == s1 + x && t2 == s2 + x * x
    ensures DevFrom(n1, t1, t2, v) == DevFrom(n, s1, s2, v) + Sq(x - v)
  {
    assert 2.0 * v * (s1 + x) == 2.0 * v * s1 + 2.0 * v * x;
    assert (n + 1.0) * (v * v) == n * (v * v) + v * v;
  }

  /** The squared deviations of a row from `v`, through its sum and its sum
      of squares. */
  lemma {:induction false} SqDevExpand(a: seq<real>, v: real)
    ensures SqDev(a, v) == DevFrom(|a| as real, Sum(a), Sum(Squares(a)), v)
    decreases |a|
  {
    if |a| > 0 {
      hide DevFrom, Sq;
      var n := |a| - 1;
      var x := a[n];
      SqDevExpand(a[..n], v);
      assert Mul(a, a)[..n] == Mul(a[..n], a[..n]);
      MulAt(a, a, n);
      DevStep(n as real, Sum(a[..n]), Sum(Squares(a[..n])), x, v,
              |a| as real, Sum(a), Sum(Squares(a)));
    }
  }

  /** A row whose entries are all at least `v` sums to at least `|a|` copies
      of `v`. */
  lemma {:induction false} SumAtLeast(a: seq<real>, v: real)
    requires forall j :: 0 <= j < |a| ==> a[j] >= v
    ensures Sum(a) >= Times(|a|, v)
    decreases |a|
  {
    if |a| > 0 {
      SumAtLeast(a[..|a| - 1], v);
    }
  }

  /** Entries at least `v` that sum to exactly `|a|` copies of `v` all equal
      `v`, so they do not deviate from it. */
  lemma {:induction false} SqDevZero(a: seq<real>, v: real)
    requires forall j :: 0 <= j < |a| ==> a[j] >= v
    requires Sum(a) == Times(|a|, v)
    ensures SqDev(a, v) == 0.0
    decreases |a|
  {
    if |a| > 0 {
      var n := |a| - 1;
      SumAtLeast(a[..n], v);
      SqDevZero(a[..n], v);
    }
  }

  /** Moving the centre down, away from entries that all lie above it, only
      increases the squared deviations. */
  lemma {:induction false} SqDevAntitone(a: seq<real>, v: real, w: real)
    requires forall j :: 0 <= j < |a| ==> a[j] >= w
    ensures v <= w ==> SqDev(a, v) >= SqDev(a, w)
    decreases |a|
  {
    if |a| > 0 {
      var n := |a| - 1;
      SqDevAntitone(a[..n], v, w);
      if v <= w {
        SqMonotone(a[n] - w, a[n] - v);
      }
    }
  }

  /** Appending the centre itself adds nothing. */
  lemma SqDevAppendCentre(a: seq<real>, v: real)
    ensures SqDev(a + [v], v) == SqDev(a, v)
  {
    assert (a + [v])[..|a|] == a;
  }

  lemma {:induction false} SqDevOfZeros(a: seq<real>, t: real)
    requires forall j :: 0 <= j < |a| ==> a[j] == 0.0
    ensures SqDev(a, t) == Times(|a|, Sq(0.0 - t))
    decreases |a|
  {
    if |a| > 0 {
      SqDevOfZeros(a[..|a| - 1], t);
    }
  }

  /** The mean of entries that are all at least `v` is at least `v`. */
  lemma MeanAtLeast(r: nat, s: real, v: real)
    requires r >= 1 && s >= Times(r, v)
    ensures s / r as real >= v
    ensures s / r as real == v ==> s == Times(r, v)
  {
    TimesIsProduct(r, v);
    DivideBack(s, r as real);
    CancelPositive(r as real, v, s / r as real);
  }

  /** The support test on the first entries of a row against its entry `v`,
      at most all of them: the candidate threshold is at most `v` exactly
      when the squared deviations from `v` are at most one. */
  lemma DevTest(a: seq<real>, v: real, sqrt: real -> real)
    requires IsSqrt(sqrt) && |a| >= 1
    requires forall j :: 0 <= j < |a| ==> a[j] >= v
    ensures CandidateFrom(|a| as real, Sum(a), Sum(Squares(a)), sqrt) <= v
            <==> SqDev(a, v) <= 1.0
    ensures CandidateFrom(|a| as real, Sum(a), Sum(Squares(a)), sqrt) <= v
            ==> Delta(|a| as real, Sum(a), Sum(Squares(a))) >= 0.0
  {
    var r := |a| as real;
    SqDevExpand(a, v);
    SumAtLeast(a, v);
    MeanAtLeast(|a|, Sum(a), v);
    if Sum(a) / r == v {
      SqDevZero(a, v);
    }
    CandidateTestAlgebra(r, Sum(a), Sum(Squares(a)), v, sqrt);
  }

  /** With `delta` nonnegative, the candidate threshold of the first entries
      of a row balances them: squared deviations from it sum to one. */
  lemma DevBalance(a: seq<real>, sqrt: real -> real)
    requires IsSqrt(sqrt) && |a| >= 1
    requires Delta(|a| as real, Sum(a), Sum(Squares(a))) >= 0.0
    ensures SqDev(a, CandidateFrom(|a| as real, Sum(a), Sum(Squares(a)), sqrt)) == 1.0
  {
    hide *;
    var t := CandidateFrom(|a| as real, Sum(a), Sum(Squares(a)), sqrt);
    CandidateBalanceAlgebra(|a| as real, Sum(a), Sum(Squares(a)), sqrt);
    SqDevExpand(a, t);
  }

  // ---------------------------------------------------------------------
  // The threshold search on sorted candidates

  /** The candidate threshold at every rank of the sorted candidates
      (`tau = mean - sqrt(delta_nz)` with `rho = 1, 2, ..., d` and running
      sums of the entries and of their squares). */
  function Thresholds(z: seq<real>, sqrt: real -> real): (t: seq<real>)
    ensures |t| == |z|
  {
    var rho := Ranks(|z|);
    var cs := Cumsum(z);
    var cs2 := Cumsum(Squares(z));
    seq(|z|, i requires 0 <= i < |z| => CandidateFrom(rho[i], cs[i], cs2[i], sqrt))
  }

  /** The candidate at rank `i + 1` depends only on the first `i + 1`
      entries. */
  lemma ThresholdAt(z: seq<real>, sqrt: real -> real, i: nat)
    requires i < |z|
    ensures Thresholds(z, sqrt)[i]
            == CandidateFrom((i + 1) as real, Sum(z[..i + 1]), Sum(Squares(z[..i + 1])), sqrt)
  {
    MulPrefix(z, z, i + 1);
  }

  /** Support test at every rank: the candidate threshold is at most the
      entry (`tau <= Xsrt`). */
  function SupportMask(z: seq<real>, sqrt: real -> real): (b: seq<bool>)
    ensures |b| == |z|
  {
    AtMost(Thresholds(z, sqrt), z)
  }

  /** The support test at a rank whose entry is at most every earlier one:
      it passes exactly when the squared deviations of the first entries
      from this entry are at most one, and then `delta` is nonnegative. */
  lemma SupportTest(z: seq<real>, sqrt: real -> real, i: nat)
    requires IsSqrt(sqrt) && i < |z|
    requires forall j :: 0 <= j <= i ==> z[j] >= z[i]
    ensures SupportMask(z, sqrt)[i] <==> SqDev(z[..i + 1], z[i]) <= 1.0
    ensures SupportMask(z, sqrt)[i]
            ==> Delta((i + 1) as real, Sum(z[..i + 1]), Sum(Squares(z[..i + 1]))) >= 0.0
  {
    ThresholdAt(z, sqrt, i);
    DevTest(z[..i + 1], z[i], sqrt);
  }

  lemma RankOnePasses(z: seq<real>, sqrt: real -> real)
    requires IsSqrt(sqrt) && |z| > 0
    ensures SupportMask(z, sqrt)[0]
  {
    SupportTest(z, sqrt, 0);
    assert z[..1][..0] == [];
  }

  /** Number of ranks passing the support test (`(tau <= Xsrt).sum(dim)`);
      rank 1 always passes. */
  function SupportSize(z: seq<real>, sqrt: real -> real): (s: nat)
    requires IsSqrt(sqrt) && |z| > 0
    ensures 1 <= s <= |z|
  {
    RankOnePasses(z, sqrt);
    CountHasTrue(SupportMask(z, sqrt), 0);
    Count(SupportMask(z, sqrt))
  }

  /** Threshold and support size from sorted candidates: the candidate at
      the last passing rank (`tau.gather(dim, support_size - 1)`). */
  function Solve(z: seq<real>, sqrt: real -> real): (t: Threshold)
    requires IsSqrt(sqrt) && |z| > 0
    ensures 1 <= t.size <= |z|
    ensures t.size == Count(SupportMask(z, sqrt))
  {
    var size := SupportSize(z, sqrt);
    Threshold(Thresholds(z, sqrt)[size - 1], size)
  }

  /** Threshold and support size of a row, searching only the top `k`
      entries when `k` is given and below the row length, and solving again
      with `2k` when the support fills the whole window. */
  function ThresholdAndSupport(x: seq<real>, k: Option<nat>, sqrt: real -> real): (t: Threshold)
    requires IsSqrt(sqrt) && |x| > 0
    requires k.Some? ==> k.value >= 1
    ensures 1 <= t.size <= |x|
    decreases if k.Some? && k.value < |x| then |x| - k.value else 0
  {
    var t := Solve(Candidates(x, k), sqrt);
    if k.Some? && k.value < |x| && t.size == k.value then
      ThresholdAndSupport(x, Some(2 * k.value), sqrt)
    else
      t
  }

  /** The squared margin above a threshold, `clamp(X - tau, min=0) ** 2`. */
  function SqMargin(y: seq<real>, tau: real): (p: seq<real>)
    ensures |p| == |y|
    ensures forall i :: 0 <= i < |y| ==> p[i] >= 0.0
    ensures forall i :: 0 <= i < |y| ==> (p[i] > 0.0 <==> y[i] > tau)
  {
    var m := Margin(y, tau);
    SquaresAt(m);
    forall i | 0 <= i < |y|
      ensures Squares(m)[i] > 0.0 <==> m[i] > 0.0
    {
      SqZero(m[i]);
    }
    Squares(m)
  }

  /** 1.5-entmax of a row: stabilise, halve, find the threshold, and square
      the margin above it. */
  function Entmax15(x: seq<real>, k: Option<nat>, sqrt: real -> real): (p: seq<real>)
    requires IsSqrt(sqrt) && |x| > 0
    requires k.Some? ==> k.value >= 1
    ensures |p| == |x|
    ensures forall i :: 0 <= i < |p| ==> p[i] >= 0.0
    ensures forall i :: 0 <= i < |p| ==>
              (p[i] > 0.0 <==> Halve(Stabilize(x))[i] > ThresholdAndSupport(Halve(Stabilize(x)), k, sqrt).tau)
  {
    var y := Halve(Stabilize(x));
    var t := ThresholdAndSupport(y, k, sqrt);
    SqMargin(y, t.tau)
  }

  // ---------------------------------------------------------------------
  // The support is a prefix of the sorted row

  /** On a descending row, a rank that passes the support test has a
      predecessor that passes it too. */
  lemma SupportStepsDown(z: seq<real>, sqrt: real -> real, l: nat)
    requires IsSqrt(sqrt) && SortedDesc(z)
    requires 0 < l < |z|
    requires SupportMask(z, sqrt)[l]
    ensures SupportMask(z, sqrt)[l - 1]
  {
    hide CandidateFrom, Delta, DevFrom, Sq, SqDev, Thresholds;
    SupportTest(z, sqrt, l);
    SupportTest(z, sqrt, l - 1);
    assert z[..l + 1] == z[..l] + [z[l]];
    SqDevAppendCentre(z[..l], z[l]);
    assert z[..l - 1 + 1] == z[..l];
    SqDevAntitone(z[..l], z[l], z[l - 1]);
  }

  lemma SupportPrefixClosed(z: seq<real>, sqrt: real -> real)
    requires IsSqrt(sqrt) && SortedDesc(z)
    ensures PrefixClosed(SupportMask(z, sqrt))
  {
    var b := SupportMask(z, sqrt);
    forall l | 0 < l < |b| && b[l]
      ensures b[l - 1]
    {
      SupportStepsDown(z, sqrt, l);
    }
    AdjacentPrefixClosed(b);
  }

  /** The support test holds for ranks `1..size` and fails for every later
      rank. */
  lemma SupportIsPrefix(z: seq<real>, sqrt: real -> real)
    requires IsSqrt(sqrt) && SortedDesc(z) && |z| > 0
    ensures forall i :: 0 <= i < |z| ==> (SupportMask(z, sqrt)[i] <==> i < Solve(z, sqrt).size)
  {
    SupportPrefixClosed(z, sqrt);
    CountPrefixClosed(SupportMask(z, sqrt));
  }

  /** The solved threshold balances the support: the squared deviations of
      the first `size` sorted entries from it sum to one. */
  lemma SolveBalance(z: seq<real>, sqrt: real -> real)
    requires IsSqrt(sqrt) && SortedDesc(z) && |z| > 0
    ensures SqDev(z[..Solve(z, sqrt).size], Solve(z, sqrt).tau) == 1.0
  {
    hide CandidateFrom, Delta, DevFrom, Sq;
    var s := Solve(z, sqrt).size;
    SupportIsPrefix(z, sqrt);
    SupportTest(z, sqrt, s - 1);
    ThresholdAt(z, sqrt, s - 1);
    assert z[..s - 1 + 1] == z[..s];
    DevBalance(z[..s], sqrt);
  }

  /** The last rank of the support lies on or above the threshold. */
  lemma LastSupportedAtOrAbove(z: seq<real>, sqrt: real -> real)
    requires IsSqrt(sqrt) && SortedDesc(z) && |z| > 0
    ensures z[Solve(z, sqrt).size - 1] >= Solve(z, sqrt).tau
  {
    hide CandidateFrom, Delta, DevFrom, Sq, SqDev, Thresholds;
    SupportIsPrefix(z, sqrt);
    assert SupportMask(z, sqrt)[Solve(z, sqrt).size - 1];
  }

  /** A centre from which entries all at least `w` deviate by exactly one
      lies above `w` when they deviate from `w` by more than one. */
  lemma AboveWhenBalanced(a: seq<real>, tau: real, w: real)
    requires forall j :: 0 <= j < |a| ==> a[j] >= w
    requires SqDev(a, w) > 1.0 && SqDev(a, tau) == 1.0
    ensures w < tau
  {
    SqDevAntitone(a, tau, w);
  }

  /** The first rank after the support lies strictly below the threshold. */
  lemma FirstUnsupportedBelow(z: seq<real>, sqrt: real -> real)
    requires IsSqrt(sqrt) && SortedDesc(z) && |z| > 0
    requires Solve(z, sqrt).size < |z|
    ensures z[Solve(z, sqrt).size] < Solve(z, sqrt).tau
  {
    hide CandidateFrom, Delta, DevFrom, Sq, SqDev, Thresholds;
    var t := Solve(z, sqrt);
    var s := t.size;
    SupportIsPrefix(z, sqrt);
    SupportTest(z, sqrt, s);
    assert z[..s + 1] == z[..s] + [z[s]];
    SqDevAppendCentre(z[..s], z[s]);
    SolveBalance(z, sqrt);
    AboveWhenBalanced(z[..s], t.tau, z[s]);
  }

  /** The threshold separates the sorted row: exactly the first `size`
      entries lie on or above it. */
  lemma ThresholdSeparates(z: seq<real>, sqrt: real -> real)
    requires IsSqrt(sqrt) && SortedDesc(z) && |z| > 0
    ensures forall i :: 0 <= i < |z| ==> (z[i] >= Solve(z, sqrt).tau <==> i < Solve(z, sqrt).size)
  {
    hide CandidateFrom, Delta, DevFrom, Sq, SqDev, Thresholds, SupportMask;
    var t := Solve(z, sqrt);
    var s := t.size;
    LastSupportedAtOrAbove(z, sqrt);
    if s < |z| {
      FirstUnsupportedBelow(z, sqrt);
    }
    forall i | 0 <= i < |z|
      ensures z[i] >= t.tau <==> i < s
    {
      if i < s {
        assert z[i] >= z[s - 1];
      } else {
        assert z[i] <= z[s];
      }
    }
  }

  /** The square root of one quarter is one half. */
  lemma SqrtQuarter(sqrt: real -> real)
    requires IsSqrt(sqrt)
    ensures sqrt(0.25) == 0.5
  {
    var r := sqrt(0.25);
    assert r >= 0.0 && r * r == 0.25;
    var gap := r - 0.5;
    assert gap * (r + 0.5) == r * r - 0.25;
    assert gap == gap * (r + 0.5) / (r + 0.5);
  }

  /** The boundary entry of the support can meet the threshold: on the
      sorted row `[1, 0]` both ranks pass and the threshold is 0, so the
      second entry is counted in the support and still gets output 0. */
  lemma BoundaryMeetsThreshold(sqrt: real -> real)
    requires IsSqrt(sqrt)
    ensures Solve([1.0, 0.0], sqrt) == Threshold(0.0, 2)
  {
    hide CandidateFrom, Delta, DevFrom, Sq, SqDev, Thresholds, SupportMask;
    var z := [1.0, 0.0];
    BoundaryBothPass(sqrt);
    BoundaryCandidate(sqrt);
    var b := SupportMask(z, sqrt);
    assert b == [true, true];
    assert b[..1] == [true];
    assert Count(b) == 2;
  }

  lemma BoundaryBothPass(sqrt: real -> real)
    requires IsSqrt(sqrt)
    ensures SupportMask([1.0, 0.0], sqrt) == [true, true]
  {
    hide CandidateFrom, Delta, DevFrom, Thresholds;
    var z := [1.0, 0.0];
    assert z[..2] == z && z[..1] == [1.0];
    SupportTest(z, sqrt, 1);
    assert SqDev([1.0], 0.0) == SqDev([], 0.0) + Sq(1.0 - 0.0);
    assert SqDev(z, 0.0) == SqDev([1.0], 0.0) + Sq(0.0 - 0.0);
    RankOnePasses(z, sqrt);
  }

  lemma BoundaryCandidate(sqrt: real -> real)
    requires IsSqrt(sqrt)
    ensures Thresholds([1.0, 0.0], sqrt)[1] == 0.0
  {
    var z := [1.0, 0.0];
    assert z[..2] == z;
    ThresholdAt(z, sqrt, 1);
    BoundarySums();
    QuarterCandidate(sqrt);
  }

  lemma BoundarySums()
    ensures Sum([1.0, 0.0]) == 1.0 && Sum(Squares([1.0, 0.0])) == 1.0
  {
    var z := [1.0, 0.0];
    MulAt(z, z, 0);
    MulAt(z, z, 1);
    assert Squares(z) == z;
    assert z[..1] == [1.0];
  }

  lemma QuarterCandidate(sqrt: real -> real)
    requires IsSqrt(sqrt)
    ensures CandidateFrom(2.0, 1.0, 1.0, sqrt) == 0.0
  {
    assert Delta(2.0, 1.0, 1.0) == 0.25;
    assert Clamp0(0.25) == 0.25;
    SqrtQuarter(sqrt);
  }

  // ---------------------------------------------------------------------
  // The top-k window gives the full-sort answer

  lemma ThresholdsPrefix(z: seq<real>, sqrt: real -> real, k: nat)
    requires k <= |z|
    ensures Thresholds(z[..k], sqrt) == Thresholds(z, sqrt)[..k]
  {
    hide CandidateFrom, Delta, DevFrom, Sq;
    forall i | 0 <= i < k
      ensures Thresholds(z[..k], sqrt)[i] == Thresholds(z, sqrt)[i]
    {
      ThresholdAt(z, sqrt, i);
      ThresholdAt(z[..k], sqrt, i);
      assert z[..k][..i + 1] == z[..i + 1];
    }
  }

  lemma SupportMaskPrefix(z: seq<real>, sqrt: real -> real, k: nat)
    requires k <= |z|
    ensures SupportMask(z[..k], sqrt) == SupportMask(z, sqrt)[..k]
  {
    ThresholdsPrefix(z, sqrt, k);
  }

  /** When the support found in the first `k` sorted entries is smaller than
      `k`, searching the whole sorted row finds the same threshold and size. */
  lemma SolveWindow(z: seq<real>, sqrt: real -> real, k: nat)
    requires IsSqrt(sqrt) && SortedDesc(z)
    requires 1 <= k <= |z|
    requires Solve(z[..k], sqrt).size < k
    ensures Solve(z[..k], sqrt) == Solve(z, sqrt)
  {
    hide CandidateFrom, Delta, DevFrom, Sq, SqDev, Thresholds, SupportMask;
    SupportMaskPrefix(z, sqrt, k);
    SupportPrefixClosed(z, sqrt);
    CountWindow(SupportMask(z, sqrt), k);
    ThresholdsPrefix(z, sqrt, k);
  }

  /** The top-k path, with its doubling fallback, returns the same threshold
      and support size as the full sort, and the doubling terminates. */
  lemma {:induction false} TopKAgrees(x: seq<real>, k: Option<nat>, sqrt: real -> real)
    requires IsSqrt(sqrt) && |x| > 0
    requires k.Some? ==> k.value >= 1
    ensures ThresholdAndSupport(x, k, sqrt) == ThresholdAndSupport(x, None, sqrt)
    ensures ThresholdAndSupport(x, None, sqrt) == Solve(SortDesc(x), sqrt)
    decreases if k.Some? && k.value < |x| then |x| - k.value else 0
  {
    hide CandidateFrom, Delta, DevFrom, Sq, SqDev, Thresholds, SupportMask, SupportSize, Solve, Count, SortDesc;
    if k.Some? && k.value < |x| {
      var z := SortDesc(x);
      if Solve(Candidates(x, k), sqrt).size == k.value {
        TopKAgrees(x, Some(2 * k.value), sqrt);
      } else {
        SolveWindow(z, sqrt, k.value);
      }
    }
  }

  // ---------------------------------------------------------------------
  // Properties of the 1.5-entmax output

  /** `SqMargin` as the map of one scalar function, for order-free sums. */
  function SqRamp(tau: real): (f: real -> real)
  {
    v => Sq(Clamp0(v - tau))
  }

  lemma SqMarginIsMap(y: seq<real>, tau: real)
    ensures SqMargin(y, tau) == Map(SqRamp(tau), y)
  {
    SquaresAt(Margin(y, tau));
    forall i | 0 <= i < |y|
      ensures SqMargin(y, tau)[i] == Map(SqRamp(tau), y)[i]
    {
      assert SqRamp(tau)(y[i]) == Sq(Clamp0(y[i] - tau));
    }
  }

  /** Over entries on or above `tau`, the squared margin sums to the squared
      deviations from `tau`. */
  lemma {:induction false} SqRampAbove(a: seq<real>, tau: real)
    requires forall i :: 0 <= i < |a| ==> a[i] >= tau
    ensures Sum(Map(SqRamp(tau), a)) == SqDev(a, tau)
    decreases |a|
  {
    if |a| > 0 {
      var n := |a| - 1;
      assert Map(SqRamp(tau), a)[..n] == Map(SqRamp(tau), a[..n]);
      SqRampAbove(a[..n], tau);
      assert Clamp0(a[n] - tau) == a[n] - tau;
      assert SqRamp(tau)(a[n]) == Sq(a[n] - tau);
    }
  }

  /** Entries below `tau` contribute nothing. */
  lemma SqRampBelow(a: seq<real>, tau: real)
    requires forall i :: 0 <= i < |a| ==> a[i] < tau
    ensures Sum(Map(SqRamp(tau), a)) == 0.0
  {
    forall i | 0 <= i < |a|
      ensures Map(SqRamp(tau), a)[i] == 0.0
    {
      assert Clamp0(a[i] - tau) == 0.0;
      assert SqRamp(tau)(a[i]) == Sq(0.0);
    }
    SumZeros(Map(SqRamp(tau), a));
  }

  /** A row cut at `s`, with the first `s` entries on or above `tau`, the
      rest below it, and the first `s` deviating from `tau` by exactly one,
      has squared margin summing to one. */
  lemma SqMarginSplitSum(z: seq<real>, tau: real, s: nat)
    requires s <= |z|
    requires forall i :: 0 <= i < s ==> z[i] >= tau
    requires forall i :: s <= i < |z| ==> z[i] < tau
    requires SqDev(z[..s], tau) == 1.0
    ensures Sum(Map(SqRamp(tau), z)) == 1.0
  {
    assert z == z[..s] + z[s..];
    MapConcat(SqRamp(tau), z[..s], z[s..]);
    SumConcat(Map(SqRamp(tau), z[..s]), Map(SqRamp(tau), z[s..]));
    SqRampAbove(z[..s], tau);
    SqRampBelow(z[s..], tau);
  }

  /** On the sorted row, the squared margin above the solved threshold sums
      to one. */
  lemma SortedOutputSum(z: seq<real>, sqrt: real -> real)
    requires IsSqrt(sqrt) && SortedDesc(z) && |z| > 0
    ensures Sum(Map(SqRamp(Solve(z, sqrt).tau), z)) == 1.0
  {
    hide CandidateFrom, Delta, DevFrom, Thresholds, SupportMask;
    ThresholdSeparates(z, sqrt);
    SolveBalance(z, sqrt);
    SqMarginSplitSum(z, Solve(z, sqrt).tau, Solve(z, sqrt).size);
  }

  /** Over the reals, the 1.5-entmax output sums to one. */
  lemma SumsToOne(x: seq<real>, k: Option<nat>, sqrt: real -> real)
    requires IsSqrt(sqrt) && |x| > 0
    requires k.Some? ==> k.value >= 1
    ensures Sum(Entmax15(x, k, sqrt)) == 1.0
  {
    hide CandidateFrom, Delta, DevFrom, Thresholds, SupportMask, Solve;
    var y := Halve(Stabilize(x));
    var z := SortDesc(y);
    var tau := Solve(z, sqrt).tau;
    TopKAgrees(y, k, sqrt);
    SqMarginIsMap(y, tau);
    SumMapPerm(SqRamp(tau), y, z);
    SortedOutputSum(z, sqrt);
  }

  /** 1.5-entmax is the squared margin of the halved stabilised row above
      the threshold solved on its full sort, whatever the candidate window. */
  lemma ViaFullSort(x: seq<real>, k: Option<nat>, sqrt: real -> real)
    requires IsSqrt(sqrt) && |x| > 0
    requires k.Some? ==> k.value >= 1
    ensures var y := Halve(Stabilize(x));
            Entmax15(x, k, sqrt) == SqMargin(y, Solve(SortDesc(y), sqrt).tau)
  {
    TopKAgrees(Halve(Stabilize(x)), k, sqrt);
  }

  /** With the sorted row cut at `s` by `tau`, an entry of the unsorted row
      is on or above `tau` exactly when it reaches the boundary entry
      `z[s - 1]`. */
  lemma AtOrAboveIffTop(y: seq<real>, z: seq<real>, tau: real, s: nat)
    requires multiset(y) == multiset(z)
    requires SortedDesc(z) && 1 <= s <= |z|
    requires forall i :: 0 <= i < |z| ==> (z[i] >= tau <==> i < s)
    ensures forall i :: 0 <= i < |y| ==> (y[i] >= tau <==> y[i] >= z[s - 1])
  {
    forall i | 0 <= i < |y|
      ensures y[i] >= tau <==> y[i] >= z[s - 1]
    {
      assert y[i] in multiset(z) by { assert y[i] in multiset(y); }
      var j :| 0 <= j < |z| && z[j] == y[i];
      if j < s {
        assert z[j] >= z[s - 1];
      }
    }
  }

  /** Every nonzero output sits at or above the boundary entry of the sorted
      row, and every entry strictly above that boundary gets a nonzero
      output: the support is the top `size` entries, save that the boundary
      entry itself may meet the threshold and get zero. */
  lemma SupportIsTopEntries(x: seq<real>, k: Option<nat>, sqrt: real -> real)
    requires IsSqrt(sqrt) && |x| > 0
    requires k.Some? ==> k.value >= 1
    ensures var y := Halve(Stabilize(x));
            var b := SortDesc(y)[ThresholdAndSupport(y, k, sqrt).size - 1];
            forall i :: 0 <= i < |x| ==>
              (Entmax15(x, k, sqrt)[i] > 0.0 ==> y[i] >= b) &&
              (y[i] > b ==> Entmax15(x, k, sqrt)[i] > 0.0)
  {
    hide CandidateFrom, Delta, DevFrom, Thresholds, SupportMask, Solve,
         SqMargin, SortDesc, ThresholdAndSupport, Entmax15, Stabilize, Halve;
    var y := Halve(Stabilize(x));
    var z := SortDesc(y);
    var t := Solve(z, sqrt);
    TopKAgrees(y, k, sqrt);
    ThresholdSeparates(z, sqrt);
    AtOrAboveIffTop(y, z, t.tau, t.size);
    assert z[t.size - 1] >= t.tau;
  }

  /** Adding a constant to every entry leaves the output unchanged. */
  lemma ShiftInvariant(x: seq<real>, c: real, k: Option<nat>, sqrt: real -> real)
    requires IsSqrt(sqrt) && |x| > 0
    requires k.Some? ==> k.value >= 1
    ensures Entmax15(Shift(x, c), k, sqrt) == Entmax15(x, k, sqrt)
  {
    StabilizeShift(x, c);
  }

  /** The candidate window only changes the cost, never the output. */
  lemma TopKOutputAgrees(x: seq<real>, k: Option<nat>, sqrt: real -> real)
    requires IsSqrt(sqrt) && |x| > 0
    requires k.Some? ==> k.value >= 1
    ensures Entmax15(x, k, sqrt) == Entmax15(x, None, sqrt)
  {
    TopKAgrees(Halve(Stabilize(x)), k, sqrt);
  }

  /** On a sorted row of zeros every rank passes, and the squared margin of
      zero above the threshold is `1/d`. */
  lemma ZerosSolve(z: seq<real>, sqrt: real -> real)
    requires IsSqrt(sqrt) && |z| > 0 && SortedDesc(z)
    requires forall i :: 0 <= i < |z| ==> z[i] == 0.0
    ensures SqRamp(Solve(z, sqrt).tau)(0.0) == 1.0 / |z| as real
  {
    hide CandidateFrom, Delta, DevFrom, Thresholds, SupportMask;
    var n := |z|;
    var t := Solve(z, sqrt);
    SupportIsPrefix(z, sqrt);
    SupportTest(z, sqrt, n - 1);
    SqDevOfZeros(z[..n - 1 + 1], z[n - 1]);
    assert Sq(0.0 - z[n - 1]) == 0.0;
    TimesZero(n - 1 + 1);
    assert SupportMask(z, sqrt)[n - 1];
    assert t.size == n;
    assert z[..n] == z;
    SolveBalance(z, sqrt);
    SqDevOfZeros(z, t.tau);
    LastSupportedAtOrAbove(z, sqrt);
    EvenShare(n, t.tau);
  }

  /** `n` equal squared shares of `-tau` that make up one are each `1/n`. */
  lemma EvenShare(n: nat, tau: real)
    requires n >= 1 && tau <= 0.0
    requires Times(n, Sq(0.0 - tau)) == 1.0
    ensures SqRamp(tau)(0.0) == 1.0 / n as real
  {
    var share := Sq(0.0 - tau);
    TimesIsProduct(n, share);
    assert n as real * share == 1.0;
    assert share == 1.0 / n as real;
    assert Clamp0(0.0 - tau) == 0.0 - tau;
  }

  /** A row of equal entries is spread uniformly: every output is `1/d`. */
  lemma UniformRow(x: seq<real>, k: Option<nat>, sqrt: real -> real)
    requires IsSqrt(sqrt) && |x| > 0
    requires k.Some? ==> k.value >= 1
    requires forall i :: 0 <= i < |x| ==> x[i] == x[0]
    ensures forall i :: 0 <= i < |x| ==> Entmax15(x, k, sqrt)[i] == 1.0 / |x| as real
  {
    hide CandidateFrom, Delta, DevFrom, Thresholds, SupportMask, Solve,
         SqMargin, SortDesc, ThresholdAndSupport, Entmax15, Stabilize;
    var y := Halve(Stabilize(x));
    var z := SortDesc(y);
    var tau := Solve(z, sqrt).tau;
    ViaFullSort(x, k, sqrt);
    UniformStabilized(x);
    forall i | 0 <= i < |z|
      ensures z[i] == 0.0
    {
      assert z[i] in multiset(y) by { assert z[i] in multiset(z); }
    }
    ZerosSolve(z, sqrt);
    SqMarginIsMap(y, tau);
    forall i | 0 <= i < |x|
      ensures Entmax15(x, k, sqrt)[i] == 1.0 / |x| as real
    {
      assert y[i] == 0.0;
      assert Map(SqRamp(tau), y)[i] == SqRamp(tau)(0.0);
    }
  }
}
