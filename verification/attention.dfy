/** The two pieces of the PLADIS attention step around the normalisers:
    the choice of sparse activation by name that `sparse_attention` applies
    to every row of scores in place of softmax, and the blend
    `dense + scale * (sparse - dense)` of `pladis_attention_wrapper`. */
module Attention {
  import opened Rows
  import Sparsemax
  import Entmax

  /** A matrix as a sequence of rows, all `cols` wide. */
  ghost predicate Shaped(m: seq<seq<real>>, rows: nat, cols: nat)
  {
    |m| == rows && forall i :: 0 <= i < |m| ==> |m[i]| == cols
  }

  // ---------------------------------------------------------------------
  // Choosing the activation

  const EntmaxName: string := "entmax1.5"
  const SparsemaxName: string := "sparsemax"

  /** The activation `sparse_attention` applies to one row of scores:
      sparsemax for `"sparsemax"`, and 1.5-entmax for `"entmax1.5"` and for
      every other name. No top-`k` window is used. */
  function Activate(func: string, x: seq<real>, sqrt: real -> real): (p: seq<real>)
    requires Entmax.IsSqrt(sqrt) && |x| > 0
    ensures |p| == |x|
    ensures forall i :: 0 <= i < |p| ==> p[i] >= 0.0
  {
    if func == EntmaxName then Entmax.Entmax15(x, None, sqrt)
    else if func == SparsemaxName then Sparsemax.Sparsemax(x, None)
    else Entmax.Entmax15(x, None, sqrt)
  }

  /** Every name but `"sparsemax"` selects the same activation as
      `"entmax1.5"`, and `"sparsemax"` selects a different code path. */
  lemma FallbackIsEntmax(func: string, x: seq<real>, sqrt: real -> real)
    requires Entmax.IsSqrt(sqrt) && |x| > 0
    ensures func != SparsemaxName ==> Activate(func, x, sqrt) == Activate(EntmaxName, x, sqrt)
    ensures func == SparsemaxName ==> Activate(func, x, sqrt) == Sparsemax.Sparsemax(x, None)
  {
  }

  /** Whatever the name, each row of attention weights is a probability
      distribution. */
  lemma ActivateSumsToOne(func: string, x: seq<real>, sqrt: real -> real)
    requires Entmax.IsSqrt(sqrt) && |x| > 0
    ensures Sum(Activate(func, x, sqrt)) == 1.0
  {
    if func == SparsemaxName {
      Sparsemax.SumsToOne(x, None);
    } else {
      Entmax.SumsToOne(x, None, sqrt);
    }
  }

  // ---------------------------------------------------------------------
  // Attention weights

  /** The activation on every row of a score matrix (`dim=-1`). */
  function Weights(scores: seq<seq<real>>, func: string, sqrt: real -> real): (w: seq<seq<real>>)
    requires Entmax.IsSqrt(sqrt)
    requires forall i :: 0 <= i < |scores| ==> |scores[i]| > 0
    ensures |w| == |scores|
    ensures forall i :: 0 <= i < |w| ==> w[i] == Activate(func, scores[i], sqrt)
  {
    seq(|scores|, i requires 0 <= i < |scores| => Activate(func, scores[i], sqrt))
  }

  /** Every row of attention weights is a probability distribution over
      the keys of its row of scores. */
  lemma WeightsAreDistributions(scores: seq<seq<real>>, func: string, sqrt: real -> real)
    requires Entmax.IsSqrt(sqrt)
    requires forall i :: 0 <= i < |scores| ==> |scores[i]| > 0
    ensures forall i :: 0 <= i < |scores| ==>
              |Weights(scores, func, sqrt)[i]| == |scores[i]| &&
              Sum(Weights(scores, func, sqrt)[i]) == 1.0 &&
              forall j :: 0 <= j < |scores[i]| ==> Weights(scores, func, sqrt)[i][j] >= 0.0
  {
    forall i | 0 <= i < |scores|
      ensures Sum(Weights(scores, func, sqrt)[i]) == 1.0
    {
      ActivateSumsToOne(func, scores[i], sqrt);
    }
  }

  // ---------------------------------------------------------------------
  // Blending with the dense result

  /** `dense + scale * (sparse - dense)`, entry by entry. */
  function Blend(dense: seq<seq<real>>, sparse: seq<seq<real>>, scale: real, cols: nat): (r: seq<seq<real>>)
    requires Shaped(dense, |dense|, cols) && Shaped(sparse, |dense|, cols)
    ensures Shaped(r, |dense|, cols)
  {
    seq(|dense|, i requires 0 <= i < |dense| =>
      seq(cols, c requires 0 <= c < cols => dense[i][c] + scale * (sparse[i][c] - dense[i][c])))
  }

  /** The blend is the affine combination `(1 - scale) * dense + scale *
      sparse`: scale 0 gives the dense result and scale 1 the sparse one. */
  lemma BlendAffine(dense: seq<seq<real>>, sparse: seq<seq<real>>, scale: real, cols: nat)
    requires Shaped(dense, |dense|, cols) && Shaped(sparse, |dense|, cols)
    ensures forall i, c :: 0 <= i < |dense| && 0 <= c < cols ==>
              Blend(dense, sparse, scale, cols)[i][c]
              == (1.0 - scale) * dense[i][c] + scale * sparse[i][c]
    ensures scale == 0.0 ==> Blend(dense, sparse, scale, cols) == dense
    ensures scale == 1.0 ==> Blend(dense, sparse, scale, cols) == sparse
  {
    var r := Blend(dense, sparse, scale, cols);
    if scale == 0.0 {
      forall i | 0 <= i < |dense|
        ensures r[i] == dense[i]
      {
      }
    }
    if scale == 1.0 {
      forall i | 0 <= i < |dense|
        ensures r[i] == sparse[i]
      {
      }
    }
  }

  /** With a scale between 0 and 1 each entry lies between the dense and
      the sparse entry; with a scale above 1 it moves past the sparse entry,
      away from the dense one. */
  lemma BlendPosition(dense: seq<seq<real>>, sparse: seq<seq<real>>, scale: real, cols: nat,
                      i: nat, c: nat)
    requires Shaped(dense, |dense|, cols) && Shaped(sparse, |dense|, cols)
    requires i < |dense| && c < cols
    ensures var b := Blend(dense, sparse, scale, cols)[i][c];
            (0.0 <= scale <= 1.0 && dense[i][c] <= sparse[i][c] ==> dense[i][c] <= b <= sparse[i][c]) &&
            (0.0 <= scale <= 1.0 && sparse[i][c] <= dense[i][c] ==> sparse[i][c] <= b <= dense[i][c]) &&
            (scale > 1.0 && dense[i][c] < sparse[i][c] ==> b > sparse[i][c]) &&
            (scale > 1.0 && sparse[i][c] < dense[i][c] ==> b < sparse[i][c])
  {
    var gap := sparse[i][c] - dense[i][c];
    var b := Blend(dense, sparse, scale, cols)[i][c];
    assert b - dense[i][c] == scale * gap;
    assert b - sparse[i][c] == (scale - 1.0) * gap;
    if 0.0 <= scale <= 1.0 {
      assert scale * gap >= 0.0 <==> gap >= 0.0 || scale == 0.0;
      assert (scale - 1.0) * gap <= 0.0 <==> gap >= 0.0 || scale == 1.0;
    }
    if scale > 1.0 {
      assert (scale - 1.0) * gap > 0.0 <==> gap > 0.0;
    }
  }
}
