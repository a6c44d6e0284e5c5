/** The distances between a measured and a predicted distribution that the
    pipeline reports: total variation, the largest pointwise gap, and the
    Kullback-Leibler divergence over the support of the measured one. */
module Metrics {
  import opened Wrappers
  import opened Vectors

  /** `np.abs(p - q)` */
  function AbsDiff(p: seq<real>, q: seq<real>): (r: seq<real>)
    requires |p| == |q|
    ensures |r| == |p|
    ensures forall i :: 0 <= i < |r| ==> r[i] >= 0.0
  {
    seq(|p|, i requires 0 <= i < |p| => Abs(p[i] - q[i]))
  }

  /** `total_variation`: half the summed absolute gap. */
  function TotalVariation(p: seq<real>, q: seq<real>): (r: real)
    requires |p| == |q|
    ensures r >= 0.0
  {
    SumNonNegative(AbsDiff(p, q));
    0.5 * Sum(AbsDiff(p, q))
  }

  /** A sum of non-negative entries is 0 exactly when every entry is. */
  lemma {:induction false} SumZeroIff(s: seq<real>)
    requires forall i :: 0 <= i < |s| ==> s[i] >= 0.0
    ensures Sum(s) == 0.0 <==> forall i :: 0 <= i < |s| ==> s[i] == 0.0
  {
    if |s| > 0 {
      var n := |s| - 1;
      SumZeroIff(s[..n]);
      SumNonNegative(s[..n]);
      assert forall i :: 0 <= i < n ==> s[..n][i] == s[i];
    }
  }

  /** Every non-negative entry is at most the sum. */
  lemma {:induction false} EntryAtMostSum(s: seq<real>, k: nat)
    requires forall i :: 0 <= i < |s| ==> s[i] >= 0.0
    requires k < |s|
    ensures s[k] <= Sum(s)
  {
    var n := |s| - 1;
    SumNonNegative(s[..n]);
    if k < n {
      EntryAtMostSum(s[..n], k);
    }
  }

  /** For non-negative vectors the summed gap is at most the two masses. */
  lemma {:induction false} SumAbsDiffBound(p: seq<real>, q: seq<real>)
    requires |p| == |q|
    requires forall i :: 0 <= i < |p| ==> p[i] >= 0.0 && q[i] >= 0.0
    ensures Sum(AbsDiff(p, q)) <= Sum(p) + Sum(q)
  {
    if |p| > 0 {
      var n := |p| - 1;
      assert AbsDiff(p, q)[..n] == AbsDiff(p[..n], q[..n]);
      SumAbsDiffBound(p[..n], q[..n]);
    }
  }

  lemma {:induction false} SumAbsDiffSymmetric(p: seq<real>, q: seq<real>)
    requires |p| == |q|
    ensures Sum(AbsDiff(p, q)) == Sum(AbsDiff(q, p))
  {
    if |p| > 0 {
      var n := |p| - 1;
      assert AbsDiff(p, q)[..n] == AbsDiff(p[..n], q[..n]);
      assert AbsDiff(q, p)[..n] == AbsDiff(q[..n], p[..n]);
      SumAbsDiffSymmetric(p[..n], q[..n]);
    }
  }

  /** Total variation is 0 exactly between equal vectors. */
  lemma {:induction false} TotalVariationZeroIff(p: seq<real>, q: seq<real>)
    requires |p| == |q|
    ensures TotalVariation(p, q) == 0.0 <==> p == q
  {
    var g := AbsDiff(p, q);
    SumZeroIff(g);
    if TotalVariation(p, q) == 0.0 {
      forall i | 0 <= i < |p| ensures p[i] == q[i] {
        assert g[i] == 0.0;
      }
    }
  }

  lemma {:induction false} TotalVariationSymmetric(p: seq<real>, q: seq<real>)
    requires |p| == |q|
    ensures TotalVariation(p, q) == TotalVariation(q, p)
  {
    SumAbsDiffSymmetric(p, q);
  }

  /** Between two probability vectors the total variation is at most 1. */
  lemma {:induction false} TotalVariationAtMostOne(p: seq<real>, q: seq<real>)
    requires |p| == |q|
    requires forall i :: 0 <= i < |p| ==> p[i] >= 0.0 && q[i] >= 0.0
    requires Sum(p) == 1.0 && Sum(q) == 1.0
    ensures TotalVariation(p, q) <= 1.0
  {
    SumAbsDiffBound(p, q);
  }

  /** `linf`: the largest absolute gap; `np.max` of an empty vector raises,
      which is None here. */
  function Linf(p: seq<real>, q: seq<real>): (r: Option<real>)
    requires |p| == |q|
    ensures r.None? <==> |p| == 0
  {
    if |p| == 0 then None else Some(Max(AbsDiff(p, q)))
  }

  /** The largest gap bounds every gap and is one of them. */
  lemma {:induction false} LinfSpec(p: seq<real>, q: seq<real>)
    requires |p| == |q| && |p| > 0
    ensures forall i :: 0 <= i < |p| ==> Abs(p[i] - q[i]) <= Linf(p, q).value
    ensures exists i :: 0 <= i < |p| && Abs(p[i] - q[i]) == Linf(p, q).value
  {
    var g := AbsDiff(p, q);
    MaxSpec(g);
    var k :| 0 <= k < |g| && g[k] == Max(g);
    assert Abs(p[k] - q[k]) == Linf(p, q).value;
    forall i | 0 <= i < |p| ensures Abs(p[i] - q[i]) <= Linf(p, q).value {
      assert g[i] == Abs(p[i] - q[i]);
    }
  }

  /** The largest gap is 0 exactly between equal vectors, and never exceeds
      twice the total variation. */
  lemma {:induction false} LinfZeroIffAndBound(p: seq<real>, q: seq<real>)
    requires |p| == |q| && |p| > 0
    ensures Linf(p, q).value == 0.0 <==> p == q
    ensures Linf(p, q).value <= 2.0 * TotalVariation(p, q)
  {
    var g := AbsDiff(p, q);
    LinfSpec(p, q);
    var k :| 0 <= k < |p| && Abs(p[k] - q[k]) == Linf(p, q).value;
    EntryAtMostSum(g, k);
    if p == q {
      assert g[k] == 0.0;
    }
  }

  lemma {:induction false} MaxAbsDiffSymmetric(p: seq<real>, q: seq<real>)
    requires |p| == |q| && |p| > 0
    ensures Max(AbsDiff(p, q)) == Max(AbsDiff(q, p))
    decreases |p|
  {
    if |p| > 1 {
      var n := |p| - 1;
      assert AbsDiff(p, q)[..n] == AbsDiff(p[..n], q[..n]);
      assert AbsDiff(q, p)[..n] == AbsDiff(q[..n], p[..n]);
      MaxAbsDiffSymmetric(p[..n], q[..n]);
    }
  }

  lemma {:induction false} LinfSymmetric(p: seq<real>, q: seq<real>)
    requires |p| == |q|
    ensures Linf(p, q) == Linf(q, p)
  {
    if |p| > 0 {
      MaxAbsDiffSymmetric(p, q);
    }
  }

  // ---------------------------------------------------------------------
  // Kullback-Leibler divergence

  /** One term `p * (log(p + eps) - log(q + eps))`. */
  function KlTerm(pi: real, qi: real, log: real -> real, eps: real): real
  {
    pi * (log(pi + eps) - log(qi + eps))
  }

  /** `np.sum` of the terms over paired vectors. */
  function KlSum(ps: seq<real>, qs: seq<real>, log: real -> real, eps: real): real
    requires |ps| == |qs|
    decreases |ps|
  {
    if |ps| == 0 then 0.0
    else
      var n := |ps| - 1;
      KlSum(ps[..n], qs[..n], log, eps) + KlTerm(ps[n], qs[n], log, eps)
  }

  /** `kl_divergence`: the terms over the outcomes with p > 0 only. */
  function KlDivergence(p: seq<real>, q: seq<real>, log: real -> real, eps: real): real
    requires |p| == |q|
  {
    var mask := Positive(p);
    KlSum(Select(p, mask), Select(q, mask), log, eps)
  }

  /** Reference definition: every outcome contributes its term when p > 0
      and nothing otherwise. */
  function KlPointwise(p: seq<real>, q: seq<real>, log: real -> real, eps: real): real
    requires |p| == |q|
    decreases |p|
  {
    if |p| == 0 then 0.0
    else
      var n := |p| - 1;
      KlPointwise(p[..n], q[..n], log, eps) + (if p[n] > 0.0 then KlTerm(p[n], q[n], log, eps) else 0.0)
  }

  lemma {:induction false} KlSumAppend(ps: seq<real>, qs: seq<real>, x: real, y: real, log: real -> real, eps: real)
    requires |ps| == |qs|
    ensures KlSum(ps + [x], qs + [y], log, eps) == KlSum(ps, qs, log, eps) + KlTerm(x, y, log, eps)
  {
    assert (ps + [x])[..|ps|] == ps;
    assert (qs + [y])[..|qs|] == qs;
  }

  /** Masking leaves out exactly the outcomes with p <= 0: the divergence
      is the pointwise sum in which they contribute nothing. */
  lemma {:induction false} KlDivergenceIsPointwise(p: seq<real>, q: seq<real>, log: real -> real, eps: real)
    requires |p| == |q|
    ensures KlDivergence(p, q, log, eps) == KlPointwise(p, q, log, eps)
    decreases |p|
  {
    if |p| > 0 {
      var n := |p| - 1;
      var mask := Positive(p);
      KlDivergenceIsPointwise(p[..n], q[..n], log, eps);
      PositivePrefix(p, n);
      assert mask[..n] == Positive(p[..n]);
      var ps, qs := Select(p[..n], mask[..n]), Select(q[..n], mask[..n]);
      if p[n] > 0.0 {
        assert Select(p, mask) == ps + [p[n]];
        assert Select(q, mask) == qs + [q[n]];
        KlSumAppend(ps, qs, p[n], q[n], log, eps);
      } else {
        assert Select(p, mask) == ps + [];
        assert Select(q, mask) == qs + [];
        assert ps + [] == ps && qs + [] == qs;
      }
    }
  }

  lemma {:induction false} KlSumSelf(ps: seq<real>, log: real -> real, eps: real)
    ensures KlSum(ps, ps, log, eps) == 0.0
    decreases |ps|
  {
    if |ps| > 0 {
      KlSumSelf(ps[..|ps| - 1], log, eps);
    }
  }

  /** A distribution has divergence 0 from itself, whatever log is. */
  lemma {:induction false} KlDivergenceSelf(p: seq<real>, log: real -> real, eps: real)
    ensures KlDivergence(p, p, log, eps) == 0.0
  {
    KlSumSelf(Select(p, Positive(p)), log, eps);
  }

  /** Outcomes outside the support of p do not affect the divergence:
      changing q there leaves it unchanged. */
  lemma {:induction false} KlIgnoresOutsideSupport(p: seq<real>, q1: seq<real>, q2: seq<real>, log: real -> real, eps: real)
    requires |p| == |q1| == |q2|
    requires forall i :: 0 <= i < |p| && p[i] > 0.0 ==> q1[i] == q2[i]
    ensures KlDivergence(p, q1, log, eps) == KlDivergence(p, q2, log, eps)
  {
    PointwiseIgnoresOutsideSupport(p, q1, q2, log, eps);
    KlDivergenceIsPointwise(p, q1, log, eps);
    KlDivergenceIsPointwise(p, q2, log, eps);
  }

  lemma {:induction false} PointwiseIgnoresOutsideSupport(p: seq<real>, q1: seq<real>, q2: seq<real>, log: real -> real, eps: real)
    requires |p| == |q1| == |q2|
    requires forall i :: 0 <= i < |p| && p[i] > 0.0 ==> q1[i] == q2[i]
    ensures KlPointwise(p, q1, log, eps) == KlPointwise(p, q2, log, eps)
    decreases |p|
  {
    if |p| > 0 {
      var n := |p| - 1;
      PointwiseIgnoresOutsideSupport(p[..n], q1[..n], q2[..n], log, eps);
    }
  }
}
