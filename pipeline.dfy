/** The alignment logic of fitting one configuration: degeneracies from
    the eigenvalues, effective energies from P and R, the target Σ R_j,
    the solver, the prediction on the positive-degeneracy outcomes, and
    that prediction scattered back to the full length of P before the
    distances are taken. The loaded arrays are parameters. */
module Pipeline {
  import opened Wrappers
  import opened Vectors
  import opened Degen
  import opened Osm
  import opened Metrics
  import opened Parsing

  // ---------------------------------------------------------------------
  // Scattering a masked prediction back

  /** `full = zeros(len(d)); full[d > 0] = p`: the entries of p in order at
      the positions with d > 0, and 0 elsewhere. */
  function Scatter(d: seq<real>, p: seq<real>): (full: seq<real>)
    requires |p| == CountTrue(Positive(d))
    ensures |full| == |d|
    decreases |d|
  {
    if |d| == 0 then []
    else
      var n := |d| - 1;
      PositivePrefix(d, n);
      if d[n] > 0.0 then Scatter(d[..n], p[..|p| - 1]) + [p[|p| - 1]]
      else Scatter(d[..n], p) + [0.0]
  }

  /** Dropping the last position of d drops its mask bit from the count. */
  lemma {:induction false} CountPositiveLast(d: seq<real>)
    requires |d| > 0
    ensures CountTrue(Positive(d[..|d| - 1])) == CountTrue(Positive(d)) - (if d[|d| - 1] > 0.0 then 1 else 0)
  {
    var mask := Positive(d);
    PositivePrefix(d, |d| - 1);
    assert mask[|d| - 1] == (d[|d| - 1] > 0.0);
  }

  /** The last step of Scatter, unfolded once. */
  lemma {:induction false} ScatterLast(d: seq<real>, p: seq<real>)
    requires |p| == CountTrue(Positive(d)) && |d| > 0
    ensures var n := |d| - 1;
      CountTrue(Positive(d[..n])) == |p| - (if d[n] > 0.0 then 1 else 0) &&
      (d[n] > 0.0 ==> Scatter(d, p) == Scatter(d[..n], p[..|p| - 1]) + [p[|p| - 1]]) &&
      (d[n] <= 0.0 ==> Scatter(d, p) == Scatter(d[..n], p) + [0.0])
  {
    var n := |d| - 1;
    CountPositiveLast(d);
    if d[n] > 0.0 {
      var q := p[..|p| - 1];
      assert Scatter(d, p) == Scatter(d[..n], q) + [p[|p| - 1]];
    } else {
      assert Scatter(d, p) == Scatter(d[..n], p) + [0.0];
    }
  }

  /** Positions with d <= 0 hold 0. */
  lemma {:induction false} ScatterZeros(d: seq<real>, p: seq<real>)
    requires |p| == CountTrue(Positive(d))
    ensures forall i :: 0 <= i < |d| && d[i] <= 0.0 ==> Scatter(d, p)[i] == 0.0
    decreases |d|
  {
    if |d| > 0 {
      var n := |d| - 1;
      ScatterLast(d, p);
      if d[n] > 0.0 {
        ScatterZeros(d[..n], p[..|p| - 1]);
      } else {
        ScatterZeros(d[..n], p);
      }
    }
  }

  /** Masking the scattered vector with `d > 0` gives back p, in order. */
  lemma {:induction false} ScatterSelect(d: seq<real>, p: seq<real>)
    requires |p| == CountTrue(Positive(d))
    ensures Select(Scatter(d, p), Positive(d)) == p
    decreases |d|
  {
    if |d| > 0 {
      var n := |d| - 1;
      var mask := Positive(d);
      ScatterLast(d, p);
      PositivePrefix(d, n);
      var full := Scatter(d, p);
      if d[n] > 0.0 {
        var q := p[..|p| - 1];
        ScatterSelect(d[..n], q);
        assert full[..n] == Scatter(d[..n], q);
        assert Select(full, mask) == Select(full[..n], mask[..n]) + [full[n]];
        assert p == q + [p[|p| - 1]];
      } else {
        ScatterSelect(d[..n], p);
        assert full[..n] == Scatter(d[..n], p);
        assert Select(full, mask) == Select(full[..n], mask[..n]) + [];
      }
    }
  }

  /** With every degeneracy positive nothing moves. */
  lemma {:induction false} ScatterAllPositive(d: seq<real>, p: seq<real>)
    requires AllPositive(d)
    requires |p| == CountTrue(Positive(d))
    ensures Scatter(d, p) == p
  {
    CountTrueAll(Positive(d));
    ScatterSelect(d, p);
    SelectAll(Scatter(d, p), Positive(d));
  }

  /** Scattering keeps the mass and the sign of the entries. */
  lemma {:induction false} ScatterSum(d: seq<real>, p: seq<real>)
    requires |p| == CountTrue(Positive(d))
    ensures Sum(Scatter(d, p)) == Sum(p)
    ensures (forall k :: 0 <= k < |p| ==> p[k] >= 0.0) ==>
      forall i :: 0 <= i < |d| ==> Scatter(d, p)[i] >= 0.0
    decreases |d|
  {
    if |d| > 0 {
      var n := |d| - 1;
      ScatterLast(d, p);
      if d[n] > 0.0 {
        var q := p[..|p| - 1];
        ScatterSum(d[..n], q);
        SumAppend(Scatter(d[..n], q), p[|p| - 1]);
        assert p == q + [p[|p| - 1]];
        SumAppend(q, p[|p| - 1]);
      } else {
        ScatterSum(d[..n], p);
        SumAppend(Scatter(d[..n], p), 0.0);
      }
    }
  }

  /** One more position of d: the kept-entry count grows by the mask bit,
      and the scattered prefix grows by p's next entry or by 0. */
  lemma {:induction false} ScatterExtend(d: seq<real>, p: seq<real>, i: nat)
    requires |p| == CountTrue(Positive(d)) && i < |d|
    ensures CountTrue(Positive(d[..i + 1])) == CountTrue(Positive(d[..i])) + (if d[i] > 0.0 then 1 else 0)
    ensures CountTrue(Positive(d[..i + 1])) <= |p|
    ensures var j := CountTrue(Positive(d[..i]));
      Scatter(d[..i + 1], p[..CountTrue(Positive(d[..i + 1]))])
      == Scatter(d[..i], p[..j]) + [if d[i] > 0.0 then p[j] else 0.0]
  {
    var j := CountTrue(Positive(d[..i]));
    assert d[..i + 1][..i] == d[..i];
    assert Positive(d[..i + 1])[..i] == Positive(d[..i]);
    PositivePrefix(d, i + 1);
    CountTruePrefixMono(Positive(d), i + 1, |d|);
    assert Positive(d)[..|d|] == Positive(d);
    if d[i] > 0.0 {
      assert p[..j + 1][..j] == p[..j];
    }
  }

  /** The in-place write `full[d > 0] = p_pred` into a zero-filled array. */
  method ScatterPrediction(d: seq<real>, p: seq<real>) returns (full: seq<real>)
    requires |p| == CountTrue(Positive(d))
    ensures full == Scatter(d, p)
  {
    var a := new real[|d|](_ => 0.0);
    var j := 0;
    for i := 0 to |d|
      invariant j == CountTrue(Positive(d[..i])) && j <= |p|
      invariant a[..i] == Scatter(d[..i], p[..j])
      invariant forall k :: i <= k < |d| ==> a[k] == 0.0
    {
      ScatterExtend(d, p, i);
      ghost var before := a[..i];
      if d[i] > 0.0 {
        a[i] := p[j];
        j := j + 1;
      }
      assert a[..i] == before;
      assert a[..i + 1] == before + [a[i]];
    }
    assert d[..|d|] == d;
    assert p[..j] == p;
    full := a[..];
  }

  // ---------------------------------------------------------------------
  // One row

  /** The manifest entry of a configuration: its base name and parsed key. */
  datatype ManifestRow = ManifestRow(base: string, key: FileKey)

  /** The dictionary `fit_one_row` returns. */
  datatype FitRow = FitRow(
    base: string, model: string, N: int, J: real, h: real, alpha: Option<real>, theta: int, axis: string,
    betaA: real, ZA: real, EbarDE: real, TV: real, KL: real, Linf: real,
    converged: bool, iters: nat, nOutcomes: nat)

  /** `eps` of `kl_divergence`. */
  const KlEps := 1.0e-300

  /** The prediction at beta in `fit_one_row`: `predict_p` on the
      positive-degeneracy outcomes when some degeneracy is <= 0 and on all
      of them otherwise, scattered back to length n when its length
      differs. */
  function RowPrediction(d: seq<real>, eps: seq<real>, beta: real, fns: ExpLog, n: nat): Prediction
    requires |d| == |eps| == n
    requires exists i :: 0 <= i < |d| && d[i] > 0.0
  {
    var mask := Positive(d);
    RetainedValid(d, eps, 0.0, fns);
    var pr := if !AllPositive(d) then PredictP(Select(d, mask), Select(eps, mask), beta, fns)
              else PredictP(d, eps, beta, fns);
    assert AllPositive(d) ==> CountTrue(mask) == |d| by {
      if AllPositive(d) { CountTrueAll(mask); }
    }
    var q := pr.value.p;
    Prediction(if |q| != n then Scatter(d, q) else q, pr.value.Z)
  }

  /** In both branches the reported prediction is the retained one
      scattered back: with every degeneracy positive the scatter moves
      nothing. */
  lemma {:induction false} RowPredictionIsScatter(d: seq<real>, eps: seq<real>, beta: real, fns: ExpLog, n: nat)
    requires |d| == |eps| == n
    requires exists i :: 0 <= i < |d| && d[i] > 0.0
    ensures Retained(d, eps, 0.0, fns).Valid()
    ensures var q := Predict(Retained(d, eps, 0.0, fns), beta);
      |q.p| == CountTrue(Positive(d)) &&
      RowPrediction(d, eps, beta, fns, n) == Prediction(Scatter(d, q.p), q.Z)
  {
    var mask := Positive(d);
    var pb := Retained(d, eps, 0.0, fns);
    RetainedValid(d, eps, 0.0, fns);
    var q := Predict(pb, beta);
    CountTrueAllIff(mask);
    if AllPositive(d) {
      SelectAll(d, mask);
      SelectAll(eps, mask);
      ScatterAllPositive(d, q.p);
    } else {
      var i :| 0 <= i < |d| && d[i] <= 0.0;
      assert !mask[i];
    }
  }

  /** With every degeneracy positive the reported prediction is
      `predict_p` on the full vectors. */
  lemma {:induction false} RowPredictionFull(d: seq<real>, eps: seq<real>, beta: real, fns: ExpLog, n: nat)
    requires |d| == |eps| == n
    requires exists i :: 0 <= i < |d| && d[i] > 0.0
    requires AllPositive(d)
    ensures PredictP(d, eps, beta, fns).Success?
    ensures RowPrediction(d, eps, beta, fns, n) == PredictP(d, eps, beta, fns).value
  {
    CountTrueAll(Positive(d));
  }

  /** The reported prediction has the length of P; it is 0 at the outcomes
      with d <= 0 and the retained prediction, in order, at the others; it
      is still a distribution; and its Z is the retained one. */
  lemma {:induction false} RowPredictionSpec(d: seq<real>, eps: seq<real>, beta: real, fns: ExpLog, n: nat)
    requires |d| == |eps| == n
    requires exists i :: 0 <= i < |d| && d[i] > 0.0
    ensures var r := RowPrediction(d, eps, beta, fns, n);
      var pb := Retained(d, eps, 0.0, fns);
      pb.Valid() &&
      |r.p| == n &&
      (forall i :: 0 <= i < n && d[i] <= 0.0 ==> r.p[i] == 0.0) &&
      Select(r.p, Positive(d)) == Predict(pb, beta).p &&
      r.Z == Predict(pb, beta).Z &&
      Sum(r.p) == 1.0 &&
      (forall i :: 0 <= i < n ==> r.p[i] >= 0.0)
  {
    RowPredictionIsScatter(d, eps, beta, fns, n);
    var q := Predict(Retained(d, eps, 0.0, fns), beta).p;
    ScatterZeros(d, q);
    ScatterSelect(d, q);
    ScatterSum(d, q);
  }

  /** `predict_p` at beta on the masked or the full vectors,
      then the scatter when the result is shorter than P. */
  method PredictRow(d: seq<real>, eps: seq<real>, beta: real, fns: ExpLog, n: nat) returns (pred: Prediction)
    requires |d| == |eps| == n
    requires exists i :: 0 <= i < |d| && d[i] > 0.0
    ensures pred == RowPrediction(d, eps, beta, fns, n)
  {
    RetainedValid(d, eps, 0.0, fns);
    var mask := Positive(d);
    var pr;
    if !AllPositive(d) {
      pr := PredictP(Select(d, mask), Select(eps, mask), beta, fns);
    } else {
      pr := PredictP(d, eps, beta, fns);
      CountTrueAll(mask);
    }
    var pPred := pr.value.p;
    if |pPred| != n {
      pPred := ScatterPrediction(d, pPred);
    }
    pred := Prediction(pPred, pr.value.Z);
  }

  /** A successful solve had paired vectors and a positive degeneracy. */
  lemma {:induction false} SolvedHasOutcomes(d: seq<real>, eps: seq<real>, E: real, opts: Options, fns: ExpLog)
    requires Solve(d, eps, E, opts, fns).Success?
    ensures |d| == |eps| && exists i :: 0 <= i < |d| && d[i] > 0.0
  {
    SolveSpec(d, eps, E, opts, fns);
  }

  /** Reference definition of `fit_one_row` on loaded arrays. */
  function RowFit(row: ManifestRow, P: seq<real>, R: seq<real>, eig: seq<int>, fns: ExpLog): Result<FitRow, Error>
    requires |P| == |R|
    requires forall j :: 0 <= j < |P| ==> P[j] != 0.0
  {
    var d := DegeneracyVector(row.key.N, eig);
    var eps := EpsilonFromPR(P, R, 0.0);
    var E := Sum(R);
    var fit :- Solve(d, eps, E, DefaultOptions, fns);
    SolvedHasOutcomes(d, eps, E, DefaultOptions, fns);
    var pred := RowPrediction(d, eps, fit.beta, fns, |P|);
    var k := row.key;
    Success(FitRow(
      row.base, k.model, k.N, k.J, k.h, k.alpha, k.theta, k.axis,
      fit.beta, pred.Z, E,
      TotalVariation(P, pred.p), KlDivergence(P, pred.p, fns.log, KlEps), Linf(P, pred.p).value,
      fit.converged, fit.iters, |P|))
  }

  /** A row fails exactly when the solver does, with its error. Otherwise
      it reports the solver's beta, converged and iters, the solver's Z
      (the prediction is `predict_p` at the solver's beta), the target
      Σ R_j over every outcome, the key fields unchanged, the distances
      from P to the full-length prediction, and n_outcomes = len(P). */
  lemma {:induction false} RowFitSpec(row: ManifestRow, P: seq<real>, R: seq<real>, eig: seq<int>, fns: ExpLog)
    requires |P| == |R|
    requires forall j :: 0 <= j < |P| ==> P[j] != 0.0
    ensures var d := DegeneracyVector(row.key.N, eig);
      var eps := EpsilonFromPR(P, R, 0.0);
      var s := Solve(d, eps, Sum(R), DefaultOptions, fns);
      var r := RowFit(row, P, R, eig, fns);
      (s.Failure? ==> r == Failure(s.error)) &&
      (s.Success? ==>
        (exists i :: 0 <= i < |d| && d[i] > 0.0) && |d| == |P| &&
        r.Success? &&
        r.value.betaA == s.value.beta && r.value.ZA == s.value.Z &&
        r.value.converged == s.value.converged && r.value.iters == s.value.iters &&
        r.value.EbarDE == Sum(R) && r.value.nOutcomes == |P| &&
        r.value.base == row.base && r.value.model == row.key.model && r.value.N == row.key.N &&
        r.value.J == row.key.J && r.value.h == row.key.h && r.value.alpha == row.key.alpha &&
        r.value.theta == row.key.theta && r.value.axis == row.key.axis &&
        var pred := RowPrediction(d, eps, s.value.beta, fns, |P|);
        r.value.TV == TotalVariation(P, pred.p) &&
        r.value.KL == KlDivergence(P, pred.p, fns.log, KlEps) &&
        r.value.Linf == Linf(P, pred.p).value)
  {
    var d := DegeneracyVector(row.key.N, eig);
    var eps := EpsilonFromPR(P, R, 0.0);
    var s := Solve(d, eps, Sum(R), DefaultOptions, fns);
    if s.Success? {
      SolveSpec(d, eps, Sum(R), DefaultOptions, fns);
      RowPredictionIsScatter(d, eps, s.value.beta, fns, |P|);
    }
  }

  /** When P is a distribution, the reported total variation is at most 1. */
  lemma {:induction false} RowTotalVariationAtMostOne(row: ManifestRow, P: seq<real>, R: seq<real>, eig: seq<int>, fns: ExpLog)
    requires |P| == |R|
    requires forall j :: 0 <= j < |P| ==> P[j] != 0.0
    requires forall j :: 0 <= j < |P| ==> P[j] >= 0.0
    requires Sum(P) == 1.0
    ensures RowFit(row, P, R, eig, fns).Success? ==> RowFit(row, P, R, eig, fns).value.TV <= 1.0
  {
    var d := DegeneracyVector(row.key.N, eig);
    var eps := EpsilonFromPR(P, R, 0.0);
    var s := Solve(d, eps, Sum(R), DefaultOptions, fns);
    RowFitSpec(row, P, R, eig, fns);
    if s.Success? {
      RowPredictionSpec(d, eps, s.value.beta, fns, |P|);
      var pred := RowPrediction(d, eps, s.value.beta, fns, |P|);
      TotalVariationAtMostOne(P, pred.p);
    }
  }

  /** `fit_one_row`: degeneracies, effective energies and target, the
      solver, the prediction at the fitted beta, the scatter when the
      masked prediction is shorter than P, and the distances. */
  method FitOneRow(row: ManifestRow, P: seq<real>, R: seq<real>, eig: seq<int>, fns: ExpLog)
    returns (r: Result<FitRow, Error>)
    requires |P| == |R|
    requires forall j :: 0 <= j < |P| ==> P[j] != 0.0
    ensures r == RowFit(row, P, R, eig, fns)
  {
    var d := MagnetizationDegeneracies(row.key.N, eig);
    assert d == DegeneracyVector(row.key.N, eig);
    var eps := EpsilonFromPR(P, R, 0.0);
    var E := Sum(R);
    var s := SolveBetaEnergyConstraint(d, eps, E, DefaultOptions, fns);
    if s.Failure? {
      return Failure(s.error);
    }
    var fit := s.value;
    SolvedHasOutcomes(d, eps, E, DefaultOptions, fns);
    var pred := PredictRow(d, eps, fit.beta, fns, |P|);
    var pPred := pred.p;
    var k := row.key;
    r := Success(FitRow(
      row.base, k.model, k.N, k.J, k.h, k.alpha, k.theta, k.axis,
      fit.beta, pred.Z, E,
      TotalVariation(P, pPred), KlDivergence(P, pPred, fns.log, KlEps), Linf(P, pPred).value,
      fit.converged, fit.iters, |P|));
  }
}
