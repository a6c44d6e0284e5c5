/** The Occupation Statistics Model: the fit record, the predictor
    `predict_p`, the effective energy `epsilon_from_PR`, and the beta solver
    `solve_beta_energy_constraint` (bracket expansion, a grid fallback and
    bisection).

    Floats are exact reals here. `np.exp` and `np.log` are parameters:
    `exp` is any positive function and `log` any function, which is all the
    control logic of the solver relies on. */
module Osm {
  import opened Wrappers
  import opened Vectors

  /** The frozen `OSMFit` dataclass. */
  datatype OSMFit = OSMFit(beta: real, Z: real, converged: bool, iters: nat, E_target: real)

  /** What `predict_p` returns: the predicted distribution and Z(beta). */
  datatype Prediction = Prediction(p: seq<real>, Z: real)

  /** The exceptions the modelled code can raise. */
  datatype Error =
    | NonPositiveDegeneracy  // predict_p's ValueError
    | ShapeMismatch          // numpy cannot pair the two vectors entry by entry
    | NoOutcomes             // an empty vector reaches `eps[0]` or `np.max`

  /** `np.exp` keeps its one property the model needs: it is positive. */
  type PositiveFn = f: real -> real | forall x :: f(x) > 0.0 witness (x: real) => 1.0

  datatype ExpLog = ExpLog(exp: PositiveFn, log: real -> real)

  /** The keyword arguments of the solver, with the source's defaults. */
  datatype Options = Options(beta0: real, maxExpand: int, maxIter: int, tol: real)

  const DefaultOptions := Options(0.0, 80, 200, 1.0e-12)

  /** `_softmax_logweights` and the stable partition function of
      `predict_p`, both shifted by `m = np.max(logw)`. */
  function Softmax(logw: seq<real>, exp: PositiveFn): (r: Prediction)
    requires |logw| > 0
    ensures |r.p| == |logw|
    ensures forall i :: 0 <= i < |r.p| ==> r.p[i] > 0.0
    ensures Sum(r.p) == 1.0
    ensures r.Z > 0.0
  {
    ShiftedSoftmax(logw, Max(logw), exp)
  }

  /** Softmax with the weights computed as `exp(logw - m)` for a given shift
      m, and Z as their sum times `exp(m)`. */
  function ShiftedSoftmax(logw: seq<real>, m: real, exp: PositiveFn): (r: Prediction)
    requires |logw| > 0
    ensures |r.p| == |logw|
    ensures forall i :: 0 <= i < |r.p| ==> r.p[i] > 0.0
    ensures Sum(r.p) == 1.0
    ensures r.Z > 0.0
  {
    var w := Shifted(logw, m, exp);
    Prediction(Normalize(w), Partition(w, exp(m)))
  }

  /** `np.sum(w) * np.exp(m)` for positive weights is positive. */
  function Partition(w: seq<real>, c: real): (z: real)
    requires |w| > 0 && c > 0.0
    requires forall i :: 0 <= i < |w| ==> w[i] > 0.0
    ensures z > 0.0
  {
    SumPositive(w);
    Sum(w) * c
  }

  /** `np.exp(logw - m)`: all weights are positive. */
  function Shifted(logw: seq<real>, m: real, exp: PositiveFn): (w: seq<real>)
    ensures |w| == |logw|
    ensures forall i :: 0 <= i < |w| ==> w[i] > 0.0
  {
    seq(|logw|, i requires 0 <= i < |logw| => exp(logw[i] - m))
  }

  /** `logw = np.log(d) - beta * eps`. */
  function LogWeights(d: seq<real>, eps: seq<real>, beta: real, log: real -> real): (r: seq<real>)
    requires |d| == |eps|
    ensures |r| == |d|
  {
    seq(|d|, i requires 0 <= i < |d| => log(d[i]) - beta * eps[i])
  }

  /** `predict_p`: refuses any degeneracy <= 0; otherwise a distribution
      over the outcomes with a positive partition function. */
  function PredictP(d: seq<real>, eps: seq<real>, beta: real, fns: ExpLog): (r: Result<Prediction, Error>)
    ensures !AllPositive(d) ==> r == Failure(NonPositiveDegeneracy)
    ensures r.Success? <==> AllPositive(d) && |d| == |eps| && |d| > 0
    ensures r.Success? ==> |r.value.p| == |d| && Sum(r.value.p) == 1.0 && r.value.Z > 0.0
    ensures r.Success? ==> forall i :: 0 <= i < |d| ==> r.value.p[i] > 0.0
  {
    if !AllPositive(d) then Failure(NonPositiveDegeneracy)
    else if |d| != |eps| then Failure(ShapeMismatch)
    else if |d| == 0 then Failure(NoOutcomes)
    else Success(Softmax(LogWeights(d, eps, beta, fns.log), fns.exp))
  }

  /** `epsilon_from_PR`: the ratio R_j / P_j, with P_j raised to `floor`
      when `floor > 0`. */
  function EpsilonFromPR(P: seq<real>, R: seq<real>, floor: real): (e: seq<real>)
    requires |P| == |R|
    requires floor > 0.0 || forall j :: 0 <= j < |P| ==> P[j] != 0.0
    ensures |e| == |P|
    ensures floor > 0.0 ==> forall j :: 0 <= j < |P| ==> e[j] * Larger(P[j], floor) == R[j]
    ensures floor > 0.0 ==> forall j :: 0 <= j < |P| && P[j] >= floor ==> e[j] == R[j] / P[j]
    ensures floor <= 0.0 ==> forall j :: 0 <= j < |P| ==> e[j] * P[j] == R[j]
  {
    var denom := if floor > 0.0 then seq(|P|, j requires 0 <= j < |P| => Larger(P[j], floor)) else P;
    seq(|P|, j requires 0 <= j < |P| => R[j] / denom[j])
  }

  // ---------------------------------------------------------------------
  // The root-finding problem on the retained outcomes

  /** The retained outcomes, the target, and exp/log: everything the
      objective `f` of the solver closes over. */
  datatype Problem = Problem(d: seq<real>, eps: seq<real>, E: real, fns: ExpLog) {
    predicate Valid()
    {
      |d| == |eps| && |d| > 0 && AllPositive(d)
    }
  }

  /** `mask = d > 0; d = d[mask]; eps = eps[mask]`. */
  function Retained(d: seq<real>, eps: seq<real>, E: real, fns: ExpLog): Problem
    requires |d| == |eps|
  {
    var mask := Positive(d);
    Problem(Select(d, mask), Select(eps, mask), E, fns)
  }

  /** After masking, d and eps still have one length, every kept
      degeneracy is positive, and (if any was) at least one remains.
      RetainedAligned states that the entries stay paired. */
  lemma {:induction false} RetainedValid(d: seq<real>, eps: seq<real>, E: real, fns: ExpLog)
    requires |d| == |eps|
    ensures var pb := Retained(d, eps, E, fns);
      |pb.d| == |pb.eps| && AllPositive(pb.d) &&
      (pb.Valid() <==> exists i :: 0 <= i < |d| && d[i] > 0.0)
  {
    SelectPositive(d);
    SelectPositiveEmpty(d, d);
  }

  /** Masking keeps d and eps paired entry by entry: the outcome at
      original index i, if kept, sits at position "number of kept outcomes
      before i" in both. */
  lemma {:induction false} RetainedAligned(d: seq<real>, eps: seq<real>, E: real, fns: ExpLog)
    requires |d| == |eps|
    ensures var pb := Retained(d, eps, E, fns);
      forall i :: 0 <= i < |d| && d[i] > 0.0 ==>
        var k := CountTrue(Positive(d)[..i]);
        k < |pb.d| && pb.d[k] == d[i] && pb.eps[k] == eps[i]
  {
    forall i | 0 <= i < |d| && d[i] > 0.0
      ensures var k := CountTrue(Positive(d)[..i]);
        k < |Select(d, Positive(d))| && Select(d, Positive(d))[k] == d[i] && Select(eps, Positive(d))[k] == eps[i]
    {
      assert Positive(d)[i];
      SelectAt(d, Positive(d), i);
      SelectAt(eps, Positive(d), i);
    }
  }

  function Predict(pb: Problem, beta: real): (r: Prediction)
    requires pb.Valid()
    ensures |r.p| == |pb.d| && Sum(r.p) == 1.0 && r.Z > 0.0
  {
    PredictP(pb.d, pb.eps, beta, pb.fns).value
  }

  /** `expected_eps`: the predicted mean effective energy at beta. */
  function ExpectedEps(pb: Problem, beta: real): real
    requires pb.Valid()
  {
    Dot(Predict(pb, beta).p, pb.eps)
  }

  /** The solver's `f(beta) = expected_eps(d, eps, beta) - E_target`. */
  function Objective(pb: Problem, beta: real): real
    requires pb.Valid()
  {
    ExpectedEps(pb, beta) - pb.E
  }

  /** The objective as a function value, the `f` the solver closes over. */
  function ObjectiveFn(pb: Problem): real -> real
    requires pb.Valid()
  {
    (beta: real) => Objective(pb, beta)
  }

  /** The record the solver returns for a chosen beta. */
  function Fit(pb: Problem, beta: real, converged: bool, iters: nat): OSMFit
    requires pb.Valid()
  {
    OSMFit(beta, Predict(pb, beta).Z, converged, iters, pb.E)
  }

  /** `np.allclose(eps, eps[0])` with numpy's defaults rtol = 1e-5, atol = 1e-8. */
  predicate AllClose(eps: seq<real>)
    requires |eps| > 0
  {
    forall i :: 0 <= i < |eps| ==> Abs(eps[i] - eps[0]) <= 1.0e-8 + 1.0e-5 * Abs(eps[0])
  }

  /** Equal energies are in particular all close. */
  lemma {:induction false} EqualEnergiesAreClose(eps: seq<real>)
    requires |eps| > 0
    requires forall i :: 0 <= i < |eps| ==> eps[i] == eps[0]
    ensures AllClose(eps)
  {
  }

  /** `range(x)` runs max(x, 0) times. */
  function NatOf(x: int): (r: nat)
    ensures x >= 0 ==> r == x
    ensures x < 0 ==> r == 0
  {
    if x > 0 then x else 0
  }

  // ---------------------------------------------------------------------
  // Bracket expansion, for any objective f

  /** 2^k; `step` starts at 1.0 and is doubled after every failed attempt. */
  function Pow2(k: nat): (r: real)
    ensures r >= 1.0
  {
    if k == 0 then 1.0 else 2.0 * Pow2(k - 1)
  }

  /** The two ends tested by expansion attempt k. */
  function Lo(beta0: real, k: nat): real { beta0 - Pow2(k) }
  function Hi(beta0: real, k: nat): real { beta0 + Pow2(k) }

  /** Attempt k finds neither an exact zero nor a sign change. */
  predicate NoRootSeen(f: real -> real, beta0: real, k: nat)
  {
    f(Lo(beta0, k)) != 0.0 && f(Hi(beta0, k)) != 0.0 && !SignsDiffer(f(Lo(beta0, k)), f(Hi(beta0, k)))
  }

  /** Attempts k .. j-1 all find nothing. */
  predicate Quiet(f: real -> real, beta0: real, k: nat, j: nat)
  {
    forall i :: k <= i < j ==> NoRootSeen(f, beta0, i)
  }

  /** How expansion ends (the dispatch of the solver). */
  datatype Bracket =
    | ExactRoot(root: real)
    | Bracketed(lo: real, hi: real)
    | Unbracketed(step: real)

  /** The expansion loop from attempt k of n onward. */
  function Expand(f: real -> real, beta0: real, k: nat, n: nat): Bracket
    requires k <= n
    decreases n - k
  {
    if k == n then Unbracketed(Pow2(n))
    else
      var lo, hi := Lo(beta0, k), Hi(beta0, k);
      if f(lo) == 0.0 then ExactRoot(lo)
      else if f(hi) == 0.0 then ExactRoot(hi)
      else if SignsDiffer(f(lo), f(hi)) then Bracketed(lo, hi)
      else Expand(f, beta0, k + 1, n)
  }

  /** An exact zero found by expansion is a root of f, at the lower end of
      the first attempt j that finds anything, or at its upper end when the
      lower end is not a root. */
  lemma {:induction false} ExpandRoot(f: real -> real, beta0: real, k: nat, n: nat)
    requires k <= n && Expand(f, beta0, k, n).ExactRoot?
    ensures var x := Expand(f, beta0, k, n).root;
      f(x) == 0.0 &&
      exists j :: k <= j < n && Quiet(f, beta0, k, j) &&
        (x == Lo(beta0, j) || (f(Lo(beta0, j)) != 0.0 && x == Hi(beta0, j)))
    decreases n - k
  {
    var lo, hi := Lo(beta0, k), Hi(beta0, k);
    assert Quiet(f, beta0, k, k);
    if f(lo) != 0.0 && f(hi) != 0.0 && !SignsDiffer(f(lo), f(hi)) {
      ExpandRoot(f, beta0, k + 1, n);
      var x := Expand(f, beta0, k + 1, n).root;
      var j :| k + 1 <= j < n && Quiet(f, beta0, k + 1, j) &&
        (x == Lo(beta0, j) || (f(Lo(beta0, j)) != 0.0 && x == Hi(beta0, j)));
      assert NoRootSeen(f, beta0, k);
      assert Quiet(f, beta0, k, j);
    }
  }

  /** A bracket found by expansion is a proper interval over which f changes
      sign, namely [beta0 - 2^j, beta0 + 2^j] for the first attempt j that
      finds anything. */
  lemma {:induction false} ExpandBracket(f: real -> real, beta0: real, k: nat, n: nat)
    requires k <= n && Expand(f, beta0, k, n).Bracketed?
    ensures var br := Expand(f, beta0, k, n);
      br.lo < br.hi && SignsDiffer(f(br.lo), f(br.hi)) &&
      exists j :: k <= j < n && Quiet(f, beta0, k, j) && br.lo == Lo(beta0, j) && br.hi == Hi(beta0, j)
    decreases n - k
  {
    var lo, hi := Lo(beta0, k), Hi(beta0, k);
    assert Quiet(f, beta0, k, k);
    if f(lo) != 0.0 && f(hi) != 0.0 && !SignsDiffer(f(lo), f(hi)) {
      ExpandBracket(f, beta0, k + 1, n);
      var br := Expand(f, beta0, k + 1, n);
      var j :| k + 1 <= j < n && Quiet(f, beta0, k + 1, j) && br.lo == Lo(beta0, j) && br.hi == Hi(beta0, j);
      assert NoRootSeen(f, beta0, k);
      assert Quiet(f, beta0, k, j);
    }
  }

  /** Expansion gives up exactly when no attempt finds anything, and then
      the last step is 2^n. */
  lemma {:induction false} ExpandExhausted(f: real -> real, beta0: real, k: nat, n: nat)
    requires k <= n
    ensures Expand(f, beta0, k, n).Unbracketed? <==> Quiet(f, beta0, k, n)
    ensures Expand(f, beta0, k, n).Unbracketed? ==> Expand(f, beta0, k, n).step == Pow2(n)
    decreases n - k
  {
    if k < n {
      ExpandExhausted(f, beta0, k + 1, n);
      if NoRootSeen(f, beta0, k) {
        assert Quiet(f, beta0, k, n) <==> Quiet(f, beta0, k + 1, n);
      } else {
        assert !Quiet(f, beta0, k, n);
      }
    }
  }

  /** Attempts that find nothing are skipped. */
  lemma {:induction false} ExpandSkips(f: real -> real, beta0: real, k: nat, j: nat, n: nat)
    requires k <= j <= n
    requires Quiet(f, beta0, k, j)
    ensures Expand(f, beta0, k, n) == Expand(f, beta0, j, n)
    decreases j - k
  {
    if k < j {
      assert NoRootSeen(f, beta0, k);
      ExpandSkips(f, beta0, k + 1, j, n);
    }
  }

  // ---------------------------------------------------------------------
  // The grid fallback

  const GridCount: nat := 401

  /** Point i of `np.linspace(a, b, 401)`. */
  function GridPoint(a: real, b: real, i: nat): real
  {
    a + (i as real) * ((b - a) / 400.0)
  }

  lemma {:induction false} GridEnds(a: real, b: real)
    ensures GridPoint(a, b, 0) == a && GridPoint(a, b, GridCount - 1) == b
  {
  }

  /** `vals = [abs(f(b)) for b in candidates]`. */
  function GridValues(f: real -> real, a: real, b: real): (vals: seq<real>)
    ensures |vals| == GridCount
  {
    seq(GridCount, i requires 0 <= i < GridCount => Abs(f(GridPoint(a, b, i))))
  }

  // ---------------------------------------------------------------------
  // Bisection

  /** The beta the solver settles on, with the `converged` and `iters`
      fields of the fit. */
  datatype Choice = Choice(beta: real, converged: bool, iters: nat)

  /** Bisection iterations k .. n on [lo, hi], where `flo` is f(lo) and
      `mid` the most recent midpoint. */
  function Bisect(f: real -> real, lo: real, hi: real, flo: real, tol: real, k: nat, n: nat, mid: real): Choice
    requires k <= n + 1
    decreases n + 1 - k
  {
    if k > n then Choice(mid, false, n)
    else
      var m := 0.5 * (lo + hi);
      var fm := f(m);
      if Abs(fm) < tol || hi - lo < tol then Choice(m, true, k)
      else if SignsDiffer(flo, fm) then Bisect(f, lo, m, flo, tol, k + 1, n, m)
      else Bisect(f, m, hi, fm, tol, k + 1, n, m)
  }

  /** The bracket invariant: a proper interval whose ends have f of
      opposite signs. */
  predicate Straddles(f: real -> real, lo: real, hi: real)
  {
    lo < hi && SignsDiffer(f(lo), f(hi))
  }

  /** The sign test of the source, `x * y < 0`, says that x and y are
      nonzero and of opposite signs. */
  predicate SignsDiffer(x: real, y: real)
  {
    (x < 0.0 && y > 0.0) || (x > 0.0 && y < 0.0)
  }

  lemma {:induction false} SignsDifferProduct(x: real, y: real)
    ensures x * y < 0.0 <==> SignsDiffer(x, y)
  {
    if (x > 0.0 && y > 0.0) || (x < 0.0 && y < 0.0) {
      assert x * y > 0.0;
    } else if x == 0.0 || y == 0.0 {
      assert x * y == 0.0;
    } else if x < 0.0 {
      assert x * y < 0.0;
    } else {
      assert x * y < 0.0;
    }
  }

  /** One bisection step that does not stop keeps the bracket invariant
      and halves the interval. */
  lemma {:induction false} BisectStep(f: real -> real, lo: real, hi: real, tol: real)
    requires tol > 0.0 && Straddles(f, lo, hi)
    requires Abs(f(0.5 * (lo + hi))) >= tol
    ensures var m := 0.5 * (lo + hi);
      lo < m < hi && m - lo == (hi - lo) / 2.0 && hi - m == (hi - lo) / 2.0 &&
      (SignsDiffer(f(lo), f(m)) ==> Straddles(f, lo, m)) &&
      (!SignsDiffer(f(lo), f(m)) ==> Straddles(f, m, hi))
  {
  }

  /** Bisection on the bracket br stopped at iteration `iters` because the
      gap |f(mid)| fell below tol, or because the bracket, halved iters - 1
      times, became narrower than tol. */
  predicate BisectionMet(br: Bracket, iters: nat, gap: real, tol: real)
  {
    br.Bracketed? && iters >= 1 && (Abs(gap) < tol || HalvedBelow(br.hi - br.lo, iters - 1, tol))
  }

  /** An interval of width w, halved k times, is narrower than tol. */
  predicate HalvedBelow(w: real, k: nat, tol: real)
  {
    w / Pow2(k) < tol
  }

  lemma {:induction false} HalfWidth(w: real, j: nat)
    ensures (w / 2.0) / Pow2(j) == w / Pow2(j + 1)
  {
    var p := Pow2(j);
    assert Pow2(j + 1) == 2.0 * p;
    assert (w / 2.0) / p == w / (2.0 * p);
  }

  /** What bisection returns: a point inside the bracket; convergence
      within the budget by |f| < tol or by an interval narrower than tol,
      the interval having halved at every iteration; otherwise the whole
      budget spent and the last midpoint, at which |f| >= tol. */
  lemma {:induction false} BisectSpec(f: real -> real, lo: real, hi: real, tol: real, k: nat, n: nat, mid: real)
    requires tol > 0.0 && 1 <= k <= n + 1
    requires Straddles(f, lo, hi)
    ensures var out := Bisect(f, lo, hi, f(lo), tol, k, n, mid);
      (out.beta == mid || lo < out.beta < hi) &&
      (out.converged ==>
        k <= out.iters <= n && (Abs(f(out.beta)) < tol || HalvedBelow(hi - lo, out.iters - k, tol))) &&
      (!out.converged ==> out.iters == n) &&
      (!out.converged && k <= n ==> lo < out.beta < hi && Abs(f(out.beta)) >= tol) &&
      (k > n ==> !out.converged && out.beta == mid)
    decreases n + 1 - k
  {
    if k <= n {
      var m := 0.5 * (lo + hi);
      if Abs(f(m)) < tol || hi - lo < tol {
        assert Pow2(0) == 1.0;
      } else {
        BisectStep(f, lo, hi, tol);
        if SignsDiffer(f(lo), f(m)) {
          BisectSpec(f, lo, m, tol, k + 1, n, m);
          var out := Bisect(f, lo, m, f(lo), tol, k + 1, n, m);
          if out.converged {
            HalfWidth(hi - lo, out.iters - (k + 1));
          }
        } else {
          BisectSpec(f, m, hi, tol, k + 1, n, m);
          var out := Bisect(f, m, hi, f(m), tol, k + 1, n, m);
          if out.converged {
            HalfWidth(hi - lo, out.iters - (k + 1));
          }
        }
      }
    }
  }

  // ---------------------------------------------------------------------
  // The solver

  /** Reference definition of `solve_beta_energy_constraint`. */
  function Solve(d: seq<real>, eps: seq<real>, E: real, opts: Options, fns: ExpLog): Result<OSMFit, Error>
  {
    if |d| != |eps| then Failure(ShapeMismatch)
    else
      var pb := Retained(d, eps, E, fns);
      if |pb.eps| == 0 then Failure(NoOutcomes)
      else
        RetainedValid(d, eps, E, fns);
        Success(SolveRetained(pb, opts))
  }

  /** The solver once the retained outcomes are known to be usable. */
  function SolveRetained(pb: Problem, opts: Options): OSMFit
    requires pb.Valid()
  {
    if AllClose(pb.eps) then Fit(pb, 0.0, true, 0)
    else
      var c := BetaChoice(ObjectiveFn(pb), opts);
      Fit(pb, c.beta, c.converged, c.iters)
  }

  /** How the solver picks beta for an objective f that is not constant:
      an exact zero met while expanding, the best grid point when no
      bracket is found, or the outcome of bisection. */
  function BetaChoice(f: real -> real, opts: Options): Choice
  {
    match Expand(f, opts.beta0, 0, NatOf(opts.maxExpand))
    case ExactRoot(root) => Choice(root, true, 0)
    case Unbracketed(step) => GridChoice(f, opts.beta0 - step, opts.beta0 + step)
    case Bracketed(lo, hi) =>
      Bisect(f, lo, hi, f(lo), opts.tol, 1, NatOf(opts.maxIter), 0.5 * (lo + hi))
  }

  /** `candidates[int(np.argmin(vals))]`, reported as not converged. */
  function GridChoice(f: real -> real, a: real, b: real): Choice
  {
    Choice(GridPoint(a, b, ArgMin(GridValues(f, a, b))), false, 0)
  }

  /** An exact zero met while expanding is reported as converged with
      iters = 0, and f vanishes there. */
  lemma {:induction false} ChoiceExactRoot(f: real -> real, opts: Options)
    requires Expand(f, opts.beta0, 0, NatOf(opts.maxExpand)).ExactRoot?
    ensures var c := BetaChoice(f, opts);
      c.converged && c.iters == 0 && f(c.beta) == 0.0 &&
      exists j :: 0 <= j < NatOf(opts.maxExpand) && Quiet(f, opts.beta0, 0, j) &&
        (c.beta == Lo(opts.beta0, j) || (f(Lo(opts.beta0, j)) != 0.0 && c.beta == Hi(opts.beta0, j)))
  {
    ExpandRoot(f, opts.beta0, 0, NatOf(opts.maxExpand));
  }

  /** Without a sign change in any attempt, the grid scan decides, on
      [beta0 - 2^n, beta0 + 2^n]: twice as wide as the last interval
      tested. */
  lemma {:induction false} ChoiceGrid(f: real -> real, opts: Options)
    requires Expand(f, opts.beta0, 0, NatOf(opts.maxExpand)).Unbracketed?
    ensures var n := NatOf(opts.maxExpand);
      var step := Expand(f, opts.beta0, 0, n).step;
      step == Pow2(n) && Quiet(f, opts.beta0, 0, n) &&
      BetaChoice(f, opts) == GridChoice(f, opts.beta0 - step, opts.beta0 + step)
  {
    ExpandExhausted(f, opts.beta0, 0, NatOf(opts.maxExpand));
  }

  /** The grid fallback is not converged, has iters = 0, and picks the
      first of the 401 evenly spaced points of [a, b] at which |f| is
      smallest. */
  lemma {:induction false} GridChoiceSpec(f: real -> real, a: real, b: real)
    ensures var c := GridChoice(f, a, b);
      !c.converged && c.iters == 0 &&
      exists j :: 0 <= j < GridCount && c.beta == GridPoint(a, b, j) &&
        (forall t :: 0 <= t < GridCount ==> Abs(f(c.beta)) <= Abs(f(GridPoint(a, b, t)))) &&
        (forall t :: 0 <= t < j ==> Abs(f(GridPoint(a, b, t))) > Abs(f(c.beta)))
  {
    var vals := GridValues(f, a, b);
    ArgMinSpec(vals);
    var j := ArgMin(vals);
    assert forall t :: 0 <= t < GridCount ==> vals[t] == Abs(f(GridPoint(a, b, t)));
  }

  /** After a sign change is bracketed (and tol > 0): the answer lies
      strictly inside the bracket; convergence is reported with
      1 <= iters <= max_iter only when |f| < tol or the interval of that
      iteration, (hi - lo) / 2^(iters-1), is narrower than tol; otherwise
      iters = max(max_iter, 0), and beta is the last midpoint, at which
      |f| >= tol, or the bracket midpoint when no iteration ran. */
  lemma {:induction false} ChoiceBisect(f: real -> real, opts: Options)
    requires opts.tol > 0.0
    requires Expand(f, opts.beta0, 0, NatOf(opts.maxExpand)).Bracketed?
    ensures var br := Expand(f, opts.beta0, 0, NatOf(opts.maxExpand));
      var n := NatOf(opts.maxIter);
      var c := BetaChoice(f, opts);
      Straddles(f, br.lo, br.hi) && br.lo < c.beta < br.hi &&
      (c.converged ==>
        1 <= c.iters <= n &&
        (Abs(f(c.beta)) < opts.tol || HalvedBelow(br.hi - br.lo, c.iters - 1, opts.tol))) &&
      (!c.converged ==> c.iters == n) &&
      (!c.converged && n >= 1 ==> Abs(f(c.beta)) >= opts.tol) &&
      (n == 0 ==> !c.converged && c.beta == 0.5 * (br.lo + br.hi))
  {
    var br := Expand(f, opts.beta0, 0, NatOf(opts.maxExpand));
    ExpandBracket(f, opts.beta0, 0, NatOf(opts.maxExpand));
    BisectSpec(f, br.lo, br.hi, opts.tol, 1, NatOf(opts.maxIter), 0.5 * (br.lo + br.hi));
  }

  /** The errors of the solver, and what every fit it returns records:
      the target, and Z of `predict_p` at the returned beta. Nearly equal
      energies give beta = 0, converged, iters = 0, whatever the target;
      otherwise beta, converged and iters are those chosen for the objective. */
  lemma {:induction false} SolveSpec(d: seq<real>, eps: seq<real>, E: real, opts: Options, fns: ExpLog)
    ensures var r := Solve(d, eps, E, opts, fns);
      (|d| != |eps| ==> r == Failure(ShapeMismatch)) &&
      (|d| == |eps| ==>
        (r == Failure(NoOutcomes) <==> forall i :: 0 <= i < |d| ==> d[i] <= 0.0) &&
        (r.Success? <==> exists i :: 0 <= i < |d| && d[i] > 0.0))
    ensures var r := Solve(d, eps, E, opts, fns);
      r.Success? ==>
        var pb := Retained(d, eps, E, fns);
        pb.Valid() &&
        r.value.E_target == E &&
        r.value.Z == Predict(pb, r.value.beta).Z && r.value.Z > 0.0 &&
        (AllClose(pb.eps) ==> r.value.beta == 0.0 && r.value.converged && r.value.iters == 0) &&
        (!AllClose(pb.eps) ==>
          var c := BetaChoice(ObjectiveFn(pb), opts);
          r.value.beta == c.beta && r.value.converged == c.converged && r.value.iters == c.iters)
  {
    if |d| == |eps| {
      RetainedValid(d, eps, E, fns);
      SelectPositiveEmpty(eps, d);
    }
  }

  /** Whatever the objective: a result reported converged with iters = 0
      is an exact zero of f, and one with iters >= 1 came from bisection
      within its budget, stopping on |f| < tol or on a bracket narrower
      than tol. */
  lemma {:induction false} ChoiceConverged(f: real -> real, opts: Options)
    requires opts.tol > 0.0
    ensures var c := BetaChoice(f, opts);
      (c.converged && c.iters == 0 ==> f(c.beta) == 0.0) &&
      (c.converged && c.iters >= 1 ==>
        var br := Expand(f, opts.beta0, 0, NatOf(opts.maxExpand));
        c.iters <= NatOf(opts.maxIter) && br.Bracketed? &&
        (Abs(f(c.beta)) < opts.tol || HalvedBelow(br.hi - br.lo, c.iters - 1, opts.tol)))
  {
    var br := Expand(f, opts.beta0, 0, NatOf(opts.maxExpand));
    if br.ExactRoot? {
      ChoiceExactRoot(f, opts);
    } else if br.Unbracketed? {
      ChoiceGrid(f, opts);
      GridChoiceSpec(f, opts.beta0 - br.step, opts.beta0 + br.step);
    } else {
      ChoiceBisect(f, opts);
    }
  }

  /** The energy constraint at a converged fit: exact when the solver met
      a root while expanding; after bisection, either the predicted mean
      energy is within tol of the target or the bracket, halved iters - 1
      times, is narrower than tol. */
  lemma {:induction false} SolveEnergy(pb: Problem, opts: Options)
    requires pb.Valid() && opts.tol > 0.0
    ensures var fit := SolveRetained(pb, opts);
      var br := Expand(ObjectiveFn(pb), opts.beta0, 0, NatOf(opts.maxExpand));
      !AllClose(pb.eps) && fit.converged ==>
        (fit.iters == 0 ==> ExpectedEps(pb, fit.beta) == pb.E) &&
        (fit.iters >= 1 ==> BisectionMet(br, fit.iters, ExpectedEps(pb, fit.beta) - pb.E, opts.tol))
  {
    if !AllClose(pb.eps) {
      SolveRetainedChoice(pb, opts);
      ChoiceEnergy(pb, opts);
    }
  }

  /** SolveEnergy for the choice made for the objective. */
  lemma {:induction false} ChoiceEnergy(pb: Problem, opts: Options)
    requires pb.Valid() && opts.tol > 0.0
    ensures var c := BetaChoice(ObjectiveFn(pb), opts);
      var br := Expand(ObjectiveFn(pb), opts.beta0, 0, NatOf(opts.maxExpand));
      c.converged ==>
        (c.iters == 0 ==> ExpectedEps(pb, c.beta) == pb.E) &&
        (c.iters >= 1 ==> BisectionMet(br, c.iters, ExpectedEps(pb, c.beta) - pb.E, opts.tol))
  {
    var f := ObjectiveFn(pb);
    var c := BetaChoice(f, opts);
    var br := Expand(f, opts.beta0, 0, NatOf(opts.maxExpand));
    assert f(c.beta) == ExpectedEps(pb, c.beta) - pb.E;
    ConvergedAt(f, opts, br, c.beta, c.converged, c.iters, ExpectedEps(pb, c.beta), pb.E);
  }

  /** ChoiceConverged for a choice given by its fields, where f at its
      beta is known to be e - E. */
  lemma {:induction false} ConvergedAt(f: real -> real, opts: Options, br: Bracket, beta: real, converged: bool, iters: nat, e: real, E: real)
    requires opts.tol > 0.0
    requires BetaChoice(f, opts) == Choice(beta, converged, iters)
    requires br == Expand(f, opts.beta0, 0, NatOf(opts.maxExpand))
    requires f(beta) == e - E
    ensures converged && iters == 0 ==> e == E
    ensures converged && iters >= 1 ==> BisectionMet(br, iters, e - E, opts.tol)
  {
    ChoiceConverged(f, opts);
  }

  /** Away from the equal-energies case the fit records the choice made
      for the objective. */
  lemma {:induction false} SolveRetainedChoice(pb: Problem, opts: Options)
    requires pb.Valid() && !AllClose(pb.eps)
    ensures var fit := SolveRetained(pb, opts);
      var c := BetaChoice(ObjectiveFn(pb), opts);
      fit.beta == c.beta && fit.converged == c.converged && fit.iters == c.iters
  {
  }

  /** `solve_beta_energy_constraint`: drop zero-degeneracy outcomes,
      short-circuit equal energies, expand a symmetric bracket around
      beta0, then scan a grid or bisect. */
  method SolveBetaEnergyConstraint(d: seq<real>, eps: seq<real>, E_target: real, opts: Options, fns: ExpLog)
    returns (r: Result<OSMFit, Error>)
    ensures r == Solve(d, eps, E_target, opts, fns)
  {
    if |d| != |eps| {
      return Failure(ShapeMismatch);
    }
    var mask := Positive(d);
    var dm := Select(d, mask);
    var em := Select(eps, mask);
    if |em| == 0 {
      return Failure(NoOutcomes);
    }
    RetainedValid(d, eps, E_target, fns);
    var pb := Problem(dm, em, E_target, fns);
    assert pb == Retained(d, eps, E_target, fns);
    assert Solve(d, eps, E_target, opts, fns) == Success(SolveRetained(pb, opts));

    var fit := SolveProblem(pb, opts);
    return Success(fit);
  }

  /** The solver on the retained outcomes: short-circuit equal energies,
      expand a bracket, then scan a grid or bisect; the fit is built from
      `predict_p` at the chosen beta. */
  method SolveProblem(pb: Problem, opts: Options) returns (fit: OSMFit)
    requires pb.Valid()
    ensures fit == SolveRetained(pb, opts)
  {
    if AllClose(pb.eps) {
      var pr := Predict(pb, 0.0);
      return OSMFit(0.0, pr.Z, true, 0, pb.E);
    }

    var c := FindBeta(ObjectiveFn(pb), opts);
    var pr := Predict(pb, c.beta);
    return OSMFit(c.beta, pr.Z, c.converged, c.iters, pb.E);
  }

  /** The three phases of the solver for the objective f: expand a
      bracket, then scan a grid or bisect. */
  method FindBeta(f: real -> real, opts: Options) returns (c: Choice)
    ensures c == BetaChoice(f, opts)
  {
    var bracket := ExpandLoop(f, opts.beta0, NatOf(opts.maxExpand));
    match bracket {
      case ExactRoot(root) =>
        c := Choice(root, true, 0);
      case Unbracketed(step) =>
        var a, b := opts.beta0 - step, opts.beta0 + step;
        var best := GridArgMin(f, a, b);
        c := Choice(GridPoint(a, b, best), false, 0);
        assert c == GridChoice(f, a, b);
      case Bracketed(lo, hi) =>
        c := BisectLoop(f, lo, hi, opts.tol, NatOf(opts.maxIter));
    }
  }

  /** The expansion loop of the solver: try [beta0 - step, beta0 + step]
      with step = 1, 2, 4, ... for n attempts. */
  method ExpandLoop(f: real -> real, beta0: real, n: nat) returns (b: Bracket)
    ensures b == Expand(f, beta0, 0, n)
  {
    var step := 1.0;
    var k := 0;
    while k < n
      invariant 0 <= k <= n
      invariant step == Pow2(k)
      invariant Expand(f, beta0, k, n) == Expand(f, beta0, 0, n)
    {
      var lo := beta0 - step;
      var hi := beta0 + step;
      var flo := f(lo);
      var fhi := f(hi);
      if flo == 0.0 {
        return ExactRoot(lo);
      }
      if fhi == 0.0 {
        return ExactRoot(hi);
      }
      SignsDifferProduct(flo, fhi);
      if flo * fhi < 0.0 {
        return Bracketed(lo, hi);
      }
      step := step * 2.0;
      k := k + 1;
    }
    return Unbracketed(step);
  }

  /** `int(np.argmin([abs(f(b)) for b in np.linspace(a, b, 401)]))`: fill
      the values, then keep the first position of a strictly smaller one. */
  method GridArgMin(f: real -> real, a: real, b: real) returns (best: nat)
    ensures best == ArgMin(GridValues(f, a, b))
  {
    var vals := new real[GridCount];
    for i := 0 to GridCount
      invariant forall t :: 0 <= t < i ==> vals[t] == GridValues(f, a, b)[t]
    {
      vals[i] := Abs(f(GridPoint(a, b, i)));
    }
    assert vals[..] == GridValues(f, a, b);
    best := 0;
    var i := 1;
    while i < GridCount
      invariant 1 <= i <= GridCount && best < i
      invariant ArgMinFrom(vals[..], i, best) == ArgMin(vals[..])
    {
      if vals[i] < vals[best] {
        best := i;
      }
      i := i + 1;
    }
  }

  /** The bisection loop of the solver on the bracket [lo, hi]. */
  method BisectLoop(f: real -> real, lo: real, hi: real, tol: real, maxIter: nat) returns (out: Choice)
    ensures out == Bisect(f, lo, hi, f(lo), tol, 1, maxIter, 0.5 * (lo + hi))
  {
    var a, b := lo, hi;
    var fa := f(a);
    var fb := f(b);
    var it := 0;
    var mid := 0.5 * (a + b);
    var j := 1;
    while j <= maxIter
      invariant 1 <= j <= maxIter + 1
      invariant it == j - 1
      invariant Bisect(f, a, b, fa, tol, j, maxIter, mid) == Bisect(f, lo, hi, f(lo), tol, 1, maxIter, 0.5 * (lo + hi))
    {
      it := j;
      mid := 0.5 * (a + b);
      var fmid := f(mid);
      if Abs(fmid) < tol || b - a < tol {
        return Choice(mid, true, it);
      }
      SignsDifferProduct(fa, fmid);
      if fa * fmid < 0.0 {
        b, fb := mid, fmid;
      } else {
        a, fa := mid, fmid;
      }
      j := j + 1;
    }
    return Choice(mid, false, it);
  }
}
