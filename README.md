# QuantumOSM core in Dafny

This is a model of the computational core of QuantumOSM. QuantumOSM fits the
Occupation Statistics Model (OSM) to measured outcome distributions of spin
chains. For one configuration it is given:

- the measured probabilities P_j and the weighted energies R_j;
- the eigenvalues m_j of the total magnetisation.

From these it:

- computes the degeneracy d_j = C(N, (N+m_j)/2) of each eigenvalue;
- computes the effective energies eps_j = R_j / P_j;
- solves for the inverse temperature beta at which the OSM prediction
  p_beta(j) ∝ d_j exp(-beta eps_j) has mean energy Σ R_j;
- reports the distances between P and that prediction.

Configurations are named by strings such as
`LR_DE_N=14_J=-1.00_h=0.20_alpha=1.60_theta=3_axis=Z`, which a parser turns
into a key.

The project has one module per source file, plus two shared modules:

| module | file | models |
|---|---|---|
| `Wrappers` | wrappers.dfy | `Option` and `Result` with `:-` |
| `Vectors` | vectors.dfy | the numpy operations the core uses: `sum`, `max`, `argmin`, `abs`, `maximum`, the mask `d > 0` and boolean indexing `x[mask]` |
| `Degen` | degen.dfy | `magnetization_degeneracies` |
| `Osm` | osm.dfy | `OSMFit`, `predict_p`, `epsilon_from_PR`, `solve_beta_energy_constraint` |
| `Parsing` | parsing.dfy | `FileKey`, the grammar `_BASE_RE`, `parse_base_name` |
| `Metrics` | metrics.dfy | `total_variation`, `linf`, `kl_divergence` |
| `Pipeline` | pipeline.dfy | the alignment logic of `fit_one_row` |

How the model is built:

- Floats are exact `real`s.
- `np.exp` and `np.log` are parameters, bundled in `Osm.ExpLog`. `exp` is
  any positive function and `log` is any function. That is all the control
  logic relies on.
- Code that loops in the source is an imperative method. Each such method
  is proved equal to a recursive reference function, and the properties are
  proved about that function. These methods are:
  - the degeneracy loop;
  - the expansion, grid and bisection loops of the solver;
  - the in-place scatter `full[d > 0] = p_pred`.
- Exceptions the source raises become `Failure` values:
  - `NonPositiveDegeneracy` is the guard of `predict_p`.
  - `ShapeMismatch` stands for two vectors of different lengths. numpy
    would broadcast a length-1 operand instead, and raise `ValueError` only
    for other mismatches; see "## Left out".
  - `NoOutcomes` stands for `eps[0]` or `np.max` on an empty vector.
  - `Unrecognized(name)` is the `ValueError` of `parse_base_name`.

Where the code and its documentation disagree, the model follows the code:

- The dataclass comment on `FileKey.alpha` says alpha is "present only for
  LR". The grammar does not enforce this: a short-range name with an
  `alpha=` segment parses, and so does a long-range name without one
  (`Parsing.ExampleShortRangeWithAlpha`, `Parsing.ExampleLongRangeWithoutAlpha`).

## Model

| member | source | states |
|---|---|---|
| Degen.Degeneracy | src/quantumosm/degen.py:17-25 | the degeneracy is positive exactly when N+m is even and -N <= m <= N. It is then C(N, (N+m)/2) with 0 <= (N+m)/2 <= N |
| Degen.DegeneracyInvalid | src/quantumosm/degen.py:17-24 | odd N+m gives 0, and m outside [-N, N] gives 0 |
| Degen.DegeneracySymmetric | src/quantumosm/degen.py:9-12 | d(m) = d(-m) for every N and m |
| Degen.ChooseSymmetric | src/quantumosm/degen.py:25 | C(n, k) = C(n, n-k) for k <= n |
| Degen.ChoosePositive | src/quantumosm/degen.py:25 | C(n, k) > 0 for k <= n |
| Degen.ChooseFactorial | src/quantumosm/degen.py:25 | Pascal's rule agrees with the closed form: C(n, k)·k!·(n-k)! = n! |
| Degen.DegeneracyExampleFourSites | src/quantumosm/degen.py:9-12 | for N = 4 the eigenvalues -4, -2, 0, 2, 4 have degeneracies 1, 4, 6, 4, 1, and the odd eigenvalue 1 has 0 |
| Degen.MagnetizationDegeneracies | src/quantumosm/degen.py:7-26 | the zero-filled array and its loop with `continue` give one entry per eigenvalue, and each entry is the degeneracy of that eigenvalue |
| Osm.PredictP | src/quantumosm/osm.py:44-55 | any degeneracy <= 0 gives the `NonPositiveDegeneracy` error. The prediction succeeds exactly when all degeneracies are positive and d and eps are paired and non-empty. It is then a positive distribution over the outcomes with Z > 0 |
| Osm.Softmax | src/quantumosm/osm.py:38-41 | the shifted softmax of non-empty log-weights has one positive entry per weight, sums to 1, and has a positive partition function |
| Osm.EpsilonFromPR | src/quantumosm/osm.py:146-152 | same length as P. With floor > 0, e_j·max(P_j, floor) = R_j, so e_j = R_j/P_j where P_j >= floor. Otherwise e_j·P_j = R_j |
| Osm.RetainedValid | src/quantumosm/osm.py:82-84 | after masking with d > 0, d and eps have one length and every kept degeneracy is positive. At least one outcome remains exactly when some d_j > 0 |
| Osm.RetainedAligned | src/quantumosm/osm.py:82-84 | masking keeps d and eps index-aligned: an outcome i with d_i > 0 sits at position k = (number of kept outcomes before i) in both, so d[mask][k] = d_i and eps[mask][k] = eps_i |
| Vectors.SelectPositive | src/quantumosm/osm.py:82-83 | `d[d > 0]` holds only positive entries |
| Vectors.SelectPositiveEmpty | src/quantumosm/osm.py:82-87 | `x[d > 0]` is empty exactly when no d_j is positive |
| Osm.EqualEnergiesAreClose | src/quantumosm/osm.py:87 | equal energies pass the `np.allclose` test |
| Osm.ExpandRoot | src/quantumosm/osm.py:101-111 | an exact zero found while expanding is a root of f. It is at the lower end of the first attempt j that finds anything, or at its upper end when the lower end is not a root. All earlier attempts found nothing |
| Osm.ExpandBracket | src/quantumosm/osm.py:101-114 | a bracket found while expanding is lo < hi with f(lo), f(hi) of strictly opposite signs. It is [beta0 - 2^j, beta0 + 2^j] for the first attempt j that finds anything |
| Osm.ExpandExhausted | src/quantumosm/osm.py:101-117 | expansion gives up exactly when no attempt finds a zero or a sign change, and the step is then 2^n |
| Osm.ExpandSkips | src/quantumosm/osm.py:101-115 | attempts that find nothing do not change the outcome of expansion |
| Osm.ExpandLoop | src/quantumosm/osm.py:94-115 | the loop that doubles `step` and returns on a zero at lo, then at hi, then on a sign change (`flo * fhi < 0`) ends where the reference expansion ends |
| Osm.SignsDifferProduct | src/quantumosm/osm.py:112 | x·y < 0 exactly when x and y are nonzero and of opposite signs |
| Osm.GridEnds | src/quantumosm/osm.py:119 | point 0 of the 401-point grid is a and point 400 is b |
| Osm.GridValues | src/quantumosm/osm.py:120 | the list of values \|f\| has one entry per grid point |
| Vectors.ArgMinSpec | src/quantumosm/osm.py:121 | `np.argmin` returns the first position of a smallest entry |
| Vectors.FirstMinUnique | src/quantumosm/osm.py:121 | there is only one first position of a smallest entry |
| Osm.GridArgMin | src/quantumosm/osm.py:119-121 | filling the values and scanning for a strictly smaller one gives `np.argmin` of the values |
| Osm.GridChoiceSpec | src/quantumosm/osm.py:117-123 | the grid fallback is not converged and has iters = 0. Its beta is a grid point where \|f\| is smallest, and \|f\| is strictly larger at every earlier grid point |
| Osm.ChoiceGrid | src/quantumosm/osm.py:115-123 | without a zero or a sign change in any attempt, the grid spans [beta0 - 2^n, beta0 + 2^n], twice the last interval tested |
| Osm.ChoiceExactRoot | src/quantumosm/osm.py:106-111 | an exact zero met while expanding is reported as converged with iters = 0, and f vanishes there |
| Osm.BisectStep | src/quantumosm/osm.py:130-140 | a bisection step that does not stop keeps lo < hi, keeps f of opposite signs at the ends, and halves the interval |
| Osm.BisectSpec | src/quantumosm/osm.py:126-143 | the answer is inside the bracket, or is the old midpoint when no iteration runs. It is converged within the budget only when coming from \|f\| < tol or an interval (hi-lo)/2^(it-k) narrower than tol. Otherwise iters is the budget, and \|f\| >= tol at the last midpoint |
| Osm.BisectLoop | src/quantumosm/osm.py:125-143 | the bisection loop with `it`, `mid`, `flo` and the product sign test returns the reference bisection outcome |
| Osm.ChoiceBisect | src/quantumosm/osm.py:125-143 | after a bracket is found (tol > 0), the bracket straddles a sign change and beta lies strictly inside it. Converged means 1 <= iters <= max_iter and \|f\| < tol or (hi-lo)/2^(iters-1) < tol. Otherwise iters = max(max_iter, 0) and \|f\| >= tol. With max_iter <= 0, beta is the bracket midpoint |
| Osm.ChoiceConverged | src/quantumosm/osm.py:106-134 | for any objective, converged with iters = 0 means an exact zero of f. Converged with iters >= 1 means bisection, within its budget |
| Osm.SolveSpec | src/quantumosm/osm.py:78-143 | unpaired inputs give `ShapeMismatch`. No positive degeneracy gives `NoOutcomes`, and a fit is returned exactly when some d_j > 0. Every fit records the target and Z of `predict_p` at its beta. Nearly equal energies give beta = 0, converged, iters = 0 whatever the target. Otherwise the fit records the choice made for the objective |
| Osm.SolveEnergy | src/quantumosm/osm.py:91-134 | a converged fit with iters = 0 (not the equal-energies case) has expected eps exactly equal to the target. One with iters >= 1 comes from a bracket found by expansion, and at the fitted beta the expected eps is within tol of the target, or the bracket halved iters - 1 times is narrower than tol |
| Osm.FindBeta | src/quantumosm/osm.py:94-143 | the expansion, grid and bisection phases choose the reference beta, converged flag and iters |
| Osm.SolveProblem | src/quantumosm/osm.py:86-143 | on the retained outcomes: the equal-energies short-circuit, then the three phases, give the reference fit |
| Osm.SolveBetaEnergyConstraint | src/quantumosm/osm.py:63-143 | the whole solver returns the reference result `Solve`, errors included |
| Parsing.ParseSound | src/quantumosm/parsing.py:23-31 | whatever the scanner accepts is a well-formed set of groups that spells exactly the input |
| Parsing.ParseComplete | src/quantumosm/parsing.py:23-31 | every well-formed set of groups is accepted from its own name, with those groups |
| Parsing.ParseBaseName | src/quantumosm/parsing.py:34-53 | the error `Unrecognized(name)` is returned exactly when the name is outside the grammar. On success the model is SR or LR, the axis is X, Y or Z, N and theta are >= 0, and h and alpha are >= 0 |
| Parsing.ParseBaseNameIff | src/quantumosm/parsing.py:23-53 | a name parses exactly when it spells some well-formed set of groups, and the key is then that of those groups |
| Parsing.ParseOfRender | src/quantumosm/parsing.py:41-53 | every well-formed name parses to the key of its own groups |
| Parsing.AlphaIffSegment | src/quantumosm/parsing.py:28 | alpha is present exactly when the name has the `alpha=` segment, whatever the model |
| Parsing.DecimalValue | src/quantumosm/parsing.py:47-48 | a decimal field without a minus sign is >= 0, and one with a minus sign is <= 0 |
| Parsing.DecimalExamples | src/quantumosm/parsing.py:47-48 | "-1.00", "0.20", "1.20" and "1.60" are -1, 0.2, 1.2 and 1.6 |
| Parsing.ParseDecimal | src/quantumosm/parsing.py:26-28 | an accepted decimal field has digits on both sides of '.', a '-' only where signed, and is followed by a non-digit; together with the rest it spells the input |
| Parsing.ExampleLongRange | tests/test_parsing.py:4-12 | the long-range name with alpha parses to LR, N 14, J -1, h 0.2, alpha 1.6, theta 3, axis Z |
| Parsing.ExampleShortRange | tests/test_parsing.py:15-18 | the short-range name parses to SR with alpha absent |
| Parsing.ExampleShortRangeWithAlpha | src/quantumosm/parsing.py:24-31 | a short-range name with an `alpha=` segment parses, with alpha present |
| Parsing.ExampleLongRangeWithoutAlpha | src/quantumosm/parsing.py:24-31 | a long-range name without an `alpha=` segment parses, with alpha absent |
| Parsing.RenderEndsWithAxis | src/quantumosm/parsing.py:30 | every name in the grammar ends with its axis letter |
| Parsing.ExampleMissingAxis | src/quantumosm/parsing.py:41-43 | a name missing the axis field is refused |
| Metrics.AbsDiff | src/quantumosm/metrics.py:7 | `np.abs(p - q)` has one non-negative entry per position |
| Metrics.TotalVariation | src/quantumosm/metrics.py:6-7 | the total variation is non-negative |
| Metrics.TotalVariationZeroIff | src/quantumosm/metrics.py:6-7 | the total variation is 0 exactly when p = q |
| Metrics.TotalVariationSymmetric | src/quantumosm/metrics.py:6-7 | TV(p, q) = TV(q, p) |
| Metrics.TotalVariationAtMostOne | src/quantumosm/metrics.py:6-7 | between two probability vectors TV <= 1 |
| Metrics.Linf | src/quantumosm/metrics.py:10-11 | `linf` has no value (numpy raises) exactly for empty vectors |
| Metrics.LinfSpec | src/quantumosm/metrics.py:10-11 | for non-empty input, linf is at least every \|p_i - q_i\| and equal to one of them |
| Metrics.LinfZeroIffAndBound | src/quantumosm/metrics.py:6-11 | linf is 0 exactly when p = q, and linf <= 2·TV |
| Metrics.LinfSymmetric | src/quantumosm/metrics.py:10-11 | linf(p, q) = linf(q, p) |
| Metrics.KlDivergenceIsPointwise | src/quantumosm/metrics.py:14-19 | the masked sum equals the sum over all outcomes in which those with p_i <= 0 contribute nothing |
| Metrics.KlDivergenceSelf | src/quantumosm/metrics.py:14-19 | KL(p, p) = 0 for any log function |
| Metrics.KlIgnoresOutsideSupport | src/quantumosm/metrics.py:18-19 | changing q where p_i <= 0 does not change KL(p, q) |
| Pipeline.Scatter | src/quantumosm/pipeline.py:70-74 | the scattered vector has the length of d |
| Pipeline.ScatterZeros | src/quantumosm/pipeline.py:72-74 | positions with d <= 0 hold 0 |
| Pipeline.ScatterSelect | src/quantumosm/pipeline.py:72-74 | masking the scattered vector with d > 0 gives back the masked prediction, in order |
| Pipeline.ScatterAllPositive | src/quantumosm/pipeline.py:70-74 | with every degeneracy positive nothing moves |
| Pipeline.ScatterSum | src/quantumosm/pipeline.py:72-74 | scattering keeps the total mass and non-negativity |
| Pipeline.ScatterPrediction | src/quantumosm/pipeline.py:72-74 | the zero-filled array written at the positions with d > 0 is the reference scatter |
| Pipeline.RowPredictionIsScatter | src/quantumosm/pipeline.py:67-74 | in both branches, the reported prediction is the prediction on the retained outcomes scattered back |
| Pipeline.RowPredictionFull | src/quantumosm/pipeline.py:67 | with every d_j > 0 the reported prediction is `predict_p` on the full vectors |
| Pipeline.RowPredictionSpec | src/quantumosm/pipeline.py:67-74 | the reported prediction has the length of P, is 0 where d <= 0, and holds the retained prediction in order elsewhere. It is a distribution, and its Z is the retained one |
| Pipeline.PredictRow | src/quantumosm/pipeline.py:67-74 | the masked or full `predict_p`, followed by the scatter when the lengths differ, gives the reference prediction |
| Pipeline.SolvedHasOutcomes | src/quantumosm/pipeline.py:66-67 | a successful solve had paired vectors and some positive degeneracy, so the prediction is defined |
| Pipeline.RowFitSpec | src/quantumosm/pipeline.py:56-94 | a row fails exactly when the solver does, with its error. Otherwise it reports the solver's beta, Z, converged and iters, and Ebar_DE = Σ R_j over all outcomes. It keeps the row's key fields, takes TV, KL and linf against the full-length prediction at the solver's beta, and reports n_outcomes = len(P) |
| Pipeline.RowTotalVariationAtMostOne | src/quantumosm/pipeline.py:88 | when P is a distribution the reported TV is at most 1 |
| Pipeline.FitOneRow | src/quantumosm/pipeline.py:56-94 | the method calling the degeneracy loop, the solver and the scatter returns the reference row, errors included |

## Definitions

The reference functions below define what the source computes. Their
properties are stated by the members of "## Model" named beside them, and
each imperative method of the model is proved equal to one of them.

| definition | source | specified by |
|---|---|---|
| `Degen.Choose` | src/quantumosm/degen.py:25 | `Degen.ChooseFactorial`, `Degen.ChooseSymmetric`, `Degen.ChoosePositive` |
| `Degen.DegeneracyVector` | src/quantumosm/degen.py:14-26 | `Degen.MagnetizationDegeneracies` |
| `Osm.LogWeights` | src/quantumosm/osm.py:50 | `Osm.PredictP` |
| `Osm.ExpectedEps`, `Osm.Objective` | src/quantumosm/osm.py:58-60, 91-92 | `Osm.SolveEnergy`, `Osm.ChoiceConverged` |
| `Osm.AllClose` | src/quantumosm/osm.py:87 | `Osm.EqualEnergiesAreClose`, `Osm.SolveSpec` |
| `Osm.Expand` | src/quantumosm/osm.py:94-115 | `Osm.ExpandRoot`, `Osm.ExpandBracket`, `Osm.ExpandExhausted`, `Osm.ExpandSkips`, `Osm.ExpandLoop` |
| `Osm.GridChoice` | src/quantumosm/osm.py:117-123 | `Osm.GridChoiceSpec`, `Osm.GridArgMin` |
| `Osm.Bisect` | src/quantumosm/osm.py:125-143 | `Osm.BisectStep`, `Osm.BisectSpec`, `Osm.BisectLoop` |
| `Osm.BetaChoice` | src/quantumosm/osm.py:94-143 | `Osm.ChoiceExactRoot`, `Osm.ChoiceGrid`, `Osm.ChoiceBisect`, `Osm.ChoiceConverged`, `Osm.FindBeta` |
| `Osm.SolveRetained`, `Osm.Solve` | src/quantumosm/osm.py:63-143 | `Osm.SolveSpec`, `Osm.SolveEnergy`, `Osm.SolveProblem`, `Osm.SolveBetaEnergyConstraint` |
| `Parsing.ParseFields` | src/quantumosm/parsing.py:23-31, 41 | `Parsing.ParseSound`, `Parsing.ParseComplete` |
| `Parsing.ToKey` | src/quantumosm/parsing.py:45-53 | `Parsing.ParseBaseName`, `Parsing.ParseOfRender`, `Parsing.DecimalValue` |
| `Metrics.KlDivergence` | src/quantumosm/metrics.py:14-19 | `Metrics.KlDivergenceIsPointwise`, `Metrics.KlDivergenceSelf`, `Metrics.KlIgnoresOutsideSupport` |
| `Pipeline.RowPrediction` | src/quantumosm/pipeline.py:67-74 | `Pipeline.RowPredictionIsScatter`, `Pipeline.RowPredictionFull`, `Pipeline.RowPredictionSpec`, `Pipeline.PredictRow` |
| `Pipeline.RowFit` | src/quantumosm/pipeline.py:56-94 | `Pipeline.RowFitSpec`, `Pipeline.RowTotalVariationAtMostOne`, `Pipeline.FitOneRow` |

## Left out

- `stable_eps` (src/quantumosm/osm.py:18-36) is not part of this model. It relies on scipy's Savitzky-Golay filter and `np.interp`.
- `np.exp` and `np.log` are parameters, not the real functions:
  - `exp` is any positive function and `log` any function.
  - So the numeric test at tests/test_osm.py:5-13, which expects the fit for E = 0.25 to meet the target within 1e-9, is not proved.
  - Gibbs' inequality KL >= 0 is not proved either.
- Floating point is exact `real`. Not modelled:
  - rounding, underflow of `flo * fhi`, inf and nan;
  - the imprecision of `float(comb(N, k))` for large N.
- The product sign tests `flo * fhi < 0` and `flo * fmid < 0` are modelled by `SignsDiffer`. `Osm.SignsDifferProduct` proves the two equivalent over the reals, and the loops use the product.
- The value `f(beta0)` at src/quantumosm/osm.py:97 is computed and never used. With a pure objective it changes nothing, so the model omits it. The bisection loop keeps `fhi` (src/quantumosm/osm.py:126, 136), which is also never read.
- Degen.MagnetizationDegeneracies: eigenvalues are `int`. The `int(round(float(m)))` of src/quantumosm/degen.py:16 is not modelled. Nor is the `OverflowError` that `float(comb(N, k))` at src/quantumosm/degen.py:25 raises once C(N, k) exceeds the largest double (for example N = 1030 with eigenvalue 0): the model returns the exact value instead. The error would propagate out of `fit_one_row`, so `Pipeline.RowFit` and `Pipeline.FitOneRow` succeed in the model where the source raises.
- Osm.EpsilonFromPR: with floor <= 0 it requires every P_j ≠ 0. numpy would produce inf or nan there, which exact reals cannot represent.
- Pipeline.FitOneRow: requires every P_j ≠ 0, for the same reason. The same holds for `Pipeline.RowFit` and the lemmas about it.
- Metrics: `p` and `q` must have one length. numpy's broadcasting of a length-1 vector is not modelled.
- Osm.PredictP: numpy broadcasts a length-1 `d` or `eps` against the other vector and predicts over the longer one; the model answers `ShapeMismatch` for any two lengths that differ, including the ValueError numpy raises for other mismatches.
- Osm.EpsilonFromPR: requires `|P| == |R|`. `R / P` with a length-1 operand broadcasts, and other mismatched lengths raise ValueError; neither is modelled.
- Pipeline.RowFit: requires `|P| == |R|`, so the broadcasting and the ValueError of `epsilon_from_PR` are not modelled here either.
- Pipeline.FitOneRow: requires `|P| == |R|`, for the same reason as `Pipeline.RowFit`.
- Parsing.ParseBaseName differs from Python's `re` in two ways:
  - digits are ASCII only, while `\d` also accepts other Unicode digits;
  - the name must end right after the axis letter, while `$` also matches before one trailing newline.
- `FileKey.tag` (src/quantumosm/parsing.py:17-20) is not part of this model. It is display formatting with `:g`.
- These are file-system, DataFrame and plotting glue and are not part of this model:
  - `build_manifest` and `fit_manifest`;
  - `load_npy` and the rest of src/quantumosm/dataio.py;
  - src/quantumosm/plotting.py and the scripts.
- In `fit_one_row` the loaded arrays and the parsed key are parameters. The round trip of the key through the manifest DataFrame is not modelled:
  - `int(row["N"])`;
  - `pd.isna(row["alpha"])`.
