/** Exact-real stand-ins for the numpy vector operations the core uses:
    `np.abs`, `np.sum`, `np.max`, `np.maximum`, `p * eps` summed, the
    comparison mask `d > 0` and boolean indexing `x[mask]`.
    Recursive definitions peel the LAST element, the order in which the
    imperative loops of the model visit entries. */
module Vectors {

  function Abs(x: real): (r: real)
    ensures r >= 0.0 && (r == x || r == -x)
  {
    if x < 0.0 then -x else x
  }

  /** Scalar `np.maximum(a, b)`. */
  function Larger(a: real, b: real): (r: real)
    ensures r >= a && r >= b && (r == a || r == b)
  {
    if a >= b then a else b
  }

  /** `np.sum`. */
  function Sum(s: seq<real>): real
    decreases |s|
  {
    if |s| == 0 then 0.0 else Sum(s[..|s| - 1]) + s[|s| - 1]
  }

  lemma {:induction false} SumAppend(s: seq<real>, x: real)
    ensures Sum(s + [x]) == Sum(s) + x
  {
    assert (s + [x])[..|s|] == s;
  }

  lemma {:induction false} SumNonNegative(s: seq<real>)
    requires forall i :: 0 <= i < |s| ==> s[i] >= 0.0
    ensures Sum(s) >= 0.0
  {
    if |s| > 0 {
      SumNonNegative(s[..|s| - 1]);
    }
  }

  lemma {:induction false} SumPositive(s: seq<real>)
    requires |s| > 0
    requires forall i :: 0 <= i < |s| ==> s[i] > 0.0
    ensures Sum(s) > 0.0
  {
    SumNonNegative(s[..|s| - 1]);
  }

  /** Elementwise `w / c`. */
  function DivideBy(w: seq<real>, c: real): (r: seq<real>)
    requires c != 0.0
    ensures |r| == |w|
  {
    seq(|w|, i requires 0 <= i < |w| => w[i] / c)
  }

  lemma {:induction false} SumDivide(w: seq<real>, c: real)
    requires c != 0.0
    ensures Sum(DivideBy(w, c)) == Sum(w) / c
  {
    if |w| > 0 {
      var n := |w| - 1;
      assert DivideBy(w, c)[..n] == DivideBy(w[..n], c);
      SumDivide(w[..n], c);
      assert Sum(w[..n]) / c + w[n] / c == (Sum(w[..n]) + w[n]) / c;
    }
  }

  /** `w / np.sum(w)` for positive weights: a probability vector. */
  function Normalize(w: seq<real>): (p: seq<real>)
    requires |w| > 0
    requires forall i :: 0 <= i < |w| ==> w[i] > 0.0
    ensures |p| == |w|
    ensures forall i :: 0 <= i < |p| ==> p[i] > 0.0
    ensures Sum(p) == 1.0
  {
    SumPositive(w);
    var s := Sum(w);
    SumDivide(w, s);
    assert s / s == 1.0;
    DivideBy(w, s)
  }

  /** `np.max` of a non-empty vector. */
  function Max(s: seq<real>): real
    requires |s| > 0
    decreases |s|
  {
    if |s| == 1 then s[0]
    else
      var m := Max(s[..|s| - 1]);
      if s[|s| - 1] > m then s[|s| - 1] else m
  }

  /** The maximum is an upper bound that is attained. */
  lemma {:induction false} MaxSpec(s: seq<real>)
    requires |s| > 0
    ensures forall i :: 0 <= i < |s| ==> s[i] <= Max(s)
    ensures exists i :: 0 <= i < |s| && s[i] == Max(s)
    decreases |s|
  {
    if |s| == 1 {
      assert s[0] == Max(s);
    } else {
      var n := |s| - 1;
      MaxSpec(s[..n]);
      var j :| 0 <= j < n && s[..n][j] == Max(s[..n]);
      assert forall i :: 0 <= i < n ==> s[i] == s[..n][i];
      if s[n] <= Max(s[..n]) {
        assert s[j] == Max(s);
      } else {
        assert s[n] == Max(s);
      }
    }
  }

  /** j is the first position of a smallest entry of s. */
  predicate IsFirstMin(s: seq<real>, j: nat)
  {
    j < |s| &&
    (forall t :: 0 <= t < |s| ==> s[j] <= s[t]) &&
    (forall t :: 0 <= t < j ==> s[t] > s[j])
  }

  /** The scan of `np.argmin` from position i on, `best` being the first
      smallest entry of s[..i]. */
  function ArgMinFrom(s: seq<real>, i: nat, best: nat): nat
    requires best < i <= |s|
    decreases |s| - i
  {
    if i == |s| then best
    else if s[i] < s[best] then ArgMinFrom(s, i + 1, i)
    else ArgMinFrom(s, i + 1, best)
  }

  /** `np.argmin` of a non-empty vector. */
  function ArgMin(s: seq<real>): nat
    requires |s| > 0
  {
    ArgMinFrom(s, 1, 0)
  }

  lemma {:induction false} ArgMinFromSpec(s: seq<real>, i: nat, best: nat)
    requires best < i <= |s|
    requires IsFirstMin(s[..i], best)
    ensures IsFirstMin(s, ArgMinFrom(s, i, best))
    decreases |s| - i
  {
    if i == |s| {
      assert s[..i] == s;
    } else {
      assert forall t :: 0 <= t < i ==> s[..i + 1][t] == s[..i][t];
      if s[i] < s[best] {
        ArgMinFromSpec(s, i + 1, i);
      } else {
        ArgMinFromSpec(s, i + 1, best);
      }
    }
  }

  /** `np.argmin` returns the first position of a smallest entry. */
  lemma {:induction false} ArgMinSpec(s: seq<real>)
    requires |s| > 0
    ensures IsFirstMin(s, ArgMin(s))
  {
    ArgMinFromSpec(s, 1, 0);
  }

  /** There is only one first position of a smallest entry. */
  lemma {:induction false} FirstMinUnique(s: seq<real>, j1: nat, j2: nat)
    requires IsFirstMin(s, j1) && IsFirstMin(s, j2)
    ensures j1 == j2
  {
    assert s[j1] <= s[j2];
    assert s[j2] <= s[j1];
  }

  /** `np.sum(a * b)` for vectors of one length. */
  function Dot(a: seq<real>, b: seq<real>): real
    requires |a| == |b|
    decreases |a|
  {
    if |a| == 0 then 0.0 else Dot(a[..|a| - 1], b[..|b| - 1]) + a[|a| - 1] * b[|b| - 1]
  }

  predicate AllPositive(d: seq<real>)
  {
    forall i :: 0 <= i < |d| ==> d[i] > 0.0
  }

  /** The boolean mask `d > 0`. */
  function Positive(d: seq<real>): (mask: seq<bool>)
    ensures |mask| == |d|
  {
    seq(|d|, i requires 0 <= i < |d| => d[i] > 0.0)
  }

  lemma {:induction false} PositivePrefix(d: seq<real>, n: nat)
    requires n <= |d|
    ensures Positive(d)[..n] == Positive(d[..n])
  {
  }

  /** Number of `True` entries of a mask. */
  function CountTrue(mask: seq<bool>): (c: nat)
    ensures c <= |mask|
    decreases |mask|
  {
    if |mask| == 0 then 0
    else CountTrue(mask[..|mask| - 1]) + (if mask[|mask| - 1] then 1 else 0)
  }

  lemma {:induction false} CountTrueZero(mask: seq<bool>)
    ensures CountTrue(mask) == 0 <==> forall i :: 0 <= i < |mask| ==> !mask[i]
  {
    if |mask| > 0 {
      var n := |mask| - 1;
      CountTrueZero(mask[..n]);
      assert forall i :: 0 <= i < n ==> mask[..n][i] == mask[i];
    }
  }

  lemma {:induction false} CountTrueAll(mask: seq<bool>)
    requires forall i :: 0 <= i < |mask| ==> mask[i]
    ensures CountTrue(mask) == |mask|
  {
    if |mask| > 0 {
      CountTrueAll(mask[..|mask| - 1]);
    }
  }

  /** Every bit is set exactly when the count is the length. */
  lemma {:induction false} CountTrueAllIff(mask: seq<bool>)
    ensures CountTrue(mask) == |mask| <==> forall i :: 0 <= i < |mask| ==> mask[i]
  {
    if |mask| > 0 {
      var n := |mask| - 1;
      CountTrueAllIff(mask[..n]);
      assert forall i :: 0 <= i < n ==> mask[..n][i] == mask[i];
    }
  }

  /** Boolean indexing `xs[mask]`: the entries whose mask bit is set, in order. */
  function Select<T>(xs: seq<T>, mask: seq<bool>): (r: seq<T>)
    requires |xs| == |mask|
    ensures |r| == CountTrue(mask)
    decreases |xs|
  {
    if |xs| == 0 then []
    else
      var n := |xs| - 1;
      Select(xs[..n], mask[..n]) + (if mask[n] then [xs[n]] else [])
  }

  /** Entry i survives the mask at position "number of kept entries before i". */
  lemma {:induction false} SelectAt<T>(xs: seq<T>, mask: seq<bool>, i: nat)
    requires |xs| == |mask| && i < |xs| && mask[i]
    ensures CountTrue(mask[..i]) < |Select(xs, mask)|
    ensures Select(xs, mask)[CountTrue(mask[..i])] == xs[i]
    decreases |xs|
  {
    var n := |xs| - 1;
    if i == n {
      assert mask[..i] == mask[..n];
    } else {
      SelectAt(xs[..n], mask[..n], i);
      assert mask[..n][..i] == mask[..i];
      CountTruePrefixMono(mask, i, n);
    }
  }

  lemma {:induction false} CountTruePrefixMono(mask: seq<bool>, i: nat, j: nat)
    requires i <= j <= |mask|
    ensures CountTrue(mask[..i]) <= CountTrue(mask[..j])
    decreases j - i
  {
    if i < j {
      CountTruePrefixMono(mask, i, j - 1);
      assert mask[..j][..j - 1] == mask[..j - 1];
    }
  }

  /** Every kept entry comes from a position whose mask bit is set. */
  lemma {:induction false} SelectFrom<T>(xs: seq<T>, mask: seq<bool>, k: nat)
    requires |xs| == |mask| && k < |Select(xs, mask)|
    ensures exists i :: 0 <= i < |xs| && mask[i] && Select(xs, mask)[k] == xs[i]
    decreases |xs|
  {
    var n := |xs| - 1;
    if k < |Select(xs[..n], mask[..n])| {
      SelectFrom(xs[..n], mask[..n], k);
      var i :| 0 <= i < n && mask[..n][i] && Select(xs[..n], mask[..n])[k] == xs[..n][i];
      assert mask[i] && xs[i] == xs[..n][i];
    } else {
      assert mask[n] && Select(xs, mask)[k] == xs[n];
    }
  }

  lemma {:induction false} SelectAll<T>(xs: seq<T>, mask: seq<bool>)
    requires |xs| == |mask|
    requires forall i :: 0 <= i < |mask| ==> mask[i]
    ensures Select(xs, mask) == xs
    decreases |xs|
  {
    if |xs| > 0 {
      var n := |xs| - 1;
      SelectAll(xs[..n], mask[..n]);
      assert xs[..n] + [xs[n]] == xs;
    }
  }

  /** Masking with `d > 0` keeps only positive degeneracies. */
  lemma {:induction false} SelectPositive(d: seq<real>)
    ensures AllPositive(Select(d, Positive(d)))
  {
    var s := Select(d, Positive(d));
    forall k | 0 <= k < |s|
      ensures s[k] > 0.0
    {
      SelectFrom(d, Positive(d), k);
    }
  }

  /** `x[d > 0]` is empty exactly when no entry of d is positive. */
  lemma {:induction false} SelectPositiveEmpty<T>(xs: seq<T>, d: seq<real>)
    requires |xs| == |d|
    ensures |Select(xs, Positive(d))| == 0 <==> forall i :: 0 <= i < |d| ==> d[i] <= 0.0
  {
    CountTrueZero(Positive(d));
    assert forall i :: 0 <= i < |d| ==> (Positive(d)[i] <==> d[i] > 0.0);
  }
}
