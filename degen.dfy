/** The degeneracy calculator: how many spin configurations of N sites have
    total magnetisation m, i.e. C(N, (N+m)/2), and 0 for an eigenvalue of
    the wrong parity or outside [-N, N]. */
module Degen {

  /** Binomial coefficient by Pascal's rule (`math.comb`). */
  function Choose(n: nat, k: nat): nat
    decreases n
  {
    if k == 0 then 1
    else if n == 0 then 0
    else Choose(n - 1, k - 1) + Choose(n - 1, k)
  }

  function Factorial(n: nat): (r: nat)
    ensures r >= 1
  {
    if n == 0 then 1 else n * Factorial(n - 1)
  }

  /** Choosing more items than there are gives 0. */
  lemma {:induction false} ChooseAbove(n: nat, k: nat)
    requires k > n
    ensures Choose(n, k) == 0
  {
    if n > 0 {
      ChooseAbove(n - 1, k - 1);
      ChooseAbove(n - 1, k);
    }
  }

  lemma {:induction false} ChooseAll(n: nat)
    ensures Choose(n, n) == 1
  {
    if n > 0 {
      ChooseAll(n - 1);
      ChooseAbove(n - 1, n);
    }
  }

  lemma {:induction false} ChoosePositive(n: nat, k: nat)
    requires k <= n
    ensures Choose(n, k) > 0
  {
    if k > 0 {
      ChoosePositive(n - 1, k - 1);
    }
  }

  /** C(n, k) = C(n, n - k). */
  lemma {:induction false} ChooseSymmetric(n: nat, k: nat)
    requires k <= n
    ensures Choose(n, k) == Choose(n, n - k)
  {
    if k == 0 {
      ChooseAll(n);
    } else if k == n {
      ChooseAll(n);
    } else {
      ChooseSymmetric(n - 1, k - 1);
      ChooseSymmetric(n - 1, k);
      assert Choose(n, n - k) == Choose(n - 1, n - k - 1) + Choose(n - 1, n - k);
    }
  }

  /** Pascal's rule agrees with the closed form n! / (k! (n-k)!) that
      `math.comb` documents. */
  lemma {:induction false} ChooseFactorial(n: nat, k: nat)
    requires k <= n
    ensures Choose(n, k) * Factorial(k) * Factorial(n - k) == Factorial(n)
  {
    if k == 0 {
    } else if k == n {
      ChooseAll(n);
    } else {
      ChooseFactorial(n - 1, k - 1);
      ChooseFactorial(n - 1, k);
      var a, b := Choose(n - 1, k - 1), Choose(n - 1, k);
      var fk1, fnk1 := Factorial(k - 1), Factorial(n - k - 1);
      var f := Factorial(n - 1);
      assert Factorial(k) == k * fk1;
      assert Factorial(n - k) == (n - k) * fnk1;
      assert a * fk1 * ((n - k) * fnk1) == f;
      assert b * (k * fk1) * fnk1 == f;
      PascalStep(a, b, k, n - k, fk1, fnk1, f);
      assert Choose(n, k) == a + b;
    }
  }

  /** The arithmetic of the inductive step of ChooseFactorial:
      if a·x·(m·y) = f and b·(k·x)·y = f then (a+b)·(k·x)·(m·y) = (k+m)·f. */
  lemma {:induction false} PascalStep(a: int, b: int, k: int, m: int, x: int, y: int, f: int)
    requires a * x * (m * y) == f
    requires b * (k * x) * y == f
    ensures (a + b) * (k * x) * (m * y) == (k + m) * f
  {
    calc {
      (a + b) * (k * x) * (m * y);
      k * (a * x * (m * y)) + m * (b * (k * x) * y);
      k * f + m * f;
      (k + m) * f;
    }
  }

  /** Degeneracy of eigenvalue m for N sites: the body of the loop of
      `magnetization_degeneracies`, for one entry. */
  function Degeneracy(N: int, m: int): (r: nat)
    ensures r > 0 <==> (N + m) % 2 == 0 && -N <= m <= N
    ensures r > 0 ==> 0 <= (N + m) / 2 <= N && r == Choose(N, (N + m) / 2)
  {
    var k2 := N + m;
    if k2 % 2 != 0 then 0
    else
      var k := k2 / 2;
      if k < 0 || k > N then 0
      else
        ChoosePositive(N, k);
        Choose(N, k)
  }

  /** Odd parity, or |m| > N, gives degeneracy 0. */
  lemma {:induction false} DegeneracyInvalid(N: int, m: int)
    ensures (N + m) % 2 != 0 ==> Degeneracy(N, m) == 0
    ensures m < -N || m > N ==> Degeneracy(N, m) == 0
  {
  }

  /** d(m) = d(-m). */
  lemma {:induction false} DegeneracySymmetric(N: int, m: int)
    ensures Degeneracy(N, m) == Degeneracy(N, -m)
  {
    if (N + m) % 2 == 0 && -N <= m <= N {
      var k := (N + m) / 2;
      assert (N - m) / 2 == N - k;
      ChooseSymmetric(N, k);
    }
  }

  /** The whole vector, as a value. */
  function DegeneracyVector(N: int, eigenvalues: seq<int>): seq<real>
  {
    seq(|eigenvalues|, i requires 0 <= i < |eigenvalues| => Degeneracy(N, eigenvalues[i]) as real)
  }

  /** The worked example: N = 4, eigenvalues -4..4 in steps of 2, and an
      odd eigenvalue. */
  lemma {:induction false} DegeneracyExampleFourSites()
    ensures DegeneracyVector(4, [-4, -2, 0, 2, 4]) == [1.0, 4.0, 6.0, 4.0, 1.0]
    ensures DegeneracyVector(4, [1]) == [0.0]
  {
    DegeneracyFourSites();
    var ms := [-4, -2, 0, 2, 4];
    var v := DegeneracyVector(4, ms);
    assert v[0] == 1.0 && v[1] == 4.0 && v[2] == 6.0 && v[3] == 4.0 && v[4] == 1.0;
  }

  lemma {:induction false} DegeneracyFourSites()
    ensures Degeneracy(4, -4) == 1 && Degeneracy(4, -2) == 4 && Degeneracy(4, 0) == 6
    ensures Degeneracy(4, 2) == 4 && Degeneracy(4, 4) == 1 && Degeneracy(4, 1) == 0
  {
    ChooseRowFour();
  }

  /** Row 4 of Pascal's triangle, built up row by row. */
  lemma {:induction false} ChooseRowFour()
    ensures Choose(4, 0) == 1 && Choose(4, 1) == 4 && Choose(4, 2) == 6
    ensures Choose(4, 3) == 4 && Choose(4, 4) == 1
  {
    ChooseAbove(2, 3);
    ChooseAbove(3, 4);
    ChooseAll(2);
    ChooseAll(3);
    ChooseAll(4);
    assert Choose(1, 1) == 1;
    assert Choose(2, 1) == 2;
    assert Choose(3, 1) == 3;
    assert Choose(3, 2) == 3;
    assert Choose(4, 1) == 4;
    assert Choose(4, 3) == 4;
  }

  /** `magnetization_degeneracies`: allocate a zero vector and fill entry i
      in a loop, skipping invalid eigenvalues with `continue`. */
  method MagnetizationDegeneracies(N: int, eigenvalues: seq<int>) returns (d: seq<real>)
    ensures |d| == |eigenvalues|
    ensures forall i :: 0 <= i < |eigenvalues| ==> d[i] == Degeneracy(N, eigenvalues[i]) as real
  {
    var a := new real[|eigenvalues|](_ => 0.0);
    for i := 0 to |eigenvalues|
      invariant forall j :: 0 <= j < i ==> a[j] == Degeneracy(N, eigenvalues[j]) as real
    {
      var m := eigenvalues[i];
      var k2 := N + m;
      if k2 % 2 != 0 {
        a[i] := 0.0;
        continue;
      }
      var k := k2 / 2;
      if k < 0 || k > N {
        a[i] := 0.0;
        continue;
      }
      a[i] := Choose(N, k) as real;
    }
    d := a[..];
  }
}
