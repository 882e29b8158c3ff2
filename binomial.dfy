/** The binomial mass function `binPDF` over exact reals, with the facts the
    engine relies on: its three cases, its sign, and that it is a distribution. */
module Binomial {

  function Pow(x: real, n: nat): real {
    if n == 0 then 1.0 else x * Pow(x, n - 1)
  }

  function Factorial(n: nat): (r: nat)
    ensures r >= 1
  {
    if n == 0 then 1 else n * Factorial(n - 1)
  }

  /** Binomial coefficient by Pascal's rule, an independent reference for the
      factorial quotient that `binPDF` computes. */
  function Choose(n: nat, k: nat): nat {
    if k == 0 then 1
    else if n == 0 then 0
    else Choose(n - 1, k - 1) + Choose(n - 1, k)
  }

  /** `binPDF(P, N, K)`: probability of exactly `k` hits from `n` dice that hit
      with probability `p` each. With `0 < k` and `n < k` the source's factorial
      of a negative number raises, so such calls are excluded. */
  function BinPDF(p: real, n: nat, k: nat): real
    requires n == 0 || k <= n
  {
    if n == 0 then 1.0
    else if k == 0 then Pow(1.0 - p, n)
    else Coefficient(n, k) * Pow(p, k) * Pow(1.0 - p, n - k)
  }

  /** The factorial quotient `n! / (k! (n-k)!)` of `binPDF`, computed in reals. */
  function Coefficient(n: nat, k: nat): real
    requires k <= n
  {
    (Factorial(n) as real) / ((Factorial(k) * Factorial(n - k)) as real)
  }

  lemma {:induction false} PowNonNeg(x: real, n: nat)
    requires 0.0 <= x
    ensures Pow(x, n) >= 0.0
  {
    if n > 0 {
      PowNonNeg(x, n - 1);
    }
  }

  lemma {:induction false} PowOne(n: nat)
    ensures Pow(1.0, n) == 1.0
  {
    if n > 0 {
      PowOne(n - 1);
    }
  }

  lemma {:induction false} ChooseAbove(n: nat, k: nat)
    requires n < k
    ensures Choose(n, k) == 0
  {
    if n > 0 {
      ChooseAbove(n - 1, k - 1);
      ChooseAbove(n - 1, k);
    }
  }

  /** Pascal's coefficient is the factorial quotient. */
  lemma {:induction false} ChooseFactorial(n: nat, k: nat)
    requires k <= n
    ensures Choose(n, k) * (Factorial(k) * Factorial(n - k)) == Factorial(n)
  {
    if k == 0 {
    } else if k == n {
      ChooseAbove(n - 1, k);
      ChooseN(n - 1);
    } else {
      ChooseFactorial(n - 1, k - 1);
      ChooseFactorial(n - 1, k);
      var a := Factorial(k - 1);
      var b := Factorial(n - k - 1);
      assert Factorial(k) == k * a;
      assert Factorial(n - k) == (n - k) * b;
      assert n - 1 - (k - 1) == n - k;
      PascalStep(Choose(n - 1, k - 1), Choose(n - 1, k), a, b, k, n - k, Factorial(n - 1));
    }
  }

  /** The arithmetic of one Pascal step: `C(n-1,k-1)` and `C(n-1,k)` weighted by
      the two factorial products add up to `n * (n-1)!`. */
  lemma PascalStep(c1: int, c2: int, a: int, b: int, k: int, m: int, f: int)
    requires c1 * (a * (m * b)) == f
    requires c2 * ((k * a) * b) == f
    ensures (c1 + c2) * ((k * a) * (m * b)) == (k + m) * f
  {
    var x := (k * a) * (m * b);
    assert x == k * (a * (m * b)) by {
      assert (k * a) * (m * b) == k * (a * (m * b));
    }
    assert x == m * ((k * a) * b) by {
      assert (k * a) * (m * b) == m * ((k * a) * b);
    }
    assert c1 * x == k * f by {
      assert c1 * (k * (a * (m * b))) == k * (c1 * (a * (m * b)));
    }
    assert c2 * x == m * f by {
      assert c2 * (m * ((k * a) * b)) == m * (c2 * ((k * a) * b));
    }
    assert (c1 + c2) * x == c1 * x + c2 * x;
  }

  lemma {:induction false} ChooseN(n: nat)
    ensures Choose(n, n) == 1
  {
    if n > 0 {
      ChooseN(n - 1);
      ChooseAbove(n - 1, n);
    }
  }

  /** The three cases of `binPDF`: one when no dice are thrown, `(1-p)^n` for no
      hits, and the binomial term `C(n,k) p^k (1-p)^(n-k)` otherwise. */
  lemma BinPDFCases(p: real, n: nat, k: nat)
    requires n == 0 || k <= n
    ensures n == 0 ==> BinPDF(p, n, k) == 1.0
    ensures 0 < n && k == 0 ==> BinPDF(p, n, k) == Pow(1.0 - p, n)
    ensures k <= n ==> BinPDF(p, n, k) == Term(p, 1.0 - p, n, k)
  {
    if 0 < k <= n {
      CoefficientIsChoose(n, k);
    }
  }

  /** The factorial quotient is Pascal's coefficient. */
  lemma CoefficientIsChoose(n: nat, k: nat)
    requires k <= n
    ensures Coefficient(n, k) == Choose(n, k) as real
  {
    ChooseFactorial(n, k);
    var d := Factorial(k) * Factorial(n - k);
    var c := Choose(n, k);
    assert Factorial(n) == c * d;
    CastDivide(c, d);
  }

  /** `(c * d) / d == c` for the integer quotient computed in reals. */
  lemma CastDivide(c: nat, d: nat)
    requires d >= 1
    ensures ((c * d) as real) / (d as real) == c as real
  {
    assert (c * d) as real == (c as real) * (d as real);
  }

  /** `binPDF` is never negative for a probability `p`. */
  lemma BinPDFNonNeg(p: real, n: nat, k: nat)
    requires 0.0 <= p <= 1.0
    requires n == 0 || k <= n
    ensures BinPDF(p, n, k) >= 0.0
  {
    PowNonNeg(p, k);
    PowNonNeg(1.0 - p, n);
    if 0 < k <= n {
      PowNonNeg(1.0 - p, n - k);
      CoefficientIsChoose(n, k);
      Product3NonNeg(Coefficient(n, k), Pow(p, k), Pow(1.0 - p, n - k));
    }
  }

  lemma {:induction false} PowPositive(x: real, n: nat)
    requires 0.0 < x
    ensures Pow(x, n) > 0.0
  {
    if n > 0 {
      PowPositive(x, n - 1);
    }
  }

  /** A hit chance strictly between zero and one gives every hit count from
      zero to the number of dice a positive probability. */
  lemma BinPDFPositive(p: real, n: nat, k: nat)
    requires 0.0 < p < 1.0
    requires n == 0 || k <= n
    ensures BinPDF(p, n, k) > 0.0
  {
    PowPositive(1.0 - p, n);
    if 0 < k <= n {
      PowPositive(p, k);
      PowPositive(1.0 - p, n - k);
      var f := (Factorial(k) * Factorial(n - k)) as real;
      assert f >= 1.0;
      assert Coefficient(n, k) > 0.0;
      Product3Positive(Coefficient(n, k), Pow(p, k), Pow(1.0 - p, n - k));
    }
  }

  lemma Product3Positive(a: real, b: real, c: real)
    requires a > 0.0 && b > 0.0 && c > 0.0
    ensures a * b * c > 0.0
  {
    assert a * b > 0.0;
  }

  lemma Product3NonNeg(a: real, b: real, c: real)
    requires a >= 0.0 && b >= 0.0 && c >= 0.0
    ensures a * b * c >= 0.0
  {
    assert a * b >= 0.0;
  }

  /** Term `k` of the expansion of `(x + y)^n`; zero past `n`. */
  ghost function Term(x: real, y: real, n: nat, k: nat): real {
    if k <= n then (Choose(n, k) as real) * Pow(x, k) * Pow(y, n - k) else 0.0
  }

  lemma TermStep(x: real, y: real, n: nat, k: nat)
    ensures Term(x, y, n + 1, k + 1) == x * Term(x, y, n, k) + y * Term(x, y, n, k + 1)
  {
    var t, t1, t2 := Term(x, y, n + 1, k + 1), Term(x, y, n, k), Term(x, y, n, k + 1);
    if k < n {
      var c1, c2 := Choose(n, k) as real, Choose(n, k + 1) as real;
      var a, b := Pow(x, k), Pow(y, n - (k + 1));
      assert t == (c1 + c2) * (x * a) * (y * b);
      assert t1 == c1 * a * (y * b);
      assert t2 == c2 * (x * a) * b;
      Distribute(c1, c2, x, y, a, b, t1, t2);
    } else if k == n {
      ChooseAbove(n, n + 1);
      var c, a := Choose(n, n) as real, Pow(x, n);
      assert t == c * (x * a) * 1.0;
      assert t1 == c * a * 1.0;
      assert t2 == 0.0;
      Shift(c, x, y, a, t1);
    } else {
      assert t == 0.0 && t1 == 0.0 && t2 == 0.0;
    }
  }

  lemma Shift(c: real, x: real, y: real, a: real, t1: real)
    requires t1 == c * a * 1.0
    ensures c * (x * a) * 1.0 == x * t1 + y * 0.0
  {
  }

  lemma Distribute(c1: real, c2: real, x: real, y: real, a: real, b: real, t1: real, t2: real)
    requires t1 == c1 * a * (y * b) && t2 == c2 * (x * a) * b
    ensures (c1 + c2) * (x * a) * (y * b) == x * t1 + y * t2
  {
  }

  lemma TermFirst(x: real, y: real, n: nat)
    ensures Term(x, y, n + 1, 0) == y * Term(x, y, n, 0)
  {
    assert Term(x, y, n + 1, 0) == Pow(y, n + 1);
    assert Term(x, y, n, 0) == Pow(y, n);
  }

  /** `f(n, 0) + ... + f(n, m - 1)`: the first `m` entries of row `n`. */
  ghost function RowSum(f: (nat, nat) -> real, n: nat, m: nat): real {
    if m == 0 then 0.0 else RowSum(f, n, m - 1) + f(n, m - 1)
  }

  /** Entry `k + 1` of row `n + 1` is `x` times entry `k` plus `y` times entry `k + 1` of row `n`. */
  ghost predicate PascalAt(f: (nat, nat) -> real, x: real, y: real, n: nat, k: nat) {
    f(n + 1, k + 1) == x * f(n, k) + y * f(n, k + 1)
  }

  lemma {:induction false} RowSumStep(f: (nat, nat) -> real, x: real, y: real, n: nat, m: nat)
    requires f(n + 1, 0) == y * f(n, 0)
    requires forall k: nat :: PascalAt(f, x, y, n, k)
    ensures RowSum(f, n + 1, m + 1) == x * RowSum(f, n, m) + y * RowSum(f, n, m + 1)
  {
    if m > 0 {
      RowSumStep(f, x, y, n, m - 1);
      assert PascalAt(f, x, y, n, m - 1);
    }
  }

  /** Row `j + 1` of `f` arises from row `j` by Pascal's rule with weights `x` and `y`. */
  ghost predicate PascalRow(f: (nat, nat) -> real, x: real, y: real, j: nat) {
    f(j + 1, 0) == y * f(j, 0) && forall k: nat :: PascalAt(f, x, y, j, k)
  }

  /** Row `j` of `f` has nothing past its diagonal. */
  ghost predicate VanishesAbove(f: (nat, nat) -> real, j: nat) {
    f(j, j + 1) == 0.0
  }

  /** Any triangle that starts with a one and grows by Pascal's rule has row sums `(x + y)^n`. */
  lemma {:induction false} RowSumPower(f: (nat, nat) -> real, x: real, y: real, n: nat)
    requires f(0, 0) == 1.0
    requires forall j: nat :: j < n ==> PascalRow(f, x, y, j)
    requires forall j: nat :: j < n ==> VanishesAbove(f, j)
    ensures RowSum(f, n, n + 1) == Pow(x + y, n)
  {
    if n > 0 {
      var m := n - 1;
      RowSumPower(f, x, y, m);
      assert PascalRow(f, x, y, m);
      RowSumStep(f, x, y, m, n);
      assert VanishesAbove(f, m);
      assert RowSum(f, m, n + 1) == RowSum(f, m, n) + f(m, n);
      Factor(x, y, Pow(x + y, m), RowSum(f, m, n), RowSum(f, m, n + 1), RowSum(f, n, n + 1));
    }
  }

  /** The rows of terms of `(x + y)^n`. */
  ghost function Terms(x: real, y: real): (nat, nat) -> real {
    (n: nat, k: nat) => Term(x, y, n, k)
  }

  lemma TermsPascal(x: real, y: real, j: nat)
    ensures PascalRow(Terms(x, y), x, y, j)
  {
    TermFirst(x, y, j);
    forall k: nat ensures PascalAt(Terms(x, y), x, y, j, k) {
      TermsStep(x, y, j, k);
    }
  }

  lemma TermsStep(x: real, y: real, n: nat, k: nat)
    ensures PascalAt(Terms(x, y), x, y, n, k)
  {
    TermStep(x, y, n, k);
  }

  /** The binomial theorem: all `n + 1` terms add up to `(x + y)^n`. */
  lemma BinomialTheorem(x: real, y: real, n: nat)
    ensures RowSum(Terms(x, y), n, n + 1) == Pow(x + y, n)
  {
    forall j: nat | j < n ensures PascalRow(Terms(x, y), x, y, j) && VanishesAbove(Terms(x, y), j) {
      TermsPascal(x, y, j);
    }
    RowSumPower(Terms(x, y), x, y, n);
  }

  lemma Factor(x: real, y: real, p: real, a: real, b: real, l: real)
    requires a == p && b == p && l == x * a + y * b
    ensures l == (x + y) * p
  {
  }

  /** Probability of at most `m - 1` hits from `n` dice. */
  function Mass(p: real, n: nat, m: nat): real
    requires m <= n + 1
  {
    if m == 0 then 0.0 else Mass(p, n, m - 1) + BinPDF(p, n, m - 1)
  }

  lemma {:induction false} MassIsExpansion(p: real, n: nat, m: nat)
    requires m <= n + 1
    ensures Mass(p, n, m) == RowSum(Terms(p, 1.0 - p), n, m)
  {
    if m > 0 {
      MassIsExpansion(p, n, m - 1);
      BinPDFIsTerm(p, n, m - 1);
    }
  }

  lemma BinPDFIsTerm(p: real, n: nat, k: nat)
    requires k <= n
    ensures BinPDF(p, n, k) == Terms(p, 1.0 - p)(n, k)
  {
    BinPDFCases(p, n, k);
  }

  /** `binPDF(p, n, .)` is a distribution: over `k = 0..n` it sums to one. */
  lemma BinPDFSumsToOne(p: real, n: nat)
    ensures Mass(p, n, n + 1) == 1.0
  {
    MassIsExpansion(p, n, n + 1);
    BinomialTheorem(p, 1.0 - p, n);
    PowOne(n);
  }

  lemma {:induction false} MassBounds(p: real, n: nat, m: nat, k: nat)
    requires 0.0 <= p <= 1.0
    requires k < m <= n + 1
    ensures BinPDF(p, n, k) <= Mass(p, n, m)
  {
    if k < m - 1 {
      MassBounds(p, n, m - 1, k);
      BinPDFNonNeg(p, n, m - 1);
    } else {
      MassNonNeg(p, n, m - 1);
    }
  }

  lemma {:induction false} MassNonNeg(p: real, n: nat, m: nat)
    requires 0.0 <= p <= 1.0
    requires m <= n + 1
    ensures Mass(p, n, m) >= 0.0
  {
    if m > 0 {
      MassNonNeg(p, n, m - 1);
      BinPDFNonNeg(p, n, m - 1);
    }
  }

  /** For a probability `p`, `binPDF` is a probability. */
  lemma BinPDFAtMostOne(p: real, n: nat, k: nat)
    requires 0.0 <= p <= 1.0
    requires k <= n
    ensures BinPDF(p, n, k) <= 1.0
  {
    MassBounds(p, n, n + 1, k);
    BinPDFSumsToOne(p, n);
  }

  /** Values the source's tests expect: 0.375, 0.444 and 0.116. */
  lemma BinPDFExamples()
    ensures BinPDF(0.5, 3, 2) == 3.0 / 8.0
    ensures BinPDF(4.0 / 6.0, 3, 2) == 4.0 / 9.0
    ensures BinPDF(1.0 / 6.0, 4, 2) == 25.0 / 216.0
  {
  }

  /** Five hits from ten fair dice: 0.24609375, as the source's test expects. */
  lemma BinPDFTenDice()
    ensures BinPDF(0.5, 10, 5) == 63.0 / 256.0
  {
  }
}
