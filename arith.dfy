/**
 * Exact integer and rational arithmetic shared by the solvers: powers,
 * factorials, binomial coefficients and the binomial theorem.
 */
module Arith {

  function Min(a: int, b: int): int
  {
    if a <= b then a else b
  }

  /** `b ** e` on integers. */
  function Pow(b: int, e: nat): int
  {
    if e == 0 then 1 else Pow(b, e - 1) * b
  }

  /** `b ** e` on exact rationals. */
  function PowR(b: real, e: nat): real
  {
    if e == 0 then 1.0 else PowR(b, e - 1) * b
  }

  lemma {:induction false} PowPositive(b: int, e: nat)
    requires b > 0
    ensures Pow(b, e) > 0
  {
    if e > 0 {
      PowPositive(b, e - 1);
    }
  }

  lemma {:induction false} PowRNonNegative(b: real, e: nat)
    requires b >= 0.0
    ensures PowR(b, e) >= 0.0
  {
    if e > 0 {
      PowRNonNegative(b, e - 1);
    }
  }

  lemma {:induction false} PowRPositive(b: real, e: nat)
    requires b > 0.0
    ensures PowR(b, e) > 0.0
  {
    if e > 0 {
      PowRPositive(b, e - 1);
    }
  }

  lemma {:induction false} PowROne(e: nat)
    ensures PowR(1.0, e) == 1.0
  {
    if e > 0 {
      PowROne(e - 1);
    }
  }

  /** A base in [0, 1] keeps every power in [0, 1]. */
  lemma {:induction false} PowRAtMostOne(b: real, e: nat)
    requires 0.0 <= b <= 1.0
    ensures 0.0 <= PowR(b, e) <= 1.0
  {
    if e > 0 {
      PowRAtMostOne(b, e - 1);
      MulBetweenZeroOne(PowR(b, e - 1), b);
    }
  }

  lemma {:induction false} MulBetweenZeroOne(p: real, q: real)
    requires 0.0 <= p <= 1.0 && 0.0 <= q <= 1.0
    ensures 0.0 <= p * q <= 1.0
  {
    assert 0.0 <= p * q;
    assert p * q <= p * 1.0;
  }

  /** Integer powers agree with rational powers of the same base. */
  lemma {:induction false} PowCast(b: int, e: nat)
    ensures Pow(b, e) as real == PowR(b as real, e)
  {
    if e > 0 {
      PowCast(b, e - 1);
    }
  }

  lemma {:induction false} PowZeroBase(e: nat)
    requires e >= 1
    ensures Pow(0, e) == 0
  {
  }

  /** `n!`, the left fold of `*` over `1 .. n`. */
  function Factorial(n: nat): (r: nat)
    ensures r >= 1
  {
    if n == 0 then 1 else n * Factorial(n - 1)
  }

  /** The binomial coefficient C(n, k), defined by Pascal's rule. */
  function Binom(n: nat, k: nat): nat
  {
    if k == 0 then 1
    else if n == 0 then 0
    else Binom(n - 1, k - 1) + Binom(n - 1, k)
  }

  lemma {:induction false} BinomAbove(n: nat, k: nat)
    requires k > n
    ensures Binom(n, k) == 0
  {
    if n > 0 {
      BinomAbove(n - 1, k - 1);
      BinomAbove(n - 1, k);
    }
  }

  lemma {:induction false} BinomDiagonal(n: nat)
    ensures Binom(n, n) == 1
  {
    if n > 0 {
      BinomDiagonal(n - 1);
      BinomAbove(n - 1, n);
    }
  }

  lemma {:induction false} BinomPositive(n: nat, k: nat)
    requires k <= n
    ensures Binom(n, k) >= 1
  {
    if k > 0 && k < n {
      BinomPositive(n - 1, k);
    } else if k == n {
      BinomDiagonal(n);
    }
  }

  /** Pascal's coefficients are the factorial quotient: C(n, k) * k! * (n - k)! == n!. */
  lemma {:induction false} BinomFactorial(n: nat, k: nat)
    requires k <= n
    ensures Binom(n, k) * Factorial(k) * Factorial(n - k) == Factorial(n)
  {
    if k == 0 {
    } else if k == n {
      BinomDiagonal(n);
    } else {
      BinomFactorial(n - 1, k - 1);
      BinomFactorial(n - 1, k);
      var b1, b2 := Binom(n - 1, k - 1), Binom(n - 1, k);
      var a, b, f := Factorial(k - 1), Factorial(n - 1 - k), Factorial(n - 1);
      assert Factorial(k) == k * a;
      assert Factorial(n - k) == (n - k) * b;
      assert b1 * a * ((n - k) * b) == f;
      assert b2 * (k * a) * b == f;
      PascalFactorialStep(b1, b2, a, b, k, n - k, f);
      assert Factorial(n) == n * f;
    }
  }

  /** The ring identity behind the inductive step of BinomFactorial. */
  lemma {:induction false} PascalFactorialStep(b1: int, b2: int, a: int, b: int, k: int, m: int, f: int)
    requires b1 * a * (m * b) == f
    requires b2 * (k * a) * b == f
    ensures (b1 + b2) * (k * a) * (m * b) == (k + m) * f
  {
    var x := a * b;
    assert b1 * a * (m * b) == m * (b1 * x);
    assert b2 * (k * a) * b == k * (b2 * x);
    assert (b1 + b2) * (k * a) * (m * b) == k * (m * (b1 * x)) + m * (k * (b2 * x));
  }

  /** The factorial quotient `n! // (k! * (n - k)!)` is exact and equals C(n, k). */
  lemma {:induction false} BinomQuotient(n: nat, k: nat)
    requires k <= n
    ensures Factorial(n) / (Factorial(k) * Factorial(n - k)) == Binom(n, k)
  {
    BinomFactorial(n, k);
    MulAssoc(Binom(n, k), Factorial(k), Factorial(n - k));
    ExactDivision(Factorial(n), Factorial(k) * Factorial(n - k), Binom(n, k));
  }

  lemma {:induction false} ExactDivision(x: int, d: int, q: int)
    requires d > 0 && q * d == x
    ensures x / d == q
  {
    var r := x / d;
    assert x == d * r + x % d;
    assert d * (q - r) == x % d;
    MulSign(d, q - r);
  }

  lemma {:induction false} MulAssoc(a: int, b: int, c: int)
    ensures a * b * c == a * (b * c)
  {
  }

  lemma {:induction false} MulSign(d: int, k: int)
    requires d > 0
    ensures k >= 1 ==> d * k >= d
    ensures k <= -1 ==> d * k <= -d
  {
    if k >= 1 {
      assert d * k == d + d * (k - 1);
    } else if k <= -1 {
      assert d * k == -d + d * (k + 1);
    }
  }

  /** The o-th term C(n, o) * y^(n - o) of the expansion of (1 + y)^n; zero beyond n. */
  function BinomTerm(n: nat, y: int, o: nat): int
  {
    if o <= n then Binom(n, o) * Pow(y, n - o) else 0
  }

  /** The sum of the terms with index below j. */
  function BinomPartial(n: nat, y: int, j: nat): int
  {
    if j == 0 then 0 else BinomPartial(n, y, j - 1) + BinomTerm(n, y, j - 1)
  }

  lemma {:induction false} TermSplit(n: nat, y: int, o: nat)
    requires n >= 1 && o >= 1
    ensures BinomTerm(n, y, o) == BinomTerm(n - 1, y, o - 1) + y * BinomTerm(n - 1, y, o)
  {
    if o <= n {
      var c2 := Binom(n - 1, o);
      if o < n {
        var q := Pow(y, n - 1 - o);
        assert Pow(y, n - o) == q * y;
        MulAssoc(c2, q, y);
      } else {
        BinomAbove(n - 1, o);
      }
    }
  }

  lemma {:induction false} PartialSplit(n: nat, y: int, j: nat)
    requires n >= 1 && j >= 1
    ensures BinomPartial(n, y, j) == BinomPartial(n - 1, y, j - 1) + y * BinomPartial(n - 1, y, j)
  {
    if j == 1 {
      assert BinomPartial(n, y, 1) == Pow(y, n);
      assert BinomPartial(n - 1, y, 1) == Pow(y, n - 1);
    } else {
      var i := j - 1;
      PartialSplit(n, y, i);
      TermSplit(n, y, i);
      PartialStep(y, BinomPartial(n - 1, y, i - 1), BinomTerm(n - 1, y, i - 1),
                  BinomPartial(n - 1, y, i), BinomTerm(n - 1, y, i));
    }
  }

  /** The linear bookkeeping of PartialSplit's inductive step, over plain values. */
  lemma {:induction false} PartialStep(y: int, p1: int, t1: int, p2: int, t2: int)
    ensures (p1 + y * p2) + (t1 + y * t2) == (p1 + t1) + y * (p2 + t2)
  {
  }

  /** The binomial theorem with one summand 1: the terms of index 0 .. n sum to (1 + y)^n. */
  lemma {:induction false} BinomialTheorem(n: nat, y: int)
    ensures BinomPartial(n, y, n + 1) == Pow(1 + y, n)
  {
    if n > 0 {
      PartialSplit(n, y, n + 1);
      BinomialTheorem(n - 1, y);
      assert BinomTerm(n - 1, y, n) == 0;
    }
  }

  /** `sum(xs)` on integers, folding from the left. */
  function Sum(xs: seq<int>): int
  {
    if xs == [] then 0 else Sum(xs[..|xs| - 1]) + xs[|xs| - 1]
  }

  lemma {:induction false} SumConcat(a: seq<int>, b: seq<int>)
    ensures Sum(a + b) == Sum(a) + Sum(b)
  {
    if b == [] {
      assert a + b == a;
    } else {
      assert (a + b)[..|a + b| - 1] == a + b[..|b| - 1];
      assert (a + b)[|a + b| - 1] == b[|b| - 1];
      SumConcat(a, b[..|b| - 1]);
    }
  }

  lemma {:induction false} SumNonNegative(xs: seq<nat>)
    ensures Sum(xs) >= 0
  {
    if xs != [] {
      SumNonNegative(xs[..|xs| - 1]);
    }
  }

  lemma {:induction false} SumSingle(x: int)
    ensures Sum([x]) == x
  {
    assert [x][..0] == [];
  }

  /** A sequence of length m with every element in [lo, hi] sums into [m * lo, m * hi]. */
  lemma {:induction false} SumBounds(xs: seq<int>, lo: int, hi: int)
    requires forall i :: 0 <= i < |xs| ==> lo <= xs[i] <= hi
    ensures |xs| * lo <= Sum(xs) <= |xs| * hi
  {
    if xs != [] {
      SumBounds(xs[..|xs| - 1], lo, hi);
    }
  }

  /** `sum(s[a:b])` splits off from `sum(s)`: the kept dice sum to the total minus the slice. */
  lemma {:induction false} SumSlice(xs: seq<int>, a: nat, b: nat)
    requires a <= b <= |xs|
    ensures Sum(xs) - Sum(xs[a..b]) == Sum(xs[..a]) + Sum(xs[b..])
  {
    assert xs == xs[..a] + xs[a..b] + xs[b..];
    SumConcat(xs[..a] + xs[a..b], xs[b..]);
    SumConcat(xs[..a], xs[a..b]);
  }
}
