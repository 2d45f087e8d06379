/**
 * The binomial distribution of the successes among n dice that each succeed
 * with chance p: the weight of each number of successes, their running sum,
 * and the proof that with p = 1/sides the weights sum to one.
 */
module Weights {
  import opened Arith
  import opened Fractions

  /** A product of reals under a name of its own, so that the proofs below can scale sums by it. */
  function Times(a: real, b: real): real
  {
    a * b
  }

  /**
   * The chance of exactly o successes among n dice: C(n, o) arrangements,
   * each of chance p ** o * (1 - p) ** (n - o).
   */
  function Weight(n: nat, o: nat, p: real): real
    requires o <= n
  {
    Binom(n, o) as real * (PowR(p, o) * PowR(1.0 - p, n - o))
  }

  /** `prob_sum` after the outcomes 0 .. j - 1. */
  function ProbSum(n: nat, j: nat, p: real): real
    requires j <= n + 1
  {
    if j == 0 then 0.0 else ProbSum(n, j - 1, p) + Weight(n, j - 1, p)
  }

  /**
   * With p = 1/sides, the weight of o successes times S = sides ** n is
   * C(n, o) * (sides - 1) ** (n - o).
   */
  lemma {:induction false} WeightFraction(n: nat, o: nat, sides: nat, p: real, q: real, S: real)
    requires o <= n && q == sides as real && p * q == 1.0 && S == PowR(q, n)
    ensures Times(Weight(n, o, p), S) == BinomTerm(n, sides - 1, o) as real
  {
    var b, z := Binom(n, o) as real, PowR(q - 1.0, n - o);
    WeightCleared(n, o, p, q, S, b, z);
    TermReal(n, o, sides - 1, q - 1.0, b, z, BinomTerm(n, sides - 1, o) as real);
  }

  /**
   * With p * q == 1, the weight of o successes times S = q ** n is
   * b * z = C(n, o) * (q - 1) ** (n - o).
   */
  lemma {:induction false} WeightCleared(n: nat, o: nat, p: real, q: real, S: real, b: real, z: real)
    requires o <= n && p * q == 1.0 && S == PowR(q, n)
    requires b == Binom(n, o) as real && z == PowR(q - 1.0, n - o)
    ensures Times(Weight(n, o, p), S) == b * z
  {
    var a, f := PowR(p, o), PowR(1.0 - p, n - o);
    var m := a * f;
    PowersCleared(n, o, q, p, a, f, m, S, z);
    var w := Weight(n, o, p);
    WeightIs(n, o, p, w, b, a, f, m);
    ScaleEq(w, b, m, S, z);
  }

  /** Weight(n, o, p) in terms of its three factors, each passed by name. */
  lemma {:induction false} WeightIs(n: nat, o: nat, p: real, w: real, b: real, a: real, f: real, m: real)
    requires o <= n && w == Weight(n, o, p)
    requires b == Binom(n, o) as real && a == PowR(p, o) && f == PowR(1.0 - p, n - o) && m == a * f
    ensures w == b * m
  {
  }

  /** w = b * m scaled by s, where m * s == z, is b * z. */
  lemma {:induction false} ScaleEq(w: real, b: real, m: real, s: real, z: real)
    requires w == b * m && m * s == z
    ensures Times(w, s) == b * z
  {
    assert (b * m) * s == b * (m * s);
  }

  /** With p = 1/sides, the first j weights times sides ** n sum to the first j binomial terms. */
  lemma {:induction false} ProbSumFraction(n: nat, j: nat, sides: nat, p: real, q: real, S: real)
    requires j <= n + 1 && q == sides as real && p * q == 1.0 && S == PowR(q, n)
    ensures Times(ProbSum(n, j, p), S) == BinomPartial(n, sides - 1, j) as real
  {
    if j > 0 {
      ProbSumFraction(n, j - 1, sides, p, q, S);
      WeightFraction(n, j - 1, sides, p, q, S);
      TimesDistributes(ProbSum(n, j - 1, p), Weight(n, j - 1, p), S);
    }
  }

  lemma {:induction false} TimesDistributes(a: real, b: real, s: real)
    ensures Times(a + b, s) == Times(a, s) + Times(b, s)
  {
  }

  /**
   * With p = 1/sides the weights of the n + 1 outcomes sum to one: cleared of
   * the denominator sides ** n this is the binomial theorem for
   * (1 + (sides - 1)) ** n.
   */
  lemma {:induction false} SumToOne(n: nat, sides: nat, p: real)
    requires sides >= 1 && p * sides as real == 1.0
    ensures ProbSum(n, n + 1, p) == 1.0
  {
    var q := sides as real;
    var S := PowR(q, n);
    ProbSumFraction(n, n + 1, sides, p, q, S);
    BinomialTheorem(n, sides - 1);
    assert 1 + (sides - 1) == sides;
    PowCast(sides, n);
    PowRPositive(q, n);
    Cancel(ProbSum(n, n + 1, p), S);
  }

  lemma {:induction false} Cancel(x: real, s: real)
    requires s > 0.0 && Times(x, s) == s
    ensures x == 1.0
  {
    assert (x - 1.0) * s == 0.0;
  }

  lemma {:induction false} WeightNonNegative(n: nat, o: nat, p: real)
    requires o <= n && 0.0 <= p <= 1.0
    ensures Weight(n, o, p) >= 0.0
  {
    PowRNonNegative(p, o);
    PowRNonNegative(1.0 - p, n - o);
    ProductNonNegative(Binom(n, o) as real, PowR(p, o), PowR(1.0 - p, n - o));
  }

  lemma {:induction false} ProductNonNegative(x: real, y: real, z: real)
    requires x >= 0.0 && y >= 0.0 && z >= 0.0
    ensures x * (y * z) >= 0.0
  {
    assert y * z >= 0.0;
  }

  /** No success at all: the weight of o = 0 is (1 - p) ** n. */
  lemma {:induction false} WeightNone(n: nat, p: real)
    ensures Weight(n, 0, p) == PowR(1.0 - p, n)
  {
    ExactDivision(Factorial(n), Factorial(0) * Factorial(n), 1);
  }
}
