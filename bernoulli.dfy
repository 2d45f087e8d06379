/**
 * Expected successes when throwing dice that each succeed with probability
 * p = 1/sides, throwing again the dice that succeeded, and starting over with
 * all dice when every die has succeeded.  `count[n]` is the expected number of
 * successes with n dice left and `all_prob[n]` the probability that all n
 * eventually succeed; X is the expectation with start-overs.
 */
module Bernoulli {
  import opened Wrappers
  import opened Arith
  import opened Fractions
  import opened Weights

  /** `Fraction(1, sides)`: the chance that one die succeeds. */
  function SuccessProbability(sides: nat): real
    requires sides >= 1
  {
    1.0 / sides as real
  }

  /** p is a probability, and below one as soon as a die has two sides. */
  lemma {:induction false} SuccessProbabilityRange(sides: nat)
    requires sides >= 1
    ensures 0.0 < SuccessProbability(sides) <= 1.0
    ensures sides >= 2 ==> SuccessProbability(sides) < 1.0
  {
  }

  /** p is the inverse of sides. */
  lemma {:induction false} SuccessProbabilityInverse(sides: nat)
    requires sides >= 1
    ensures SuccessProbability(sides) * sides as real == 1.0
  {
  }

  /**
   * `t_all_prob` after the outcomes 0 .. j - 1, reading `all_prob` from prev:
   * no success ends the game, o successes leave n - o dice.
   */
  function StepAll(prev: seq<real>, n: nat, j: nat, p: real): real
    requires j <= n + 1 && n <= |prev|
  {
    if j == 0 then 0.0 else StepAll(prev, n, j - 1, p) + AllShare(prev, n, j - 1, p)
  }

  /** What outcome o adds to `t_all_prob`. */
  function AllShare(prev: seq<real>, n: nat, o: nat, p: real): real
    requires o <= n <= |prev|
  {
    if o == 0 then 0.0 * Weight(n, o, p) else prev[n - o] * Weight(n, o, p)
  }

  /** `t_count` after the outcomes 0 .. j - 1, reading `count` from prev. */
  function StepCount(prev: seq<real>, n: nat, j: nat, p: real): real
    requires j <= n + 1 && n <= |prev|
  {
    if j == 0 then 0.0 else StepCount(prev, n, j - 1, p) + CountShare(prev, n, j - 1, p)
  }

  /** What outcome o adds to `t_count`: its o successes plus those expected from the n - o dice left. */
  function CountShare(prev: seq<real>, n: nat, o: nat, p: real): real
    requires o <= n <= |prev|
  {
    if o == 0 then 0.0 * Weight(n, o, p) else (o as real + prev[n - o]) * Weight(n, o, p)
  }

  /** The list `all_prob` once n dice have been handled. */
  function AllProbs(n: nat, p: real): (r: seq<real>)
    ensures |r| == n + 1
  {
    if n == 0 then [1.0]
    else
      var prev := AllProbs(n - 1, p);
      prev + [StepAll(prev, n, n + 1, p)]
  }

  /** The list `count` once n dice have been handled. */
  function Counts(n: nat, p: real): (r: seq<real>)
    ensures |r| == n + 1
  {
    if n == 0 then [0.0]
    else
      var prev := Counts(n - 1, p);
      prev + [StepCount(prev, n, n + 1, p)]
  }

  /**
   * X = (dice_count * a + (1 - a) * c) / (1 - a); `None` is the
   * `ZeroDivisionError` when every throw is sure to start over.
   */
  function StartOver(diceCount: nat, a: real, c: real): Option<real>
  {
    if 1.0 - a == 0.0 then None
    else Some((diceCount as real * a + (1.0 - a) * c) / (1.0 - a))
  }

  /**
   * `main` without its printing: p, the chance of no success on the first
   * throw, the lists `count` and `all_prob`, and X.  Each row asserts that the
   * weights of its outcomes sum to one; that assertion always holds.
   */
  method ExpectedSuccesses(diceCount: nat, sides: nat) returns (noSuccess: real, count: seq<real>, allProb: seq<real>, x: Option<real>)
    requires sides >= 1
    ensures noSuccess == PowR(1.0 - SuccessProbability(sides), diceCount)
    ensures count == Counts(diceCount, SuccessProbability(sides))
    ensures allProb == AllProbs(diceCount, SuccessProbability(sides))
    ensures x == StartOver(diceCount, allProb[diceCount], count[diceCount])
  {
    var p := 1.0 / sides as real;
    noSuccess := PowR(1.0 - p, diceCount);
    count := [0.0];
    allProb := [1.0];
    for n := 1 to diceCount + 1
      invariant count == Counts(n - 1, p) && allProb == AllProbs(n - 1, p)
    {
      var tCount, tAllProb, probSum := Outcomes(n, p, count, allProb);
      WeightsSumToOne(n, sides);
      assert probSum == 1.0;
      count := count + [tCount];
      allProb := allProb + [tAllProb];
    }
    x := StartOver(diceCount, allProb[diceCount], count[diceCount]);
  }

  /** The loop over the outcomes 0 .. n of one row: the accumulators after it. */
  method Outcomes(n: nat, p: real, count: seq<real>, allProb: seq<real>) returns (tCount: real, tAllProb: real, probSum: real)
    requires n <= |count| && n <= |allProb|
    ensures tCount == StepCount(count, n, n + 1, p)
    ensures tAllProb == StepAll(allProb, n, n + 1, p)
    ensures probSum == ProbSum(n, n + 1, p)
  {
    tCount, tAllProb, probSum := 0.0, 0.0, 0.0;
    for outcome := 0 to n + 1
      invariant tAllProb == StepAll(allProb, n, outcome, p)
      invariant tCount == StepCount(count, n, outcome, p)
      invariant probSum == ProbSum(n, outcome, p)
    {
      var multiplicity := Multiplicity(n, outcome);
      var successes, failures := PowR(p, outcome), PowR(1.0 - p, n - outcome);
      var outcomeProb := multiplicity as real * successes * failures;
      BinomWeight(n, outcome, p, multiplicity, successes, failures, outcomeProb);
      StepNext(allProb, count, n, outcome, p, outcomeProb);
      if outcome == 0 {
        tAllProb := tAllProb + 0.0 * outcomeProb;
        tCount := tCount + 0.0 * outcomeProb;
      } else {
        tAllProb := tAllProb + allProb[n - outcome] * outcomeProb;
        tCount := tCount + (outcome as real + count[n - outcome]) * outcomeProb;
      }
      probSum := probSum + outcomeProb;
    }
  }

  /** `outcome_multiplicity`: the factorial quotient n! // (o! * (n - o)!), which is C(n, o). */
  method Multiplicity(n: nat, o: nat) returns (m: int)
    requires o <= n
    ensures m == Binom(n, o)
  {
    m := Factorial(n) / (Factorial(o) * Factorial(n - o));
    BinomQuotient(n, o);
  }

  /** Each outcome's probability is its weight. */
  lemma {:induction false} BinomWeight(n: nat, o: nat, p: real, multiplicity: int, successes: real, failures: real, outcomeProb: real)
    requires o <= n && multiplicity == Binom(n, o)
    requires successes == PowR(p, o) && failures == PowR(1.0 - p, n - o)
    requires outcomeProb == multiplicity as real * successes * failures
    ensures outcomeProb == Weight(n, o, p)
  {
    Regroup(multiplicity as real, Binom(n, o) as real, successes, failures, outcomeProb);
  }

  lemma {:induction false} Regroup(m: real, b: real, x: real, y: real, r: real)
    requires m == b && r == m * x * y
    ensures r == b * (x * y)
  {
  }

  /** One more outcome, of probability w, adds its share to each accumulator. */
  lemma {:induction false} StepNext(allProb: seq<real>, count: seq<real>, n: nat, o: nat, p: real, w: real)
    requires o <= n && n <= |count| && n <= |allProb| && w == Weight(n, o, p)
    ensures o == 0 ==> StepAll(allProb, n, o + 1, p) == StepAll(allProb, n, o, p) + 0.0 * w
    ensures o != 0 ==> StepAll(allProb, n, o + 1, p) == StepAll(allProb, n, o, p) + allProb[n - o] * w
    ensures o == 0 ==> StepCount(count, n, o + 1, p) == StepCount(count, n, o, p) + 0.0 * w
    ensures o != 0 ==> StepCount(count, n, o + 1, p) == StepCount(count, n, o, p) + (o as real + count[n - o]) * w
    ensures ProbSum(n, o + 1, p) == ProbSum(n, o, p) + w
  {
  }

  // ---------------------------------------------------------------------
  // the weights of one row sum to one
  // ---------------------------------------------------------------------

  /** The assertion `prob_sum == 1` of every row holds: the binomial weights sum to one. */
  lemma {:induction false} WeightsSumToOne(n: nat, sides: nat)
    requires sides >= 1
    ensures ProbSum(n, n + 1, SuccessProbability(sides)) == 1.0
  {
    SuccessProbabilityInverse(sides);
    SumToOne(n, sides, SuccessProbability(sides));
  }

  // ---------------------------------------------------------------------
  // bounds on all_prob and count
  // ---------------------------------------------------------------------

  /** A factor a between 0 and bound scales a non-negative w to r between 0 and bound * w. */
  lemma {:induction false} Scale(a: real, w: real, bound: real, r: real)
    requires r == a * w && 0.0 <= a <= bound && w >= 0.0
    ensures 0.0 <= r <= bound * w
  {
    assert a * w <= bound * w;
  }

  lemma {:induction false} StepAllBounds(prev: seq<real>, n: nat, j: nat, p: real)
    requires 1 <= j <= n + 1 && n <= |prev| && 0.0 <= p <= 1.0
    requires forall k :: 0 <= k < n ==> 0.0 <= prev[k] <= 1.0
    ensures 0.0 <= StepAll(prev, n, j, p) <= ProbSum(n, j, p) - Weight(n, 0, p)
  {
    if j > 1 {
      StepAllBounds(prev, n, j - 1, p);
      AllShareBounds(prev, n, j - 1, p);
    }
  }

  lemma {:induction false} AllShareBounds(prev: seq<real>, n: nat, o: nat, p: real)
    requires 1 <= o <= n <= |prev| && 0.0 <= p <= 1.0 && 0.0 <= prev[n - o] <= 1.0
    ensures 0.0 <= AllShare(prev, n, o, p) <= Weight(n, o, p)
  {
    WeightNonNegative(n, o, p);
    Scale(prev[n - o], Weight(n, o, p), 1.0, AllShare(prev, n, o, p));
  }

  /** What outcome o adds to `t_count` lies between 0 and n times its weight. */
  lemma {:induction false} CountShareBounds(prev: seq<real>, n: nat, o: nat, p: real)
    requires o <= n <= |prev| && 0.0 <= p <= 1.0 && (o >= 1 ==> 0.0 <= prev[n - o] <= (n - o) as real)
    ensures 0.0 <= CountShare(prev, n, o, p) <= Times(Weight(n, o, p), n as real)
  {
    WeightNonNegative(n, o, p);
    if o == 0 {
      Scale(0.0, Weight(n, o, p), n as real, CountShare(prev, n, o, p));
    } else {
      Scale(o as real + prev[n - o], Weight(n, o, p), n as real, CountShare(prev, n, o, p));
    }
  }

  /** n times the weights of the outcomes 0 .. j - 1: the bound on `t_count`. */
  function ScaledProbSum(n: nat, j: nat, p: real): real
    requires j <= n + 1
  {
    if j == 0 then 0.0 else ScaledProbSum(n, j - 1, p) + Times(Weight(n, j - 1, p), n as real)
  }

  /** ScaledProbSum is n times `prob_sum`. */
  lemma {:induction false} ScaledProbSumIs(n: nat, j: nat, p: real)
    requires j <= n + 1
    ensures ScaledProbSum(n, j, p) == Times(ProbSum(n, j, p), n as real)
    decreases j
  {
    if j > 0 {
      ScaledProbSumIs(n, j - 1, p);
      TimesDistributes(ProbSum(n, j - 1, p), Weight(n, j - 1, p), n as real);
    }
  }

  /** `t_count` stays between 0 and n times the weight of the outcomes so far. */
  lemma {:induction false} StepCountBounds(prev: seq<real>, n: nat, j: nat, p: real)
    requires j <= n + 1 && n <= |prev| && 0.0 <= p <= 1.0
    requires forall i :: 0 <= i < n ==> 0.0 <= prev[i] <= i as real
    ensures 0.0 <= StepCount(prev, n, j, p) <= ScaledProbSum(n, j, p)
    decreases j
  {
    if j > 0 {
      StepCountBounds(prev, n, j - 1, p);
      StepCountNext(prev, n, j, p);
    }
  }

  /** One more outcome keeps the bound of StepCountBounds. */
  lemma {:induction false} StepCountNext(prev: seq<real>, n: nat, j: nat, p: real)
    requires 1 <= j <= n + 1 && n <= |prev| && 0.0 <= p <= 1.0
    requires forall i :: 0 <= i < n ==> 0.0 <= prev[i] <= i as real
    requires 0.0 <= StepCount(prev, n, j - 1, p) <= ScaledProbSum(n, j - 1, p)
    ensures 0.0 <= StepCount(prev, n, j, p) <= ScaledProbSum(n, j, p)
  {
    assert j - 1 >= 1 ==> 0.0 <= prev[n - (j - 1)] <= (n - (j - 1)) as real;
    CountShareBounds(prev, n, j - 1, p);
  }

  /**
   * Every entry of `all_prob` is a probability, and with k >= 1 dice it is at
   * most 1 - (1 - p) ** k: the chance of no success on the first throw.
   */
  lemma {:induction false} AllProbsBounds(n: nat, sides: nat)
    requires sides >= 1
    ensures forall k :: 0 <= k <= n ==> 0.0 <= AllProbs(n, SuccessProbability(sides))[k] <= 1.0
    ensures forall k :: 1 <= k <= n ==> AllProbs(n, SuccessProbability(sides))[k] <= 1.0 - PowR(1.0 - SuccessProbability(sides), k)
  {
    var p := SuccessProbability(sides);
    SuccessProbabilityRange(sides);
    if n > 0 {
      AllProbsBounds(n - 1, sides);
      var prev := AllProbs(n - 1, p);
      StepAllBounds(prev, n, n + 1, p);
      WeightsSumToOne(n, sides);
      WeightNone(n, p);
      PowRAtMostOne(1.0 - p, n);
      assert AllProbs(n, p)[..n] == prev;
    }
  }

  /** The expected number of successes with k dice lies between 0 and k. */
  lemma {:induction false} CountsBounds(n: nat, sides: nat)
    requires sides >= 1
    ensures forall k :: 0 <= k <= n ==> 0.0 <= Counts(n, SuccessProbability(sides))[k] <= k as real
  {
    var p := SuccessProbability(sides);
    SuccessProbabilityRange(sides);
    if n > 0 {
      CountsBounds(n - 1, sides);
      var prev := Counts(n - 1, p);
      StepCountBounds(prev, n, n + 1, p);
      WeightsSumToOne(n, sides);
      ScaledProbSumIs(n, n + 1, p);
      assert Counts(n, p)[..n] == prev;
    }
  }

  // ---------------------------------------------------------------------
  // the start-over expectation
  // ---------------------------------------------------------------------

  /** X solves X = a * (dice_count + X) + (1 - a) * c. */
  lemma {:induction false} StartOverFixedPoint(diceCount: nat, a: real, c: real)
    ensures StartOver(diceCount, a, c).Some? <==> a != 1.0
    ensures StartOver(diceCount, a, c).Some? ==>
              var x := StartOver(diceCount, a, c).value;
              x == a * (diceCount as real + x) + (1.0 - a) * c
  {
    if a != 1.0 {
      var d := diceCount as real;
      var x := (d * a + (1.0 - a) * c) / (1.0 - a);
      assert x * (1.0 - a) == d * a + (1.0 - a) * c;
    }
  }

  /**
   * X is defined whenever there is a die and it can fail; with no dice,
   * `all_prob[-1]` is 1 and the division raises.
   */
  lemma {:induction false} StartOverDefined(diceCount: nat, sides: nat)
    requires sides >= 1
    ensures var p := SuccessProbability(sides);
            var a := AllProbs(diceCount, p)[diceCount];
            var c := Counts(diceCount, p)[diceCount];
            (sides >= 2 && diceCount >= 1 ==> StartOver(diceCount, a, c).Some? && 0.0 <= a < 1.0) &&
            (diceCount == 0 ==> StartOver(diceCount, a, c).None?)
  {
    var p := SuccessProbability(sides);
    SuccessProbabilityRange(sides);
    AllProbsBounds(diceCount, sides);
    if sides >= 2 && diceCount >= 1 {
      PowRPositive(1.0 - p, diceCount);
    }
  }

  /** The six-dice constants: p = 1/6 and no success on the first throw with chance (5/6) ** 6. */
  lemma {:induction false} SixDice()
    ensures SuccessProbability(6) == 1.0 / 6.0
    ensures PowR(1.0 - SuccessProbability(6), 6) == 15625.0 / 46656.0
  {
    SuccessProbabilityInverse(6);
    var p := SuccessProbability(6);
    var a, s, z := PowR(1.0 - p, 6), PowR(6.0, 6), PowR(6.0 - 1.0, 6);
    ComplementPower(6.0, p, 6, a, s, z);
    assert s == 46656.0 && z == 15625.0;
  }
}
