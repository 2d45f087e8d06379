/**
 * Backward induction for the dice game of policyeval.py: throw n dice, put a
 * non-empty contiguous part of the sorted throw aside (adding its sum to the
 * running total) and throw the rest again, until no dice are left; the
 * utility of the final sum is won.  `values[n][s]` is the expected utility
 * with n dice left and running total s.  Dice faces are 0 .. sides - 1.
 */
module PolicyEval {
  import opened Wrappers
  import opened Arith
  import opened Rolls

  /** `values`: row n holds the expected utilities with n dice left. */
  type Table = seq<seq<real>>

  /**
   * A strategy maps a sorted throw and the running total to the dice to throw
   * again; `None` is an exception raised inside it.
   */
  type Strategy = (seq<int>, int) -> Option<seq<int>>

  /** A utility of the final sum, as an exact rational. */
  type Utility = int -> real

  /** `max_sum`: the largest running total possible with n dice still to throw. */
  function MaxSum(diceCount: nat, sides: nat, n: int): int
  {
    (diceCount - n) * (sides - 1)
  }

  /** `len(range(max_sum + 1))`: the length of row n. */
  function RowLength(diceCount: nat, sides: nat, n: int): (r: nat)
    ensures r == 0 <==> MaxSum(diceCount, sides, n) < 0
    ensures r > 0 ==> r == MaxSum(diceCount, sides, n) + 1
  {
    if MaxSum(diceCount, sides, n) < 0 then 0 else MaxSum(diceCount, sides, n) + 1
  }

  /** `values[count][index]`, with Python's negative indices and IndexError. */
  function Lookup(values: Table, count: int, index: int): (r: Option<real>)
    ensures 0 <= count < |values| && 0 <= index < |values[count]| ==> r == Some(values[count][index])
    ensures count < -|values| || |values| <= count ==> r.None?
  {
    match PyIndex(values, count)
    case None => None
    case Some(row) => PyIndex(row, index)
  }

  // ---------------------------------------------------------------------
  // compute_values_single_row
  // ---------------------------------------------------------------------

  /**
   * What one (throw, running total) pair reads from the table: the entry for
   * the dice the strategy throws again, at the total plus the sum kept.
   */
  function Contribution(strategy: Strategy, values: Table, outcome: seq<int>, s: int): Option<real>
  {
    match strategy(outcome, s)
    case None => None
    case Some(reroll) => Lookup(values, |reroll|, s + (Sum(outcome) - Sum(reroll)))
  }

  function OrZero(o: Option<real>): real
  {
    match o
    case None => 0.0
    case Some(v) => v
  }

  /** No lookup for any listed throw and any total below len raises. */
  predicate RowDefined(strategy: Strategy, values: Table, outs: seq<(seq<int>, int)>, len: nat)
  {
    forall i, s :: 0 <= i < |outs| && 0 <= s < len ==> Contribution(strategy, values, outs[i].0, s).Some?
  }

  /** sum of multiplicity * contribution over the first k listed throws, at total s. */
  function EntrySum(strategy: Strategy, values: Table, outs: seq<(seq<int>, int)>, k: nat, s: int): real
    requires k <= |outs|
  {
    if k == 0 then 0.0
    else EntrySum(strategy, values, outs, k - 1, s) + outs[k - 1].1 as real * OrZero(Contribution(strategy, values, outs[k - 1].0, s))
  }

  /**
   * The row `compute_values_single_row(n, dice_count, sides, strategy, values)`
   * returns: entry s is the multiplicity-weighted sum over all sorted throws of
   * n dice of what the strategy reads, divided by sides ** n.  `None` when an
   * assertion fails, when a lookup or the strategy raises, or when there are
   * no sides (the enumeration of throws raises).
   */
  function RowSpec(n: int, diceCount: nat, sides: nat, strategy: Strategy, values: Table): Option<seq<real>>
  {
    if |values| < n - 1 || n < 1 || sides == 0 then None
    else
      var outs := OutcomeList(sides, n);
      var len := RowLength(diceCount, sides, n);
      if RowDefined(strategy, values, outs, len) then
        PowPositive(sides, n);
        Some(seq(len, s requires 0 <= s < len => EntrySum(strategy, values, outs, |outs|, s) / (Pow(sides, n) as real)))
      else None
  }

  /** `compute_values_single_row`: enumerate the throws, accumulate, divide by sides ** n. */
  method ComputeValuesSingleRow(n: int, diceCount: nat, sides: nat, strategy: Strategy, values: Table)
    returns (r: Option<seq<real>>)
    ensures r == RowSpec(n, diceCount, sides, strategy, values)
  {
    if |values| < n - 1 || n < 1 {
      return None;
    }
    var len := RowLength(diceCount, sides, n);
    var outs := Outcomes(sides, n);
    if outs.None? {
      return None;
    }
    var sums := AccumulateRow(strategy, values, outs.value, len);
    if sums.None? {
      var i, s :| 0 <= i < |outs.value| && 0 <= s < len && Contribution(strategy, values, outs.value[i].0, s).None?;
      RowUndefined(n, diceCount, sides, strategy, values, i, s);
      return None;
    }
    var tmp := sums.value;
    PowPositive(sides, n);
    r := Some(seq(len, s requires 0 <= s < len => tmp[s] / (Pow(sides, n) as real)));
    RowComplete(n, diceCount, sides, strategy, values, tmp);
  }

  /**
   * The nested loops of `compute_values_single_row`: `tmp_value[s]` accumulates
   * multiplicity times what the strategy reads, over every listed throw, for
   * every running total s below len; `None` as soon as the strategy or a lookup
   * raises.
   */
  method AccumulateRow(strategy: Strategy, values: Table, list: seq<(seq<int>, int)>, len: nat)
    returns (r: Option<seq<real>>)
    ensures r.None? <==> !RowDefined(strategy, values, list, len)
    ensures r.Some? ==> |r.value| == len
    ensures r.Some? ==> forall s :: 0 <= s < len ==> r.value[s] == EntrySum(strategy, values, list, |list|, s)
  {
    var tmp: seq<real> := seq(len, _ => 0.0);
    for i := 0 to |list|
      invariant |tmp| == len
      invariant forall j, s :: 0 <= j < i && 0 <= s < len ==> Contribution(strategy, values, list[j].0, s).Some?
      invariant forall s :: 0 <= s < len ==> tmp[s] == EntrySum(strategy, values, list, i, s)
    {
      var outcome, multiplicity := list[i].0, list[i].1;
      var outcomeSum := Sum(outcome);
      for s := 0 to len
        invariant |tmp| == len
        invariant forall s' :: 0 <= s' < s ==> Contribution(strategy, values, outcome, s').Some?
        invariant forall s' :: 0 <= s' < s ==> tmp[s'] == EntrySum(strategy, values, list, i + 1, s')
        invariant forall s' :: s <= s' < len ==> tmp[s'] == EntrySum(strategy, values, list, i, s')
      {
        var reroll := strategy(outcome, s);
        if reroll.None? {
          assert Contribution(strategy, values, list[i].0, s).None?;
          return None;
        }
        var rerollSum := Sum(reroll.value);
        var keepSum := outcomeSum - rerollSum;
        var rerollValue := Lookup(values, |reroll.value|, s + keepSum);
        if rerollValue.None? {
          assert Contribution(strategy, values, list[i].0, s).None?;
          return None;
        }
        assert Contribution(strategy, values, outcome, s) == rerollValue;
        tmp := tmp[s := tmp[s] + multiplicity as real * rerollValue.value];
      }
    }
    return Some(tmp);
  }

  /** A strategy or lookup that raises for one listed throw and total makes the row raise. */
  lemma {:induction false} RowUndefined(n: int, diceCount: nat, sides: nat, strategy: Strategy, values: Table, i: nat, s: nat)
    requires |values| >= n - 1 && n >= 1 && sides >= 1
    requires i < |OutcomeList(sides, n)| && s < RowLength(diceCount, sides, n)
    requires Contribution(strategy, values, OutcomeList(sides, n)[i].0, s).None?
    ensures RowSpec(n, diceCount, sides, strategy, values).None?
  {
  }

  /** Accumulated sums for every total give the row, once each is divided by sides ** n. */
  lemma {:induction false} RowComplete(n: int, diceCount: nat, sides: nat, strategy: Strategy, values: Table, tmp: seq<real>)
    requires |values| >= n - 1 && n >= 1 && sides >= 1
    requires |tmp| == RowLength(diceCount, sides, n)
    requires forall i, s :: 0 <= i < |OutcomeList(sides, n)| && 0 <= s < |tmp| ==>
               Contribution(strategy, values, OutcomeList(sides, n)[i].0, s).Some?
    requires forall s :: 0 <= s < |tmp| ==>
               tmp[s] == EntrySum(strategy, values, OutcomeList(sides, n), |OutcomeList(sides, n)|, s)
    ensures Pow(sides, n) > 0
    ensures RowSpec(n, diceCount, sides, strategy, values) == Some(seq(|tmp|, s requires 0 <= s < |tmp| => tmp[s] / (Pow(sides, n) as real)))
  {
    PowPositive(sides, n);
    var outs := OutcomeList(sides, n);
    assert RowDefined(strategy, values, outs, |tmp|);
    var row := RowSpec(n, diceCount, sides, strategy, values).value;
    assert |row| == |tmp|;
    forall s | 0 <= s < |tmp|
      ensures row[s] == tmp[s] / (Pow(sides, n) as real)
    {
    }
    assert row == seq(|tmp|, s requires 0 <= s < |tmp| => tmp[s] / (Pow(sides, n) as real));
  }

  // ---------------------------------------------------------------------
  // Every entry of a row is an average of earlier entries
  // ---------------------------------------------------------------------

  /** The total multiplicity of the first k listed throws. */
  function Weight(outs: seq<(seq<int>, int)>, k: nat): real
    requires k <= |outs|
  {
    if k == 0 then 0.0 else Weight(outs, k - 1) + outs[k - 1].1 as real
  }

  /** All table entries lie in [lo, hi]. */
  predicate Bounded(values: Table, lo: real, hi: real)
  {
    forall m, j :: 0 <= m < |values| && 0 <= j < |values[m]| ==> lo <= values[m][j] <= hi
  }

  /** Whatever a lookup finds is an entry of the table. */
  lemma {:induction false} LookupBounded(values: Table, count: int, index: int, lo: real, hi: real)
    requires Bounded(values, lo, hi) && Lookup(values, count, index).Some?
    ensures lo <= Lookup(values, count, index).value <= hi
  {
    var m := if count < 0 then |values| + count else count;
    var row := values[m];
    var j := if index < 0 then |row| + index else index;
    assert Lookup(values, count, index).value == values[m][j];
  }

  /** What a strategy reads from a table within [lo, hi] lies within [lo, hi]. */
  lemma {:induction false} ContributionBounded(strategy: Strategy, values: Table, outcome: seq<int>, s: int, lo: real, hi: real)
    requires Bounded(values, lo, hi) && Contribution(strategy, values, outcome, s).Some?
    ensures lo <= Contribution(strategy, values, outcome, s).value <= hi
  {
    var reroll := strategy(outcome, s).value;
    LookupBounded(values, |reroll|, s + (Sum(outcome) - Sum(reroll)), lo, hi);
  }

  lemma {:induction false} EntrySumBounds(strategy: Strategy, values: Table, outs: seq<(seq<int>, int)>, k: nat, s: int,
                                          lo: real, hi: real)
    requires k <= |outs|
    requires forall i :: 0 <= i < k ==> outs[i].1 >= 0
    requires forall i :: 0 <= i < k ==> lo <= OrZero(Contribution(strategy, values, outs[i].0, s)) <= hi
    ensures lo * Weight(outs, k) <= EntrySum(strategy, values, outs, k, s) <= hi * Weight(outs, k)
  {
    if k == 0 {
      assert Weight(outs, k) == 0.0 && EntrySum(strategy, values, outs, k, s) == 0.0;
    } else {
      EntrySumBounds(strategy, values, outs, k - 1, s, lo, hi);
      EntrySumStep(strategy, values, outs, k, s, lo, hi);
    }
  }

  /** EntrySumBounds for k terms, from EntrySumBounds for k - 1. */
  lemma {:induction false} EntrySumStep(strategy: Strategy, values: Table, outs: seq<(seq<int>, int)>, k: nat, s: int,
                                        lo: real, hi: real)
    requires 0 < k <= |outs| && outs[k - 1].1 >= 0
    requires lo <= OrZero(Contribution(strategy, values, outs[k - 1].0, s)) <= hi
    requires lo * Weight(outs, k - 1) <= EntrySum(strategy, values, outs, k - 1, s) <= hi * Weight(outs, k - 1)
    ensures lo * Weight(outs, k) <= EntrySum(strategy, values, outs, k, s) <= hi * Weight(outs, k)
  {
    var w, v := outs[k - 1].1 as real, OrZero(Contribution(strategy, values, outs[k - 1].0, s));
    AddBounds(EntrySum(strategy, values, outs, k, s), Weight(outs, k),
              EntrySum(strategy, values, outs, k - 1, s), Weight(outs, k - 1), w, v, lo, hi);
  }

  /** One more weighted term in [lo, hi] keeps the running sum within the scaled bounds. */
  lemma {:induction false} AddBounds(total: real, weight: real, e: real, wt: real, w: real, v: real, lo: real, hi: real)
    requires w >= 0.0 && lo <= v <= hi
    requires lo * wt <= e <= hi * wt
    requires total == e + w * v && weight == wt + w
    ensures lo * weight <= total <= hi * weight
  {
    assert lo * w <= w * v <= hi * w;
  }

  lemma {:induction false} DivBounds(e: real, p: real, lo: real, hi: real)
    requires p > 0.0 && lo * p <= e <= hi * p
    ensures lo <= e / p <= hi
  {
    assert e / p * p == e;
  }

  /** The listed throws of n dice weigh sides ** n in total. */
  lemma {:induction false} OutcomeWeight(sides: nat, n: nat)
    ensures Weight(OutcomeList(sides, n), |OutcomeList(sides, n)|) == Pow(sides, n) as real
  {
    var cs := Combinations(0, sides, n);
    WeightPrefix(OutcomeList(sides, n), cs, |cs|);
    assert cs[..|cs|] == cs;
    CombinationsTotal(0, sides, n);
  }

  /** The first i multiplicities of a list of throws with their multiplicities weigh what those throws have as permutations. */
  lemma {:induction false} WeightPrefix(outs: seq<(seq<int>, int)>, cs: seq<seq<int>>, i: nat)
    requires |outs| == |cs| && i <= |outs|
    requires forall j :: 0 <= j < |outs| ==> outs[j].1 == Permutations(cs[j])
    ensures Weight(outs, i) == SumPermutations(cs[..i]) as real
    decreases i
  {
    if i > 0 {
      assert cs[..i][..i - 1] == cs[..i - 1];
      WeightPrefix(outs, cs, i - 1);
      assert outs[i - 1].1 == Permutations(cs[..i][i - 1]);
    }
  }

  /**
   * Each entry of a computed row is a weighted average of earlier table
   * entries, so when the table lies within [lo, hi] so does the new row.
   */
  lemma {:induction false} RowBounds(n: int, diceCount: nat, sides: nat, strategy: Strategy, values: Table, lo: real, hi: real)
    requires Bounded(values, lo, hi)
    requires RowSpec(n, diceCount, sides, strategy, values).Some?
    ensures forall j :: 0 <= j < |RowSpec(n, diceCount, sides, strategy, values).value| ==>
              lo <= RowSpec(n, diceCount, sides, strategy, values).value[j] <= hi
  {
    var row := RowSpec(n, diceCount, sides, strategy, values).value;
    forall j | 0 <= j < |row|
      ensures lo <= row[j] <= hi
    {
      RowEntryBounds(n, diceCount, sides, strategy, values, lo, hi, j);
    }
  }

  /** RowBounds for the entry at total j. */
  lemma {:induction false} RowEntryBounds(n: int, diceCount: nat, sides: nat, strategy: Strategy, values: Table,
                                          lo: real, hi: real, j: nat)
    requires Bounded(values, lo, hi)
    requires RowSpec(n, diceCount, sides, strategy, values).Some?
    requires j < |RowSpec(n, diceCount, sides, strategy, values).value|
    ensures lo <= RowSpec(n, diceCount, sides, strategy, values).value[j] <= hi
  {
    var outs := OutcomeList(sides, n);
    var len := RowLength(diceCount, sides, n);
    PowPositive(sides, n);
    var p := Pow(sides, n) as real;
    assert RowSpec(n, diceCount, sides, strategy, values).value[j] == EntrySum(strategy, values, outs, |outs|, j) / p;
    OutcomeMultiplicities(sides, n);
    OutcomeWeight(sides, n);
    AverageBounded(strategy, values, outs, len, j, p, lo, hi);
  }

  /**
   * Dividing the weighted sum at total j by the total multiplicity p gives a
   * value within [lo, hi] when every entry read lies within [lo, hi].
   */
  lemma {:induction false} AverageBounded(strategy: Strategy, values: Table, outs: seq<(seq<int>, int)>, len: nat, j: nat,
                                          p: real, lo: real, hi: real)
    requires Bounded(values, lo, hi) && RowDefined(strategy, values, outs, len) && j < len
    requires forall i :: 0 <= i < |outs| ==> outs[i].1 >= 0
    requires Weight(outs, |outs|) == p && p > 0.0
    ensures lo <= EntrySum(strategy, values, outs, |outs|, j) / p <= hi
  {
    var e := EntrySum(strategy, values, outs, |outs|, j);
    EntryBounded(strategy, values, outs, len, j, lo, hi, p, e);
    DivBounds(e, p, lo, hi);
  }

  /** The weighted sum at total j lies between lo and hi times the total multiplicity. */
  lemma {:induction false} EntryBounded(strategy: Strategy, values: Table, outs: seq<(seq<int>, int)>, len: nat, j: int,
                                        lo: real, hi: real, w: real, e: real)
    requires Bounded(values, lo, hi) && RowDefined(strategy, values, outs, len) && 0 <= j < len
    requires forall i :: 0 <= i < |outs| ==> outs[i].1 >= 0
    requires w == Weight(outs, |outs|) && e == EntrySum(strategy, values, outs, |outs|, j)
    ensures lo * w <= e <= hi * w
  {
    forall i | 0 <= i < |outs|
      ensures lo <= OrZero(Contribution(strategy, values, outs[i].0, j)) <= hi
    {
      ContributionBounded(strategy, values, outs[i].0, j, lo, hi);
    }
    EntrySumBounds(strategy, values, outs, |outs|, j, lo, hi);
  }

  /** Every listed throw has a non-negative multiplicity. */
  lemma {:induction false} OutcomeMultiplicities(sides: nat, n: nat)
    ensures forall i :: 0 <= i < |OutcomeList(sides, n)| ==> OutcomeList(sides, n)[i].1 >= 0
  {
    var outs := OutcomeList(sides, n);
    forall i | 0 <= i < |outs|
      ensures outs[i].1 >= 0
    {
      PermutationsExact(outs[i].0);
    }
  }

  // ---------------------------------------------------------------------
  // optimizing_strategy
  // ---------------------------------------------------------------------

  /**
   * `rerolls[n]`: the slices (start, stop) of n sorted dice that may be thrown
   * again: the first m dice for 0 <= m < n, then the last n - m for 1 <= m < n.
   */
  function Candidates(n: nat): (r: seq<(int, int)>)
    ensures |r| == if n == 0 then 0 else 2 * n - 1
    ensures forall k :: 0 <= k < |r| ==> 0 <= r[k].0 <= r[k].1 <= n && r[k].1 - r[k].0 < n
  {
    seq(n, m => (0, m)) + seq(if n == 0 then 0 else n - 1, m => (m + 1, n))
  }

  /** A candidate throws again a proper prefix (possibly empty) or a non-empty proper suffix, and nothing else. */
  lemma {:induction false} CandidatesSpec(n: nat, c: (int, int))
    ensures c in Candidates(n) <==> (c.0 == 0 && 0 <= c.1 < n) || (1 <= c.0 < n && c.1 == n)
  {
    var prefixes := seq(n, m => (0, m));
    var suffixes := seq(if n == 0 then 0 else n - 1, m => (m + 1, n));
    assert Candidates(n) == prefixes + suffixes;
    if c.0 == 0 && 0 <= c.1 < n {
      assert prefixes[c.1] == c;
    } else if 1 <= c.0 < n && c.1 == n {
      assert suffixes[c.0 - 1] == c;
    }
  }

  /**
   * `values[reroll_count][current_sum + keep_sum]` for the slice c of the
   * throw: the value of keeping the rest at running total s.
   */
  function CandidateValue(values: Table, outcome: seq<int>, s: int, c: (int, int)): Option<real>
    requires 0 <= c.0 <= c.1 <= |outcome|
  {
    Lookup(values, c.1 - c.0, s + (Sum(outcome) - Sum(outcome[c.0..c.1])))
  }

  /** The values of the first k candidates are all defined (no lookup among them raises). */
  predicate DefinedUpTo(values: Table, outcome: seq<int>, s: int, k: nat)
    requires k <= |Candidates(|outcome|)|
  {
    k == 0 || (DefinedUpTo(values, outcome, s, k - 1) && CandidateValue(values, outcome, s, Candidates(|outcome|)[k - 1]).Some?)
  }

  /** The values of the first k candidates, in the order the loop visits them. */
  function ValuesUpTo(values: Table, outcome: seq<int>, s: int, k: nat): (r: seq<real>)
    requires k <= |Candidates(|outcome|)|
    ensures |r| == k
  {
    if k == 0 then []
    else ValuesUpTo(values, outcome, s, k - 1) + [OrZero(CandidateValue(values, outcome, s, Candidates(|outcome|)[k - 1]))]
  }

  /** DefinedUpTo holds exactly when none of the first k lookups raises. */
  lemma {:induction false} DefinedUpToSpec(values: Table, outcome: seq<int>, s: int, k: nat)
    requires k <= |Candidates(|outcome|)|
    ensures DefinedUpTo(values, outcome, s, k) <==>
            forall j :: 0 <= j < k ==> CandidateValue(values, outcome, s, Candidates(|outcome|)[j]).Some?
  {
    if k > 0 {
      DefinedUpToSpec(values, outcome, s, k - 1);
    }
  }

  /** Entry j of ValuesUpTo is candidate j's value. */
  lemma {:induction false} ValuesUpToSpec(values: Table, outcome: seq<int>, s: int, k: nat)
    requires k <= |Candidates(|outcome|)| && DefinedUpTo(values, outcome, s, k)
    ensures forall j :: 0 <= j < k ==>
              CandidateValue(values, outcome, s, Candidates(|outcome|)[j]) == Some(ValuesUpTo(values, outcome, s, k)[j])
    decreases k
  {
    if k > 0 {
      ValuesUpToSpec(values, outcome, s, k - 1);
      var cands := Candidates(|outcome|);
      var prev := ValuesUpTo(values, outcome, s, k - 1);
      var vals := ValuesUpTo(values, outcome, s, k);
      assert vals == prev + [OrZero(CandidateValue(values, outcome, s, cands[k - 1]))];
      forall j | 0 <= j < k
        ensures CandidateValue(values, outcome, s, cands[j]) == Some(vals[j])
      {
        if j < k - 1 {
          assert vals[j] == prev[j];
        }
      }
    }
  }

  /**
   * The index the loop keeps among the first k values: the first maximum,
   * since a later value replaces the best only when strictly greater.
   */
  function BestIndex(vals: seq<real>, k: nat): (b: nat)
    requires 1 <= k <= |vals|
    ensures b < k
    ensures forall j :: 0 <= j < k ==> vals[j] <= vals[b]
    ensures forall j :: 0 <= j < b ==> vals[j] < vals[b]
  {
    if k == 1 then 0
    else
      var b := BestIndex(vals, k - 1);
      if vals[b] < vals[k - 1] then k - 1 else b
  }

  /**
   * What `reroll_strategy(outcome, current_sum)` returns: the slice of the
   * first best candidate.  `None` when `rerolls[len(outcome)]` is out of
   * range, when a lookup raises, and when there is no candidate (an empty
   * throw fails the assertion).
   */
  function RerollChoice(diceCount: nat, values: Table, outcome: seq<int>, s: int): Option<seq<int>>
  {
    var cands := Candidates(|outcome|);
    if |outcome| > diceCount || cands == [] || !DefinedUpTo(values, outcome, s, |cands|) then None
    else
      var c := cands[BestIndex(ValuesUpTo(values, outcome, s, |cands|), |cands|)];
      Some(outcome[c.0..c.1])
  }

  /** `optimizing_strategy(dice_count, values)`, reading the table it is given. */
  function OptimizingStrategy(diceCount: nat, values: Table): Strategy
  {
    (outcome: seq<int>, s: int) => RerollChoice(diceCount, values, outcome, s)
  }

  /** `reroll_strategy`: the loop over the candidate slices keeping the first best. */
  method RerollStrategy(diceCount: nat, values: Table, outcome: seq<int>, currentSum: int) returns (r: Option<seq<int>>)
    ensures r == RerollChoice(diceCount, values, outcome, currentSum)
  {
    if |outcome| > diceCount {
      return None;
    }
    var rerolls := Candidates(|outcome|);
    var outcomeSum := Sum(outcome);
    var best: Option<(int, int)> := None;
    var bestValue: real := 0.0;
    for k := 0 to |rerolls|
      invariant DefinedUpTo(values, outcome, currentSum, k)
      invariant k == 0 <==> best.None?
      invariant k > 0 ==> var b := BestIndex(ValuesUpTo(values, outcome, currentSum, k), k);
                          best == Some(rerolls[b]) && bestValue == ValuesUpTo(values, outcome, currentSum, k)[b]
    {
      var c := rerolls[k];
      var rerollSum := Sum(outcome[c.0..c.1]);
      var rerollCount := c.1 - c.0;
      var keepSum := outcomeSum - rerollSum;
      var rerollValue := Lookup(values, rerollCount, currentSum + keepSum);
      assert rerollValue == CandidateValue(values, outcome, currentSum, c);
      if rerollValue.None? {
        ChoiceUndefined(diceCount, values, outcome, currentSum, k);
        return None;
      }
      BestStep(values, outcome, currentSum, k, rerollValue.value);
      if best.None? || bestValue < rerollValue.value {
        best := Some(c);
        bestValue := rerollValue.value;
      }
    }
    if best.None? {
      return None;
    }
    return Some(outcome[best.value.0..best.value.1]);
  }

  /** One more candidate: the values grow by its value, and the best index moves to it only when it is strictly better. */
  lemma {:induction false} BestStep(values: Table, outcome: seq<int>, s: int, k: nat, v: real)
    requires k < |Candidates(|outcome|)| && DefinedUpTo(values, outcome, s, k)
    requires CandidateValue(values, outcome, s, Candidates(|outcome|)[k]) == Some(v)
    ensures DefinedUpTo(values, outcome, s, k + 1)
    ensures ValuesUpTo(values, outcome, s, k + 1) == ValuesUpTo(values, outcome, s, k) + [v]
    ensures k > 0 ==> var vals := ValuesUpTo(values, outcome, s, k);
                      BestIndex(vals + [v], k + 1) == if vals[BestIndex(vals, k)] < v then k else BestIndex(vals, k)
  {
    if k > 0 {
      BestIndexPrefix(ValuesUpTo(values, outcome, s, k), v);
    }
  }

  /** Extending the values keeps the best index among the earlier ones. */
  lemma {:induction false} BestIndexPrefix(vals: seq<real>, v: real)
    requires |vals| >= 1
    ensures BestIndex(vals + [v], |vals|) == BestIndex(vals, |vals|)
  {
    BestIndexAgree(vals + [v], vals, |vals|);
  }

  lemma {:induction false} BestIndexAgree(a: seq<real>, b: seq<real>, k: nat)
    requires 1 <= k <= |a| && k <= |b| && a[..k] == b[..k]
    ensures BestIndex(a, k) == BestIndex(b, k)
  {
    if k > 1 {
      assert a[..k - 1] == a[..k][..k - 1] && b[..k - 1] == b[..k][..k - 1];
      BestIndexAgree(a, b, k - 1);
      assert a[k - 1] == a[..k][k - 1];
      assert b[k - 1] == b[..k][k - 1];
      var i := BestIndex(a, k - 1);
      assert a[i] == a[..k][i] && b[i] == b[..k][i];
    }
  }

  /** A lookup that raises for candidate k makes every longer prefix undefined. */
  lemma {:induction false} UndefinedFrom(values: Table, outcome: seq<int>, s: int, k: nat, m: nat)
    requires k < m <= |Candidates(|outcome|)|
    requires CandidateValue(values, outcome, s, Candidates(|outcome|)[k]).None?
    ensures !DefinedUpTo(values, outcome, s, m)
  {
    if m > k + 1 {
      UndefinedFrom(values, outcome, s, k, m - 1);
    }
  }

  lemma {:induction false} ChoiceUndefined(diceCount: nat, values: Table, outcome: seq<int>, s: int, k: nat)
    requires k < |Candidates(|outcome|)|
    requires CandidateValue(values, outcome, s, Candidates(|outcome|)[k]).None?
    ensures RerollChoice(diceCount, values, outcome, s).None?
  {
    UndefinedFrom(values, outcome, s, k, |Candidates(|outcome|)|);
  }

  /**
   * The slice returned is one of the candidates: the dice thrown again are a
   * proper prefix or a non-empty proper suffix of the throw, so at least one
   * die is kept and only a completed row (fewer dice) is read.
   */
  lemma {:induction false} RerollChoiceShape(diceCount: nat, values: Table, outcome: seq<int>, s: int)
    requires RerollChoice(diceCount, values, outcome, s).Some?
    ensures 1 <= |outcome| <= diceCount
    ensures var r := RerollChoice(diceCount, values, outcome, s).value;
            |r| < |outcome| &&
            (exists c :: c in Candidates(|outcome|) && r == outcome[c.0..c.1]) &&
            (r == outcome[..|r|] || (|r| >= 1 && r == outcome[|outcome| - |r|..]))
  {
    var cands := Candidates(|outcome|);
    var c := cands[BestIndex(ValuesUpTo(values, outcome, s, |cands|), |cands|)];
    CandidatesSpec(|outcome|, c);
  }

  /**
   * The value of the returned slice is the largest candidate value, every
   * candidate before it is strictly worse (ties go to the first candidate),
   * and the strategy's own lookup reads exactly that value.
   */
  lemma {:induction false} RerollChoiceOptimal(diceCount: nat, values: Table, outcome: seq<int>, s: int)
    requires RerollChoice(diceCount, values, outcome, s).Some?
    ensures Contribution(OptimizingStrategy(diceCount, values), values, outcome, s).Some?
    ensures var best := Contribution(OptimizingStrategy(diceCount, values), values, outcome, s).value;
            var cands := Candidates(|outcome|);
            (forall k :: 0 <= k < |cands| ==>
               CandidateValue(values, outcome, s, cands[k]).Some? && CandidateValue(values, outcome, s, cands[k]).value <= best) &&
            (exists b :: 0 <= b < |cands| && CandidateValue(values, outcome, s, cands[b]) == Some(best) &&
               RerollChoice(diceCount, values, outcome, s).value == outcome[cands[b].0..cands[b].1] &&
               forall k :: 0 <= k < b ==> CandidateValue(values, outcome, s, cands[k]).value < best)
  {
    var cands := Candidates(|outcome|);
    var b, vals := ChoiceFacts(diceCount, values, outcome, s, cands);
    var c := cands[b];
    var reroll := outcome[c.0..c.1];
    assert OptimizingStrategy(diceCount, values)(outcome, s) == Some(reroll);
    ContributionOf(OptimizingStrategy(diceCount, values), values, outcome, s, c);
    CandidatesBest(values, outcome, s, cands, vals, b, reroll);
  }

  /** What the optimizing strategy keeps: the slice of candidate b, the first best of the candidates' values vals. */
  lemma {:induction false} ChoiceFacts(diceCount: nat, values: Table, outcome: seq<int>, s: int, cands: seq<(int, int)>)
    returns (b: nat, vals: seq<real>)
    requires cands == Candidates(|outcome|) && RerollChoice(diceCount, values, outcome, s).Some?
    ensures |vals| == |cands| && b < |cands|
    ensures RerollChoice(diceCount, values, outcome, s) == Some(outcome[cands[b].0..cands[b].1])
    ensures forall k :: 0 <= k < |cands| ==> CandidateValue(values, outcome, s, cands[k]) == Some(vals[k])
    ensures forall k :: 0 <= k < |cands| ==> vals[k] <= vals[b]
    ensures forall k :: 0 <= k < b ==> vals[k] < vals[b]
  {
    vals := ValuesUpTo(values, outcome, s, |cands|);
    b := BestIndex(vals, |cands|);
    DefinedUpToSpec(values, outcome, s, |cands|);
    ValuesUpToSpec(values, outcome, s, |cands|);
  }

  /**
   * Candidate b, the first best of their values vals and the slice chosen, is
   * worth vals[b], no candidate more, and every earlier one less.
   */
  lemma {:induction false} CandidatesBest(values: Table, outcome: seq<int>, s: int, cands: seq<(int, int)>, vals: seq<real>, b: nat,
                                          chosen: seq<int>)
    requires |vals| == |cands| && b < |cands|
    requires forall k :: 0 <= k < |cands| ==> 0 <= cands[k].0 <= cands[k].1 <= |outcome|
    requires forall k :: 0 <= k < |cands| ==> CandidateValue(values, outcome, s, cands[k]) == Some(vals[k])
    requires forall k :: 0 <= k < |cands| ==> vals[k] <= vals[b]
    requires forall k :: 0 <= k < b ==> vals[k] < vals[b]
    requires chosen == outcome[cands[b].0..cands[b].1]
    ensures forall k :: 0 <= k < |cands| ==>
              CandidateValue(values, outcome, s, cands[k]).Some? && CandidateValue(values, outcome, s, cands[k]).value <= vals[b]
    ensures exists b' :: 0 <= b' < |cands| && CandidateValue(values, outcome, s, cands[b']) == Some(vals[b]) &&
              chosen == outcome[cands[b'].0..cands[b'].1] &&
              forall k :: 0 <= k < b' ==> CandidateValue(values, outcome, s, cands[k]).value < vals[b]
  {
    assert CandidateValue(values, outcome, s, cands[b]) == Some(vals[b]);
  }

  /** A strategy that throws again the slice of candidate c contributes that candidate's value. */
  lemma {:induction false} ContributionOf(strategy: Strategy, values: Table, outcome: seq<int>, s: int, c: (int, int))
    requires 0 <= c.0 <= c.1 <= |outcome| && strategy(outcome, s) == Some(outcome[c.0..c.1])
    ensures Contribution(strategy, values, outcome, s) == CandidateValue(values, outcome, s, c)
  {
  }

  /** The table has at least `rows` rows, and row m has the length compute_values gives it. */
  predicate Shaped(diceCount: nat, sides: nat, values: Table, rows: nat)
  {
    |values| >= rows && forall m :: 0 <= m < rows ==> |values[m]| == RowLength(diceCount, sides, m)
  }

  /**
   * The index read for a candidate stays within its row: with faces at most
   * sides - 1 and s <= (dice_count - n) * (sides - 1), the total after keeping
   * the rest is at most (dice_count - len(reroll)) * (sides - 1).
   */
  lemma {:induction false} KeepIndexInRange(diceCount: nat, sides: nat, outcome: seq<int>, s: int, c: (int, int))
    requires sides >= 1 && |outcome| <= diceCount && InRange(outcome, 0, sides)
    requires 0 <= s <= MaxSum(diceCount, sides, |outcome|)
    requires 0 <= c.0 <= c.1 <= |outcome|
    ensures 0 <= s + (Sum(outcome) - Sum(outcome[c.0..c.1])) <= MaxSum(diceCount, sides, c.1 - c.0)
  {
    KeptSumBounds(outcome, sides - 1, c.0, c.1);
    KeepArithmetic(diceCount, |outcome|, c.1 - c.0, sides - 1, s, Sum(outcome) - Sum(outcome[c.0..c.1]));
  }

  /** The dice kept (outside the slice a .. b) sum to between 0 and their number times k. */
  lemma {:induction false} KeptSumBounds(outcome: seq<int>, k: int, a: nat, b: nat)
    requires a <= b <= |outcome| && forall i :: 0 <= i < |outcome| ==> 0 <= outcome[i] <= k
    ensures 0 <= Sum(outcome) - Sum(outcome[a..b]) <= (|outcome| - (b - a)) * k
  {
    var front, back := outcome[..a], outcome[b..];
    SumSlice(outcome, a, b);
    SumBounds(front, 0, k);
    SumBounds(back, 0, k);
    assert a * k + (|outcome| - b) * k == (|outcome| - (b - a)) * k;
  }

  lemma {:induction false} KeepArithmetic(d: int, n: int, m: int, k: int, s: int, x: int)
    requires 0 <= s <= (d - n) * k && 0 <= x <= (n - m) * k
    ensures 0 <= s + x <= (d - m) * k
  {
    assert (d - n) * k + (n - m) * k == (d - m) * k;
  }

  /**
   * For a non-empty throw of at most dice_count dice with faces in
   * 0 .. sides - 1, a running total within row n, and completed rows of the
   * lengths compute_values gives them, no lookup raises and the assertion
   * holds: the strategy always answers.
   */
  lemma {:induction false} RerollChoiceDefined(diceCount: nat, sides: nat, values: Table, outcome: seq<int>, s: int)
    requires sides >= 1 && 1 <= |outcome| <= diceCount && InRange(outcome, 0, sides)
    requires 0 <= s <= MaxSum(diceCount, sides, |outcome|)
    requires Shaped(diceCount, sides, values, |outcome|)
    ensures RerollChoice(diceCount, values, outcome, s).Some?
  {
    var cands := Candidates(|outcome|);
    forall k | 0 <= k < |cands|
      ensures CandidateValue(values, outcome, s, cands[k]).Some?
    {
      var c := cands[k];
      KeepIndexInRange(diceCount, sides, outcome, s, c);
    }
    DefinedUpToSpec(values, outcome, s, |cands|);
  }

  /**
   * The strategy reads only rows for fewer dice than the throw has: two tables
   * that agree on those rows give the same choice.  This is why a strategy over
   * the growing list, read while row n is computed, decides as the one over the
   * finished table.
   */
  lemma {:induction false} RerollChoiceReadsFinishedRows(diceCount: nat, v1: Table, v2: Table, outcome: seq<int>, s: int)
    requires |outcome| <= |v1| && |outcome| <= |v2| && v1[..|outcome|] == v2[..|outcome|]
    ensures RerollChoice(diceCount, v1, outcome, s) == RerollChoice(diceCount, v2, outcome, s)
  {
    var cands := Candidates(|outcome|);
    forall k | 0 <= k < |cands|
      ensures CandidateValue(v1, outcome, s, cands[k]) == CandidateValue(v2, outcome, s, cands[k])
    {
      var m := cands[k].1 - cands[k].0;
      assert v1[m] == v1[..|outcome|][m] == v2[..|outcome|][m] == v2[m];
    }
    UpToAgree(v1, v2, outcome, s, |cands|);
  }

  lemma {:induction false} UpToAgree(v1: Table, v2: Table, outcome: seq<int>, s: int, k: nat)
    requires k <= |Candidates(|outcome|)|
    requires forall j :: 0 <= j < |Candidates(|outcome|)| ==>
               CandidateValue(v1, outcome, s, Candidates(|outcome|)[j]) == CandidateValue(v2, outcome, s, Candidates(|outcome|)[j])
    ensures DefinedUpTo(v1, outcome, s, k) == DefinedUpTo(v2, outcome, s, k)
    ensures ValuesUpTo(v1, outcome, s, k) == ValuesUpTo(v2, outcome, s, k)
  {
    if k > 0 {
      UpToAgree(v1, v2, outcome, s, k - 1);
    }
  }

  // ---------------------------------------------------------------------
  // compute_values and solve_game
  // ---------------------------------------------------------------------

  /**
   * Where each row's strategy comes from: one fixed strategy (compute_values),
   * or the optimizing strategy over the rows computed so far (solve_game).
   */
  datatype Policy = Fixed(strategy: Strategy) | Optimizing

  function StrategyFor(policy: Policy, diceCount: nat, values: Table): Strategy
  {
    match policy
    case Fixed(strategy) => strategy
    case Optimizing => OptimizingStrategy(diceCount, values)
  }

  /** Row 0: `[utility(s) for s in range(dice_count * (sides - 1) + 1)]`. */
  function Row0(diceCount: nat, sides: nat, utility: Utility): seq<real>
  {
    seq(RowLength(diceCount, sides, 0), s => utility(s))
  }

  /** The table once rows 0 .. n are appended; `None` once a row raises. */
  function TableUpTo(diceCount: nat, sides: nat, policy: Policy, utility: Utility, n: nat): Option<Table>
  {
    if n == 0 then Some([Row0(diceCount, sides, utility)])
    else
      match TableUpTo(diceCount, sides, policy, utility, n - 1)
      case None => None
      case Some(t) =>
        match RowSpec(n, diceCount, sides, StrategyFor(policy, diceCount, t), t)
        case None => None
        case Some(row) => Some(t + [row])
  }

  /** `compute_values`: row 0 from the utility, then rows 1 .. dice_count appended in turn. */
  method ComputeValues(diceCount: nat, sides: nat, strategy: Strategy, utility: Utility) returns (r: Option<Table>)
    ensures r == TableUpTo(diceCount, sides, Fixed(strategy), utility, diceCount)
  {
    var values: Table := [Row0(diceCount, sides, utility)];
    for n := 1 to diceCount + 1
      invariant TableUpTo(diceCount, sides, Fixed(strategy), utility, n - 1) == Some(values)
    {
      var row := ComputeValuesSingleRow(n, diceCount, sides, strategy, values);
      if row.None? {
        TableFailsFrom(diceCount, sides, Fixed(strategy), utility, n, diceCount, values);
        return None;
      }
      values := values + [row.value];
    }
    return Some(values);
  }

  /**
   * `solve_game`: like compute_values, with the optimizing strategy reading
   * the rows appended so far; the strategy returned reads the finished table.
   */
  method SolveGame(diceCount: nat, sides: nat, utility: Utility) returns (r: Option<(Table, Strategy)>)
    ensures r.None? <==> TableUpTo(diceCount, sides, Optimizing, utility, diceCount).None?
    ensures r.Some? ==> r.value.0 == TableUpTo(diceCount, sides, Optimizing, utility, diceCount).value
    ensures r.Some? ==> r.value.1 == OptimizingStrategy(diceCount, r.value.0)
  {
    var values: Table := [Row0(diceCount, sides, utility)];
    for n := 1 to diceCount + 1
      invariant TableUpTo(diceCount, sides, Optimizing, utility, n - 1) == Some(values)
    {
      var row := ComputeValuesSingleRow(n, diceCount, sides, OptimizingStrategy(diceCount, values), values);
      if row.None? {
        TableFailsFrom(diceCount, sides, Optimizing, utility, n, diceCount, values);
        return None;
      }
      values := values + [row.value];
    }
    return Some((values, OptimizingStrategy(diceCount, values)));
  }

  /** Once a row raises, every later table raises too. */
  lemma {:induction false} TableFailsFrom(diceCount: nat, sides: nat, policy: Policy, utility: Utility, n: nat, m: nat, prev: Table)
    requires 1 <= n <= m
    requires TableUpTo(diceCount, sides, policy, utility, n - 1) == Some(prev)
    requires RowSpec(n, diceCount, sides, StrategyFor(policy, diceCount, prev), prev).None?
    ensures TableUpTo(diceCount, sides, policy, utility, m).None?
  {
    TableFails(diceCount, sides, policy, utility, n, prev);
    TableFailedFrom(diceCount, sides, policy, utility, n, m);
  }

  /** A table that raised at row n still raises at every later row m. */
  lemma {:induction false} TableFailedFrom(diceCount: nat, sides: nat, policy: Policy, utility: Utility, n: nat, m: nat)
    requires n <= m && TableUpTo(diceCount, sides, policy, utility, n).None?
    ensures TableUpTo(diceCount, sides, policy, utility, m).None?
    decreases m
  {
    if m > n {
      TableFailedFrom(diceCount, sides, policy, utility, n, m - 1);
      TableStaysFailed(diceCount, sides, policy, utility, m);
    }
  }

  /** A row that raises makes the table raise. */
  lemma {:induction false} TableFails(diceCount: nat, sides: nat, policy: Policy, utility: Utility, n: nat, prev: Table)
    requires 1 <= n
    requires TableUpTo(diceCount, sides, policy, utility, n - 1) == Some(prev)
    requires RowSpec(n, diceCount, sides, StrategyFor(policy, diceCount, prev), prev).None?
    ensures TableUpTo(diceCount, sides, policy, utility, n).None?
  {
  }

  /** A table that raised before row m still raises with row m. */
  lemma {:induction false} TableStaysFailed(diceCount: nat, sides: nat, policy: Policy, utility: Utility, m: nat)
    requires m >= 1 && TableUpTo(diceCount, sides, policy, utility, m - 1).None?
    ensures TableUpTo(diceCount, sides, policy, utility, m).None?
  {
  }

  /**
   * A computed table has rows 0 .. n; row 0 is the utility on
   * 0 .. dice_count * (sides - 1), and row m has (dice_count - m) * (sides - 1) + 1
   * entries.
   */
  lemma {:induction false} TableShape(diceCount: nat, sides: nat, policy: Policy, utility: Utility, n: nat)
    requires TableUpTo(diceCount, sides, policy, utility, n).Some?
    ensures var t := TableUpTo(diceCount, sides, policy, utility, n).value;
            |t| == n + 1 && Shaped(diceCount, sides, t, n + 1) &&
            forall s :: 0 <= s < |t[0]| ==> t[0][s] == utility(s)
  {
    if n > 0 {
      TableShape(diceCount, sides, policy, utility, n - 1);
      var t := TableUpTo(diceCount, sides, policy, utility, n - 1).value;
      var row := RowSpec(n, diceCount, sides, StrategyFor(policy, diceCount, t), t).value;
      assert TableUpTo(diceCount, sides, policy, utility, n).value == t + [row];
    }
  }

  /** Earlier tables are prefixes of later ones. */
  lemma {:induction false} TablePrefix(diceCount: nat, sides: nat, policy: Policy, utility: Utility, n: nat, m: nat)
    requires n <= m && TableUpTo(diceCount, sides, policy, utility, m).Some?
    ensures TableUpTo(diceCount, sides, policy, utility, n).Some?
    ensures |TableUpTo(diceCount, sides, policy, utility, m).value| == m + 1
    ensures TableUpTo(diceCount, sides, policy, utility, n).value == TableUpTo(diceCount, sides, policy, utility, m).value[..n + 1]
    decreases m
  {
    if n < m {
      TablePrefix(diceCount, sides, policy, utility, n, m - 1);
      TablePrefixStep(diceCount, sides, policy, utility, n, m);
    } else {
      TablePrefixSame(diceCount, sides, policy, utility, m);
    }
  }

  /** TablePrefix for n == m. */
  lemma {:induction false} TablePrefixSame(diceCount: nat, sides: nat, policy: Policy, utility: Utility, m: nat)
    requires TableUpTo(diceCount, sides, policy, utility, m).Some?
    ensures |TableUpTo(diceCount, sides, policy, utility, m).value| == m + 1
    ensures TableUpTo(diceCount, sides, policy, utility, m).value == TableUpTo(diceCount, sides, policy, utility, m).value[..m + 1]
  {
    TableShape(diceCount, sides, policy, utility, m);
  }

  /** TablePrefix for n < m, from TablePrefix for n and m - 1. */
  lemma {:induction false} TablePrefixStep(diceCount: nat, sides: nat, policy: Policy, utility: Utility, n: nat, m: nat)
    requires n < m && TableUpTo(diceCount, sides, policy, utility, m).Some?
    requires TableUpTo(diceCount, sides, policy, utility, m - 1).Some? ==>
             |TableUpTo(diceCount, sides, policy, utility, m - 1).value| == m &&
             TableUpTo(diceCount, sides, policy, utility, n).Some? &&
             TableUpTo(diceCount, sides, policy, utility, n).value == TableUpTo(diceCount, sides, policy, utility, m - 1).value[..n + 1]
    ensures TableUpTo(diceCount, sides, policy, utility, n).Some?
    ensures |TableUpTo(diceCount, sides, policy, utility, m).value| == m + 1
    ensures TableUpTo(diceCount, sides, policy, utility, n).value == TableUpTo(diceCount, sides, policy, utility, m).value[..n + 1]
  {
    TableExtends(diceCount, sides, policy, utility, m);
    PrefixOfPrefix(TableUpTo(diceCount, sides, policy, utility, m).value, TableUpTo(diceCount, sides, policy, utility, m - 1).value,
                   TableUpTo(diceCount, sides, policy, utility, n).value, n + 1, m);
  }

  /** A table with row m drops to the table before it once row m is removed. */
  lemma {:induction false} TableExtends(diceCount: nat, sides: nat, policy: Policy, utility: Utility, m: nat)
    requires m >= 1 && TableUpTo(diceCount, sides, policy, utility, m).Some?
    ensures TableUpTo(diceCount, sides, policy, utility, m - 1).Some?
    ensures |TableUpTo(diceCount, sides, policy, utility, m).value| == m + 1
    ensures TableUpTo(diceCount, sides, policy, utility, m).value[..m] == TableUpTo(diceCount, sides, policy, utility, m - 1).value
  {
    TableShape(diceCount, sides, policy, utility, m - 1);
    var t := TableUpTo(diceCount, sides, policy, utility, m - 1).value;
    var row := RowSpec(m, diceCount, sides, StrategyFor(policy, diceCount, t), t).value;
    assert TableUpTo(diceCount, sides, policy, utility, m).value == t + [row];
    assert (t + [row])[..m] == t;
  }

  /** A prefix of a prefix is a prefix. */
  lemma {:induction false} PrefixOfPrefix<T>(a: seq<T>, b: seq<T>, c: seq<T>, i: nat, j: nat)
    requires i <= j <= |a| && b == a[..j] && c == b[..i]
    ensures c == a[..i]
  {
  }

  /** With the optimizing strategy over completed rows, row n never raises. */
  lemma {:induction false} OptimizingRowDefined(n: nat, diceCount: nat, sides: nat, t: Table)
    requires sides >= 1 && 1 <= n <= diceCount && |t| == n && Shaped(diceCount, sides, t, n)
    ensures RowSpec(n, diceCount, sides, OptimizingStrategy(diceCount, t), t).Some?
  {
    var outs := OutcomeList(sides, n);
    var len := RowLength(diceCount, sides, n);
    forall i, s | 0 <= i < |outs| && 0 <= s < len
      ensures Contribution(OptimizingStrategy(diceCount, t), t, outs[i].0, s).Some?
    {
      var o := Combinations(0, sides, n)[i];
      assert outs[i].0 == o;
      CombinationsSound(0, sides, n, o);
      RerollChoiceDefined(diceCount, sides, t, o, s);
      RerollChoiceOptimal(diceCount, t, o, s);
    }
    assert RowDefined(OptimizingStrategy(diceCount, t), t, outs, len);
  }

  /** solve_game never raises when the dice have at least one side. */
  lemma {:induction false} SolveGameDefined(diceCount: nat, sides: nat, utility: Utility, n: nat)
    requires sides >= 1 && n <= diceCount
    ensures TableUpTo(diceCount, sides, Optimizing, utility, n).Some?
  {
    if n > 0 {
      SolveGameDefined(diceCount, sides, utility, n - 1);
      TableShape(diceCount, sides, Optimizing, utility, n - 1);
      OptimizingRowDefined(n, diceCount, sides, TableUpTo(diceCount, sides, Optimizing, utility, n - 1).value);
    }
  }

  /**
   * Whatever the strategy, every entry of the table lies within the range of
   * the utility on 0 .. dice_count * (sides - 1).
   */
  lemma {:induction false} TableBounds(diceCount: nat, sides: nat, policy: Policy, utility: Utility, n: nat, lo: real, hi: real)
    requires forall s :: 0 <= s < RowLength(diceCount, sides, 0) ==> lo <= utility(s) <= hi
    requires TableUpTo(diceCount, sides, policy, utility, n).Some?
    ensures Bounded(TableUpTo(diceCount, sides, policy, utility, n).value, lo, hi)
  {
    if n > 0 {
      TableBounds(diceCount, sides, policy, utility, n - 1, lo, hi);
      var t := TableUpTo(diceCount, sides, policy, utility, n - 1).value;
      var st := StrategyFor(policy, diceCount, t);
      RowBounds(n, diceCount, sides, st, t, lo, hi);
      var t' := t + [RowSpec(n, diceCount, sides, st, t).value];
      assert TableUpTo(diceCount, sides, policy, utility, n).value == t';
      forall m, j | 0 <= m < |t'| && 0 <= j < |t'[m]|
        ensures lo <= t'[m][j] <= hi
      {
        if m < |t| {
          assert t'[m] == t[m];
        }
      }
    }
  }

  /** Strategies that agree on every throw of n dice compute the same row n. */
  lemma {:induction false} RowSpecAgree(n: int, diceCount: nat, sides: nat, st1: Strategy, st2: Strategy, values: Table)
    requires forall o: seq<int>, s: int :: |o| == n ==> st1(o, s) == st2(o, s)
    ensures RowSpec(n, diceCount, sides, st1, values) == RowSpec(n, diceCount, sides, st2, values)
  {
    if |values| >= n - 1 && n >= 1 && sides != 0 {
      var outs := OutcomeList(sides, n);
      forall i, s | 0 <= i < |outs|
        ensures Contribution(st1, values, outs[i].0, s) == Contribution(st2, values, outs[i].0, s)
      {
        CombinationsSound(0, sides, n, Combinations(0, sides, n)[i]);
      }
      forall s
        ensures EntrySum(st1, values, outs, |outs|, s) == EntrySum(st2, values, outs, |outs|, s)
      {
        EntrySumAgree(st1, st2, values, outs, |outs|, s);
      }
      var len := RowLength(diceCount, sides, n);
      assert RowDefined(st1, values, outs, len) == RowDefined(st2, values, outs, len);
      if RowDefined(st1, values, outs, len) {
        var r1 := RowSpec(n, diceCount, sides, st1, values).value;
        var r2 := RowSpec(n, diceCount, sides, st2, values).value;
        assert |r1| == |r2|;
        forall j | 0 <= j < |r1|
          ensures r1[j] == r2[j]
        {
        }
        assert r1 == r2;
      }
    }
  }

  lemma {:induction false} EntrySumAgree(st1: Strategy, st2: Strategy, values: Table, outs: seq<(seq<int>, int)>, k: nat, s: int)
    requires k <= |outs|
    requires forall i :: 0 <= i < |outs| ==> Contribution(st1, values, outs[i].0, s) == Contribution(st2, values, outs[i].0, s)
    ensures EntrySum(st1, values, outs, k, s) == EntrySum(st2, values, outs, k, s)
  {
    if k > 0 {
      EntrySumAgree(st1, st2, values, outs, k - 1, s);
    }
  }

  /**
   * The table solve_game returns is what compute_values computes when given
   * the strategy solve_game returns.
   */
  lemma {:induction false} SolveIsComputeValues(diceCount: nat, sides: nat, utility: Utility)
    requires TableUpTo(diceCount, sides, Optimizing, utility, diceCount).Some?
    ensures var t := TableUpTo(diceCount, sides, Optimizing, utility, diceCount).value;
            TableUpTo(diceCount, sides, Fixed(OptimizingStrategy(diceCount, t)), utility, diceCount) == Some(t)
  {
    var t := TableUpTo(diceCount, sides, Optimizing, utility, diceCount).value;
    TableShape(diceCount, sides, Optimizing, utility, diceCount);
    SolveIsComputeValuesUpTo(diceCount, sides, utility, t, diceCount);
    assert t[..diceCount + 1] == t;
  }

  lemma {:induction false} SolveIsComputeValuesUpTo(diceCount: nat, sides: nat, utility: Utility, t: Table, n: nat)
    requires n <= diceCount && TableUpTo(diceCount, sides, Optimizing, utility, diceCount) == Some(t)
    ensures |t| == diceCount + 1
    ensures TableUpTo(diceCount, sides, Fixed(OptimizingStrategy(diceCount, t)), utility, n) == Some(t[..n + 1])
    decreases n
  {
    TablePrefix(diceCount, sides, Optimizing, utility, n, diceCount);
    if n > 0 {
      SolveIsComputeValuesUpTo(diceCount, sides, utility, t, n - 1);
      SolveIsComputeValuesStep(diceCount, sides, utility, t, n);
    }
  }

  /** Row n of compute_values with the final strategy is row n of solve_game. */
  lemma {:induction false} SolveIsComputeValuesStep(diceCount: nat, sides: nat, utility: Utility, t: Table, n: nat)
    requires 1 <= n <= diceCount && TableUpTo(diceCount, sides, Optimizing, utility, diceCount) == Some(t)
    requires |t| == diceCount + 1
    requires TableUpTo(diceCount, sides, Fixed(OptimizingStrategy(diceCount, t)), utility, n - 1) == Some(t[..n])
    ensures TableUpTo(diceCount, sides, Fixed(OptimizingStrategy(diceCount, t)), utility, n) == Some(t[..n + 1])
  {
    var prev := t[..n];
    TablePrefix(diceCount, sides, Optimizing, utility, n, diceCount);
    TablePrefix(diceCount, sides, Optimizing, utility, n - 1, diceCount);
    assert TableUpTo(diceCount, sides, Optimizing, utility, n - 1) == Some(prev);
    OptimizingReadsFinishedRows(diceCount, t, n);
    RowSpecAgree(n, diceCount, sides, OptimizingStrategy(diceCount, t), OptimizingStrategy(diceCount, prev), prev);
    TableUpToNext(diceCount, sides, Optimizing, utility, n, prev);
    TableUpToNext(diceCount, sides, Fixed(OptimizingStrategy(diceCount, t)), utility, n, prev);
    assert t[..n + 1] == prev + [t[n]];
  }

  /** On throws of n dice, the optimizing strategy reads only rows 0 .. n - 1. */
  lemma {:induction false} OptimizingReadsFinishedRows(diceCount: nat, t: Table, n: nat)
    requires n <= |t|
    ensures forall o: seq<int>, s: int :: |o| == n ==> OptimizingStrategy(diceCount, t)(o, s) == OptimizingStrategy(diceCount, t[..n])(o, s)
  {
    forall o: seq<int>, s: int | |o| == n
      ensures OptimizingStrategy(diceCount, t)(o, s) == OptimizingStrategy(diceCount, t[..n])(o, s)
    {
      assert t[..n][..n] == t[..n];
      RerollChoiceReadsFinishedRows(diceCount, t, t[..n], o, s);
    }
  }

  /** One step of TableUpTo, from the table before row n. */
  lemma {:induction false} TableUpToNext(diceCount: nat, sides: nat, policy: Policy, utility: Utility, n: nat, prev: Table)
    requires n >= 1 && TableUpTo(diceCount, sides, policy, utility, n - 1) == Some(prev)
    ensures var row := RowSpec(n, diceCount, sides, StrategyFor(policy, diceCount, prev), prev);
            TableUpTo(diceCount, sides, policy, utility, n) == if row.None? then None else Some(prev + [row.value])
  {
  }

  // ---------------------------------------------------------------------
  // value and roll_value_function
  // ---------------------------------------------------------------------

  /** `value(dice_count, sides, utility)`: `values[dice_count][0]` of the solved table. */
  function Value(diceCount: nat, sides: nat, utility: Utility): Option<real>
  {
    match TableUpTo(diceCount, sides, Optimizing, utility, diceCount)
    case None => None
    case Some(t) => Lookup(t, diceCount, 0)
  }

  /**
   * With at least one side the value exists, is the single entry of the last
   * row, and lies within the range of the utility.
   */
  lemma {:induction false} ValueDefined(diceCount: nat, sides: nat, utility: Utility, lo: real, hi: real)
    requires sides >= 1
    requires forall s :: 0 <= s < RowLength(diceCount, sides, 0) ==> lo <= utility(s) <= hi
    ensures TableUpTo(diceCount, sides, Optimizing, utility, diceCount).Some?
    ensures var t := TableUpTo(diceCount, sides, Optimizing, utility, diceCount).value;
            |t| == diceCount + 1 && |t[diceCount]| == 1 && Value(diceCount, sides, utility) == Some(t[diceCount][0])
    ensures lo <= Value(diceCount, sides, utility).value <= hi
  {
    SolveGameDefined(diceCount, sides, utility, diceCount);
    TableShape(diceCount, sides, Optimizing, utility, diceCount);
    TableBounds(diceCount, sides, Optimizing, utility, diceCount, lo, hi);
  }

  /** The sum of the utility over the faces 0 .. k - 1. */
  function FaceSum(utility: Utility, k: nat): real
  {
    if k == 0 then 0.0 else FaceSum(utility, k - 1) + utility(k - 1)
  }

  /** The sorted throws of one die are [0], [1], .., [hi - lo - 1] shifted by lo. */
  lemma {:induction false} CombinationsOneDie(lo: int, hi: int)
    requires lo <= hi
    ensures Combinations(lo, hi, 1) == seq(hi - lo, i => [lo + i])
    decreases hi - lo
  {
    if lo < hi {
      CombinationsOneDie(lo + 1, hi);
      var empty: seq<seq<int>> := [[]];
      assert Combinations(lo, hi, 0) == empty;
      assert Prepend([lo], empty)[0] == [lo] + empty[0] == [lo];
      assert Prepend([lo], empty) == [[lo]];
    }
  }

  /** A single die has one arrangement. */
  lemma {:induction false} PermutationsOneDie(d: int)
    ensures Permutations([d]) == 1
  {
    PermutationsExact([d]);
    var p := Product(MapFactorial(Counts(Count([d]))));
    assert Factorial(|[d]|) == 1;
    assert Permutations([d]) * p == 1;
    MulSign(Permutations([d]), p);
  }

  /** With one die there is nothing to decide: its value is the utility averaged over the faces. */
  lemma {:induction false} ValueOneDie(sides: nat, utility: Utility)
    requires sides >= 1
    ensures Value(1, sides, utility) == Some(FaceSum(utility, sides) / sides as real)
  {
    var t0 := [Row0(1, sides, utility)];
    var v := FaceSum(utility, sides) / sides as real;
    assert TableUpTo(1, sides, Optimizing, utility, 0) == Some(t0);
    OneDieRow(sides, utility);
    assert TableUpTo(1, sides, Optimizing, utility, 1) == Some(t0 + [[v]]);
  }

  /** Row 1 for a one-die game holds the average of the utility over the faces. */
  lemma {:induction false} OneDieRow(sides: nat, utility: Utility)
    requires sides >= 1
    ensures var t0 := [Row0(1, sides, utility)];
            RowSpec(1, 1, sides, OptimizingStrategy(1, t0), t0) == Some([FaceSum(utility, sides) / sides as real])
  {
    var t0 := [Row0(1, sides, utility)];
    forall d | 0 <= d < sides
      ensures Contribution(OptimizingStrategy(1, t0), t0, [d], 0) == Some(utility(d))
    {
      OneDieContribution(sides, utility, d);
    }
    OneDieRowOf(sides, utility, OptimizingStrategy(1, t0), t0);
  }

  /** Any strategy that reads the utility of the single face thrown gives the average. */
  lemma {:induction false} OneDieRowOf(sides: nat, utility: Utility, st: Strategy, t0: Table)
    requires sides >= 1
    requires forall d :: 0 <= d < sides ==> Contribution(st, t0, [d], 0) == Some(utility(d))
    ensures RowSpec(1, 1, sides, st, t0) == Some([FaceSum(utility, sides) / sides as real])
  {
    var outs := OutcomeList(sides, 1);
    OneDieOutcomes(sides);
    assert EntrySum(st, t0, outs, |outs|, 0) == FaceSum(utility, sides) by {
      OneDieEntrySum(st, t0, outs, utility, sides);
    }
    OneDieDefined(sides, utility, st, t0, outs);
    assert Pow(sides, 1) == sides;
    var v := FaceSum(utility, sides) / sides as real;
    RowSpecIs(1, 1, sides, st, t0, outs, 1, sides as real, [v]);
  }

  /** With one die every listed throw is read at total 0 only, and each such read succeeds. */
  lemma {:induction false} OneDieDefined(sides: nat, utility: Utility, st: Strategy, t0: Table, outs: seq<(seq<int>, int)>)
    requires |outs| == sides && forall d :: 0 <= d < sides ==> outs[d] == ([d], 1)
    requires forall d :: 0 <= d < sides ==> Contribution(st, t0, [d], 0) == Some(utility(d))
    ensures RowDefined(st, t0, outs, 1)
  {
    forall i, s | 0 <= i < |outs| && 0 <= s < 1
      ensures Contribution(st, t0, outs[i].0, s).Some?
    {
      assert outs[i].0 == [i] && s == 0;
    }
  }

  /** A row whose every entry s is the weighted sum at s divided by p = sides ** n is what RowSpec computes. */
  lemma {:induction false} RowSpecIs(n: int, diceCount: nat, sides: nat, strategy: Strategy, values: Table,
                                     outs: seq<(seq<int>, int)>, len: nat, p: real, row: seq<real>)
    requires n >= 1 && |values| >= n - 1 && sides >= 1
    requires outs == OutcomeList(sides, n) && len == RowLength(diceCount, sides, n) && p == Pow(sides, n) as real && p > 0.0
    requires RowDefined(strategy, values, outs, len)
    requires |row| == len && forall s :: 0 <= s < len ==> row[s] == EntrySum(strategy, values, outs, |outs|, s) / p
    ensures RowSpec(n, diceCount, sides, strategy, values) == Some(row)
  {
    PowPositive(sides, n);
    var r := RowSpec(n, diceCount, sides, strategy, values);
    assert r.Some? && |r.value| == len;
    assert forall s :: 0 <= s < len ==> r.value[s] == row[s];
    assert r.value == row;
  }

  /** One die: each face once, with multiplicity 1. */
  lemma {:induction false} OneDieOutcomes(sides: nat)
    requires sides >= 1
    ensures |OutcomeList(sides, 1)| == sides
    ensures forall d :: 0 <= d < sides ==> OutcomeList(sides, 1)[d] == ([d], 1)
  {
    CombinationsOneDie(0, sides);
    forall d | 0 <= d < sides
      ensures OutcomeList(sides, 1)[d] == ([d], 1)
    {
      PermutationsOneDie(d);
    }
  }

  /** Holding one die, the strategy keeps it and reads the utility of its face. */
  lemma {:induction false} OneDieContribution(sides: nat, utility: Utility, d: int)
    requires 0 <= d < sides
    ensures var t0 := [Row0(1, sides, utility)];
            Contribution(OptimizingStrategy(1, t0), t0, [d], 0) == Some(utility(d))
  {
    var t0 := [Row0(1, sides, utility)];
    SumSingle(d);
    assert Candidates(1) == [(0, 0)];
    assert CandidateValue(t0, [d], 0, (0, 0)) == Some(utility(d));
    assert DefinedUpTo(t0, [d], 0, 1);
    assert ValuesUpTo(t0, [d], 0, 1) == [utility(d)];
    assert BestIndex([utility(d)], 1) == 0;
    assert [d][0..0] == [];
    assert RerollChoice(1, t0, [d], 0) == Some([]);
  }

  lemma {:induction false} OneDieEntrySum(st: Strategy, t0: Table, outs: seq<(seq<int>, int)>, utility: Utility, k: nat)
    requires k <= |outs|
    requires forall d :: 0 <= d < |outs| ==> outs[d] == ([d], 1)
    requires forall d :: 0 <= d < |outs| ==> Contribution(st, t0, [d], 0) == Some(utility(d))
    ensures EntrySum(st, t0, outs, k, 0) == FaceSum(utility, k)
  {
    if k > 0 {
      OneDieEntrySum(st, t0, outs, utility, k - 1);
    }
  }

  /** The utility `lambda s: s` of the first doctest of solve_game. */
  function Identity(s: int): real
  {
    s as real
  }

  /** The utility `lambda s: 1 if s % 2 == 0 else 0` of the second doctest. */
  function EvenIndicator(s: int): real
  {
    if s % 2 == 0 then 1.0 else 0.0
  }

  lemma {:induction false} FaceSumIdentity()
    ensures FaceSum(Identity, 6) == 15.0
  {
    assert FaceSum(Identity, 1) == 0.0;
    assert FaceSum(Identity, 3) == 3.0;
    assert FaceSum(Identity, 5) == 10.0;
  }

  lemma {:induction false} FaceSumEven()
    ensures FaceSum(EvenIndicator, 6) == 3.0
  {
    assert FaceSum(EvenIndicator, 1) == 1.0;
    assert FaceSum(EvenIndicator, 3) == 2.0;
    assert FaceSum(EvenIndicator, 5) == 3.0;
  }

  /** The first doctest of solve_game: one six-sided die with utility s has value 5/2. */
  lemma {:induction false} ValueExpectedThrow()
    ensures Value(1, 6, Identity) == Some(5.0 / 2.0)
  {
    FaceSumIdentity();
    ValueFromFaceSum(6, Identity, 15.0, 5.0 / 2.0);
  }

  /** The second doctest: the probability that one six-sided die shows an even face is 1/2. */
  lemma {:induction false} ValueEvenFace()
    ensures Value(1, 6, EvenIndicator) == Some(1.0 / 2.0)
  {
    FaceSumEven();
    ValueFromFaceSum(6, EvenIndicator, 3.0, 1.0 / 2.0);
  }

  /** ValueOneDie with the sum of the utility over the faces given by name. */
  lemma {:induction false} ValueFromFaceSum(sides: nat, utility: Utility, total: real, v: real)
    requires sides >= 1 && FaceSum(utility, sides) == total && v == total / sides as real
    ensures Value(1, sides, utility) == Some(v)
  {
    ValueOneDie(sides, utility);
  }

  /**
   * `roll_value(roll_z, current_sum)`: the dice to throw again are chosen as
   * for running total 0, whatever current_sum is; the value read is
   * `values[len(reroll)][current_sum + keep_sum]`.
   */
  function RollValue(values: Table, strategy: Strategy, roll: seq<int>, currentSum: int): Option<real>
  {
    match strategy(roll, 0)
    case None => None
    case Some(reroll) => Lookup(values, |reroll|, currentSum + (Sum(roll) - Sum(reroll)))
  }

  /** `roll_value_function(values, strategy)`. */
  function RollValueFunction(values: Table, strategy: Strategy): (seq<int>, int) -> Option<real>
  {
    (roll: seq<int>, currentSum: int) => RollValue(values, strategy, roll, currentSum)
  }

  /**
   * With the optimizing strategy and running total 0, the roll value is the
   * best value over all candidate slices.
   */
  lemma {:induction false} RollValueAtZero(diceCount: nat, values: Table, roll: seq<int>)
    requires RerollChoice(diceCount, values, roll, 0).Some?
    ensures RollValueFunction(values, OptimizingStrategy(diceCount, values))(roll, 0)
            == Contribution(OptimizingStrategy(diceCount, values), values, roll, 0)
    ensures RollValue(values, OptimizingStrategy(diceCount, values), roll, 0).Some?
    ensures forall k :: 0 <= k < |Candidates(|roll|)| ==>
              CandidateValue(values, roll, 0, Candidates(|roll|)[k]).Some? &&
              CandidateValue(values, roll, 0, Candidates(|roll|)[k]).value
              <= RollValue(values, OptimizingStrategy(diceCount, values), roll, 0).value
  {
    RerollChoiceOptimal(diceCount, values, roll, 0);
  }

  /**
   * At any other running total the choice made for total 0 is kept, so the
   * roll value is at most what choosing afresh for that total would give.
   */
  lemma {:induction false} RollValueIgnoresCurrentSum(diceCount: nat, values: Table, roll: seq<int>, currentSum: int)
    requires RerollChoice(diceCount, values, roll, 0).Some? && RerollChoice(diceCount, values, roll, currentSum).Some?
    ensures RollValue(values, OptimizingStrategy(diceCount, values), roll, currentSum).Some?
    ensures Contribution(OptimizingStrategy(diceCount, values), values, roll, currentSum).Some?
    ensures RollValue(values, OptimizingStrategy(diceCount, values), roll, currentSum).value
            <= Contribution(OptimizingStrategy(diceCount, values), values, roll, currentSum).value
  {
    RerollChoiceShape(diceCount, values, roll, 0);
    var reroll := RerollChoice(diceCount, values, roll, 0).value;
    var c :| c in Candidates(|roll|) && reroll == roll[c.0..c.1];
    var k :| 0 <= k < |Candidates(|roll|)| && Candidates(|roll|)[k] == c;
    RollValueOfCandidate(values, OptimizingStrategy(diceCount, values), roll, currentSum, c);
    RerollChoiceOptimal(diceCount, values, roll, currentSum);
  }

  /** A strategy that throws again slice c at total 0 reads candidate c's value at any total. */
  lemma {:induction false} RollValueOfCandidate(values: Table, strategy: Strategy, roll: seq<int>, currentSum: int, c: (int, int))
    requires 0 <= c.0 <= c.1 <= |roll| && strategy(roll, 0) == Some(roll[c.0..c.1])
    ensures RollValue(values, strategy, roll, currentSum) == CandidateValue(values, roll, currentSum, c)
  {
  }

  // ---------------------------------------------------------------------
  // The optimizing strategy is optimal among slice strategies
  // ---------------------------------------------------------------------

  /**
   * A strategy of the game as the solver sees it: for a throw of 1 ..
   * dice_count dice it throws again one of the candidate slices.
   */
  ghost predicate SliceStrategy(st: Strategy, diceCount: nat)
  {
    forall o: seq<int>, s: int :: 1 <= |o| <= diceCount && st(o, s).Some? ==>
      exists c :: c in Candidates(|o|) && st(o, s).value == o[c.0..c.1]
  }

  /** Entry by entry, table b is at most table a. */
  predicate Dominates(a: Table, b: Table)
  {
    |a| == |b| && forall m, j :: 0 <= m < |a| && 0 <= j < |a[m]| && j < |b[m]| ==> b[m][j] <= a[m][j]
  }

  /**
   * For one throw and total, what a slice strategy reads from a dominated
   * table is at most what the optimizing strategy reads from the dominating one.
   */
  lemma {:induction false} ContributionDominated(diceCount: nat, sides: nat, st: Strategy, a: Table, b: Table, o: seq<int>, s: int, c: (int, int))
    requires sides >= 1 && 1 <= |o| <= diceCount && InRange(o, 0, sides)
    requires 0 <= s <= MaxSum(diceCount, sides, |o|)
    requires Shaped(diceCount, sides, a, |o|) && Shaped(diceCount, sides, b, |o|) && Dominates(a, b)
    requires c in Candidates(|o|) && st(o, s) == Some(o[c.0..c.1])
    ensures Contribution(st, b, o, s).Some?
    ensures Contribution(OptimizingStrategy(diceCount, a), a, o, s).Some?
    ensures Contribution(st, b, o, s).value <= Contribution(OptimizingStrategy(diceCount, a), a, o, s).value
  {
    CandidateDominated(diceCount, sides, a, b, o, s, c);
    assert Contribution(st, b, o, s) == CandidateValue(b, o, s, c);
    RerollChoiceDefined(diceCount, sides, a, o, s);
    RerollChoiceOptimal(diceCount, a, o, s);
    var k :| 0 <= k < |Candidates(|o|)| && Candidates(|o|)[k] == c;
  }

  /** A candidate's value in a dominated table is at most its value in the dominating one. */
  lemma {:induction false} CandidateDominated(diceCount: nat, sides: nat, a: Table, b: Table, o: seq<int>, s: int, c: (int, int))
    requires sides >= 1 && 1 <= |o| <= diceCount && InRange(o, 0, sides)
    requires 0 <= s <= MaxSum(diceCount, sides, |o|)
    requires Shaped(diceCount, sides, a, |o|) && Shaped(diceCount, sides, b, |o|) && Dominates(a, b)
    requires c in Candidates(|o|)
    ensures CandidateValue(b, o, s, c).Some? && CandidateValue(a, o, s, c).Some?
    ensures CandidateValue(b, o, s, c).value <= CandidateValue(a, o, s, c).value
  {
    KeepIndexInRange(diceCount, sides, o, s, c);
    var m, j := c.1 - c.0, s + (Sum(o) - Sum(o[c.0..c.1]));
    assert 0 <= m < |o|;
    assert CandidateValue(b, o, s, c) == Some(b[m][j]);
    assert CandidateValue(a, o, s, c) == Some(a[m][j]);
  }

  lemma {:induction false} EntrySumMono(st1: Strategy, v1: Table, st2: Strategy, v2: Table, outs: seq<(seq<int>, int)>, k: nat, s: int)
    requires k <= |outs|
    requires forall i :: 0 <= i < k ==> outs[i].1 >= 0
    requires forall i :: 0 <= i < k ==>
               OrZero(Contribution(st1, v1, outs[i].0, s)) <= OrZero(Contribution(st2, v2, outs[i].0, s))
    ensures EntrySum(st1, v1, outs, k, s) <= EntrySum(st2, v2, outs, k, s)
  {
    if k > 0 {
      EntrySumMono(st1, v1, st2, v2, outs, k - 1, s);
      AddMono(EntrySum(st1, v1, outs, k - 1, s), EntrySum(st2, v2, outs, k - 1, s), outs[k - 1].1 as real,
              OrZero(Contribution(st1, v1, outs[k - 1].0, s)), OrZero(Contribution(st2, v2, outs[k - 1].0, s)));
    }
  }

  lemma {:induction false} AddMono(e1: real, e2: real, w: real, x: real, y: real)
    requires e1 <= e2 && w >= 0.0 && x <= y
    ensures e1 + w * x <= e2 + w * y
  {
    assert w * y - w * x == w * (y - x);
    assert w * (y - x) >= 0.0;
  }

  lemma {:induction false} DivMono(x: real, y: real, p: real)
    requires x <= y && p > 0.0
    ensures x / p <= y / p
  {
  }

  /**
   * Row n computed with a slice strategy over a dominated table is dominated by
   * row n computed with the optimizing strategy over the dominating table.
   */
  lemma {:induction false} RowDominated(n: nat, diceCount: nat, sides: nat, st: Strategy, a: Table, b: Table)
    requires sides >= 1 && 1 <= n <= diceCount && SliceStrategy(st, diceCount)
    requires |a| == n && Shaped(diceCount, sides, a, n) && Shaped(diceCount, sides, b, n) && Dominates(a, b)
    requires RowSpec(n, diceCount, sides, st, b).Some?
    ensures RowSpec(n, diceCount, sides, OptimizingStrategy(diceCount, a), a).Some?
    ensures forall j :: 0 <= j < RowLength(diceCount, sides, n) ==>
              RowSpec(n, diceCount, sides, st, b).value[j] <= RowSpec(n, diceCount, sides, OptimizingStrategy(diceCount, a), a).value[j]
  {
    OptimizingRowDefined(n, diceCount, sides, a);
    var opt := OptimizingStrategy(diceCount, a);
    var outs := OutcomeList(sides, n);
    var len := RowLength(diceCount, sides, n);
    forall j | 0 <= j < len
      ensures EntrySum(st, b, outs, |outs|, j) <= EntrySum(opt, a, outs, |outs|, j)
    {
      forall i | 0 <= i < |outs|
        ensures outs[i].1 >= 0
        ensures OrZero(Contribution(st, b, outs[i].0, j)) <= OrZero(Contribution(opt, a, outs[i].0, j))
      {
        PermutationsExact(outs[i].0);
        OutcomeDominated(n, diceCount, sides, st, a, b, i, j);
      }
      EntrySumMono(st, b, opt, a, outs, |outs|, j);
    }
    PowPositive(sides, n);
    forall j | 0 <= j < len
      ensures RowSpec(n, diceCount, sides, st, b).value[j] <= RowSpec(n, diceCount, sides, opt, a).value[j]
    {
      DivMono(EntrySum(st, b, outs, |outs|, j), EntrySum(opt, a, outs, |outs|, j), Pow(sides, n) as real);
    }
  }

  /** RowDominated for one throw of the enumeration. */
  lemma {:induction false} OutcomeDominated(n: nat, diceCount: nat, sides: nat, st: Strategy, a: Table, b: Table, i: nat, j: int)
    requires sides >= 1 && 1 <= n <= diceCount && SliceStrategy(st, diceCount)
    requires |a| == n && Shaped(diceCount, sides, a, n) && Shaped(diceCount, sides, b, n) && Dominates(a, b)
    requires i < |OutcomeList(sides, n)| && 0 <= j < RowLength(diceCount, sides, n)
    requires Contribution(st, b, OutcomeList(sides, n)[i].0, j).Some?
    ensures Contribution(st, b, OutcomeList(sides, n)[i].0, j).value
            <= OrZero(Contribution(OptimizingStrategy(diceCount, a), a, OutcomeList(sides, n)[i].0, j))
  {
    var o := Combinations(0, sides, n)[i];
    assert OutcomeList(sides, n)[i].0 == o;
    CombinationsSound(0, sides, n, o);
    assert st(o, j).Some?;
    var c :| c in Candidates(|o|) && st(o, j).value == o[c.0..c.1];
    ContributionDominated(diceCount, sides, st, a, b, o, j, c);
  }

  /**
   * The table solve_game computes is, entry by entry, at least the table
   * compute_values computes with any slice strategy: the optimizing strategy
   * is optimal among the strategies the solver considers.
   */
  lemma {:induction false} SolveGameOptimal(diceCount: nat, sides: nat, utility: Utility, st: Strategy, n: nat)
    requires sides >= 1 && n <= diceCount && SliceStrategy(st, diceCount)
    requires TableUpTo(diceCount, sides, Fixed(st), utility, n).Some?
    ensures TableUpTo(diceCount, sides, Optimizing, utility, n).Some?
    ensures Dominates(TableUpTo(diceCount, sides, Optimizing, utility, n).value, TableUpTo(diceCount, sides, Fixed(st), utility, n).value)
    decreases n
  {
    SolveGameDefined(diceCount, sides, utility, n);
    if n > 0 {
      TableExtends(diceCount, sides, Fixed(st), utility, n);
      SolveGameOptimal(diceCount, sides, utility, st, n - 1);
      SolveGameOptimalStep(diceCount, sides, utility, st, n);
    } else {
      DominatesRow0(diceCount, sides, utility, st);
    }
  }

  /** Row 0 is the utility for every strategy. */
  lemma {:induction false} DominatesRow0(diceCount: nat, sides: nat, utility: Utility, st: Strategy)
    ensures Dominates(TableUpTo(diceCount, sides, Optimizing, utility, 0).value, TableUpTo(diceCount, sides, Fixed(st), utility, 0).value)
  {
  }

  /** SolveGameOptimal for row n, from SolveGameOptimal for the rows before it. */
  lemma {:induction false} SolveGameOptimalStep(diceCount: nat, sides: nat, utility: Utility, st: Strategy, n: nat)
    requires sides >= 1 && 1 <= n <= diceCount && SliceStrategy(st, diceCount)
    requires TableUpTo(diceCount, sides, Fixed(st), utility, n).Some?
    requires TableUpTo(diceCount, sides, Optimizing, utility, n).Some?
    requires TableUpTo(diceCount, sides, Fixed(st), utility, n - 1).Some?
    requires TableUpTo(diceCount, sides, Optimizing, utility, n - 1).Some?
    requires Dominates(TableUpTo(diceCount, sides, Optimizing, utility, n - 1).value, TableUpTo(diceCount, sides, Fixed(st), utility, n - 1).value)
    ensures Dominates(TableUpTo(diceCount, sides, Optimizing, utility, n).value, TableUpTo(diceCount, sides, Fixed(st), utility, n).value)
  {
    var a := TableUpTo(diceCount, sides, Optimizing, utility, n - 1).value;
    var b := TableUpTo(diceCount, sides, Fixed(st), utility, n - 1).value;
    TableShape(diceCount, sides, Optimizing, utility, n - 1);
    TableShape(diceCount, sides, Fixed(st), utility, n - 1);
    TableUpToNext(diceCount, sides, Optimizing, utility, n, a);
    TableUpToNext(diceCount, sides, Fixed(st), utility, n, b);
    RowDominated(n, diceCount, sides, st, a, b);
    var ra := RowSpec(n, diceCount, sides, OptimizingStrategy(diceCount, a), a).value;
    var rb := RowSpec(n, diceCount, sides, st, b).value;
    DominatesAppend(a, b, ra, rb);
  }

  /** Appending a dominated row to a dominated table keeps it dominated. */
  lemma {:induction false} DominatesAppend(a: Table, b: Table, ra: seq<real>, rb: seq<real>)
    requires Dominates(a, b) && |ra| == |rb|
    requires forall j :: 0 <= j < |ra| ==> rb[j] <= ra[j]
    ensures Dominates(a + [ra], b + [rb])
  {
    var a', b' := a + [ra], b + [rb];
    forall m, j | 0 <= m < |a'| && 0 <= j < |a'[m]| && j < |b'[m]|
      ensures b'[m][j] <= a'[m][j]
    {
      if m < |a| {
        assert a'[m] == a[m] && b'[m] == b[m];
      }
    }
  }
}
