/**
 * The "thirty" dice game: six six-sided dice, keep at least one die per
 * throw, and score by the final total.  The utility of a final total and the
 * composition of solver calls that gives the value of a throw.
 */
module Thirty {
  import opened Wrappers
  import opened Rolls
  import opened PolicyEval
  import opened Arith

  /**
   * `my_utility(s)` for a final total s of 0-based faces (one point below the
   * printed total per die): 30 strictly below 5, a loss of at most 14 below
   * 24, 6 dead on 24, and a growing win above it read from a six-entry list,
   * which raises `IndexError` beyond 30.
   */
  function MyUtility(s: int): (r: Option<int>)
    ensures r.Some? <==> s <= 30
  {
    var opponents := 3;
    var loseFactor := -1;
    var maxLose := 14;
    var strictlyBelow := 10 * opponents;
    var deadOn := 2 * opponents;
    var above := [4, 8, 12, 16, 20, 24];
    if s < 5 then Some(strictlyBelow)
    else if s < 24 then Some(loseFactor * Min(maxLose, 24 - s))
    else if s == 24 then Some(deadOn)
    else PyIndex(above, s - 25)
  }

  /** Going under: 30 points (ten per opponent). */
  lemma {:induction false} MyUtilityBelow(s: int)
    requires s < 5
    ensures MyUtility(s) == Some(30)
  {
  }

  /** Between 5 and 23 the player loses 24 - s points, capped at 14. */
  lemma {:induction false} MyUtilityLose(s: int)
    requires 5 <= s < 24
    ensures MyUtility(s).Some? && -14 <= MyUtility(s).value <= -1
    ensures s <= 10 ==> MyUtility(s) == Some(-14)
    ensures s >= 10 ==> MyUtility(s) == Some(s - 24)
  {
  }

  /** Dead on 24: 6 points (two per opponent). */
  lemma {:induction false} MyUtilityDeadOn()
    ensures MyUtility(24) == Some(6)
  {
  }

  /** Above 24 the win is 4 points per pip beyond 24, up to the largest total 30. */
  lemma {:induction false} MyUtilityAbove(s: int)
    requires 25 <= s <= 30
    ensures MyUtility(s) == Some(4 * (s - 24))
  {
  }

  /** Above 24 a larger total is strictly better. */
  lemma {:induction false} MyUtilityIncreasingAbove(s: int, t: int)
    requires 25 <= s < t <= 30
    ensures MyUtility(s).Some? && MyUtility(t).Some? && MyUtility(s).value < MyUtility(t).value
  {
    MyUtilityAbove(s);
    MyUtilityAbove(t);
  }

  /** The utility is not monotone: 24 beats 25, and going under beats both. */
  lemma {:induction false} MyUtilityNotMonotone()
    ensures MyUtility(24).value > MyUtility(25).value
    ensures MyUtility(4).value > MyUtility(24).value
  {
    MyUtilityAbove(25);
  }

  /**
   * `my_utility` as the solver's utility: defined on every total; totals above
   * 30, where the source raises, map to 0 and are never read (ThirtyRow0).
   */
  function ThirtyUtility(s: int): real
  {
    match MyUtility(s)
    case Some(v) => v as real
    case None => 0.0
  }

  /**
   * With six six-sided dice the solver reads the utility exactly on the totals
   * 0 .. 30, where `my_utility` is defined: row 0 of the table is `my_utility`
   * there, and every value of the game lies between -14 and 30.
   */
  lemma {:induction false} ThirtyRow0()
    ensures RowLength(6, 6, 0) == 31
    ensures forall s :: 0 <= s < RowLength(6, 6, 0) ==> MyUtility(s).Some? && Row0(6, 6, ThirtyUtility)[s] == MyUtility(s).value as real
    ensures forall s :: 0 <= s < RowLength(6, 6, 0) ==> -14.0 <= ThirtyUtility(s) <= 30.0
  {
    forall s | 0 <= s < RowLength(6, 6, 0)
      ensures -14.0 <= ThirtyUtility(s) <= 30.0
    {
      if 5 <= s < 24 {
        MyUtilityLose(s);
      } else if s >= 25 {
        MyUtilityAbove(s);
      }
    }
  }

  /**
   * `roll_value_optimal(dice_count, sides, utility)`: solve the game and turn
   * its table and strategy into the value of a throw; `None` when solving
   * raises.
   */
  function RollValueOptimal(diceCount: nat, sides: nat, utility: Utility): (r: Option<(seq<int>, int) -> Option<real>>)
    ensures r.Some? <==> TableUpTo(diceCount, sides, Optimizing, utility, diceCount).Some?
  {
    match TableUpTo(diceCount, sides, Optimizing, utility, diceCount)
    case None => None
    case Some(t) => Some(RollValueFunction(t, OptimizingStrategy(diceCount, t)))
  }

  /** Solving raises only when the dice have no sides and there is a die to throw. */
  lemma {:induction false} RollValueOptimalDefined(diceCount: nat, sides: nat, utility: Utility)
    ensures RollValueOptimal(diceCount, sides, utility).Some? <==> (sides >= 1 || diceCount == 0)
  {
    if sides >= 1 {
      SolveGameDefined(diceCount, sides, utility, diceCount);
    } else if diceCount >= 1 {
      var t0 := TableUpTo(diceCount, sides, Optimizing, utility, 0).value;
      assert RowSpec(1, diceCount, sides, OptimizingStrategy(diceCount, t0), t0).None?;
      TableFailsFrom(diceCount, sides, Optimizing, utility, 1, diceCount, t0);
    }
  }

  /**
   * For a sorted throw of 1 .. dice_count dice, the value of the throw at
   * running total 0 exists, is at least the value of every candidate slice to
   * throw again, and lies within the range of the utility.
   */
  lemma {:induction false} RollValueOptimalBest(diceCount: nat, sides: nat, utility: Utility, roll: seq<int>, lo: real, hi: real)
    requires sides >= 1 && 1 <= |roll| <= diceCount && InRange(roll, 0, sides)
    requires forall s :: 0 <= s < RowLength(diceCount, sides, 0) ==> lo <= utility(s) <= hi
    ensures RollValueOptimal(diceCount, sides, utility).Some?
    ensures var f := RollValueOptimal(diceCount, sides, utility).value;
            var t := TableUpTo(diceCount, sides, Optimizing, utility, diceCount).value;
            f(roll, 0).Some? && lo <= f(roll, 0).value <= hi &&
            forall k :: 0 <= k < |Candidates(|roll|)| ==>
              CandidateValue(t, roll, 0, Candidates(|roll|)[k]).Some? &&
              CandidateValue(t, roll, 0, Candidates(|roll|)[k]).value <= f(roll, 0).value
  {
    SolveGameDefined(diceCount, sides, utility, diceCount);
    var t := TableUpTo(diceCount, sides, Optimizing, utility, diceCount).value;
    TableShape(diceCount, sides, Optimizing, utility, diceCount);
    TableBounds(diceCount, sides, Optimizing, utility, diceCount, lo, hi);
    BestOfTable(diceCount, sides, t, roll, lo, hi);
  }

  /** RollValueOptimalBest for any table of the solver's shape within [lo, hi]. */
  lemma {:induction false} BestOfTable(diceCount: nat, sides: nat, t: Table, roll: seq<int>, lo: real, hi: real)
    requires sides >= 1 && 1 <= |roll| <= diceCount && InRange(roll, 0, sides)
    requires Shaped(diceCount, sides, t, |roll|) && Bounded(t, lo, hi)
    ensures var f := RollValueFunction(t, OptimizingStrategy(diceCount, t));
            f(roll, 0).Some? && lo <= f(roll, 0).value <= hi &&
            forall k :: 0 <= k < |Candidates(|roll|)| ==>
              CandidateValue(t, roll, 0, Candidates(|roll|)[k]).Some? &&
              CandidateValue(t, roll, 0, Candidates(|roll|)[k]).value <= f(roll, 0).value
  {
    RerollChoiceDefined(diceCount, sides, t, roll, 0);
    RollValueAtZero(diceCount, t, roll);
    ContributionBounded(OptimizingStrategy(diceCount, t), t, roll, 0, lo, hi);
  }

  /** With six six-sided dice and `my_utility`, every throw is worth between -14 and 30. */
  lemma {:induction false} ThirtyRollValueRange(roll: seq<int>)
    requires 1 <= |roll| <= 6 && InRange(roll, 0, 6)
    ensures RollValueOptimal(6, 6, ThirtyUtility).Some?
    ensures var f := RollValueOptimal(6, 6, ThirtyUtility).value;
            f(roll, 0).Some? && -14.0 <= f(roll, 0).value <= 30.0
  {
    ThirtyRow0();
    RollValueOptimalBest(6, 6, ThirtyUtility, roll, -14.0, 30.0);
  }
}
