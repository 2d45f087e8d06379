/**
 * The solver of thousand.py: the rule for banking points, the table of
 * values `_values[remaining_dice - 1][starting_score][current_score]`, the
 * expected utility of one cell, the optimizing and greedy strategies, and
 * filling the table cell by cell in backward order.  Scores are in units of
 * 50 points; the game is won at 10000 points, i.e. 200 units.
 */
module ThousandSolver {
  import opened Wrappers
  import opened Arith
  import opened Rolls
  import opened Thousand
  import PE = PolicyEval

  /** `max_score = 10000 // 50`. */
  const MaxScore: int := 10000 / 50

  // ---------------------------------------------------------------------
  // can_keep_points
  // ---------------------------------------------------------------------

  /**
   * `can_keep_points(starting_score, current_score)`: a player with no score
   * yet must reach more than 1000 points in one turn, and a player at 9000 or
   * more may only bank a turn that wins.
   */
  function CanKeepPoints(startingScore: int, currentScore: int): (r: bool)
    ensures !r <==> (startingScore == 0 && currentScore <= 20) ||
                    (startingScore >= 180 && startingScore + currentScore < 200)
  {
    if startingScore == 0 && currentScore <= 1000 / 50 then false
    else if startingScore >= 9000 / 50 && currentScore + startingScore < 10000 / 50 then false
    else true
  }

  /** Scoring more in a turn never takes the right to bank away. */
  lemma {:induction false} CanKeepPointsMonotone(startingScore: int, c1: int, c2: int)
    requires c1 <= c2 && CanKeepPoints(startingScore, c1)
    ensures CanKeepPoints(startingScore, c2)
  {
  }

  /** A turn reaching the winning score may be banked, unless a first turn stays at 1000 points or less. */
  lemma {:induction false} CanKeepPointsWinning(startingScore: int, currentScore: int)
    requires startingScore + currentScore >= MaxScore
    ensures CanKeepPoints(startingScore, currentScore) <==> (startingScore != 0 || currentScore > 20)
  {
  }

  // ---------------------------------------------------------------------
  // the table of values
  // ---------------------------------------------------------------------

  /**
   * The state of a `Values` object: `_values`, where `None` is a cell not
   * yet set, and `_utility`, the utility of each final score.
   */
  datatype Table = Table(cells: seq<seq<seq<Option<real>>>>, utilities: seq<real>)

  /** The shape `Values.__init__` gives the table for dice_count dice. */
  predicate WellShaped(t: Table, diceCount: nat)
  {
    |t.cells| == diceCount && |t.utilities| == MaxScore + 1 &&
    (forall r :: 0 <= r < diceCount ==> |t.cells[r]| == MaxScore + 1) &&
    (forall r, s :: 0 <= r < diceCount && 0 <= s <= MaxScore ==> |t.cells[r][s]| == MaxScore + 1 - s)
  }

  /** (remaining dice, starting score, current score) addresses a cell of the table. */
  predicate IsCell(diceCount: int, r: int, s: int, c: int)
  {
    1 <= r <= diceCount && 0 <= s <= MaxScore && 0 <= c <= MaxScore - s
  }

  function Cell(t: Table, r: int, s: int, c: int): Option<real>
    requires WellShaped(t, |t.cells|) && IsCell(|t.cells|, r, s, c)
  {
    t.cells[r - 1][s][c]
  }

  /**
   * `Values(dice_count, utility)`: every cell unset, and the utility of each
   * final score 0 .. 200.
   */
  function InitialTable(diceCount: nat, utility: PE.Utility): (t: Table)
    ensures WellShaped(t, diceCount)
    ensures forall r, s, c :: IsCell(diceCount, r, s, c) ==> Cell(t, r, s, c).None?
    ensures forall s :: 0 <= s <= MaxScore ==> t.utilities[s] == utility(s)
  {
    Table(seq(diceCount, _ => seq(MaxScore + 1, s requires 0 <= s <= MaxScore => seq(MaxScore + 1 - s, _ => None))),
          seq(MaxScore + 1, s => utility(s)))
  }

  /** `Values.utility(score)`: a score above the winning score counts as the winning score. */
  function Utility(t: Table, score: int): (r: Option<real>)
    ensures |t.utilities| == MaxScore + 1 && score >= 0 ==> r == Some(t.utilities[Min(score, MaxScore)])
  {
    if score > MaxScore then PyIndex(t.utilities, MaxScore) else PyIndex(t.utilities, score)
  }

  /**
   * `Values.play(remaining_dice, starting_score, current_score)`: the utility
   * of winning once the scores reach 200, otherwise the cell, where an unset
   * cell fails the assertion.
   */
  function Play(t: Table, remainingDice: int, startingScore: int, currentScore: int): (r: Option<real>)
    ensures startingScore + currentScore >= MaxScore ==> r == Utility(t, MaxScore)
    ensures (WellShaped(t, |t.cells|) && IsCell(|t.cells|, remainingDice, startingScore, currentScore) &&
             startingScore + currentScore < MaxScore) ==> r == Cell(t, remainingDice, startingScore, currentScore)
  {
    if startingScore + currentScore >= MaxScore then Utility(t, MaxScore)
    else
      var c := Min(currentScore, MaxScore - startingScore);
      match PyIndex(t.cells, remainingDice - 1)
      case None => None
      case Some(plane) =>
        match PyIndex(plane, startingScore)
        case None => None
        case Some(row) =>
          match PyIndex(row, c)
          case None => None
          case Some(v) => v
  }

  /** `Values.stop(starting_score, current_score)`: bank the turn if allowed, else lose it. */
  function Stop(t: Table, startingScore: int, currentScore: int): Option<real>
  {
    if CanKeepPoints(startingScore, currentScore) then Utility(t, startingScore + currentScore)
    else Utility(t, startingScore)
  }

  /** `Values.nothing(starting_score)`: a throw with no scoring dice loses the turn. */
  function Nothing(t: Table, startingScore: int): Option<real>
  {
    Utility(t, startingScore)
  }

  /** Stopping never fails: it reads the utility of the banked or the starting score. */
  lemma {:induction false} StopValue(t: Table, startingScore: int, currentScore: int)
    requires |t.utilities| == MaxScore + 1 && startingScore >= 0 && currentScore >= 0
    ensures Stop(t, startingScore, currentScore) ==
            Some(t.utilities[if CanKeepPoints(startingScore, currentScore) then Min(startingScore + currentScore, MaxScore)
                             else Min(startingScore, MaxScore)])
    ensures Nothing(t, startingScore) == Some(t.utilities[Min(startingScore, MaxScore)])
  {
  }

  /**
   * `Values.set_value`: the scores must address a cell (the two assertions),
   * and the indices follow Python's list indexing.
   */
  function SetCell(t: Table, r: int, s: int, c: int, v: real): Option<Table>
  {
    if s > MaxScore || c > MaxScore - s then None
    else
      match PyPosition(|t.cells|, r - 1)
      case None => None
      case Some(i) =>
        match PyPosition(|t.cells[i]|, s)
        case None => None
        case Some(j) =>
          match PyPosition(|t.cells[i][j]|, c)
          case None => None
          case Some(k) => Some(t.(cells := t.cells[i := t.cells[i][j := t.cells[i][j][k := Some(v)]]]))
  }

  /** On a cell of a well-shaped table, set_value succeeds, sets that cell and changes nothing else. */
  lemma {:induction false} SetCellSpec(t: Table, diceCount: nat, r: int, s: int, c: int, v: real)
    requires WellShaped(t, diceCount) && IsCell(diceCount, r, s, c)
    ensures SetCell(t, r, s, c, v).Some?
    ensures var u := SetCell(t, r, s, c, v).value;
            WellShaped(u, diceCount) && u.utilities == t.utilities && Cell(u, r, s, c) == Some(v) &&
            forall r', s', c' :: IsCell(diceCount, r', s', c') && (r', s', c') != (r, s, c) ==>
              Cell(u, r', s', c') == Cell(t, r', s', c')
  {
  }

  /** set_value rejects scores that address no cell. */
  lemma {:induction false} SetCellRejects(t: Table, r: int, s: int, c: int, v: real)
    requires s > MaxScore || c > MaxScore - s
    ensures SetCell(t, r, s, c, v).None?
  {
  }

  /** A `Values` object: the table the solver fills and its strategies read. */
  class Values {
    var table: Table

    /** `Values(dice_count, utility)`. */
    constructor (diceCount: nat, utility: PE.Utility)
      ensures table == InitialTable(diceCount, utility)
    {
      table := InitialTable(diceCount, utility);
    }

    /** `set_value(remaining_dice, starting_score, current_score, v)`; `false` where it raises. */
    method SetValue(remainingDice: int, startingScore: int, currentScore: int, v: real) returns (ok: bool)
      modifies this
      ensures ok == SetCell(old(table), remainingDice, startingScore, currentScore, v).Some?
      ensures table == if ok then SetCell(old(table), remainingDice, startingScore, currentScore, v).value else old(table)
    {
      if startingScore > MaxScore || currentScore > MaxScore - startingScore {
        return false;
      }
      var i := PyPosition(|table.cells|, remainingDice - 1);
      if i.None? {
        return false;
      }
      var plane := table.cells[i.value];
      var j := PyPosition(|plane|, startingScore);
      if j.None? {
        return false;
      }
      var row := plane[j.value];
      var k := PyPosition(|row|, currentScore);
      if k.None? {
        return false;
      }
      table := table.(cells := table.cells[i.value := plane[j.value := row[k.value := Some(v)]]]);
      return true;
    }
  }

  // ---------------------------------------------------------------------
  // strategies
  // ---------------------------------------------------------------------

  /**
   * `strategy(counter, starting_score, current_score, actions)`: the index
   * of the chosen action and whether to throw again; `None` where it raises.
   */
  type Strategy = (Counter<int>, int, int, seq<Action>) -> Option<(int, bool)>

  /**
   * The value of option j of the optimizing strategy's loop: options 2i and
   * 2i + 1 are continuing and stopping after action i.  `None` where the loop
   * raises: the assertion that the action scores, or an unset cell.
   */
  function OptionValue(diceCount: nat, t: Table, s: int, c: int, a: seq<Action>, j: nat): Option<real>
    requires j < 2 * |a|
  {
    var action := a[j / 2];
    if action.1 <= 0 then None
    else if j % 2 == 0 then Play(t, if action.0 != 0 then action.0 else diceCount, s, c + action.1)
    else Stop(t, s, c + action.1)
  }

  /** Options 2 * i and 2 * i + 1 are continuing and stopping after action i. */
  lemma {:induction false} OptionPair(diceCount: nat, t: Table, s: int, c: int, a: seq<Action>, i: nat)
    requires i < |a|
    ensures var (rerollDice, addScore) := a[i];
            OptionValue(diceCount, t, s, c, a, 2 * i) ==
              (if addScore <= 0 then None else Play(t, if rerollDice != 0 then rerollDice else diceCount, s, c + addScore)) &&
            OptionValue(diceCount, t, s, c, a, 2 * i + 1) ==
              (if addScore <= 0 then None else Stop(t, s, c + addScore))
  {
    assert (2 * i) / 2 == i && (2 * i) % 2 == 0 && (2 * i + 1) / 2 == i && (2 * i + 1) % 2 == 1;
  }

  /** The first k options are all defined. */
  predicate OptionsDefined(diceCount: nat, t: Table, s: int, c: int, a: seq<Action>, k: nat)
    requires k <= 2 * |a|
  {
    k == 0 || (OptionsDefined(diceCount, t, s, c, a, k - 1) && OptionValue(diceCount, t, s, c, a, k - 1).Some?)
  }

  /** The values of the first k options, in the order the loop visits them. */
  function OptionValues(diceCount: nat, t: Table, s: int, c: int, a: seq<Action>, k: nat): (r: seq<real>)
    requires k <= 2 * |a|
    ensures |r| == k
  {
    if k == 0 then []
    else OptionValues(diceCount, t, s, c, a, k - 1) + [PE.OrZero(OptionValue(diceCount, t, s, c, a, k - 1))]
  }

  /**
   * What `reroll_strategy` returns on the table t: the first option of
   * greatest value.  `None` where the loop raises, and for an empty list of
   * actions (where the source returns `(None, None)`, which its caller cannot
   * use).
   */
  function OptimizingChoice(diceCount: nat, t: Table, s: int, c: int, a: seq<Action>): Option<(int, bool)>
  {
    if a == [] || !OptionsDefined(diceCount, t, s, c, a, 2 * |a|) then None
    else
      var b := PE.BestIndex(OptionValues(diceCount, t, s, c, a, 2 * |a|), 2 * |a|);
      Some((b / 2, b % 2 == 0))
  }

  /** `optimizing_strategy(dice_count, values)`, reading the table it is given. */
  function OptimizingStrategy(diceCount: nat, t: Table): Strategy
  {
    (counter: Counter<int>, s: int, c: int, a: seq<Action>) => OptimizingChoice(diceCount, t, s, c, a)
  }

  /**
   * `reroll_strategy`: the loop over the actions, trying to continue and then
   * to stop after each.  The stop test is the source's
   * `reroll_dice and best_reroll is None or best_value < stop_score`, whose
   * first half never holds once continuing has been tried.
   */
  method RerollStrategy(diceCount: nat, values: Values, counter: Counter<int>, startingScore: int, currentScore: int,
                        actions: seq<Action>) returns (r: Option<(int, bool)>)
    ensures r == OptimizingChoice(diceCount, values.table, startingScore, currentScore, actions)
  {
    var t := values.table;
    var bestReroll: Option<int> := None;
    var bestContinue := false;
    var bestValue := 0.0;
    for i := 0 to |actions|
      invariant OptionsDefined(diceCount, t, startingScore, currentScore, actions, 2 * i)
      invariant Tracks(OptionValues(diceCount, t, startingScore, currentScore, actions, 2 * i), bestReroll, bestContinue, bestValue)
    {
      var scores := ActionScores(diceCount, t, startingScore, currentScore, actions, i);
      if scores.None? {
        NoChoice(diceCount, t, startingScore, currentScore, actions, i);
        return None;
      }
      var (continueScore, stopScore) := scores.value;
      OptionStep(diceCount, t, startingScore, currentScore, actions, i, continueScore, stopScore);
      ghost var seen := OptionValues(diceCount, t, startingScore, currentScore, actions, 2 * i);
      ghost var next := OptionValues(diceCount, t, startingScore, currentScore, actions, 2 * i + 2);
      bestReroll, bestContinue, bestValue := ConsiderAction(seen, next, i, actions[i].0, continueScore, stopScore,
        bestReroll, bestContinue, bestValue);
    }
    if bestReroll.None? {
      return None;
    }
    return Some((bestReroll.value, bestContinue));
  }

  /**
   * The two scores the loop of `reroll_strategy` reads for action i: the
   * value of throwing again (with all the dice when the action keeps none
   * back) and the value of stopping.  `None` where the source raises: an
   * action adding no points, or a score outside the table.
   */
  method ActionScores(diceCount: nat, t: Table, startingScore: int, currentScore: int, actions: seq<Action>, i: nat)
    returns (r: Option<(real, real)>)
    requires i < |actions|
    ensures r.None? ==> OptionValue(diceCount, t, startingScore, currentScore, actions, 2 * i).None? ||
                        OptionValue(diceCount, t, startingScore, currentScore, actions, 2 * i + 1).None?
    ensures r.Some? ==> OptionValue(diceCount, t, startingScore, currentScore, actions, 2 * i) == Some(r.value.0) &&
                        OptionValue(diceCount, t, startingScore, currentScore, actions, 2 * i + 1) == Some(r.value.1)
  {
    var rerollDice, addScore := actions[i].0, actions[i].1;
    OptionPair(diceCount, t, startingScore, currentScore, actions, i);
    if addScore <= 0 {
      return None;
    }
    var continueScore := Play(t, if rerollDice != 0 then rerollDice else diceCount, startingScore, currentScore + addScore);
    if continueScore.None? {
      return None;
    }
    var stopScore := Stop(t, startingScore, currentScore + addScore);
    if stopScore.None? {
      return None;
    }
    return Some((continueScore.value, stopScore.value));
  }

  /** An action whose scores cannot be read leaves the strategy without a choice. */
  lemma {:induction false} NoChoice(diceCount: nat, t: Table, s: int, c: int, a: seq<Action>, i: nat)
    requires i < |a|
    requires OptionValue(diceCount, t, s, c, a, 2 * i).None? || OptionValue(diceCount, t, s, c, a, 2 * i + 1).None?
    ensures OptimizingChoice(diceCount, t, s, c, a) == None
  {
    if OptionValue(diceCount, t, s, c, a, 2 * i).None? {
      OptionsUndefinedFrom(diceCount, t, s, c, a, 2 * i, 2 * |a|);
    } else {
      OptionsUndefinedFrom(diceCount, t, s, c, a, 2 * i + 1, 2 * |a|);
    }
  }

  /**
   * The loop's best option so far is the first maximum of the values seen:
   * option b is action b / 2, continuing when b is even.
   */
  ghost predicate Tracks(vals: seq<real>, bestReroll: Option<int>, bestContinue: bool, bestValue: real)
  {
    (|vals| == 0 <==> bestReroll.None?) &&
    (|vals| > 0 ==> var b := PE.BestIndex(vals, |vals|);
                    bestReroll == Some(b / 2) && bestContinue == (b % 2 == 0) && bestValue == vals[b])
  }

  /** The body of the loop of `reroll_strategy` for action i, once its two values are known. */
  method ConsiderAction(ghost vals: seq<real>, ghost next: seq<real>, i: nat, rerollDice: int, continueScore: real, stopScore: real,
                        bestReroll: Option<int>, bestContinue: bool, bestValue: real)
    returns (bestReroll': Option<int>, bestContinue': bool, bestValue': real)
    requires |vals| == 2 * i && Tracks(vals, bestReroll, bestContinue, bestValue)
    requires next == vals + [continueScore] + [stopScore]
    ensures Tracks(next, bestReroll', bestContinue', bestValue')
  {
    bestReroll', bestContinue', bestValue' := bestReroll, bestContinue, bestValue;
    assert (2 * i) / 2 == i && (2 * i) % 2 == 0 && (2 * i + 1) / 2 == i && (2 * i + 1) % 2 == 1;
    ghost var r0, c0, v0 := bestReroll', bestContinue', bestValue';
    if bestReroll'.None? || bestValue' < continueScore {
      bestReroll' := Some(i);
      bestContinue' := true;
      bestValue' := continueScore;
    }
    TracksStep(vals, continueScore, r0, c0, v0, bestReroll', bestContinue', bestValue');
    ghost var r1, c1, v1 := bestReroll', bestContinue', bestValue';
    if (rerollDice != 0 && bestReroll'.None?) || bestValue' < stopScore {
      bestReroll' := Some(i);
      bestContinue' := false;
      bestValue' := stopScore;
    }
    TracksStep(vals + [continueScore], stopScore, r1, c1, v1, bestReroll', bestContinue', bestValue');
  }

  /** Tracks is kept by the loop's update: a strictly better value, or the first one, takes over. */
  lemma {:induction false} TracksStep(vals: seq<real>, v: real, r0: Option<int>, c0: bool, v0: real, r1: Option<int>, c1: bool, v1: real)
    requires Tracks(vals, r0, c0, v0)
    requires (r0.None? || v0 < v) ==> r1 == Some(|vals| / 2) && c1 == (|vals| % 2 == 0) && v1 == v
    requires !(r0.None? || v0 < v) ==> r1 == r0 && c1 == c0 && v1 == v0
    ensures Tracks(vals + [v], r1, c1, v1)
  {
    var b := BestExtend(vals, v);
    if |vals| > 0 {
      var b0 := PE.BestIndex(vals, |vals|);
      assert (vals + [v])[b0] == vals[b0];
    }
  }

  /**
   * The first maximum after appending v: v's index when it beats the first
   * maximum so far, which it does always when there is none yet.
   */
  lemma {:induction false} BestExtend(vals: seq<real>, v: real) returns (b: nat)
    ensures b == PE.BestIndex(vals + [v], |vals| + 1)
    ensures |vals| == 0 ==> b == 0
    ensures |vals| > 0 ==> var b0 := PE.BestIndex(vals, |vals|);
            b == (if vals[b0] < v then |vals| else b0)
  {
    b := PE.BestIndex(vals + [v], |vals| + 1);
    if |vals| > 0 {
      PE.BestIndexPrefix(vals, v);
      assert (vals + [v])[|vals|] == v;
    }
  }

  /** One turn of the loop adds the continue and the stop value of action i. */
  lemma {:induction false} OptionStep(diceCount: nat, t: Table, s: int, c: int, a: seq<Action>, i: nat, cont: real, stop: real)
    requires i < |a| && OptionsDefined(diceCount, t, s, c, a, 2 * i)
    requires OptionValue(diceCount, t, s, c, a, 2 * i) == Some(cont)
    requires OptionValue(diceCount, t, s, c, a, 2 * i + 1) == Some(stop)
    ensures OptionsDefined(diceCount, t, s, c, a, 2 * i + 2)
    ensures var vals := OptionValues(diceCount, t, s, c, a, 2 * i);
            OptionValues(diceCount, t, s, c, a, 2 * i + 2) == vals + [cont] + [stop]
    ensures i > 0 ==> var vals := OptionValues(diceCount, t, s, c, a, 2 * i + 2);
            PE.BestIndex(vals, 2 * i) == PE.BestIndex(OptionValues(diceCount, t, s, c, a, 2 * i), 2 * i)
  {
    var vals := OptionValues(diceCount, t, s, c, a, 2 * i);
    assert OptionValues(diceCount, t, s, c, a, 2 * i + 2) == vals + [cont] + [stop];
    if i > 0 {
      PE.BestIndexAgree(vals + [cont] + [stop], vals, 2 * i);
    }
  }

  /** An option that raises makes every longer list of options undefined. */
  lemma {:induction false} OptionsUndefinedFrom(diceCount: nat, t: Table, s: int, c: int, a: seq<Action>, j: nat, m: nat)
    requires j < m <= 2 * |a| && OptionValue(diceCount, t, s, c, a, j).None?
    ensures !OptionsDefined(diceCount, t, s, c, a, m)
  {
    if m > j + 1 {
      OptionsUndefinedFrom(diceCount, t, s, c, a, j, m - 1);
    }
  }

  /** OptionsDefined holds exactly when none of the first k options raises, and then lists their values. */
  lemma {:induction false} OptionsSpec(diceCount: nat, t: Table, s: int, c: int, a: seq<Action>, k: nat)
    requires k <= 2 * |a|
    ensures OptionsDefined(diceCount, t, s, c, a, k) <==> forall j :: 0 <= j < k ==> OptionValue(diceCount, t, s, c, a, j).Some?
    ensures OptionsDefined(diceCount, t, s, c, a, k) ==>
              forall j :: 0 <= j < k ==> OptionValue(diceCount, t, s, c, a, j) == Some(OptionValues(diceCount, t, s, c, a, k)[j])
  {
    if k > 0 {
      OptionsSpec(diceCount, t, s, c, a, k - 1);
    }
  }

  /**
   * The optimizing strategy picks a valid action and an option whose value is
   * at least that of every option (continue or stop after any action), and
   * strictly greater than that of every earlier option: ties keep the earlier
   * action, and continuing wins over stopping at equal value.
   */
  lemma {:induction false} OptimizingChoiceOptimal(diceCount: nat, t: Table, s: int, c: int, a: seq<Action>)
    requires OptimizingChoice(diceCount, t, s, c, a).Some?
    ensures var (i, cont) := OptimizingChoice(diceCount, t, s, c, a).value;
            var b := 2 * i + (if cont then 0 else 1);
            0 <= i < |a| && OptionValue(diceCount, t, s, c, a, b).Some? &&
            (forall j :: 0 <= j < 2 * |a| ==>
               OptionValue(diceCount, t, s, c, a, j).Some? &&
               OptionValue(diceCount, t, s, c, a, j).value <= OptionValue(diceCount, t, s, c, a, b).value) &&
            (forall j :: 0 <= j < b ==> OptionValue(diceCount, t, s, c, a, j).value < OptionValue(diceCount, t, s, c, a, b).value)
  {
    OptionsSpec(diceCount, t, s, c, a, 2 * |a|);
  }

  /** The strategy is defined as soon as there is an action and no option raises. */
  lemma {:induction false} OptimizingChoiceDefined(diceCount: nat, t: Table, s: int, c: int, a: seq<Action>)
    requires a != [] && forall j :: 0 <= j < 2 * |a| ==> OptionValue(diceCount, t, s, c, a, j).Some?
    ensures OptimizingChoice(diceCount, t, s, c, a).Some?
  {
    OptionsSpec(diceCount, t, s, c, a, 2 * |a|);
  }

  /**
   * As written, the strategy may stop after an action that leaves no dice:
   * taking all dice and stopping is chosen whenever banking is worth more
   * than throwing all dice again.
   */
  lemma {:induction false} OptimizingMayStopWithNoDice(diceCount: nat, t: Table, s: int, c: int, keep: int)
    requires keep > 0
    requires Play(t, diceCount, s, c + keep).Some? && Stop(t, s, c + keep).Some?
    requires Play(t, diceCount, s, c + keep).value < Stop(t, s, c + keep).value
    ensures OptimizingChoice(diceCount, t, s, c, [(0, keep)]) == Some((0, false))
  {
    var a := [(0, keep)];
    var p, q := Play(t, diceCount, s, c + keep).value, Stop(t, s, c + keep).value;
    assert OptionValue(diceCount, t, s, c, a, 0) == Some(p);
    assert OptionValue(diceCount, t, s, c, a, 1) == Some(q);
    assert OptionsDefined(diceCount, t, s, c, a, 2);
    assert OptionValues(diceCount, t, s, c, a, 2) == [p, q];
    assert PE.BestIndex([p, q], 2) == 1;
  }

  /**
   * `max_strategy`: the first action of greatest score (`max` keeps the first
   * maximum); after an action that leaves dice, stop exactly when the points
   * may be banked; after one that takes all dice, continue.  `None` for an
   * empty list, where `max` raises.
   */
  function MaxStrategy(counter: Counter<int>, startingScore: int, currentScore: int, actions: seq<Action>): (r: Option<(int, bool)>)
    ensures r.Some? <==> actions != []
    ensures r.Some? ==> var (i, cont) := r.value;
            0 <= i < |actions| &&
            (forall j :: 0 <= j < |actions| ==> actions[j].1 <= actions[i].1) &&
            (forall j :: 0 <= j < i ==> actions[j].1 < actions[i].1) &&
            (cont <==> actions[i].0 == 0 || !CanKeepPoints(startingScore, currentScore + actions[i].1))
  {
    if actions == [] then None
    else
      var scores := seq(|actions|, j requires 0 <= j < |actions| => actions[j].1 as real);
      var i := PE.BestIndex(scores, |actions|);
      assert forall j :: 0 <= j < |actions| ==> scores[j] == actions[j].1 as real;
      var (rerollDice, addScore) := actions[i];
      Some((i, if rerollDice != 0 then !CanKeepPoints(startingScore, currentScore + addScore) else true))
  }

  // ---------------------------------------------------------------------
  // compute_values_single
  // ---------------------------------------------------------------------

  /**
   * Where each cell's strategy comes from: one fixed strategy
   * (compute_values), or the optimizing strategy reading the table being
   * filled (solve_game).
   */
  datatype Policy = Fixed(strategy: Strategy) | Optimizing

  function StrategyFor(policy: Policy, diceCount: nat, t: Table): Strategy
  {
    match policy
    case Fixed(strategy) => strategy
    case Optimizing => OptimizingStrategy(diceCount, t)
  }

  /**
   * The result of one throw in `compute_values_single`: a throw without
   * scoring dice loses the turn; otherwise the strategy's action is played
   * on, throwing the dice left (all dice when none is left) or stopping.
   */
  function OutcomeResult(diceCount: nat, strategy: Strategy, t: Table, s: int, c: int, counter: Counter<int>): Option<real>
  {
    ActionResult(diceCount, strategy, t, s, c, counter, Actions(counter))
  }

  /** OutcomeResult once the list of actions a of the throw is known. */
  function ActionResult(diceCount: nat, strategy: Strategy, t: Table, s: int, c: int, counter: Counter<int>, a: seq<Action>): Option<real>
  {
    if !(forall i :: 0 <= i < |a| ==> a[i].1 > 0) then None
    else if a == [] then Nothing(t, s)
    else
      match strategy(counter, s, c, a)
      case None => None
      case Some(choice) =>
        match PyIndex(a, choice.0)
        case None => None
        case Some(action) =>
          if choice.1 then Play(t, if action.0 != 0 then action.0 else diceCount, s, c + action.1)
          else Stop(t, s, c + action.1)
  }

  /** OutcomeResult as a function of the throw's counter. */
  function ResultOf(diceCount: nat, strategy: Strategy, t: Table, s: int, c: int): Counter<int> -> Option<real>
  {
    (counter: Counter<int>) => OutcomeResult(diceCount, strategy, t, s, c, counter)
  }

  /** The first k listed throws all have a result. */
  predicate OutcomesDefined(result: Counter<int> -> Option<real>, outs: seq<(seq<int>, int)>, k: nat)
    requires k <= |outs|
  {
    k == 0 || (OutcomesDefined(result, outs, k - 1) && result(Count(outs[k - 1].0)).Some?)
  }

  /** `tmp_value` after the first k listed throws: the sum of multiplicity times result. */
  function Accumulated(result: Counter<int> -> Option<real>, outs: seq<(seq<int>, int)>, k: nat): real
    requires k <= |outs| && OutcomesDefined(result, outs, k)
  {
    if k == 0 then 0.0
    else Accumulated(result, outs, k - 1) + outs[k - 1].1 as real * result(Count(outs[k - 1].0)).value
  }

  /**
   * `compute_values_single(dice_count, sides, remaining_dice, starting_score,
   * current_score, strategy, values)`: the multiplicity-weighted results of
   * every sorted throw of the remaining dice over sides ** remaining_dice.
   * `None` without dice to throw, without sides (the enumeration's check or
   * the division by 0 raises), or when a throw's result raises.
   */
  function SingleValue(diceCount: nat, sides: nat, r: int, s: int, c: int, strategy: Strategy, t: Table): Option<real>
  {
    if r < 1 || sides == 0 then None
    else
      var outs := OutcomeList(sides, r);
      var result := ResultOf(diceCount, strategy, t, s, c);
      if OutcomesDefined(result, outs, |outs|) then
        PowPositive(sides, r);
        Some(Accumulated(result, outs, |outs|) / Pow(sides, r) as real)
      else None
  }

  /**
   * The loop of `compute_values_single`: add multiplicity times the result
   * of each listed throw; `None` as soon as a result raises.
   */
  method AccumulateOutcomes(result: Counter<int> -> Option<real>, outs: seq<(seq<int>, int)>) returns (r: Option<real>)
    ensures r.Some? <==> OutcomesDefined(result, outs, |outs|)
    ensures r.Some? ==> r.value == Accumulated(result, outs, |outs|)
  {
    var tmpValue := 0.0;
    for k := 0 to |outs|
      invariant OutcomesDefined(result, outs, k)
      invariant tmpValue == Accumulated(result, outs, k)
    {
      var counter, multiplicity := Count(outs[k].0), outs[k].1;
      var value := result(counter);
      if value.None? {
        OutcomesUndefinedFrom(result, outs, k, |outs|);
        return None;
      }
      AccumulatedStep(result, outs, k);
      tmpValue := tmpValue + multiplicity as real * value.value;
    }
    return Some(tmpValue);
  }

  lemma {:induction false} AccumulatedStep(result: Counter<int> -> Option<real>, outs: seq<(seq<int>, int)>, k: nat)
    requires k < |outs| && OutcomesDefined(result, outs, k) && result(Count(outs[k].0)).Some?
    ensures OutcomesDefined(result, outs, k + 1)
    ensures Accumulated(result, outs, k + 1) == Accumulated(result, outs, k) + outs[k].1 as real * result(Count(outs[k].0)).value
  {
  }

  /** A throw without result makes every longer prefix undefined. */
  lemma {:induction false} OutcomesUndefinedFrom(result: Counter<int> -> Option<real>, outs: seq<(seq<int>, int)>, k: nat, m: nat)
    requires k < m <= |outs| && result(Count(outs[k].0)).None?
    ensures !OutcomesDefined(result, outs, m)
  {
    if m > k + 1 {
      OutcomesUndefinedFrom(result, outs, k, m - 1);
    }
  }

  /** OutcomesDefined holds as soon as every listed throw has a result. */
  lemma {:induction false} OutcomesDefinedIf(result: Counter<int> -> Option<real>, outs: seq<(seq<int>, int)>, k: nat)
    requires k <= |outs|
    requires forall i :: 0 <= i < k ==> result(Count(outs[i].0)).Some?
    ensures OutcomesDefined(result, outs, k)
  {
    if k > 0 {
      OutcomesDefinedIf(result, outs, k - 1);
    }
  }

  /** `compute_values_single`: enumerate the throws, accumulate, divide by sides ** remaining_dice. */
  method ComputeValuesSingle(diceCount: nat, sides: nat, remainingDice: int, startingScore: int, currentScore: int,
                             strategy: Strategy, values: Values) returns (r: Option<real>)
    ensures r == SingleValue(diceCount, sides, remainingDice, startingScore, currentScore, strategy, values.table)
  {
    if remainingDice < 1 {
      return None;
    }
    var outs := OutcomesChecked(sides, remainingDice);
    if outs.None? {
      return None;
    }
    var tmpValue := AccumulateOutcomes(ResultOf(diceCount, strategy, values.table, startingScore, currentScore), outs.value);
    if tmpValue.None? {
      return None;
    }
    var d := Pow(sides, remainingDice);
    if sides == 0 {
      PowZeroBase(remainingDice);
    } else {
      PowPositive(sides, remainingDice);
    }
    if d == 0 {
      return None;
    }
    return Some(tmpValue.value / d as real);
  }

  // ---------------------------------------------------------------------
  // fill_out_values, compute_values, solve_game
  // ---------------------------------------------------------------------

  /** One step of the fill: compute the cell (r, s, c) with the policy's strategy on t, then set it. */
  function FillStep(diceCount: nat, sides: nat, policy: Policy, t: Table, s: int, c: int, r: int): Option<Table>
  {
    match SingleValue(diceCount, sides, r, s, c, StrategyFor(policy, diceCount, t), t)
    case None => None
    case Some(v) => SetCell(t, r, s, c, v)
  }

  /**
   * The table after filling, from cell (r, s, c) on, in the order of
   * `fill_out_values`: starting score descending, current score descending,
   * remaining dice ascending.  c == -1 and r == dice_count + 1 stand for a
   * finished loop; s == -1 for the finished fill.
   */
  function FillFrom(diceCount: nat, sides: nat, policy: Policy, t: Table, s: int, c: int, r: int): Option<Table>
    requires -1 <= s <= MaxScore && 1 <= r <= diceCount + 1
    requires s >= 0 ==> -1 <= c <= MaxScore - s
    decreases s + 1, c + 1, diceCount + 1 - r
  {
    if s < 0 then Some(t)
    else if c < 0 then FillFrom(diceCount, sides, policy, t, s - 1, MaxScore - (s - 1), 1)
    else if r > diceCount then FillFrom(diceCount, sides, policy, t, s, c - 1, 1)
    else
      match FillStep(diceCount, sides, policy, t, s, c, r)
      case None => None
      case Some(t') => FillFrom(diceCount, sides, policy, t', s, c, r + 1)
  }

  /** The whole fill, from the first cell (1, 200, 0). */
  function Fill(diceCount: nat, sides: nat, policy: Policy, t: Table): Option<Table>
  {
    FillFrom(diceCount, sides, policy, t, MaxScore, 0, 1)
  }

  /** `fill_out_values(dice_count, sides, strategy, values)`: the triple loop; `false` where it raises. */
  method FillOutValues(diceCount: nat, sides: nat, policy: Policy, values: Values) returns (ok: bool)
    modifies values
    ensures ok <==> Fill(diceCount, sides, policy, old(values.table)).Some?
    ensures ok ==> values.table == Fill(diceCount, sides, policy, old(values.table)).value
  {
    ghost var goal := Fill(diceCount, sides, policy, values.table);
    var s := MaxScore;
    while s >= 0
      invariant -1 <= s <= MaxScore
      invariant goal == FillFrom(diceCount, sides, policy, values.table, s, MaxScore - s, 1)
      decreases s + 1
    {
      var stored := FillCurrents(diceCount, sides, policy, values, s);
      if !stored {
        return false;
      }
      s := s - 1;
    }
    return true;
  }

  /** The middle loop of `fill_out_values`: every current score c for the starting score s. */
  method FillCurrents(diceCount: nat, sides: nat, policy: Policy, values: Values, s: int) returns (ok: bool)
    requires 0 <= s <= MaxScore
    modifies values
    ensures !ok ==> FillFrom(diceCount, sides, policy, old(values.table), s, MaxScore - s, 1).None?
    ensures ok ==> FillFrom(diceCount, sides, policy, old(values.table), s, MaxScore - s, 1) ==
                   FillFrom(diceCount, sides, policy, values.table, s - 1, MaxScore - (s - 1), 1)
  {
    ghost var goal := FillFrom(diceCount, sides, policy, values.table, s, MaxScore - s, 1);
    var c := MaxScore - s;
    while c >= 0
      invariant -1 <= c <= MaxScore - s
      invariant goal == FillFrom(diceCount, sides, policy, values.table, s, c, 1)
      decreases c + 1
    {
      var stored := FillDice(diceCount, sides, policy, values, s, c);
      if !stored {
        return false;
      }
      c := c - 1;
    }
    return true;
  }

  /** The innermost loop of `fill_out_values`: set cells (1, s, c) .. (dice_count, s, c). */
  method FillDice(diceCount: nat, sides: nat, policy: Policy, values: Values, s: int, c: int) returns (ok: bool)
    requires 0 <= s <= MaxScore && 0 <= c <= MaxScore - s
    modifies values
    ensures !ok ==> FillFrom(diceCount, sides, policy, old(values.table), s, c, 1).None?
    ensures ok ==> FillFrom(diceCount, sides, policy, old(values.table), s, c, 1) == FillFrom(diceCount, sides, policy, values.table, s, c - 1, 1)
  {
    ghost var goal := FillFrom(diceCount, sides, policy, values.table, s, c, 1);
    var r := 1;
    while r <= diceCount
      invariant 1 <= r <= diceCount + 1
      invariant goal == FillFrom(diceCount, sides, policy, values.table, s, c, r)
      decreases diceCount + 1 - r
    {
      var stored := FillCell(diceCount, sides, policy, values, s, c, r);
      if !stored {
        return false;
      }
      r := r + 1;
    }
    return true;
  }

  /** The body of the innermost loop of `fill_out_values`: compute cell (r, s, c) and set it. */
  method FillCell(diceCount: nat, sides: nat, policy: Policy, values: Values, s: int, c: int, r: int) returns (ok: bool)
    modifies values
    ensures ok <==> FillStep(diceCount, sides, policy, old(values.table), s, c, r).Some?
    ensures ok ==> values.table == FillStep(diceCount, sides, policy, old(values.table), s, c, r).value
  {
    var v := ComputeValuesSingle(diceCount, sides, r, s, c, StrategyFor(policy, diceCount, values.table), values);
    if v.None? {
      return false;
    }
    ok := values.SetValue(r, s, c, v.value);
  }

  /** `compute_values(dice_count, sides, strategy, utility)`: a fresh table filled with one strategy. */
  method ComputeValues(diceCount: nat, sides: nat, strategy: Strategy, utility: PE.Utility) returns (r: Option<Values>)
    ensures r.Some? <==> Fill(diceCount, sides, Fixed(strategy), InitialTable(diceCount, utility)).Some?
    ensures r.Some? ==> fresh(r.value) && r.value.table == Fill(diceCount, sides, Fixed(strategy), InitialTable(diceCount, utility)).value
  {
    var values := new Values(diceCount, utility);
    var ok := FillOutValues(diceCount, sides, Fixed(strategy), values);
    if !ok {
      return None;
    }
    return Some(values);
  }

  /**
   * `solve_game(dice_count, sides, utility)`: a fresh table filled with the
   * optimizing strategy reading it, and that strategy.
   */
  method SolveGame(diceCount: nat, sides: nat, utility: PE.Utility) returns (r: Option<(Values, Strategy)>)
    ensures r.Some? <==> Fill(diceCount, sides, Optimizing, InitialTable(diceCount, utility)).Some?
    ensures r.Some? ==> fresh(r.value.0) && r.value.0.table == Fill(diceCount, sides, Optimizing, InitialTable(diceCount, utility)).value
    ensures r.Some? ==> r.value.1 == OptimizingStrategy(diceCount, r.value.0.table)
  {
    var values := new Values(diceCount, utility);
    var ok := FillOutValues(diceCount, sides, Optimizing, values);
    if !ok {
      return None;
    }
    return Some((values, OptimizingStrategy(diceCount, values.table)));
  }

  // ---------------------------------------------------------------------
  // the fill order: no lookup ever reads an unset cell
  // ---------------------------------------------------------------------

  /** Cell (r1, s1, c1) comes before cell (r, s, c) in the order of `fill_out_values`. */
  predicate Before(s1: int, c1: int, r1: int, s: int, c: int, r: int)
  {
    s1 > s || (s1 == s && (c1 > c || (c1 == c && r1 < r)))
  }

  /** Every cell before (r, s, c) is set. */
  ghost predicate Filled(t: Table, diceCount: nat, s: int, c: int, r: int)
  {
    WellShaped(t, diceCount) &&
    forall r1, s1, c1 :: IsCell(diceCount, r1, s1, c1) && Before(s1, c1, r1, s, c, r) ==> Cell(t, r1, s1, c1).Some?
  }

  /** Every cell is set. */
  ghost predicate Complete(t: Table, diceCount: nat)
  {
    WellShaped(t, diceCount) && forall r, s, c :: IsCell(diceCount, r, s, c) ==> Cell(t, r, s, c).Some?
  }

  /** A strategy that, for every non-empty list of actions, picks a valid index. */
  ghost predicate StrategyAnswers(strategy: Strategy)
  {
    forall counter, s, c, a :: a != [] ==> strategy(counter, s, c, a).Some? && -|a| <= strategy(counter, s, c, a).value.0 < |a|
  }

  ghost predicate PolicyAnswers(policy: Policy)
  {
    policy.Fixed? ==> StrategyAnswers(policy.strategy)
  }

  /** max_strategy picks a valid index for every non-empty list of actions. */
  lemma {:induction false} MaxStrategyAnswers()
    ensures StrategyAnswers(MaxStrategy)
  {
  }

  /**
   * Continuing after an action that scores and leaves fewer dice than were
   * thrown reads the utility of winning or a cell of a higher current score,
   * which the fill order has already set.
   */
  lemma {:induction false} ContinueDefined(t: Table, diceCount: nat, s: int, c: int, r: int, reroll: int, keep: int)
    requires Filled(t, diceCount, s, c, r) && IsCell(diceCount, r, s, c)
    requires 0 <= reroll < r && keep > 0
    ensures Play(t, if reroll != 0 then reroll else diceCount, s, c + keep).Some?
  {
    var r1 := if reroll != 0 then reroll else diceCount;
    if s + c + keep < MaxScore {
      assert IsCell(diceCount, r1, s, c + keep) && Before(s, c + keep, r1, s, c, r);
    }
  }

  /** Every option of the optimizing strategy is defined on a throw whose actions are valid. */
  lemma {:induction false} OptionDefined(diceCount: nat, t: Table, s: int, c: int, r: int, a: seq<Action>, j: nat)
    requires Filled(t, diceCount, s, c, r) && IsCell(diceCount, r, s, c)
    requires ActionsWithin(a, r) && j < 2 * |a|
    ensures OptionValue(diceCount, t, s, c, a, j).Some?
  {
    var action := a[j / 2];
    ContinueDefined(t, diceCount, s, c, r, action.0, action.1);
    StopValue(t, s, c + action.1);
  }

  /** Each throw's result is defined once the cells before (r, s, c) are set. */
  lemma {:induction false} ResultDefined(diceCount: nat, policy: Policy, t: Table, s: int, c: int, r: int, counter: Counter<int>, a: seq<Action>)
    requires Filled(t, diceCount, s, c, r) && IsCell(diceCount, r, s, c) && PolicyAnswers(policy)
    requires ActionsWithin(a, r)
    ensures ActionResult(diceCount, StrategyFor(policy, diceCount, t), t, s, c, counter, a).Some?
  {
    StopValue(t, s, 0);
    if a != [] {
      var strategy := StrategyFor(policy, diceCount, t);
      if policy.Optimizing? {
        forall j | 0 <= j < 2 * |a|
          ensures OptionValue(diceCount, t, s, c, a, j).Some?
        {
          OptionDefined(diceCount, t, s, c, r, a, j);
        }
        OptimizingChoiceDefined(diceCount, t, s, c, a);
        OptimizingChoiceOptimal(diceCount, t, s, c, a);
      }
      var choice := strategy(counter, s, c, a).value;
      var action := PyIndex(a, choice.0).value;
      var k :| 0 <= k < |a| && a[k] == action;
      ContinueDefined(t, diceCount, s, c, r, action.0, action.1);
      StopValue(t, s, c + action.1);
    }
  }

  /** A sorted throw of faces >= 0 has a counter with faces >= 0, counts >= 1 and as many dice as the throw. */
  lemma {:induction false} ThrowCounter(o: seq<int>)
    requires forall i :: 0 <= i < |o| ==> o[i] >= 0
    ensures forall i :: 0 <= i < |Count(o)| ==> Count(o)[i].0 >= 0 && Count(o)[i].1 >= 1
    ensures Sum(Counts(Count(o))) == |o|
  {
    CountSpec(o);
    CountTotal(o);
    var cnt := Count(o);
    forall i | 0 <= i < |cnt|
      ensures cnt[i].0 >= 0 && cnt[i].1 >= 1
    {
      assert Keys(cnt)[i] == cnt[i].0;
      assert cnt[i].0 in o;
    }
  }

  /** The cell (r, s, c) can be computed once the cells before it are set. */
  lemma {:induction false} StepDefined(diceCount: nat, sides: nat, policy: Policy, t: Table, s: int, c: int, r: int)
    requires sides >= 1 && PolicyAnswers(policy)
    requires Filled(t, diceCount, s, c, r) && IsCell(diceCount, r, s, c)
    ensures SingleValue(diceCount, sides, r, s, c, StrategyFor(policy, diceCount, t), t).Some?
  {
    var outs := OutcomeList(sides, r);
    var result := ResultOf(diceCount, StrategyFor(policy, diceCount, t), t, s, c);
    forall i | 0 <= i < |outs|
      ensures result(Count(outs[i].0)).Some?
    {
      var o := outs[i].0;
      CombinationsSound(0, sides, r, o);
      ThrowCounter(o);
      ActionsValid(Count(o));
      ResultDefined(diceCount, policy, t, s, c, r, Count(o), Actions(Count(o)));
    }
    OutcomesDefinedIf(result, outs, |outs|);
  }

  lemma {:induction false} FilledNextScore(t: Table, diceCount: nat, s: int, r: int)
    requires 0 <= s && Filled(t, diceCount, s, -1, r)
    ensures Filled(t, diceCount, s - 1, MaxScore - (s - 1), 1)
  {
  }

  lemma {:induction false} FilledNextCurrent(t: Table, diceCount: nat, s: int, c: int)
    requires Filled(t, diceCount, s, c, diceCount + 1)
    ensures Filled(t, diceCount, s, c - 1, 1)
  {
  }

  lemma {:induction false} FilledAll(t: Table, diceCount: nat, c: int, r: int)
    requires Filled(t, diceCount, -1, c, r)
    ensures Complete(t, diceCount)
  {
  }

  /** Setting cell (r, s, c) after the cells before it moves the frontier one cell on. */
  lemma {:induction false} FilledSet(t: Table, diceCount: nat, s: int, c: int, r: int, v: real)
    requires Filled(t, diceCount, s, c, r) && IsCell(diceCount, r, s, c)
    ensures SetCell(t, r, s, c, v).Some?
    ensures Filled(SetCell(t, r, s, c, v).value, diceCount, s, c, r + 1)
    ensures SetCell(t, r, s, c, v).value.utilities == t.utilities
  {
    SetCellSpec(t, diceCount, r, s, c, v);
    var u := SetCell(t, r, s, c, v).value;
    forall r1, s1, c1 | IsCell(diceCount, r1, s1, c1) && Before(s1, c1, r1, s, c, r + 1)
      ensures Cell(u, r1, s1, c1).Some?
    {
      if (r1, s1, c1) != (r, s, c) {
        assert Before(s1, c1, r1, s, c, r);
      }
    }
  }

  /** Filling from cell (r, s, c) on succeeds, sets every cell and keeps the utilities. */
  ghost predicate FillsOut(diceCount: nat, sides: nat, policy: Policy, t: Table, s: int, c: int, r: int)
    requires -1 <= s <= MaxScore && 1 <= r <= diceCount + 1 && (s >= 0 ==> -1 <= c <= MaxScore - s)
  {
    var f := FillFrom(diceCount, sides, policy, t, s, c, r);
    f.Some? && Complete(f.value, diceCount) && f.value.utilities == t.utilities
  }

  /**
   * Filling from any cell whose predecessors are set succeeds and sets every
   * cell, for the optimizing strategy and for every strategy that picks a
   * valid action: no `play` made while filling reads an unset cell.
   */
  lemma {:induction false} FillFromSucceeds(diceCount: nat, sides: nat, policy: Policy, t: Table, s: int, c: int, r: int)
    requires sides >= 1 && PolicyAnswers(policy)
    requires -1 <= s <= MaxScore && 1 <= r <= diceCount + 1 && (s >= 0 ==> -1 <= c <= MaxScore - s)
    requires Filled(t, diceCount, s, c, r)
    ensures FillsOut(diceCount, sides, policy, t, s, c, r)
    decreases s + 1, c + 1, diceCount + 1 - r
  {
    if s < 0 {
      FilledAll(t, diceCount, c, r);
      FillsOutDone(diceCount, sides, policy, t, c, r);
    } else if c < 0 {
      FilledNextScore(t, diceCount, s, r);
      FillFromSucceeds(diceCount, sides, policy, t, s - 1, MaxScore - (s - 1), 1);
      FillsOutNextScore(diceCount, sides, policy, t, s, c, r);
    } else if r > diceCount {
      FilledNextCurrent(t, diceCount, s, c);
      FillFromSucceeds(diceCount, sides, policy, t, s, c - 1, 1);
      FillsOutNextCurrent(diceCount, sides, policy, t, s, c, r);
    } else {
      var u := FillCellStep(diceCount, sides, policy, t, s, c, r);
      FillFromSucceeds(diceCount, sides, policy, u, s, c, r + 1);
      FillsOutAfterCell(diceCount, sides, policy, t, u, s, c, r);
    }
  }

  /** Filling cell (r, s, c) after its predecessors succeeds and moves the frontier on. */
  lemma {:induction false} FillCellStep(diceCount: nat, sides: nat, policy: Policy, t: Table, s: int, c: int, r: int) returns (u: Table)
    requires sides >= 1 && PolicyAnswers(policy)
    requires 0 <= s <= MaxScore && 1 <= r <= diceCount && 0 <= c <= MaxScore - s
    requires Filled(t, diceCount, s, c, r)
    ensures FillStep(diceCount, sides, policy, t, s, c, r) == Some(u)
    ensures Filled(u, diceCount, s, c, r + 1) && u.utilities == t.utilities
  {
    assert IsCell(diceCount, r, s, c);
    StepDefined(diceCount, sides, policy, t, s, c, r);
    var v := SingleValue(diceCount, sides, r, s, c, StrategyFor(policy, diceCount, t), t).value;
    FilledSet(t, diceCount, s, c, r, v);
    u := SetCell(t, r, s, c, v).value;
  }

  /** Past the last starting score the fill is the table itself. */
  lemma {:induction false} FillsOutDone(diceCount: nat, sides: nat, policy: Policy, t: Table, c: int, r: int)
    requires 1 <= r <= diceCount + 1 && Complete(t, diceCount)
    ensures FillsOut(diceCount, sides, policy, t, -1, c, r)
  {
  }

  /** Past the last current score of s the fill goes on with starting score s - 1. */
  lemma {:induction false} FillsOutNextScore(diceCount: nat, sides: nat, policy: Policy, t: Table, s: int, c: int, r: int)
    requires 0 <= s <= MaxScore && c < 0 && -1 <= c && 1 <= r <= diceCount + 1
    requires FillsOut(diceCount, sides, policy, t, s - 1, MaxScore - (s - 1), 1)
    ensures FillsOut(diceCount, sides, policy, t, s, c, r)
  {
    assert FillFrom(diceCount, sides, policy, t, s, c, r) == FillFrom(diceCount, sides, policy, t, s - 1, MaxScore - (s - 1), 1);
  }

  /** Past the last die of current score c the fill goes on with current score c - 1. */
  lemma {:induction false} FillsOutNextCurrent(diceCount: nat, sides: nat, policy: Policy, t: Table, s: int, c: int, r: int)
    requires 0 <= s <= MaxScore && 0 <= c <= MaxScore - s && r == diceCount + 1
    requires FillsOut(diceCount, sides, policy, t, s, c - 1, 1)
    ensures FillsOut(diceCount, sides, policy, t, s, c, r)
  {
    assert FillFrom(diceCount, sides, policy, t, s, c, r) == FillFrom(diceCount, sides, policy, t, s, c - 1, 1);
  }

  /** A fill that succeeds after cell (r, s, c) succeeds from that cell. */
  lemma {:induction false} FillsOutAfterCell(diceCount: nat, sides: nat, policy: Policy, t: Table, u: Table, s: int, c: int, r: int)
    requires 0 <= s <= MaxScore && 1 <= r <= diceCount && 0 <= c <= MaxScore - s
    requires FillStep(diceCount, sides, policy, t, s, c, r) == Some(u) && u.utilities == t.utilities
    requires FillsOut(diceCount, sides, policy, u, s, c, r + 1)
    ensures FillsOut(diceCount, sides, policy, t, s, c, r)
  {
    assert FillFrom(diceCount, sides, policy, t, s, c, r) == FillFrom(diceCount, sides, policy, u, s, c, r + 1);
  }

  /**
   * `fill_out_values` on a fresh table never fails for dice with sides: every
   * cell gets set and the assertion of `play` never fires, whether the
   * strategy is the optimizing one or any strategy that picks a valid action.
   */
  lemma {:induction false} FillSucceeds(diceCount: nat, sides: nat, policy: Policy, utility: PE.Utility)
    requires sides >= 1 && PolicyAnswers(policy)
    ensures Fill(diceCount, sides, policy, InitialTable(diceCount, utility)).Some?
    ensures Complete(Fill(diceCount, sides, policy, InitialTable(diceCount, utility)).value, diceCount)
    ensures Fill(diceCount, sides, policy, InitialTable(diceCount, utility)).value.utilities == InitialTable(diceCount, utility).utilities
  {
    var t := InitialTable(diceCount, utility);
    assert Filled(t, diceCount, MaxScore, 0, 1);
    FillFromSucceeds(diceCount, sides, policy, t, MaxScore, 0, 1);
  }

  /** solve_game and compute_values with max_strategy succeed for dice with sides. */
  lemma {:induction false} SolversSucceed(diceCount: nat, sides: nat, utility: PE.Utility)
    requires sides >= 1
    ensures Fill(diceCount, sides, Optimizing, InitialTable(diceCount, utility)).Some?
    ensures Fill(diceCount, sides, Fixed(MaxStrategy), InitialTable(diceCount, utility)).Some?
  {
    FillSucceeds(diceCount, sides, Optimizing, utility);
    MaxStrategyAnswers();
    FillSucceeds(diceCount, sides, Fixed(MaxStrategy), utility);
  }

  /** `value(dice_count, sides, utility)`: the solved table's value of a new turn with all dice. */
  function Value(diceCount: nat, sides: nat, utility: PE.Utility): Option<real>
  {
    match Fill(diceCount, sides, Optimizing, InitialTable(diceCount, utility))
    case None => None
    case Some(t) => Play(t, diceCount, 0, 0)
  }

  /** The value of the game exists for at least one die with at least one side. */
  lemma {:induction false} ValueDefined(diceCount: nat, sides: nat, utility: PE.Utility)
    requires diceCount >= 1 && sides >= 1
    ensures Value(diceCount, sides, utility).Some?
  {
    FillSucceeds(diceCount, sides, Optimizing, utility);
    var t := Fill(diceCount, sides, Optimizing, InitialTable(diceCount, utility)).value;
    assert IsCell(diceCount, diceCount, 0, 0);
  }
}
