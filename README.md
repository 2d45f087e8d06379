# Exact optimal play for single-player dice games, in Dafny

This project models the core of a small Python repository that computes exact
optimal play for dice games by backward induction. It also proves properties
of that model. Python's `fractions.Fraction` becomes Dafny `real`, which is
exact. A Python exception (a failed `assert`, an `IndexError`, a division by
zero) becomes `None` of an `Option`. The lemmas then show when it cannot
happen.

The modules follow the source files:

- `Rolls` (rolls.py): `product`, `permutations` (a multinomial coefficient
  over a `collections.Counter`) and `outcomes`. `outcomes` lists the sorted
  throws of `dice_count` dice with `sides` faces (0-based) with their
  multiplicities, and checks two counts after the loop.
- `PolicyEval` (policyeval.py): the "reroll a contiguous slice" game.
  - `values[n][s]` is the expected utility with n dice left and
    accumulated sum s. It is built row by row.
  - The optimizing strategy picks the best prefix or suffix of the sorted
    throw to throw again.
  - Also modelled: `solve_game`, `value` and `roll_value_function`.
  - A strategy is a function value `(outcome, currentSum) -> Option<reroll>`.
    The closure over the growing table becomes a function of a snapshot of
    the table; `OptimizingReadsFinishedRows` shows that only finished rows
    matter.
- `Thousand` and `ThousandSolver` (thousand.py): the game "thousand",
  scored in units of 50 points.
  - `Thousand` has the file's own copies of `factorial`, `permutations` and
    `outcomes`, and the scoring actions `actions`.
  - `ThousandSolver` has `can_keep_points`, the class `Values` (a 3-D table
    of optional cells plus the utilities, mutated by `set_value`),
    `compute_values_single`, the optimizing strategy and `max_strategy`.
    It also has the triple loop of `fill_out_values`, `compute_values` and
    `solve_game`.
  - The fill order, together with the strictly positive score of every
    action, means no lookup ever reads an unset cell (`FillSucceeds`).
- `Descriptions` (descriptions.py): phrases for dice (`describe_dice`), the
  collapsing of a set of sums into maximal runs (`describe_choices_help`),
  `describe_choices`, `can_cooccur` and `describe_keep_reroll`.
- `DescribeStrategy` (descriptions.py:90-137): the rule-building core of
  `describe_strategy`.
  - It groups the table's targets into tiers of equal value, dropping
    targets already covered.
  - It splits off the targets that cannot co-occur with an earlier tier.
  - It then moves single conditional rules earlier. The swaps work in place
    on an `array`.
- `Thirty` (thirty.py): the utility `my_utility` and `roll_value_optimal`.
- `Bernoulli` (bernoulli.py): the exact recurrence for `count` and
  `all_prob`, and the start-over expectation X.
- `So43965562` (so43965562.py): the recursive generator
  `combinations_summing_to(l, u, n, s, suffix)` and the procedure
  `so43965562`, which appends zipped pairs of compositions to `lists_out[i]`.
- Helper modules: `Wrappers` (Option, Python list indexing), `Arith`
  (powers, factorials, binomials, sums), `Fractions` and `Weights` (algebra of
  the binomial weights).

Two branches are modelled exactly as written. The second is also the
reading `DescribeStrategy.SinkClosedForm` states:

- thousand.py:244 parses as `(reroll_dice and best_reroll is None) or
  best_value < stop_score`. Because line 240 always sets `best_reroll`
  first, the optimizing strategy may choose "stop" after an action that
  leaves no dice (`ThousandSolver.OptimizingMayStopWithNoDice`).
- descriptions.py:133 stops a rule from moving when `n < n2`.

## Model

| member | source | states |
|---|---|---|
| Rolls.Product | rolls.py:9-10 | the product of factors that are all at least 1 is at least 1 (the empty product is 1) |
| Rolls.ProductConcat | rolls.py:9-10 | the fold of `*` over a concatenation is the product of the two folds |
| Rolls.CountSpec | rolls.py:20 | `Counter(s)` has distinct keys, exactly the elements of s, each with its multiplicity in s |
| Rolls.CountTotal | rolls.py:21 | the counts of `Counter(s)` add up to the length of s |
| Rolls.MultinomialFactorial | rolls.py:22 | multinomial times the product of the count factorials is the factorial of the total, so the floor division is exact; the result is at least 1 |
| Rolls.PermutationsExact | rolls.py:13-22 | `permutations(s)` is the multinomial coefficient n! / prod(c_i!) over the element counts, exactly, and at least 1 |
| Rolls.PermutationsExamples | rolls.py:14-19 | 'cat' gives 6 and 'mom' gives 3 |
| Rolls.PermutationsPrefix | rolls.py:13-22 | prefixing k copies of a new element multiplies the count by C(k + \|t\|, k) |
| Rolls.CombinationsSound | rolls.py:26 | every enumerated throw has dice_count entries, is non-decreasing and lies in [lo, hi) |
| Rolls.CombinationsComplete | rolls.py:26 | every non-decreasing throw of that length over [lo, hi) is enumerated |
| Rolls.CombinationsSorted | rolls.py:26 | the throws come in strictly increasing lexicographic order, so none repeats |
| Rolls.CombinationsCount | rolls.py:35-38 | there are C(n + (hi - lo) - 1, n) throws |
| Rolls.CombinationsTotal | rolls.py:34 | the multiplicities of all throws add up to (hi - lo) ** n |
| Rolls.DistinctOutcomes | rolls.py:35-38 | the number of throws is (n + k - 1)! // (n! (k - 1)!) |
| Rolls.OutcomesChecks | rolls.py:34-38 | the two counters the loop builds satisfy both closing assertions |
| Rolls.OutcomeList | rolls.py:25-33 | the i-th pair is the i-th sorted throw with its `permutations` multiplicity |
| Rolls.Tabulate | rolls.py:27-33 | the loop pairs each throw with its multiplicity; its counters end at the multiplicity total and the number of throws |
| Rolls.TabulatedList | rolls.py:29-33 | what the loop yields over the enumeration is the list of sorted throws with multiplicities |
| Rolls.Outcomes | rolls.py:25-38 | succeeds exactly when sides >= 1 (with no sides `factorial(-1)` raises), and then yields that list |
| PolicyEval.RowLength | policyeval.py:21-23 | row n has (dice_count - n)(sides - 1) + 1 entries, none when that is negative |
| PolicyEval.Lookup | policyeval.py:31 | Python list indexing of the table: the entry for an index in range, an `IndexError` for one beyond the list on either side |
| PolicyEval.ComputeValuesSingleRow | policyeval.py:11-34 | the nested loops compute RowSpec: entry s is the multiplicity-weighted sum of the looked-up values divided by sides ** n; it fails where a lookup or the strategy fails |
| PolicyEval.AccumulateRow | policyeval.py:25-33 | after the loops `tmp_value[s]` is the weighted sum over all throws, or the loop fails if some contribution fails |
| PolicyEval.RowUndefined | policyeval.py:28-31 | a single failing strategy call or lookup makes the row fail |
| PolicyEval.RowComplete | policyeval.py:34 | once every contribution exists, the row is `tmp_value` divided by sides ** n > 0 |
| PolicyEval.OutcomeWeight | policyeval.py:25 | the multiplicities of `outcomes(sides, n)` add up to sides ** n |
| PolicyEval.RowBounds | policyeval.py:25-34 | if every earlier-row entry is in [lo, hi], so is every entry of the new row |
| PolicyEval.Candidates | policyeval.py:55-58 | 2n - 1 slices (none for n = 0), each of length below n |
| PolicyEval.CandidatesSpec | policyeval.py:55-58 | the slices are exactly the prefixes of length 0 .. n-1 and the suffixes of length 1 .. n-1 |
| PolicyEval.BestIndex | policyeval.py:76-78 | the chosen index is a maximum, and strictly better than every earlier index (the first maximum wins) |
| PolicyEval.RerollStrategy | policyeval.py:60-80 | the loop returns RerollChoice: the slice of first maximal value, or failure |
| PolicyEval.RerollChoiceShape | policyeval.py:68-80 | the returned reroll is a prefix or a non-empty suffix among the candidates, shorter than the throw |
| PolicyEval.RerollChoiceOptimal | policyeval.py:68-80 | the chosen slice's value is at least every candidate's, and strictly above every earlier candidate's |
| PolicyEval.RerollChoiceDefined | policyeval.py:79 | for a throw of 1 .. dice_count dice on a table of the solver's shape, the strategy never raises and the assertion holds |
| PolicyEval.KeepIndexInRange | policyeval.py:75 | s + keep_sum is a valid index of row len(reroll) |
| PolicyEval.RerollChoiceReadsFinishedRows | policyeval.py:75 | the choice for an n-die throw depends only on rows 0 .. n-1 |
| PolicyEval.OptimizingReadsFinishedRows | policyeval.py:114-119 | the strategy built on the full table agrees, on n-die throws, with the one built on the first n rows |
| PolicyEval.ComputeValues | policyeval.py:37-47 | the loop appends the rows of TableUpTo for a fixed strategy |
| PolicyEval.SolveGame | policyeval.py:85-121 | the loop builds TableUpTo for the optimizing strategy and returns that strategy on the final table |
| PolicyEval.TableShape | policyeval.py:44-46 | n + 1 rows of the solver's shape, row 0 being utility(s) |
| PolicyEval.TableBounds | policyeval.py:37-47 | every entry of the table lies within the range of the utility |
| PolicyEval.SolveGameDefined | policyeval.py:116-119 | solve_game never fails when sides >= 1 |
| PolicyEval.SolveIsComputeValues | policyeval.py:107-121 | compute_values with solve_game's own strategy gives back solve_game's table |
| PolicyEval.ValueDefined | policyeval.py:124-126 | `value` is the single entry of the last row and lies in the range of the utility |
| PolicyEval.ValueOneDie | policyeval.py:124-126 | with one die, the value is the average of the utility over the faces |
| PolicyEval.ValueExpectedThrow | policyeval.py:99-100 | value(1, 6, s -> s) == 5/2 |
| PolicyEval.ValueEvenFace | policyeval.py:102-104 | value(1, 6, even indicator) == 1/2 |
| PolicyEval.RollValueAtZero | policyeval.py:135-139 | at running sum 0 the value of a throw is the optimizing strategy's contribution, at least every candidate's value |
| PolicyEval.RollValueIgnoresCurrentSum | policyeval.py:136 | the reroll is chosen at sum 0 whatever the sum; what results never exceeds the optimal contribution at that sum |
| PolicyEval.RollValueOfCandidate | policyeval.py:135-139 | the result is `values[len(reroll)][current_sum + keep_sum]` for the slice chosen at sum 0 |
| Thousand.FactorialOfSpec | thousand.py:14-19 | the product of range(1, n + 1) is n! for n >= 0 and 1 for n <= 0 |
| Thousand.FactorialExamples | thousand.py:15-18 | factorial(0 .. 5) == [1, 1, 2, 6, 24, 120] |
| Thousand.CounterAgree | thousand.py:22-24 | permutations_counter is total! // prod(count!) |
| Thousand.PermutationsAgree | thousand.py:27-34 | this file's permutations equals rolls.py's, is at least 1, and gives 6 for 'cat' and 3 for 'mom' |
| Thousand.OutcomesChecked | thousand.py:37-49 | the closing checks fail only for one die with no sides (this factorial is 1 on -1); otherwise the result is rolls.py's list |
| Thousand.NoSidesCheck | thousand.py:48-49 | the distinct-count check, evaluated with this file's factorial |
| Thousand.KeptEntry | thousand.py:69-77 | a kept count is between 0 and the face count; faces other than 1 and 5 are kept 0 or at least 3 times |
| Thousand.KeepScoreNonNegative | thousand.py:90-100 | a kept face never scores negative, and scores positive when three or more, or any 1 or 5, are kept |
| Thousand.ChoiceBounds | thousand.py:86-101 | a choice keeps between 0 and all dice, scores at least 0, and scores positive with at least one die kept |
| Thousand.ActionsThreePairs | thousand.py:59-60 | actions({0: 2, 3: 2, 5: 2}) sorts to [(0, 20), (4, 4), (5, 2)] |
| Thousand.ActionsFourOnes | thousand.py:61-62 | actions({0: 4}) sorts to [(0, 40), (1, 20), (2, 4), (3, 2)] |
| Thousand.ActionsValid | thousand.py:79-101 | every action scores > 0 and leaves 0 .. n - 1 of the n dice; keeping nothing is never offered |
| ThousandSolver.CanKeepPoints | thousand.py:104-109 | false exactly when starting = 0 and current <= 20, or starting >= 180 and starting + current < 200 |
| ThousandSolver.CanKeepPointsMonotone | thousand.py:104-109 | scoring more in a turn never removes the right to bank |
| ThousandSolver.CanKeepPointsWinning | thousand.py:104-109 | a winning turn may be banked unless it is a first turn of at most 1000 points |
| ThousandSolver.InitialTable | thousand.py:153-158 | dice_count x 201 x (201 - s) unset cells, and utility(s) for s in 0 .. 200 |
| ThousandSolver.Values.constructor | thousand.py:153-158 | the new object holds the initial table |
| ThousandSolver.Utility | thousand.py:186-190 | scores above 200 are clamped to 200 |
| ThousandSolver.Play | thousand.py:160-169 | utility(200) once starting + current >= 200, otherwise the addressed cell (failing if unset) |
| ThousandSolver.StopValue | thousand.py:177-184 | stop gives utility(start + current) if the points may be kept, else utility(start); nothing gives utility(start) |
| ThousandSolver.SetCellSpec | thousand.py:171-175 | on a cell, set_value sets it and changes no other cell and no utility |
| ThousandSolver.SetCellRejects | thousand.py:173-174 | scores that address no cell fail the assertions |
| ThousandSolver.Values.SetValue | thousand.py:171-175 | the object's new table is the updated one, or unchanged when set_value raises |
| ThousandSolver.OptionsSpec | thousand.py:232-247 | the loop's continue/stop values are defined exactly when every play and stop lookup succeeds |
| ThousandSolver.NoChoice | thousand.py:235-239 | one failing play or stop lookup makes the strategy fail |
| ThousandSolver.RerollStrategy | thousand.py:222-250 | the loop over actions returns OptimizingChoice |
| ThousandSolver.OptimizingChoiceOptimal | thousand.py:231-248 | the chosen option's value is at least every continue/stop option's and strictly above every earlier one's, so continue beats stop at equal value |
| ThousandSolver.OptimizingChoiceDefined | thousand.py:231-248 | with at least one action and no failing lookup, a choice is returned |
| ThousandSolver.OptimizingMayStopWithNoDice | thousand.py:244 | as written, "stop" is chosen after taking all dice when banking is worth more |
| ThousandSolver.MaxStrategy | thousand.py:263-273 | the first action of greatest score; continue iff it takes all dice or the points cannot be kept; failure on no actions |
| ThousandSolver.MaxStrategyAnswers | thousand.py:263-273 | max_strategy answers every non-empty list of actions with a valid index |
| ThousandSolver.AccumulateOutcomes | thousand.py:119-135 | the loop adds multiplicity x result over all throws, or fails where a result fails |
| ThousandSolver.ComputeValuesSingle | thousand.py:112-137 | the method computes SingleValue: the weighted sum divided by sides ** remaining_dice |
| ThousandSolver.ThrowCounter | thousand.py:119 | the Counter of a throw has faces >= 0, counts >= 1 and totals the dice thrown |
| ThousandSolver.ContinueDefined | thousand.py:126-129 | continuing after an action is defined: it reaches the winning utility or a cell already filled |
| ThousandSolver.OptionDefined | thousand.py:235-239 | every continue/stop lookup of the optimizing strategy reads a filled cell |
| ThousandSolver.ResultDefined | thousand.py:122-134 | the result of every throw is defined when the strategy answers |
| ThousandSolver.StepDefined | thousand.py:115-137 | compute_values_single does not fail on a cell whose predecessors in the fill order are set |
| ThousandSolver.FilledSet | thousand.py:199-204 | setting the current cell advances the fill order by one |
| ThousandSolver.FillCell | thousand.py:199-204 | one iteration of the inner loop sets one cell to its computed value |
| ThousandSolver.FillOutValues | thousand.py:193-205 | the triple loop (start descending, current descending, dice ascending) computes Fill |
| ThousandSolver.FillSucceeds | thousand.py:193-205 | for a strategy that always answers, filling never reads an unset cell, and it sets every cell |
| ThousandSolver.SolversSucceed | thousand.py:193-205 | in particular the optimizing strategy and max_strategy fill the whole table |
| ThousandSolver.ComputeValues | thousand.py:208-213 | a new Values object filled with the fixed strategy |
| ThousandSolver.SolveGame | thousand.py:276-281 | a new Values object filled with the optimizing strategy over itself, with that strategy |
| ThousandSolver.ValueDefined | thousand.py:284-285 | `value` is defined for at least one die with at least one side |
| Descriptions.Sorted | descriptions.py:36 | `sorted`: a non-decreasing permutation of the elements |
| Descriptions.SetMin | descriptions.py:33 | `min` of a non-empty set is its least element; it raises on an empty set |
| Descriptions.SetMax | descriptions.py:34 | `max` of a non-empty set is its greatest element; it raises on an empty set |
| Descriptions.DescribeDiceMeaning | descriptions.py:8-23 | every phrase names count dice with total sum + count |
| Descriptions.RunPhraseMeaning | descriptions.py:37-45 | the phrase for a run names n dice with sums from a to b |
| Descriptions.Zip | descriptions.py:36 | `zip` pairs entries up to the shorter length |
| Descriptions.StartsStopsSets | descriptions.py:33-34 | `start` and `stop` are the sums with no predecessor and no successor in ss |
| Descriptions.RunsOfSpec | descriptions.py:33-36 | the reference runs of ss are disjoint, maximal, ascending intervals whose union is ss |
| Descriptions.ZipRuns | descriptions.py:33-36 | zipping sorted start with sorted stop gives exactly those runs |
| Descriptions.RunsSpec | descriptions.py:33-36 | for a non-empty ss the pairs a <= b are disjoint and maximal, and their union is ss; an empty ss raises |
| Descriptions.ChoicePhrasesMeaning | descriptions.py:26-46 | the phrases name exactly the sums of ss, in ascending order, as maximal runs for n > 1; they fail exactly on an empty ss |
| Descriptions.DescribeChoicesHelpDefined | descriptions.py:26-46 | describe_choices_help raises exactly on an empty set of sums |
| Descriptions.DescribeChoicesMeaning | descriptions.py:49-54 | never raises; every dice count has one group, naming exactly the sums s with (n, s) in dice |
| Descriptions.DigitsRoundTrip | descriptions.py:10 | the decimal rendering `%d` reads back as the number |
| Descriptions.CanCooccurExamples | descriptions.py:62-67 | (6,6,5,0,4,0) is True, (6,6,5,25,4,0) is False, (6,6,6,27,3,0) is False |
| Descriptions.CanCooccurSymmetric | descriptions.py:69-73 | symmetric in its two (n, s) pairs |
| Descriptions.CanCooccurMeaning | descriptions.py:57-73 | true iff some throw total is reachable from both choices; with all dice kept on both sides it is s1 == s2 |
| Descriptions.AdviceRoundTrip | descriptions.py:160-173 | whichever branch phrases it, reading the advice against the roll gives back exactly the dice the strategy throws again; a named list is the shorter of keep and reroll (reroll on a tie), kept dice in ascending order; throwing every one of two or more dice again reads "keep" with no dice |
| Descriptions.KeptPartition | descriptions.py:160-163 | keep plus reroll is the roll as a multiset; keep is sorted |
| Descriptions.KeptSlice | descriptions.py:160-163 | throwing a slice again keeps exactly the rest of the roll |
| DescribeStrategy.Descending | descriptions.py:85 | the distinct values, strictly descending (`reversed(v_sort)`) |
| DescribeStrategy.RowMatchesSpec | descriptions.py:93-96 | the comprehension lists exactly the entries of row n equal to v |
| DescribeStrategy.RerollsFromSpec | descriptions.py:93-96 | it fails exactly when a row is missing, and otherwise lists every (n, s) with values[n][s] == v |
| DescribeStrategy.AllDiceMember | descriptions.py:93-97 | a target is listed iff it is on the table with value v |
| DescribeStrategy.CoveredMonotone | descriptions.py:102-105 | a covered target stays covered as `seen` grows |
| DescribeStrategy.SweepStep | descriptions.py:99-108 | a target is added to `seen` and `dice` iff it is not already covered |
| DescribeStrategy.SweepSpec | descriptions.py:99-108 | `seen` only grows, by exactly the kept targets; every swept target is kept or covered |
| DescribeStrategy.TiersSpec | descriptions.py:90-110 | tiers are ordered by strictly descending value; `seen` is exactly their targets |
| DescribeStrategy.TiersFailFrom | descriptions.py:95 | a missing row makes the sweep fail |
| DescribeStrategy.BuildTiers | descriptions.py:90-110 | the loop over values computes the tiers |
| DescribeStrategy.SplitTierSpec | descriptions.py:114-124 | a tier splits into targets that cannot, and those that can, co-occur with an earlier tier, with nothing lost |
| DescribeStrategy.PartitionSpec | descriptions.py:112-124 | every target lands once, either unconditional or conditional; empty conditional rules are dropped |
| DescribeStrategy.AnyConflict | descriptions.py:118-119 | the `any` over earlier tiers computes Conflicts |
| DescribeStrategy.SplitTiers | descriptions.py:112-124 | the loops compute Partition |
| DescribeStrategy.SinkClosedForm | descriptions.py:129-136 | the single rule at j moves up past exactly the run of rules directly above it that it may pass (single, keeping no more dice, cannot co-occur), stopping under the first it may not pass or at the front; the rules it passes each move down one place and nothing else moves |
| DescribeStrategy.SinkPreserves | descriptions.py:129-136 | moving a single rule permutes the rules, and rules of several targets keep their index |
| DescribeStrategy.PassPreserves | descriptions.py:125-136 | the whole pass is a permutation that keeps multi-target rules in place |
| DescribeStrategy.SinkRule | descriptions.py:129-136 | the inner loop's swaps in place give Sink |
| DescribeStrategy.BubbleSingles | descriptions.py:125-136 | the outer loop's swaps in place give Pass |
| DescribeStrategy.RulesSpec | descriptions.py:90-137 | every tier target appears once among the rules; the first rule is unconditional, the others are non-empty and conditional |
| DescribeStrategy.DescribeStrategyRules | descriptions.py:90-137 | the method's result is Rules |
| Thirty.MyUtility | thirty.py:14-32 | defined exactly for s <= 30 (beyond, `above[s - 25]` raises) |
| Thirty.MyUtilityBelow | thirty.py:24-25 | 30 for s < 5 |
| Thirty.MyUtilityLose | thirty.py:26-28 | -min(14, 24 - s), in [-14, -1], for 5 <= s < 24 |
| Thirty.MyUtilityDeadOn | thirty.py:29-30 | 6 at s = 24 |
| Thirty.MyUtilityAbove | thirty.py:31-32 | 4(s - 24) for 25 <= s <= 30 |
| Thirty.MyUtilityIncreasingAbove | thirty.py:20 | strictly increasing on 25 .. 30 |
| Thirty.MyUtilityNotMonotone | thirty.py:20 | not monotone: 6 at 24 is more than 4 at 25, and 30 below 5 is more than 6 |
| Thirty.ThirtyRow0 | thirty.py:75-76 | with six six-sided dice, row 0 has 31 entries, all given by my_utility and within [-14, 30] |
| Thirty.RollValueOptimal | thirty.py:35-39 | defined exactly when solving succeeds |
| Thirty.RollValueOptimalDefined | thirty.py:38 | solving fails only with no sides and a die to throw |
| Thirty.RollValueOptimalBest | thirty.py:35-39 | a throw's value at sum 0 exists, is at least every candidate's value, and lies in the utility's range |
| Thirty.ThirtyRollValueRange | thirty.py:88-89 | with six six-sided dice and my_utility, every throw is worth between -14 and 30 |
| Bernoulli.SuccessProbabilityRange | bernoulli.py:8 | p = 1/sides is in (0, 1], and below 1 for two or more sides |
| Bernoulli.SixDice | bernoulli.py:6-10 | p = 1/6 and no_success = (5/6) ** 6 = 15625/46656 |
| Bernoulli.Multiplicity | bernoulli.py:24-26 | the factorial quotient is C(n, o) |
| Bernoulli.BinomWeight | bernoulli.py:27-30 | outcome_prob is the binomial weight C(n, o) p^o (1 - p)^(n - o) |
| Bernoulli.StepNext | bernoulli.py:31-38 | one outcome adds 0 for o = 0, else all_prob[n - o] w and (o + count[n - o]) w; prob_sum grows by w |
| Bernoulli.Outcomes | bernoulli.py:19-38 | the inner loop's accumulators are the recurrence sums and the weight total |
| Bernoulli.WeightsSumToOne | bernoulli.py:38-39 | the weights over o = 0 .. n sum to exactly 1, so the assertion holds |
| Bernoulli.AllProbs | bernoulli.py:15 | all_prob has n + 1 entries after n rows |
| Bernoulli.Counts | bernoulli.py:14 | count has n + 1 entries after n rows |
| Bernoulli.AllProbsBounds | bernoulli.py:36 | 0 <= all_prob[k] <= 1 - (1 - p)^k |
| Bernoulli.CountsBounds | bernoulli.py:37 | 0 <= count[k] <= k |
| Bernoulli.ExpectedSuccesses | bernoulli.py:5-51 | main's loops give no_success, `count`, `all_prob` and X as the recurrences define them |
| Bernoulli.StartOverFixedPoint | bernoulli.py:44-51 | X is defined iff a != 1, and then X = a (dice_count + X) + (1 - a) c |
| Bernoulli.StartOverDefined | bernoulli.py:50-51 | with two or more sides and a die, a < 1 and the division is defined; with no dice it raises |
| So43965562.NoNumbers | so43965562.py:43-44 | n = 0 yields exactly (suffix,) iff s == 0, else nothing |
| So43965562.OneNumber | so43965562.py:45-46 | n = 1 yields exactly one tuple iff l <= s <= u |
| So43965562.Sound | so43965562.py:27-53 | every tuple is n non-decreasing entries in [l, u] summing to s, followed by the suffix |
| So43965562.Complete | so43965562.py:47-53 | every such composition is yielded |
| So43965562.NoDuplicates | so43965562.py:47-53 | no tuple is yielded twice |
| So43965562.GroupedByLast | so43965562.py:47-53 | the tuples are grouped by their last element, descending |
| So43965562.OutOfRangeEmpty | so43965562.py:50-53 | nothing is yielded unless n l <= s <= n u |
| So43965562.PruneSound | so43965562.py:53 | a branch skipped by the bail-out holds no solution |
| So43965562.ExampleTwoOfFour | so43965562.py:30-32 | (0, 5, 4, 2) gives [(0,0,0,2), (0,0,1,1)] |
| So43965562.ExampleFiveOfThree | so43965562.py:33-35 | (0, 5, 3, 5) gives [(0,0,5), (0,1,4), (0,2,3), (1,1,3), (1,2,2)] |
| So43965562.ExampleTwelveOfThree | so43965562.py:36-38 | (0, 5, 3, 12) gives [(2,5,5), (3,4,5), (4,4,4)] |
| So43965562.ExampleThirtyFourOfTwo | so43965562.py:39-41 | (16, 36, 2, 34) gives [(16,18), (17,17)] |
| So43965562.ZipPairs | so43965562.py:22 | the comprehension computes `zip(t1, t2)`, the same Descriptions.Zip that descriptions.py:36 uses: the pairs up to the shorter length |
| So43965562.ProductZipLength | so43965562.py:21-23 | \|combs1\| x \|combs2\| lists are appended |
| So43965562.ProductZipMember | so43965562.py:21-23 | every appended list zips some t1 of combs1 with some t2 of combs2 |
| So43965562.ProductZipHas | so43965562.py:21-23 | every such pair is zipped and appended |
| So43965562.PairedLengths | so43965562.py:17-22 | every appended list has n pairs; its first components sum to len(list1[i]) and its second to len(list2[i]) |
| So43965562.AppendRow | so43965562.py:21-23 | appending for one t1 changes only lists_out[i] |
| So43965562.AppendProduct | so43965562.py:21-23 | the product loop appends the zipped pairs to lists_out[i] only |
| So43965562.AppendAll | so43965562.py:14-23 | for one n every lists_out[i] grows by its pairings |
| So43965562.So43965562 | so43965562.py:11-23 | fails iff the three lengths differ, leaving lists_out unchanged; otherwise each lists_out[i] grows by its pairings for n = 7, then n = 8 |

## Left out

- Console I/O is not modelled: `play_game`, `input_roll` and `main` in
  thousand.py and thirty.py, the table and rule printing of
  `describe_strategy`, the debug prints of thousand.py, and all printing in
  bernoulli.py.
- `random_strategy` and self-play use `random`, so they are not modelled.
- Floating point is not modelled: `float(...)`, `%.2f` and the
  `div=operator.truediv` option. Every division is the exact
  `fractions.Fraction` one, as `real`.
- `ensure_numeric` is not modelled. Utilities return `real` directly, so its
  bool-to-int coercion has nothing to do.
- `compute_value`, `optimal_values` and `compute_strategy` are not modelled
  separately. They are one-line projections of `compute_values` and
  `solve_game`.
- `combinations_summing_to(sides, n, s)`, `outcomes_summing_to` and
  `subsequences` are imported by descriptions.py but not defined in rolls.py.
  They are not part of this model.
  - The first and last are parameters (`DescribeStrategy.Helpers`) with no
    assumed properties.
  - The `p_win` and `n_outcomes` report that uses `outcomes_summing_to` is
    not modelled.
- Python's `set` iteration order in `describe_choices` is a parameter
  (`order`) and is left unspecified. The display ranks `v_sort.index` are
  not modelled.
- Generators (`outcomes`, `actions`, `combinations_summing_to`) are
  evaluated in full, as sequences. An assertion after a generator's last
  `yield` is a failure of the whole list, not a failure after the yields.
- So43965562.So43965562: `lists_out` is an array of sequence values.
  Aliasing between its Python lists, where one list object could appear
  twice, is not modelled. `lower` and `upper` are ordinary parameters rather
  than defaults.
- Bernoulli.ExpectedSuccesses: requires sides >= 1. The source fixes 6
  sides, and `Fraction(1, 0)` would raise. The dice count and the sides are
  parameters instead of the constants 6 and 6.
- Descriptions: only the phrase structure and the digits of `%d` are
  modelled. English wording beyond the rendered phrases is not.
