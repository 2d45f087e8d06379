/**
 * The dice game "thousand" (scores counted in units of 50 points; the game
 * ends at 10000, i.e. 200 units): the scoring actions of a throw, the rule for
 * keeping points, the table of values filled by backward induction, and the
 * optimizing and greedy strategies.
 */
module Thousand {
  import opened Wrappers
  import opened Arith
  import opened Rolls
  import PE = PolicyEval

  // ---------------------------------------------------------------------
  // factorial, permutations and outcomes (a copy of rolls.py's)
  // ---------------------------------------------------------------------

  /** `range(lo, hi)` as a sequence. */
  function Range(lo: int, hi: int): (r: seq<int>)
    ensures |r| == if lo <= hi then hi - lo else 0
    ensures forall i :: 0 <= i < |r| ==> r[i] == lo + i
    decreases hi - lo
  {
    if lo >= hi then [] else Range(lo, hi - 1) + [hi - 1]
  }

  /** `factorial(n) = product(range(1, n + 1))`: the empty product 1 for every n <= 0. */
  function FactorialOf(n: int): int
  {
    Product(Range(1, n + 1))
  }

  /** On n >= 0 this is n!, and on negative n (where math.factorial would raise) it is 1. */
  lemma {:induction false} FactorialOfSpec(n: int)
    ensures n >= 0 ==> FactorialOf(n) == Factorial(n)
    ensures n <= 0 ==> FactorialOf(n) == 1
    decreases if n < 0 then 0 else n
  {
    if n > 0 {
      FactorialOfSpec(n - 1);
      var xs := Range(1, n + 1);
      assert xs[..|xs| - 1] == Range(1, n);
      var f := Factorial(n - 1);
      assert Product(Range(1, n)) == f;
      assert Product(xs) == f * n;
      assert Factorial(n) == n * f;
    } else {
      assert Range(1, n + 1) == [];
    }
  }

  /** The doctest of `factorial`: the first six values. */
  lemma {:induction false} FactorialExamples()
    ensures seq(6, n => FactorialOf(n)) == [1, 1, 2, 6, 24, 120]
  {
    FactorialOfSpec(0);
    FactorialOfSpec(1);
    FactorialOfSpec(2);
    FactorialOfSpec(3);
    FactorialOfSpec(4);
    FactorialOfSpec(5);
  }

  /** `permutations_counter(counts)`: factorial of the total over the product of the factorials. */
  function PermutationsOfCounter<T>(c: Counter<T>): int
  {
    var cs := Counts(c);
    FactorialOf(Sum(cs)) / Product(seq(|cs|, i requires 0 <= i < |cs| => FactorialOf(cs[i])))
  }

  /**
   * `permutations(s)` of this file computes what rolls.py's does, so it is an
   * exact multinomial coefficient, at least 1, with 'cat' giving 6 and 'mom' 3.
   */
  lemma {:induction false} PermutationsAgree<T(!new)>(s: seq<T>)
    ensures PermutationsOfCounter(Count(s)) == Permutations(s)
    ensures PermutationsOfCounter(Count(s)) >= 1
    ensures PermutationsOfCounter(Count("cat")) == 6 && PermutationsOfCounter(Count("mom")) == 3
  {
    CounterAgree(Count(s));
    CounterAgree(Count("cat"));
    CounterAgree(Count("mom"));
    PermutationsExact(s);
    PermutationsExamples();
  }

  lemma {:induction false} CounterAgree<T>(c: Counter<T>)
    ensures Sum(Counts(c)) >= 0
    ensures PermutationsOfCounter(c) == Factorial(Sum(Counts(c))) / Product(MapFactorial(Counts(c)))
  {
    var cs := Counts(c);
    SumNonNegative(cs);
    FactorialOfSpec(Sum(cs));
    forall i | 0 <= i < |cs|
      ensures FactorialOf(cs[i]) == MapFactorial(cs)[i]
    {
      FactorialOfSpec(cs[i]);
    }
    assert seq(|cs|, i requires 0 <= i < |cs| => FactorialOf(cs[i])) == MapFactorial(cs);
  }

  /**
   * `outcomes(sides, dice_count)` of this file: the same enumeration as
   * rolls.py's, but its closing check uses the factorial above, which is 1 on
   * -1 instead of raising.  With no sides the check passes except for a single
   * die; the empty enumeration then fails later, dividing by 0 ** n.
   */
  method OutcomesChecked(sides: nat, diceCount: nat) returns (r: Option<seq<(seq<int>, int)>>)
    ensures r.Some? <==> (sides >= 1 || diceCount != 1)
    ensures r.Some? ==> r.value == OutcomeList(sides, diceCount)
  {
    var outcomes := Combinations(0, sides, diceCount);
    var out, nOutcomes, nDistinct := Tabulate(outcomes);
    assert out == OutcomeList(sides, diceCount);
    OutcomesChecks(sides, diceCount, nOutcomes, nDistinct);
    var expected := FactorialOf(diceCount + sides - 1) / (FactorialOf(diceCount) * FactorialOf(sides - 1));
    NoSidesCheck(sides, diceCount, nDistinct);
    if nOutcomes != Pow(sides, diceCount) || nDistinct != expected {
      return None;
    }
    return Some(out);
  }

  /** The distinct-count check of OutcomesChecked fails exactly for one die with no sides. */
  lemma {:induction false} NoSidesCheck(sides: nat, diceCount: nat, nDistinct: int)
    requires nDistinct == |Combinations(0, sides, diceCount)|
    ensures nDistinct == FactorialOf(diceCount + sides - 1) / (FactorialOf(diceCount) * FactorialOf(sides - 1))
            <==> (sides >= 1 || diceCount != 1)
  {
    FactorialOfSpec(diceCount + sides - 1);
    FactorialOfSpec(diceCount);
    FactorialOfSpec(sides - 1);
    if sides >= 1 {
      DistinctOutcomes(sides, diceCount);
    } else if diceCount == 0 {
      assert Combinations(0, 0, 0) == [[]];
    } else {
      assert Combinations(0, 0, diceCount) == [];
      if diceCount >= 2 {
        FactorialBelow(diceCount);
      }
    }
  }

  /** (n - 1)! // n! is 0 for n >= 2. */
  lemma {:induction false} FactorialBelow(n: nat)
    requires n >= 2
    ensures Factorial(n - 1) / Factorial(n) == 0
  {
    var f := Factorial(n - 1);
    assert Factorial(n) == n * f;
    assert f < n * f;
  }

  // ---------------------------------------------------------------------
  // actions
  // ---------------------------------------------------------------------

  /** A scoring action: (dice left to throw again, points scored in units of 50). */
  type Action = (int, int)

  /**
   * The loop building keep_keys / keep_counts: ones (face 0) and fives
   * (face 4) may be kept in any number, other faces only three or more at a
   * time.
   */
  function KeepOptions(counter: Counter<int>): (r: seq<(int, seq<int>)>)
    ensures |r| <= |counter|
  {
    if counter == [] then []
    else
      var k, v := counter[0].0, counter[0].1;
      var rest := KeepOptions(counter[1..]);
      if k == 0 || k == 4 then [(k, Range(0, v + 1))] + rest
      else if v >= 3 then [(k, [0] + Range(3, v + 1))] + rest
      else rest
  }

  /** `itertools.product(*lists)`, the last list varying fastest. */
  function CartesianProduct(lists: seq<seq<int>>): seq<seq<int>>
  {
    if lists == [] then [[]] else ProductWith(lists[0], CartesianProduct(lists[1..]))
  }

  /** Each element of xs in turn, followed by each of the tails. */
  function ProductWith(xs: seq<int>, tails: seq<seq<int>>): seq<seq<int>>
  {
    if xs == [] then [] else Prepend([xs[0]], tails) + ProductWith(xs[1..], tails)
  }

  lemma {:induction false} PrependSingle(x: int)
    ensures Prepend([x], [[]]) == [[x]]
  {
    var e: seq<int> := [];
    assert [x] + e == [x];
    assert Prepend([x], [e])[0] == [x];
  }

  /** The points, in units of 50, for keeping c dice showing face k. */
  function KeepScore(k: int, c: int): int
  {
    if c >= 3 then
      if k == 0 then 1000 / 50 * (c - 2) else (k + 1) * 100 / 50 * (c - 2)
    else if k == 0 then 100 / 50 * c
    else if k == 4 then 50 / 50 * c
    else 0
  }

  /** The score of keeping counts[i] dice of face keys[i], over `zip(keys, counts)`. */
  function ScoreOf(keys: seq<int>, counts: seq<int>): int
  {
    if keys == [] || counts == [] then 0 else KeepScore(keys[0], counts[0]) + ScoreOf(keys[1..], counts[1..])
  }

  predicate AllZero(counts: seq<int>)
  {
    forall i :: 0 <= i < |counts| ==> counts[i] == 0
  }

  /** The actions of the keep choices: each non-empty choice with the dice it leaves and its score. */
  function ScoredChoices(diceCount: int, keys: seq<int>, choices: seq<seq<int>>): seq<Action>
  {
    if choices == [] then []
    else
      (if AllZero(choices[0]) then [] else [(diceCount - Sum(choices[0]), ScoreOf(keys, choices[0]))])
      + ScoredChoices(diceCount, keys, choices[1..])
  }

  /** The number of faces showing at least twice. */
  function PairCount(counter: Counter<int>): nat
  {
    if counter == [] then 0 else (if counter[0].1 >= 2 then 1 else 0) + PairCount(counter[1..])
  }

  /**
   * `list(actions(counter))`: three pairs (2 x 500 points) and six distinct
   * faces (1500 points) take all dice; then every non-empty way of keeping
   * scoring dice, in `itertools.product` order.
   */
  function Actions(counter: Counter<int>): seq<Action>
  {
    var diceCount := Sum(Counts(counter));
    var options := KeepOptions(counter);
    (if PairCount(counter) >= 3 then [(0, 1000 / 50)] else [])
    + (if |counter| >= 6 then [(0, 1500 / 50)] else [])
    + ScoredChoices(diceCount, KeysOf(options), CartesianProduct(ListsOf(options)))
  }

  /** keep_keys. */
  function KeysOf(options: seq<(int, seq<int>)>): (r: seq<int>)
    ensures |r| == |options|
  {
    seq(|options|, i requires 0 <= i < |options| => options[i].0)
  }

  /** keep_counts. */
  function ListsOf(options: seq<(int, seq<int>)>): (r: seq<seq<int>>)
    ensures |r| == |options|
  {
    seq(|options|, i requires 0 <= i < |options| => options[i].1)
  }

  /**
   * The first doctest of `actions`, in generation order: three pairs take all
   * dice for 1000 points, and one or two ones may be kept.  Sorted, the list
   * is [(0, 20), (4, 4), (5, 2)].
   */
  lemma {:induction false} ActionsThreePairs(c: Counter<int>)
    requires c == [(0, 2), (3, 2), (5, 2)]
    ensures Actions(c) == [(0, 20), (5, 2), (4, 4)]
    ensures multiset(Actions(c)) == multiset([(0, 20), (4, 4), (5, 2)])
  {
    ThreePairsParts(c);
    assert Actions(c) == [(0, 20)] + [] + [(5, 2), (4, 4)];
    ThreePairsSorted();
  }

  lemma {:induction false} ThreePairsSorted()
    ensures multiset([(0, 20), (5, 2), (4, 4)]) == multiset([(0, 20), (4, 4), (5, 2)])
  {
    calc {
      multiset([(0, 20), (5, 2), (4, 4)]);
      multiset([(0, 20)]) + multiset([(5, 2), (4, 4)]);
      multiset([(0, 20)]) + multiset([(4, 4), (5, 2)]);
      multiset([(0, 20), (4, 4), (5, 2)]);
    }
  }

  lemma {:induction false} ThreePairsParts(c: Counter<int>)
    requires c == [(0, 2), (3, 2), (5, 2)]
    ensures var options := KeepOptions(c);
            Sum(Counts(c)) == 6 && PairCount(c) == 3 && |c| == 3 &&
            KeysOf(options) == [0] && ListsOf(options) == [[0, 1, 2]] &&
            ScoredChoices(6, [0], CartesianProduct([[0, 1, 2]])) == [(5, 2), (4, 4)]
  {
    ThreePairsCounts(c);
    assert KeepOptions(c[2..]) == [];
    assert KeepOptions(c[1..]) == [];
    assert Range(0, 3) == [0, 1, 2];
    assert KeepOptions(c) == [(0, [0, 1, 2])];
    CartesianSingle([0, 1, 2]);
    assert CartesianProduct([[0, 1, 2]]) == [[0], [1], [2]];
    ThreePairsChoices();
  }

  lemma {:induction false} ThreePairsCounts(c: Counter<int>)
    requires c == [(0, 2), (3, 2), (5, 2)]
    ensures Sum(Counts(c)) == 6 && PairCount(c) == 3
  {
    assert Counts(c) == [2, 2, 2];
    assert Sum([2, 2, 2]) == 6 by {
      assert [2, 2, 2][..2] == [2, 2] && [2, 2][..1] == [2] && [2][..0] == [];
    }
    assert c[2..][1..] == [];
    assert PairCount(c[2..]) == 1;
    assert c[1..][1..] == c[2..];
    assert PairCount(c[1..]) == 2;
  }

  lemma {:induction false} ThreePairsChoices()
    ensures ScoredChoices(6, [0], [[0], [1], [2]]) == [(5, 2), (4, 4)]
  {
    SumSingle(1);
    SumSingle(2);
    assert ScoredChoices(6, [0], [[2]]) == [(4, 4)];
    assert ScoredChoices(6, [0], [[1], [2]]) == [(5, 2), (4, 4)];
  }

  /**
   * The second doctest of `actions`, in generation order: any number of four
   * ones may be kept.  Sorted, the list is [(0, 40), (1, 20), (2, 4), (3, 2)].
   */
  lemma {:induction false} ActionsFourOnes(c: Counter<int>)
    requires c == [(0, 4)]
    ensures Actions(c) == [(3, 2), (2, 4), (1, 20), (0, 40)]
    ensures multiset(Actions(c)) == multiset([(0, 40), (1, 20), (2, 4), (3, 2)])
  {
    FourOnesParts(c);
    var options := KeepOptions(c);
    FourOnesLists(options);
    FourOnesProduct(ListsOf(options));
    assert Actions(c) == [] + [] + [(3, 2), (2, 4), (1, 20), (0, 40)];
    FourOnesSorted();
  }

  lemma {:induction false} FourOnesSorted()
    ensures multiset([(3, 2), (2, 4), (1, 20), (0, 40)]) == multiset([(0, 40), (1, 20), (2, 4), (3, 2)])
  {
    calc {
      multiset([(3, 2), (2, 4), (1, 20), (0, 40)]);
      multiset([(3, 2), (2, 4)]) + multiset([(1, 20), (0, 40)]);
      multiset([(0, 40), (1, 20)]) + multiset([(2, 4), (3, 2)]);
      multiset([(0, 40), (1, 20), (2, 4), (3, 2)]);
    }
  }

  lemma {:induction false} FourOnesParts(c: Counter<int>)
    requires c == [(0, 4)]
    ensures Sum(Counts(c)) == 4 && PairCount(c) == 1 && |c| == 1
    ensures KeepOptions(c) == [(0, [0, 1, 2, 3, 4])]
  {
    assert Counts(c) == [4];
    SumSingle(4);
    assert Range(0, 5) == [0, 1, 2, 3, 4];
  }

  lemma {:induction false} FourOnesLists(options: seq<(int, seq<int>)>)
    requires options == [(0, [0, 1, 2, 3, 4])]
    ensures KeysOf(options) == [0] && ListsOf(options) == [[0, 1, 2, 3, 4]]
  {
  }

  lemma {:induction false} FourOnesProduct(lists: seq<seq<int>>)
    requires lists == [[0, 1, 2, 3, 4]]
    ensures ScoredChoices(4, [0], CartesianProduct(lists)) == [(3, 2), (2, 4), (1, 20), (0, 40)]
  {
    CartesianSingle([0, 1, 2, 3, 4]);
    assert CartesianProduct(lists) == [[0], [1], [2], [3], [4]];
    FourOnesChoices();
  }

  lemma {:induction false} FourOnesChoices()
    ensures ScoredChoices(4, [0], [[0], [1], [2], [3], [4]]) == [(3, 2), (2, 4), (1, 20), (0, 40)]
  {
    SumSingle(1);
    SumSingle(2);
    SumSingle(3);
    SumSingle(4);
    assert ScoredChoices(4, [0], [[4]]) == [(0, 40)];
    assert ScoredChoices(4, [0], [[3], [4]]) == [(1, 20), (0, 40)];
    assert ScoredChoices(4, [0], [[2], [3], [4]]) == [(2, 4), (1, 20), (0, 40)];
  }

  /** The product of a single list is its elements one by one. */
  lemma {:induction false} CartesianSingle(xs: seq<int>)
    ensures CartesianProduct([xs]) == seq(|xs|, i requires 0 <= i < |xs| => [xs[i]])
  {
    var e: seq<seq<int>> := [[]];
    assert CartesianProduct([xs]) == ProductWith(xs, e) by {
      assert [xs][1..] == [];
    }
    ProductWithSingle(xs);
  }

  lemma {:induction false} ProductWithSingle(xs: seq<int>)
    ensures ProductWith(xs, [[]]) == seq(|xs|, i requires 0 <= i < |xs| => [xs[i]])
  {
    if xs != [] {
      ProductWithSingle(xs[1..]);
      PrependSingle(xs[0]);
    }
  }

  /** Every action scores and leaves between 0 and n - 1 of the n dice to throw again. */
  predicate ActionsWithin(a: seq<Action>, n: int)
  {
    forall i :: 0 <= i < |a| ==> a[i].1 > 0 && 0 <= a[i].0 < n
  }

  /** A choice takes one entry from each list. */
  predicate Fits(choice: seq<int>, lists: seq<seq<int>>)
  {
    |choice| == |lists| && forall j :: 0 <= j < |choice| ==> choice[j] in lists[j]
  }

  lemma {:induction false} CartesianSound(lists: seq<seq<int>>, choice: seq<int>)
    requires choice in CartesianProduct(lists)
    ensures Fits(choice, lists)
  {
    if lists != [] {
      ProductWithSound(lists[0], CartesianProduct(lists[1..]), choice);
      var tail := choice[1..];
      CartesianSound(lists[1..], tail);
      assert forall j :: 1 <= j < |choice| ==> choice[j] == tail[j - 1];
    }
  }

  lemma {:induction false} ProductWithSound(xs: seq<int>, tails: seq<seq<int>>, choice: seq<int>)
    requires choice in ProductWith(xs, tails)
    ensures |choice| >= 1 && choice[0] in xs && choice[1..] in tails
  {
    var head := Prepend([xs[0]], tails);
    if choice in head {
      var k :| 0 <= k < |head| && head[k] == choice;
      assert choice == [xs[0]] + tails[k];
      assert choice[1..] == tails[k];
    } else {
      ProductWithSound(xs[1..], tails, choice);
    }
  }

  /** The score of keeping c dice of face k >= 0 is never negative. */
  lemma {:induction false} KeepScoreNonNegative(k: int, c: int)
    requires k >= 0 && c >= 0
    ensures KeepScore(k, c) >= 0
    ensures c >= 3 ==> KeepScore(k, c) > 0
    ensures (k == 0 || k == 4) && c >= 1 ==> KeepScore(k, c) > 0
  {
    if c >= 3 && k != 0 {
      assert (k + 1) * 100 / 50 == 2 * (k + 1);
    }
  }

  /**
   * For a choice from the keep options of a counter with faces >= 0, the kept
   * dice number between 0 and the counter's total, the score is never negative,
   * and it is positive as soon as any die is kept.
   */
  lemma {:induction false} ChoiceBounds(counter: Counter<int>, choice: seq<int>)
    requires forall i :: 0 <= i < |counter| ==> counter[i].0 >= 0
    requires Fits(choice, ListsOf(KeepOptions(counter)))
    ensures 0 <= Sum(choice) <= Sum(Counts(counter))
    ensures ScoreOf(KeysOf(KeepOptions(counter)), choice) >= 0
    ensures !AllZero(choice) ==> ScoreOf(KeysOf(KeepOptions(counter)), choice) > 0 && Sum(choice) >= 1
  {
    if counter == [] {
      assert choice == [];
    } else {
      var k, v := counter[0].0, counter[0].1;
      var rest := counter[1..];
      assert counter == [counter[0]] + rest;
      SumCons(counter[0], rest);
      var options, restOptions := KeepOptions(counter), KeepOptions(rest);
      forall i | 0 <= i < |rest|
        ensures rest[i].0 >= 0
      {
        assert rest[i] == counter[i + 1];
      }
      if k == 0 || k == 4 || v >= 3 {
        KeptHead(counter, choice);
        var x, tail := choice[0], choice[1..];
        assert choice == [x] + tail;
        ChoiceBounds(rest, tail);
        KeepScoreNonNegative(k, x);
        SumConcat([x], tail);
        SumSingle(x);
        if !AllZero(choice) && x == 0 {
          var j :| 0 <= j < |choice| && choice[j] != 0;
          assert tail[j - 1] != 0;
        }
      } else {
        assert options == restOptions;
        ChoiceBounds(rest, choice);
      }
    }
  }

  /** The first entry of a choice when the counter's first face has keep options. */
  lemma {:induction false} KeptHead(counter: Counter<int>, choice: seq<int>)
    requires counter != [] && Fits(choice, ListsOf(KeepOptions(counter)))
    requires counter[0].0 == 0 || counter[0].0 == 4 || counter[0].1 >= 3
    ensures |choice| >= 1 && Fits(choice[1..], ListsOf(KeepOptions(counter[1..])))
    ensures 0 <= choice[0] <= counter[0].1
    ensures choice[0] == 0 || choice[0] >= 3 || counter[0].0 == 0 || counter[0].0 == 4
    ensures ScoreOf(KeysOf(KeepOptions(counter)), choice)
            == KeepScore(counter[0].0, choice[0]) + ScoreOf(KeysOf(KeepOptions(counter[1..])), choice[1..])
  {
    var options, restOptions := KeepOptions(counter), KeepOptions(counter[1..]);
    assert options == [options[0]] + restOptions;
    OptionsCons(options[0], restOptions);
    var tail := choice[1..];
    forall j | 0 <= j < |tail|
      ensures tail[j] in ListsOf(restOptions)[j]
    {
      assert tail[j] == choice[j + 1];
    }
    KeptEntry(counter[0].0, counter[0].1, options[0], choice[0]);
  }

  lemma {:induction false} OptionsCons(o: (int, seq<int>), rest: seq<(int, seq<int>)>)
    ensures KeysOf([o] + rest) == [o.0] + KeysOf(rest)
    ensures ListsOf([o] + rest) == [o.1] + ListsOf(rest)
  {
  }

  /** The kept count of a face with keep options is one of its options. */
  lemma {:induction false} KeptEntry(k: int, v: int, o: (int, seq<int>), x: int)
    requires o == if k == 0 || k == 4 then (k, Range(0, v + 1)) else (k, [0] + Range(3, v + 1))
    requires x in o.1
    ensures 0 <= x <= v || (x == 0 && v < 0)
    ensures x == 0 || x >= 3 || k == 0 || k == 4
  {
  }

  lemma {:induction false} ScoredChoicesMember(n: int, keys: seq<int>, choices: seq<seq<int>>, a: Action)
    requires a in ScoredChoices(n, keys, choices)
    ensures exists choice :: choice in choices && !AllZero(choice) && a == (n - Sum(choice), ScoreOf(keys, choice))
  {
    if !(!AllZero(choices[0]) && a == (n - Sum(choices[0]), ScoreOf(keys, choices[0]))) {
      ScoredChoicesMember(n, keys, choices[1..], a);
      var choice :| choice in choices[1..] && !AllZero(choice) && a == (n - Sum(choice), ScoreOf(keys, choice));
      assert choice in choices;
    }
  }

  /** Each face's count is at least 1, so a non-empty counter totals at least 1 and has at least as many entries as pairs. */
  lemma {:induction false} CounterTotal(counter: Counter<int>)
    requires forall i :: 0 <= i < |counter| ==> counter[i].1 >= 1
    ensures |counter| >= 1 ==> Sum(Counts(counter)) >= 1
    ensures PairCount(counter) <= |counter|
  {
    if counter != [] {
      var rest := counter[1..];
      assert counter == [counter[0]] + rest;
      SumCons(counter[0], rest);
      assert forall i :: 0 <= i < |rest| ==> rest[i] == counter[i + 1];
      CounterTotal(rest);
      SumNonNegative(Counts(rest));
    }
  }

  /**
   * Every action of a throw (faces >= 0, each counted at least once) scores
   * points and leaves 0 .. n - 1 of its n dice to throw again: keeping no dice
   * is never offered.
   */
  lemma {:induction false} ActionsValid(counter: Counter<int>)
    requires forall i :: 0 <= i < |counter| ==> counter[i].0 >= 0 && counter[i].1 >= 1
    ensures ActionsWithin(Actions(counter), Sum(Counts(counter)))
  {
    var n := Sum(Counts(counter));
    var options := KeepOptions(counter);
    var keys, lists := KeysOf(options), ListsOf(options);
    var choices := CartesianProduct(lists);
    CounterTotal(counter);
    var a := Actions(counter);
    var front := (if PairCount(counter) >= 3 then [(0, 1000 / 50)] else []) + (if |counter| >= 6 then [(0, 1500 / 50)] else []);
    assert a == front + ScoredChoices(n, keys, choices);
    forall i | 0 <= i < |a|
      ensures a[i].1 > 0 && 0 <= a[i].0 < n
    {
      if i >= |front| {
        assert a[i] in ScoredChoices(n, keys, choices);
        ScoredChoicesMember(n, keys, choices, a[i]);
        var choice :| choice in choices && !AllZero(choice) && a[i] == (n - Sum(choice), ScoreOf(keys, choice));
        CartesianSound(lists, choice);
        ChoiceBounds(counter, choice);
      }
    }
  }
}
