/**
 * Plain-English advice from a solved "reroll a slice" game: the phrases of
 * `describe_dice` and `describe_choices`, the collapsing of a set of sums
 * into runs, the `can_cooccur` test and `describe_keep_reroll`.  Sums are
 * 0-based (every die shows one pip less than printed), so n dice summing to
 * s show a total of s + n.
 */
module Descriptions {
  import opened Wrappers
  import opened Arith
  import PE = PolicyEval

  // ---------------------------------------------------------------------
  // sorting (Python's `sorted`, `min` and `max`)
  // ---------------------------------------------------------------------

  /** The largest element of a non-empty multiset. */
  function MaxOf(m: multiset<int>): (x: int)
    requires m != multiset{}
    ensures x in m && forall y :: y in m ==> y <= x
  {
    MaxExists(m);
    var x :| x in m && forall y :: y in m ==> y <= x;
    x
  }

  lemma {:induction false} MaxExists(m: multiset<int>)
    requires m != multiset{}
    ensures exists x :: x in m && forall y :: y in m ==> y <= x
    decreases |m|
  {
    var z :| z in m;
    var rest := m - multiset{z};
    assert forall y :: y in m && y != z ==> y in rest by {
      forall y | y in m && y != z
        ensures y in rest
      {
        assert rest[y] == m[y];
      }
    }
    if rest == multiset{} {
      assert forall y :: y in m ==> y <= z;
    } else {
      MaxExists(rest);
      var w :| w in rest && forall y :: y in rest ==> y <= w;
      var x := if z <= w then w else z;
      assert x in m;
      assert forall y :: y in m ==> y <= x;
    }
  }

  /** `sorted(m)`: the elements of m, each as often as it occurs, in ascending order. */
  function Sorted(m: multiset<int>): (r: seq<int>)
    ensures multiset(r) == m
    ensures forall i, j :: 0 <= i < j < |r| ==> r[i] <= r[j]
    decreases |m|
  {
    if m == multiset{} then []
    else
      var x := MaxOf(m);
      var s := Sorted(m - multiset{x});
      AppendMax(s, x, m);
      s + [x]
  }

  /**
   * A sorted list of the elements of m other than its maximum x, with x
   * appended, is sorted and holds the elements of m.
   */
  lemma {:induction false} AppendMax(s: seq<int>, x: int, m: multiset<int>)
    requires x in m && multiset(s) == m - multiset{x}
    requires forall y :: y in m ==> y <= x
    requires forall i, j :: 0 <= i < j < |s| ==> s[i] <= s[j]
    ensures multiset(s + [x]) == m
    ensures forall i, j :: 0 <= i < j < |s + [x]| ==> (s + [x])[i] <= (s + [x])[j]
  {
    forall i | 0 <= i < |s|
      ensures s[i] <= x
    {
      assert s[i] in multiset(s);
    }
    assert multiset(s + [x]) == multiset(s) + multiset{x};
  }

  /** The ends of a sorted list are its least and its greatest element. */
  lemma {:induction false} SortedEnds(r: seq<int>)
    requires r != [] && forall i, j :: 0 <= i < j < |r| ==> r[i] <= r[j]
    ensures forall y :: y in r ==> r[0] <= y <= r[|r| - 1]
  {
    forall y | y in r
      ensures r[0] <= y <= r[|r| - 1]
    {
      var i :| 0 <= i < |r| && r[i] == y;
    }
  }

  /** The sorted elements of a set are its elements, strictly ascending. */
  lemma {:induction false} SortedSet(ss: set<int>)
    ensures |Sorted(multiset(ss))| == |ss|
    ensures forall i, j :: 0 <= i < j < |Sorted(multiset(ss))| ==> Sorted(multiset(ss))[i] < Sorted(multiset(ss))[j]
    ensures forall x :: x in Sorted(multiset(ss)) <==> x in ss
  {
    var r := Sorted(multiset(ss));
    assert |r| == |ss| by {
      assert |multiset(r)| == |r|;
      assert |multiset(ss)| == |ss|;
    }
    SortedStrict(multiset(ss));
    forall x
      ensures x in r <==> x in ss
    {
      assert x in r <==> x in multiset(r);
      assert x in ss <==> x in multiset(ss);
    }
  }

  /** Sorting a multiset in which nothing occurs twice gives a strictly ascending list. */
  lemma {:induction false} SortedStrict(m: multiset<int>)
    requires forall x :: m[x] <= 1
    ensures forall i, j :: 0 <= i < j < |Sorted(m)| ==> Sorted(m)[i] < Sorted(m)[j]
  {
    var r := Sorted(m);
    assert multiset(r) == m;
    forall i, j | 0 <= i < j < |r|
      ensures r[i] < r[j]
    {
      if r[i] == r[j] {
        TwoOccurrences(r, i, j);
        assert false;
      }
    }
  }

  /** A value at two positions of a list occurs at least twice in it. */
  lemma {:induction false} TwoOccurrences(r: seq<int>, i: nat, j: nat)
    requires i < j < |r| && r[i] == r[j]
    ensures multiset(r)[r[i]] >= 2
  {
    assert r == r[..i] + [r[i]] + r[i + 1..j] + [r[j]] + r[j + 1..];
  }

  /** Adding an element above all others to a set appends it to the sorted list. */
  lemma {:induction false} SortedAddMax(ss: set<int>, x: int)
    requires forall y :: y in ss ==> y < x
    ensures Sorted(multiset(ss + {x})) == Sorted(multiset(ss)) + [x]
  {
    var m := multiset(ss + {x});
    assert x in m;
    assert MaxOf(m) == x;
    assert m - multiset{x} == multiset(ss);
  }

  /** `min(ss)` on a set; `None` is the `ValueError` of an empty set. */
  function SetMin(ss: set<int>): (r: Option<int>)
    ensures r.Some? <==> ss != {}
    ensures r.Some? ==> r.value in ss && forall y :: y in ss ==> r.value <= y
  {
    SortedSet(ss);
    var sorted := Sorted(multiset(ss));
    if sorted == [] then None
    else
      SortedEnds(sorted);
      Some(sorted[0])
  }

  /** `max(ss)` on a set; `None` is the `ValueError` of an empty set. */
  function SetMax(ss: set<int>): (r: Option<int>)
    ensures r.Some? <==> ss != {}
    ensures r.Some? ==> r.value in ss && forall y :: y in ss ==> y <= r.value
  {
    SortedSet(ss);
    var sorted := Sorted(multiset(ss));
    if sorted == [] then None
    else
      SortedEnds(sorted);
      Some(sorted[|sorted| - 1])
  }

  // ---------------------------------------------------------------------
  // phrases: describe_dice and describe_choices_help
  // ---------------------------------------------------------------------

  /** The phrases the descriptions are made of. */
  datatype Phrase =
    | A(face: int)                       // "a 5"
    | Ones(count: int)                   // "3 1s"
    | AllOf(count: int, face: int)       // "3 6s"
    | AndATwo(rest: Phrase)              // "<rest> and a 2"
    | Making(count: int, total: int)     // "3 dice making 11"
    | AtMost(count: int, total: int)     // "3 dice making at most 7"
    | AtLeast(count: int, total: int)    // "3 dice making at least 15"
    | Between(count: int, low: int, high: int)   // "3 dice making between 7 and 9"

  /** How many dice a phrase speaks of. */
  function DiceOf(p: Phrase): int
  {
    match p
    case A(_) => 1
    case Ones(count) => count
    case AllOf(count, _) => count
    case AndATwo(rest) => DiceOf(rest) + 1
    case Making(count, _) => count
    case AtMost(count, _) => count
    case AtLeast(count, _) => count
    case Between(count, _, _) => count
  }

  /** The least and greatest 0-based sum of dice that a phrase describes, on dice with `sides` sides. */
  function SumsOf(p: Phrase, sides: int): (int, int)
  {
    match p
    case A(face) => (face - 1, face - 1)
    case Ones(_) => (0, 0)
    case AllOf(count, face) => (count * (face - 1), count * (face - 1))
    case AndATwo(rest) => (SumsOf(rest, sides).0 + 1, SumsOf(rest, sides).1 + 1)
    case Making(count, total) => (total - count, total - count)
    case AtMost(count, total) => (0, total - count)
    case AtLeast(count, total) => (total - count, count * (sides - 1))
    case Between(count, low, high) => (low - count, high - count)
  }

  /** `describe_dice(sides, count, sum)`: count dice with 0-based sum `sum`. */
  function DescribeDice(sides: int, count: int, sum: int): Phrase
    decreases sum
  {
    if count == 1 then A(sum + 1)
    else if sum == 0 then Ones(count)
    else if sum == count * (sides - 1) then AllOf(count, sides)
    else if sum == 1 then AndATwo(DescribeDice(sides, count - 1, 0))
    else Making(count, sum + count)
  }

  /**
   * Whichever phrase `describe_dice` picks, it speaks of exactly `count` dice
   * making exactly the 0-based sum `sum`, that is the printed total sum + count.
   */
  lemma {:induction false} DescribeDiceMeaning(sides: int, count: int, sum: int)
    ensures DiceOf(DescribeDice(sides, count, sum)) == count
    ensures SumsOf(DescribeDice(sides, count, sum), sides) == (sum, sum)
    decreases sum
  {
    if count != 1 && sum != 0 && sum != count * (sides - 1) && sum == 1 {
      DescribeDiceMeaning(sides, count - 1, 0);
    }
  }

  /** One run a .. b of sums of n dice (lines 37-45). */
  function RunPhrase(sides: int, n: int, a: int, b: int): Phrase
  {
    if a == b then DescribeDice(sides, n, a)
    else if a == 0 then AtMost(n, b + n)
    else if b == n * (sides - 1) then AtLeast(n, a + n)
    else Between(n, a + n, b + n)
  }

  /** The phrase of a run speaks of n dice making exactly the sums a .. b. */
  lemma {:induction false} RunPhraseMeaning(sides: int, n: int, a: int, b: int)
    ensures DiceOf(RunPhrase(sides, n, a, b)) == n
    ensures SumsOf(RunPhrase(sides, n, a, b), sides) == (a, b)
  {
    if a == b {
      DescribeDiceMeaning(sides, n, a);
    }
  }

  // ---------------------------------------------------------------------
  // collapsing a set of sums into runs (lines 33-36)
  // ---------------------------------------------------------------------

  /** s - 1 is not in ss. */
  predicate Opens(ss: set<int>, s: int)
  {
    s - 1 !in ss
  }

  /** s + 1 is not in ss. */
  predicate Closes(ss: set<int>, s: int)
  {
    s + 1 !in ss
  }

  /** `start`: the least sum and every sum whose predecessor is missing; `None` on an empty set. */
  function Starts(ss: set<int>): Option<set<int>>
  {
    match SetMin(ss)
    case None => None
    case Some(m) => Some({m} + set s | s in ss && Opens(ss, s))
  }

  /** `stop`: the greatest sum and every sum whose successor is missing; `None` on an empty set. */
  function Stops(ss: set<int>): Option<set<int>>
  {
    match SetMax(ss)
    case None => None
    case Some(m) => Some({m} + set s | s in ss && Closes(ss, s))
  }

  /** Python's `zip`: pairs up to the shorter length. */
  function Zip(a: seq<int>, b: seq<int>): (r: seq<(int, int)>)
    ensures |r| == Min(|a|, |b|)
    ensures forall i :: 0 <= i < |r| ==> r[i] == (a[i], b[i])
  {
    if a == [] || b == [] then [] else [(a[0], b[0])] + Zip(a[1..], b[1..])
  }

  /** `zip(sorted(start), sorted(stop))`: the runs of ss as pairs (first, last). */
  function Runs(ss: set<int>): Option<seq<(int, int)>>
  {
    match (Starts(ss), Stops(ss))
    case (Some(start), Some(stop)) => Some(Zip(Sorted(multiset(start)), Sorted(multiset(stop))))
    case _ => None
  }

  /**
   * The maximal runs of a set, built independently of `Runs` by taking off
   * the largest element: it extends the last run when its predecessor is
   * present and starts a run of its own otherwise.
   */
  ghost function RunsOf(ss: set<int>): seq<(int, int)>
    decreases |ss|
  {
    if ss == {} then []
    else
      assert SetMax(ss).Some?;
      var m :| m in ss && forall y :: y in ss ==> y <= m;
      AddRun(RunsOf(ss - {m}), m, m - 1 in ss)
  }

  /** Puts m after the runs r: on the end of the last run when `joined`, as a run of its own otherwise. */
  function AddRun(r: seq<(int, int)>, m: int, joined: bool): seq<(int, int)>
  {
    if joined && r != [] then r[..|r| - 1] + [(r[|r| - 1].0, m)]
    else r + [(m, m)]
  }

  /** Every run is a non-empty interval first .. last. */
  ghost predicate NonEmptyRuns(r: seq<(int, int)>)
  {
    forall i :: 0 <= i < |r| ==> r[i].0 <= r[i].1
  }

  /** Runs are in ascending order with at least one missing value between them. */
  ghost predicate Separated(r: seq<(int, int)>)
  {
    forall i :: 0 <= i < |r| - 1 ==> r[i].1 + 1 < r[i + 1].0
  }

  /** No run can be extended by one at either end. */
  ghost predicate Maximal(r: seq<(int, int)>, ss: set<int>)
  {
    forall i :: 0 <= i < |r| ==> r[i].0 - 1 !in ss && r[i].1 + 1 !in ss
  }

  /** The runs cover exactly ss. */
  ghost predicate Covers(r: seq<(int, int)>, ss: set<int>)
  {
    forall x :: x in ss <==> exists i :: 0 <= i < |r| && r[i].0 <= x <= r[i].1
  }

  /** The runs as intervals: ordered with gaps between them, maximal, and covering exactly ss. */
  ghost predicate IsRuns(r: seq<(int, int)>, ss: set<int>)
  {
    NonEmptyRuns(r) && Separated(r) && Maximal(r, ss) && Covers(r, ss)
  }

  /** RunsOf yields the maximal runs of ss, the last one ending at the greatest element. */
  lemma {:induction false} RunsOfSpec(ss: set<int>)
    ensures IsRuns(RunsOf(ss), ss)
    ensures RunsOf(ss) == [] <==> ss == {}
    ensures ss != {} ==> EndsAtMax(RunsOf(ss), ss)
    decreases |ss|
  {
    if ss != {} {
      assert SetMax(ss).Some?;
      var m :| m in ss && forall y :: y in ss ==> y <= m;
      var rest := ss - {m};
      RunsOfUnfold(ss, m);
      assert ss == rest + {m};
      RunsOfSpec(rest);
      AddRunSpec(RunsOf(rest), rest, m);
    }
  }

  /** The last run ends at the greatest element of ss. */
  ghost predicate EndsAtMax(r: seq<(int, int)>, ss: set<int>)
  {
    r != [] && r[|r| - 1].1 in ss && forall y :: y in ss ==> y <= r[|r| - 1].1
  }

  lemma {:induction false} RunsOfUnfold(ss: set<int>, m: int)
    requires m in ss && forall y :: y in ss ==> y <= m
    ensures RunsOf(ss) == AddRun(RunsOf(ss - {m}), m, m - 1 in ss)
  {
  }

  /** AddRun keeps the runs of rest the runs of rest + {m} when m is above every element of rest. */
  lemma {:induction false} AddRunSpec(r: seq<(int, int)>, rest: set<int>, m: int)
    requires IsRuns(r, rest) && (r == [] <==> rest == {})
    requires forall y :: y in rest ==> y < m
    requires r != [] ==> EndsAtMax(r, rest)
    ensures IsRuns(AddRun(r, m, m - 1 in rest + {m}), rest + {m})
    ensures EndsAtMax(AddRun(r, m, m - 1 in rest + {m}), rest + {m})
  {
    assert (m - 1 in rest + {m}) == (m - 1 in rest);
    if m - 1 in rest {
      AddRunJoined(r, rest, m);
    } else {
      AddRunApart(r, rest, m);
    }
  }

  lemma {:induction false} AddRunJoined(r: seq<(int, int)>, rest: set<int>, m: int)
    requires IsRuns(r, rest) && (r == [] <==> rest == {})
    requires forall y :: y in rest ==> y < m
    requires r != [] ==> EndsAtMax(r, rest)
    requires m - 1 in rest
    ensures IsRuns(AddRun(r, m, true), rest + {m}) && EndsAtMax(AddRun(r, m, true), rest + {m})
  {
    LastIsBelow(r, rest, m);
    RunsExtend(r, rest, m);
    var out := AddRun(r, m, true);
    assert out == r[..|r| - 1] + [(r[|r| - 1].0, m)];
    EndsAtNewMax(out, rest, m);
  }

  lemma {:induction false} AddRunApart(r: seq<(int, int)>, rest: set<int>, m: int)
    requires IsRuns(r, rest) && (r == [] <==> rest == {})
    requires forall y :: y in rest ==> y < m
    requires r != [] ==> EndsAtMax(r, rest)
    requires m - 1 !in rest
    ensures IsRuns(AddRun(r, m, false), rest + {m}) && EndsAtMax(AddRun(r, m, false), rest + {m})
  {
    RunsAppend(r, rest, m);
    var out := AddRun(r, m, false);
    assert out == r + [(m, m)];
    EndsAtNewMax(out, rest, m);
  }

  /** Runs whose last one ends at m end at the greatest element of rest + {m}. */
  lemma {:induction false} EndsAtNewMax(out: seq<(int, int)>, rest: set<int>, m: int)
    requires out != [] && out[|out| - 1].1 == m
    requires forall y :: y in rest ==> y < m
    ensures EndsAtMax(out, rest + {m})
  {
  }

  /** When m - 1 is in rest, the last run of rest ends at m - 1. */
  lemma {:induction false} LastIsBelow(r: seq<(int, int)>, rest: set<int>, m: int)
    requires r != [] <==> rest != {}
    requires forall y :: y in rest ==> y < m
    requires r != [] ==> EndsAtMax(r, rest)
    requires m - 1 in rest
    ensures r != [] && r[|r| - 1].1 == m - 1
  {
    assert r != [];
    var last := r[|r| - 1].1;
    assert last in rest && m - 1 <= last;
  }

  /** Adding m just above the last run of rest extends that run. */
  lemma {:induction false} RunsExtend(r: seq<(int, int)>, rest: set<int>, m: int)
    requires IsRuns(r, rest) && r != [] && r[|r| - 1].1 == m - 1
    requires forall y :: y in rest ==> y < m
    ensures IsRuns(r[..|r| - 1] + [(r[|r| - 1].0, m)], rest + {m})
  {
    var out := r[..|r| - 1] + [(r[|r| - 1].0, m)];
    var k := |r| - 1;
    assert forall i :: 0 <= i < k ==> out[i] == r[i];
    assert out[k] == (r[k].0, m);
    assert Separated(out) by {
      forall i | 0 <= i < |out| - 1
        ensures out[i].1 + 1 < out[i + 1].0
      {
        assert out[i + 1].0 == r[i + 1].0;
      }
    }
    ExtendMaximal(r, rest, m, out);
    ExtendCovers(r, rest, m, out);
  }

  lemma {:induction false} ExtendMaximal(r: seq<(int, int)>, rest: set<int>, m: int, out: seq<(int, int)>)
    requires IsRuns(r, rest) && r != [] && r[|r| - 1].1 == m - 1
    requires forall y :: y in rest ==> y < m
    requires |out| == |r| && out[|r| - 1] == (r[|r| - 1].0, m)
    requires forall i :: 0 <= i < |r| - 1 ==> out[i] == r[i]
    ensures Maximal(out, rest + {m})
  {
    var k := |r| - 1;
    forall i | 0 <= i < |out|
      ensures out[i].0 - 1 !in rest + {m} && out[i].1 + 1 !in rest + {m}
    {
      if i < k {
        RunsGap(r, rest, i, k);
      }
    }
  }

  lemma {:induction false} ExtendCovers(r: seq<(int, int)>, rest: set<int>, m: int, out: seq<(int, int)>)
    requires Covers(r, rest) && NonEmptyRuns(r) && r != [] && r[|r| - 1].1 == m - 1
    requires |out| == |r| && out[|r| - 1] == (r[|r| - 1].0, m)
    requires forall i :: 0 <= i < |r| - 1 ==> out[i] == r[i]
    ensures Covers(out, rest + {m})
  {
    var k := |r| - 1;
    forall x | x in rest + {m}
      ensures exists i :: 0 <= i < |out| && out[i].0 <= x <= out[i].1
    {
      if x == m {
        assert out[k].0 <= x <= out[k].1;
      } else {
        var i :| 0 <= i < |r| && r[i].0 <= x <= r[i].1;
        assert out[i].0 <= x <= out[i].1;
      }
    }
    forall x, i | 0 <= i < |out| && out[i].0 <= x <= out[i].1
      ensures x in rest + {m}
    {
      if x != m {
        assert r[i].0 <= x <= r[i].1;
      }
    }
  }

  /** Adding m with m - 1 missing, above every element of rest, makes a run of its own. */
  lemma {:induction false} RunsAppend(r: seq<(int, int)>, rest: set<int>, m: int)
    requires IsRuns(r, rest) && m - 1 !in rest
    requires forall y :: y in rest ==> y < m
    requires r != [] ==> r[|r| - 1].1 < m
    ensures IsRuns(r + [(m, m)], rest + {m})
  {
    var out := r + [(m, m)];
    assert Separated(out) by {
      forall i | 0 <= i < |out| - 1
        ensures out[i].1 + 1 < out[i + 1].0
      {
        if i + 1 == |r| {
          assert r[i].0 <= r[i].1 <= r[i].1;
          assert r[i].1 in rest;
        }
      }
    }
    AppendMaximal(r, rest, m);
    AppendCovers(r, rest, m);
  }

  lemma {:induction false} AppendMaximal(r: seq<(int, int)>, rest: set<int>, m: int)
    requires IsRuns(r, rest) && m - 1 !in rest
    requires forall y :: y in rest ==> y < m
    ensures Maximal(r + [(m, m)], rest + {m})
  {
    var out := r + [(m, m)];
    forall i | 0 <= i < |out|
      ensures out[i].0 - 1 !in rest + {m} && out[i].1 + 1 !in rest + {m}
    {
      if i < |r| {
        assert r[i].0 <= r[i].1 <= r[i].1;
        assert r[i].1 in rest;
      }
    }
  }

  lemma {:induction false} AppendCovers(r: seq<(int, int)>, rest: set<int>, m: int)
    requires Covers(r, rest)
    ensures Covers(r + [(m, m)], rest + {m})
  {
    var out := r + [(m, m)];
    forall x | x in rest + {m}
      ensures exists i :: 0 <= i < |out| && out[i].0 <= x <= out[i].1
    {
      if x == m {
        assert out[|r|].0 <= x <= out[|r|].1;
      } else {
        var i :| 0 <= i < |r| && r[i].0 <= x <= r[i].1;
        assert out[i].0 <= x <= out[i].1;
      }
    }
    forall x, i | 0 <= i < |out| && out[i].0 <= x <= out[i].1
      ensures x in rest + {m}
    {
      if i < |r| {
        assert r[i].0 <= x <= r[i].1;
      }
    }
  }

  /** Every run ends more than one below the start of any later run. */
  lemma {:induction false} RunsGap(r: seq<(int, int)>, ss: set<int>, i: nat, j: nat)
    requires IsRuns(r, ss) && i < j < |r|
    ensures r[i].1 + 1 < r[j].0
    decreases j - i
  {
    if i + 1 < j {
      RunsGap(r, ss, i + 1, j);
    }
  }
  /** The starts of the runs of ss: every element whose predecessor is missing. */
  function StartSet(ss: set<int>): set<int>
  {
    set s | s in ss && Opens(ss, s)
  }

  /** The ends of the runs of ss: every element whose successor is missing. */
  function StopSet(ss: set<int>): set<int>
  {
    set s | s in ss && Closes(ss, s)
  }

  /** The least element is a start and the greatest a stop, so `{min(ss)} | ...` adds nothing. */
  lemma {:induction false} StartsStopsSets(ss: set<int>)
    requires ss != {}
    ensures Starts(ss) == Some(StartSet(ss)) && Stops(ss) == Some(StopSet(ss))
  {
    var lo := SetMin(ss).value;
    var hi := SetMax(ss).value;
    assert Opens(ss, lo) && Closes(ss, hi);
    assert {lo} + StartSet(ss) == StartSet(ss);
    assert {hi} + StopSet(ss) == StopSet(ss);
  }

  /** Taking off the greatest element m when m - 1 is present. */
  lemma {:induction false} SetsJoined(ss: set<int>, m: int)
    requires m in ss && forall y :: y in ss ==> y <= m
    requires m - 1 in ss
    ensures StartSet(ss) == StartSet(ss - {m})
    ensures StopSet(ss) == (StopSet(ss - {m}) - {m - 1}) + {m}
    ensures m - 1 in StopSet(ss - {m})
  {
    var rest := ss - {m};
    assert Closes(rest, m - 1);
    forall s | s in ss
      ensures Opens(ss, s) <==> s != m && Opens(rest, s)
    {
    }
    forall s | s in ss
      ensures Closes(ss, s) <==> s == m || (s != m - 1 && s in rest && Closes(rest, s))
    {
    }
  }

  /** Taking off the greatest element m when m - 1 is missing. */
  lemma {:induction false} SetsApart(ss: set<int>, m: int)
    requires m in ss && forall y :: y in ss ==> y <= m
    requires m - 1 !in ss
    ensures StartSet(ss) == StartSet(ss - {m}) + {m}
    ensures StopSet(ss) == StopSet(ss - {m}) + {m}
  {
    var rest := ss - {m};
    forall s | s in ss
      ensures Opens(ss, s) <==> s == m || (s in rest && Opens(rest, s))
    {
    }
    forall s | s in ss
      ensures Closes(ss, s) <==> s == m || (s in rest && Closes(rest, s))
    {
    }
  }

  /** The sorted starts and stops of ss, zipped. */
  function ZipOf(ss: set<int>): seq<(int, int)>
  {
    Zip(Sorted(multiset(StartSet(ss))), Sorted(multiset(StopSet(ss))))
  }

  /** As many starts as stops. */
  predicate Balanced(ss: set<int>)
  {
    |Sorted(multiset(StartSet(ss)))| == |Sorted(multiset(StopSet(ss)))|
  }

  /** Zipping the sorted starts with the sorted stops yields RunsOf. */
  lemma {:induction false} ZipRuns(ss: set<int>)
    ensures Balanced(ss) && ZipOf(ss) == RunsOf(ss)
    decreases |ss|
  {
    if ss == {} {
      assert StartSet(ss) == {} && StopSet(ss) == {};
    } else {
      assert SetMax(ss).Some?;
      var m :| m in ss && forall y :: y in ss ==> y <= m;
      RunsOfUnfold(ss, m);
      ZipRuns(ss - {m});
      if m - 1 in ss {
        ZipRunsJoined(ss, m);
      } else {
        ZipRunsApart(ss, m);
      }
    }
  }

  lemma {:induction false} ZipRunsJoined(ss: set<int>, m: int)
    requires m in ss && forall y :: y in ss ==> y <= m
    requires m - 1 in ss
    requires Balanced(ss - {m})
    ensures Balanced(ss) && ZipOf(ss) == AddRun(ZipOf(ss - {m}), m, true)
  {
    var rest := ss - {m};
    SetsJoined(ss, m);
    var b0 := SortedStopsJoined(ss, m);
    ZipJoined(Sorted(multiset(StartSet(rest))), Sorted(multiset(StopSet(rest))), b0, m);
  }

  /** The sorted stops of ss are those of ss - {m} with the last one, m - 1, moved up to m. */
  lemma {:induction false} SortedStopsJoined(ss: set<int>, m: int) returns (b0: seq<int>)
    requires m in ss && forall y :: y in ss ==> y <= m
    requires m - 1 in ss
    ensures Sorted(multiset(StopSet(ss - {m}))) == b0 + [m - 1]
    ensures Sorted(multiset(StopSet(ss))) == b0 + [m]
  {
    SetsJoined(ss, m);
    b0 := SortedReplaceTop(StopSet(ss - {m}), StopSet(ss), m - 1, m);
  }

  /** Replacing the greatest element of a set by a greater one replaces the last sorted element. */
  lemma {:induction false} SortedReplaceTop(s: set<int>, t: set<int>, top: int, m: int) returns (b0: seq<int>)
    requires top in s && top < m && forall y :: y in s ==> y <= top
    requires t == (s - {top}) + {m}
    ensures Sorted(multiset(s)) == b0 + [top]
    ensures Sorted(multiset(t)) == b0 + [m]
  {
    var below := s - {top};
    b0 := Sorted(multiset(below));
    assert s == below + {top};
    assert forall y :: y in below ==> y < top;
    SortedAddMax(below, top);
    SortedAddMax(below, m);
  }

  lemma {:induction false} ZipRunsApart(ss: set<int>, m: int)
    requires m in ss && forall y :: y in ss ==> y <= m
    requires m - 1 !in ss
    requires Balanced(ss - {m})
    ensures Balanced(ss) && ZipOf(ss) == AddRun(ZipOf(ss - {m}), m, false)
  {
    var rest := ss - {m};
    assert forall y :: y in StartSet(rest) ==> y < m;
    assert forall y :: y in StopSet(rest) ==> y < m;
    SetsApart(ss, m);
    SortedAddMax(StartSet(rest), m);
    SortedAddMax(StopSet(rest), m);
    ZipApart(Sorted(multiset(StartSet(rest))), Sorted(multiset(StopSet(rest))), m);
  }

  lemma {:induction false} ZipJoined(a: seq<int>, b: seq<int>, b0: seq<int>, m: int)
    requires |a| == |b| && b == b0 + [m - 1]
    ensures |a| == |b0 + [m]|
    ensures Zip(a, b0 + [m]) == AddRun(Zip(a, b), m, true)
  {
    var z := Zip(a, b);
    assert z != [];
    assert Zip(a, b0 + [m]) == z[..|z| - 1] + [(z[|z| - 1].0, m)];
  }

  lemma {:induction false} ZipApart(a: seq<int>, b: seq<int>, m: int)
    requires |a| == |b|
    ensures Zip(a + [m], b + [m]) == AddRun(Zip(a, b), m, false)
  {
    assert Zip(a + [m], b + [m]) == Zip(a, b) + [(m, m)];
  }

  /**
   * `zip(sorted(start), sorted(stop))` on a non-empty set of sums yields its
   * maximal runs: each pair (a, b) has a <= b, the pairs are ascending with a
   * missing value between consecutive runs, a - 1 and b + 1 are not in ss,
   * and the union of the runs is exactly ss.  On an empty set `min` raises.
   */
  lemma {:induction false} RunsSpec(ss: set<int>)
    ensures Runs(ss).Some? <==> ss != {}
    ensures ss != {} ==> IsRuns(Runs(ss).value, ss) && |Runs(ss).value| >= 1
  {
    if ss != {} {
      StartsStopsSets(ss);
      assert Runs(ss) == Some(ZipOf(ss));
      ZipRuns(ss);
      RunsOfSpec(ss);
    }
  }
  // ---------------------------------------------------------------------
  // describe_choices_help and describe_choices
  // ---------------------------------------------------------------------

  /**
   * The phrases of `describe_choices_help(sides, n, ss)`: one "a <face>" per
   * sum for a single die, one phrase per run of sums otherwise; `None` where
   * the source raises on an empty set of sums.
   */
  function ChoicePhrases(sides: int, n: int, ss: set<int>): Option<seq<Phrase>>
  {
    if n == 1 then
      var sorted := Sorted(multiset(ss));
      if sorted == [] then None else Some(FacePhrases(sorted))
    else
      match Runs(ss)
      case None => None
      case Some(runs) => Some(RunPhrases(sides, n, runs))
  }

  /** "a <s + 1>" for every sum s of one die. */
  function FacePhrases(sums: seq<int>): seq<Phrase>
  {
    seq(|sums|, i requires 0 <= i < |sums| => A(sums[i] + 1))
  }

  /** One phrase per run of sums of n dice. */
  function RunPhrases(sides: int, n: int, runs: seq<(int, int)>): seq<Phrase>
  {
    seq(|runs|, i requires 0 <= i < |runs| => RunPhrase(sides, n, runs[i].0, runs[i].1))
  }

  /** The phrases describe sums of n dice, in ascending order, covering exactly ss. */
  ghost predicate Describes(ps: seq<Phrase>, sides: int, n: int, ss: set<int>)
  {
    (forall i :: 0 <= i < |ps| ==> DiceOf(ps[i]) == n && SumsOf(ps[i], sides).0 <= SumsOf(ps[i], sides).1) &&
    (forall i :: 0 <= i < |ps| - 1 ==> SumsOf(ps[i], sides).1 < SumsOf(ps[i + 1], sides).0) &&
    (forall x :: x in ss <==> exists i :: 0 <= i < |ps| && SumsOf(ps[i], sides).0 <= x <= SumsOf(ps[i], sides).1)
  }

  /**
   * `describe_choices_help` names exactly the sums in ss, each once, in
   * ascending order, as sums of n dice; for more than one die every phrase is
   * a maximal run of ss.  It raises exactly on an empty set of sums.
   */
  lemma {:induction false} ChoicePhrasesMeaning(sides: int, n: int, ss: set<int>)
    ensures ChoicePhrases(sides, n, ss).Some? <==> ss != {}
    ensures ChoicePhrases(sides, n, ss).Some? ==> Describes(ChoicePhrases(sides, n, ss).value, sides, n, ss)
    ensures ChoicePhrases(sides, n, ss).Some? && n != 1 ==>
              var ps := ChoicePhrases(sides, n, ss).value;
              forall i :: 0 <= i < |ps| ==> SumsOf(ps[i], sides).0 - 1 !in ss && SumsOf(ps[i], sides).1 + 1 !in ss
  {
    if n == 1 {
      SortedSet(ss);
      var sorted := Sorted(multiset(ss));
      if sorted != [] {
        FacePhrasesMeaning(sides, ss, sorted);
      }
    } else {
      RunsSpec(ss);
      if ss != {} {
        RunPhrasesMeaning(sides, n, ss, Runs(ss).value);
      }
    }
  }

  lemma {:induction false} FacePhrasesMeaning(sides: int, ss: set<int>, sorted: seq<int>)
    requires forall i, j :: 0 <= i < j < |sorted| ==> sorted[i] < sorted[j]
    requires forall x :: x in sorted <==> x in ss
    ensures Describes(FacePhrases(sorted), sides, 1, ss)
  {
    var ps := FacePhrases(sorted);
    assert forall i :: 0 <= i < |ps| ==> SumsOf(ps[i], sides) == (sorted[i], sorted[i]);
    forall x | x in ss
      ensures exists i :: 0 <= i < |ps| && SumsOf(ps[i], sides).0 <= x <= SumsOf(ps[i], sides).1
    {
      var i :| 0 <= i < |sorted| && sorted[i] == x;
      assert SumsOf(ps[i], sides).0 <= x <= SumsOf(ps[i], sides).1;
    }
    forall x, i | 0 <= i < |ps| && SumsOf(ps[i], sides).0 <= x <= SumsOf(ps[i], sides).1
      ensures x in ss
    {
      assert x == sorted[i];
    }
  }

  lemma {:induction false} RunPhrasesMeaning(sides: int, n: int, ss: set<int>, runs: seq<(int, int)>)
    requires IsRuns(runs, ss)
    ensures Describes(RunPhrases(sides, n, runs), sides, n, ss)
    ensures var ps := RunPhrases(sides, n, runs);
            forall i :: 0 <= i < |ps| ==> SumsOf(ps[i], sides).0 - 1 !in ss && SumsOf(ps[i], sides).1 + 1 !in ss
  {
    var ps := RunPhrases(sides, n, runs);
    forall i | 0 <= i < |runs|
      ensures DiceOf(ps[i]) == n && SumsOf(ps[i], sides) == runs[i]
    {
      RunPhraseMeaning(sides, n, runs[i].0, runs[i].1);
    }
  }

  /** `describe_choices_help(sides, n, ss)`: the phrases joined into one alternative. */
  function DescribeChoicesHelp(sides: int, n: int, ss: set<int>): Option<string>
  {
    match ChoicePhrases(sides, n, ss)
    case None => None
    case Some(ps) =>
      var words := seq(|ps|, i requires 0 <= i < |ps| => Render(ps[i]));
      if n == 1 then
        if |ss| == 1 then Some(words[0])
        else if words == [] then None
        else Some(Join(", ", words[..|words| - 1]) + " or " + words[|words| - 1])
      else Some(Join(" or ", words))
  }

  /** describe_choices_help raises exactly on an empty set of sums. */
  lemma {:induction false} DescribeChoicesHelpDefined(sides: int, n: int, ss: set<int>)
    ensures DescribeChoicesHelp(sides, n, ss).Some? <==> ss != {}
  {
    ChoicePhrasesMeaning(sides, n, ss);
    if n == 1 && ss != {} {
      SortedSet(ss);
    }
  }

  /** The dice counts of a list of choices (n, s). */
  function CountsOf(dice: seq<(int, int)>): set<int>
  {
    set i | 0 <= i < |dice| :: dice[i].0
  }

  /** The sums of the choices that keep n dice. */
  function SumsWith(dice: seq<(int, int)>, n: int): set<int>
  {
    set i | 0 <= i < |dice| && dice[i].0 == n :: dice[i].1
  }

  /** The alternatives of `describe_choices`, one per dice count, in the order `order`. */
  function ChoiceTexts(sides: int, dice: seq<(int, int)>, order: seq<int>): Option<seq<string>>
  {
    if order == [] then Some([])
    else
      match (DescribeChoicesHelp(sides, order[0], SumsWith(dice, order[0])), ChoiceTexts(sides, dice, order[1..]))
      case (Some(text), Some(rest)) => Some([text] + rest)
      case _ => None
  }

  /**
   * `describe_choices(sides, dice)`: one alternative per number of dice kept,
   * joined by "or".  The source iterates over a Python set of dice counts,
   * whose order is not specified; `order` is that iteration order, any
   * listing of the dice counts without repetition.
   */
  function DescribeChoices(sides: int, dice: seq<(int, int)>, order: seq<int>): (r: Option<string>)
    requires multiset(order) == multiset(CountsOf(dice))
  {
    match ChoiceTexts(sides, dice, order)
    case None => None
    case Some(texts) => Some(Join(" or ", texts))
  }

  /**
   * describe_choices never raises, and its alternatives describe exactly the
   * choices of `dice`: the group of n dice names exactly the sums s with
   * (n, s) in dice, and every dice count of dice has its group.
   */
  lemma {:induction false} DescribeChoicesMeaning(sides: int, dice: seq<(int, int)>, order: seq<int>)
    requires multiset(order) == multiset(CountsOf(dice))
    ensures DescribeChoices(sides, dice, order).Some?
    ensures forall n :: n in order <==> n in CountsOf(dice)
    ensures forall n, s :: (n, s) in dice <==> n in order && s in SumsWith(dice, n)
    ensures forall n :: n in order ==>
              ChoicePhrases(sides, n, SumsWith(dice, n)).Some? &&
              Describes(ChoicePhrases(sides, n, SumsWith(dice, n)).value, sides, n, SumsWith(dice, n))
  {
    forall n
      ensures n in order <==> n in CountsOf(dice)
    {
      assert n in order <==> n in multiset(order);
    }
    ChoiceTextsDefined(sides, dice, order);
    forall n | n in order
      ensures ChoicePhrases(sides, n, SumsWith(dice, n)).Some? &&
              Describes(ChoicePhrases(sides, n, SumsWith(dice, n)).value, sides, n, SumsWith(dice, n))
    {
      var i :| 0 <= i < |dice| && dice[i].0 == n;
      assert dice[i].1 in SumsWith(dice, n);
      ChoicePhrasesMeaning(sides, n, SumsWith(dice, n));
    }
    forall n, s
      ensures (n, s) in dice <==> n in order && s in SumsWith(dice, n)
    {
      if (n, s) in dice {
        var i :| 0 <= i < |dice| && dice[i] == (n, s);
        assert n in CountsOf(dice);
        assert s in SumsWith(dice, n);
      }
    }
  }

  lemma {:induction false} ChoiceTextsDefined(sides: int, dice: seq<(int, int)>, order: seq<int>)
    requires forall n :: n in order ==> n in CountsOf(dice)
    ensures ChoiceTexts(sides, dice, order).Some?
  {
    if order != [] {
      var n := order[0];
      assert n in CountsOf(dice);
      var i :| 0 <= i < |dice| && dice[i].0 == n;
      assert dice[i].1 in SumsWith(dice, n);
      DescribeChoicesHelpDefined(sides, n, SumsWith(dice, n));
      ChoiceTextsDefined(sides, dice, order[1..]);
    }
  }

  // ---------------------------------------------------------------------
  // rendering phrases as text
  // ---------------------------------------------------------------------

  /** The character of a decimal digit. */
  function DigitChar(d: int): char
    requires 0 <= d < 10
  {
    ('0' as int + d) as char
  }

  /** The decimal digits of n. */
  function Digits(n: nat): (r: string)
    ensures |r| >= 1
    decreases n
  {
    if n < 10 then [DigitChar(n)] else Digits(n / 10) + [DigitChar(n % 10)]
  }

  /** `'%d' % n`. */
  function Decimal(n: int): string
  {
    if n < 0 then "-" + Digits(-n) else Digits(n)
  }

  /** The number a string of decimal digits stands for. */
  function DigitsValue(s: string): int
  {
    if s == [] then 0 else DigitsValue(s[..|s| - 1]) * 10 + (s[|s| - 1] as int - '0' as int)
  }

  /** Reading the digits back gives the number: no two numbers print alike. */
  lemma {:induction false} DigitsRoundTrip(n: nat)
    ensures DigitsValue(Digits(n)) == n
    decreases n
  {
    if n >= 10 {
      DigitsRoundTrip(n / 10);
      var d := Digits(n);
      assert d[..|d| - 1] == Digits(n / 10);
    }
  }

  /** Python's `sep.join(words)`. */
  function Join(sep: string, words: seq<string>): string
  {
    if words == [] then ""
    else if |words| == 1 then words[0]
    else words[0] + sep + Join(sep, words[1..])
  }

  /** The English text of a phrase. */
  function Render(p: Phrase): string
  {
    match p
    case A(face) => "a " + Decimal(face)
    case Ones(count) => Decimal(count) + " 1s"
    case AllOf(count, face) => Decimal(count) + " " + Decimal(face) + "s"
    case AndATwo(rest) => Render(rest) + " and a 2"
    case Making(count, total) => Decimal(count) + " dice making " + Decimal(total)
    case AtMost(count, total) => Decimal(count) + " dice making at most " + Decimal(total)
    case AtLeast(count, total) => Decimal(count) + " dice making at least " + Decimal(total)
    case Between(count, low, high) => Decimal(count) + " dice making between " + Decimal(low) + " and " + Decimal(high)
  }

  // ---------------------------------------------------------------------
  // can_cooccur
  // ---------------------------------------------------------------------

  /**
   * `can_cooccur(sides, dice, n1, s1, n2, s2)`: whether a throw of `dice`
   * dice can offer both keeping n1 dice summing to s1 and keeping n2 dice
   * summing to s2.
   */
  function CanCooccur(sides: int, dice: int, n1: int, s1: int, n2: int, s2: int): bool
  {
    if n1 == n2 && n2 == dice then s1 == s2
    else
      var max1 := s1 + (dice - n1) * (sides - 1);
      var max2 := s2 + (dice - n2) * (sides - 1);
      s1 <= max2 && s2 <= max1
  }

  lemma {:induction false} CanCooccurExamples()
    ensures CanCooccur(6, 6, 5, 0, 4, 0)
    ensures !CanCooccur(6, 6, 5, 25, 4, 0)
    ensures !CanCooccur(6, 6, 6, 27, 3, 0)
  {
  }

  /** The test does not depend on the order of the two choices. */
  lemma {:induction false} CanCooccurSymmetric(sides: int, dice: int, n1: int, s1: int, n2: int, s2: int)
    ensures CanCooccur(sides, dice, n1, s1, n2, s2) == CanCooccur(sides, dice, n2, s2, n1, s1)
  {
  }

  /**
   * Keeping n dice summing to s leaves a throw total between s and
   * s + (dice - n) * (sides - 1); two choices can co-occur exactly when these
   * ranges of totals meet.  With all dice kept on both sides this is s1 == s2.
   */
  lemma {:induction false} CanCooccurMeaning(sides: int, dice: int, n1: int, s1: int, n2: int, s2: int)
    requires sides >= 1 && n1 <= dice && n2 <= dice
    ensures CanCooccur(sides, dice, n1, s1, n2, s2) <==>
              exists total :: Reaches(sides, dice, n1, s1, total) && Reaches(sides, dice, n2, s2, total)
    ensures n1 == dice && n2 == dice ==> (CanCooccur(sides, dice, n1, s1, n2, s2) <==> s1 == s2)
  {
    var max1 := s1 + (dice - n1) * (sides - 1);
    var max2 := s2 + (dice - n2) * (sides - 1);
    assert max1 >= s1 && max2 >= s2 by {
      MulNonNegative(dice - n1, sides - 1);
      MulNonNegative(dice - n2, sides - 1);
    }
    if CanCooccur(sides, dice, n1, s1, n2, s2) {
      var total := if s1 <= s2 then s2 else s1;
      assert Reaches(sides, dice, n1, s1, total) && Reaches(sides, dice, n2, s2, total);
    }
  }

  /** Keeping n dice summing to s, the throw can total `total`. */
  predicate Reaches(sides: int, dice: int, n: int, s: int, total: int)
  {
    s <= total <= s + (dice - n) * (sides - 1)
  }

  lemma {:induction false} MulNonNegative(a: int, b: int)
    requires a >= 0 && b >= 0
    ensures a * b >= 0
  {
  }

  // ---------------------------------------------------------------------
  // describe_keep_reroll
  // ---------------------------------------------------------------------

  /** The advice `describe_keep_reroll` gives, in the order its branches are checked. */
  datatype Advice =
    | Stop                          // "stop"
    | KeepA(face: int)              // "keep a 5"
    | RerollA(face: int)            // "reroll a 2"
    | Keep(faces: seq<int>)         // "keep 5 6"
    | Reroll(faces: seq<int>)       // "reroll 1 2 3"

  /** The dice kept: the roll minus the dice thrown again, as multisets, sorted. */
  function Kept(roll: seq<int>, reroll: seq<int>): (keep: seq<int>)
  {
    Sorted(multiset(roll) - multiset(reroll))
  }

  /**
   * `describe_keep_reroll(dice_count, sides, strategy, roll, s)` on a roll of
   * 1-based faces with running total s: asks the strategy in 0-based terms
   * and phrases its answer; `None` where the strategy raises.
   */
  function DescribeKeepReroll(diceCount: int, sides: int, strategy: PE.Strategy, roll: seq<int>, s: int): Option<Advice>
  {
    var rollZ := seq(|roll|, i requires 0 <= i < |roll| => roll[i] - 1);
    var sZ := s - (diceCount - |roll|);
    match strategy(rollZ, sZ)
    case None => None
    case Some(rerollZ) =>
      var reroll := seq(|rerollZ|, i requires 0 <= i < |rerollZ| => rerollZ[i] + 1);
      Some(AdviceFor(Kept(roll, reroll), reroll))
  }

  /** The branches of lines 164-173, checked in the order written. */
  function AdviceFor(keep: seq<int>, reroll: seq<int>): Advice
  {
    if reroll == [] then Stop
    else if |keep| == 1 then KeepA(keep[0])
    else if |reroll| == 1 then RerollA(reroll[0])
    else if |keep| < |reroll| then Keep(keep)
    else Reroll(reroll)
  }

  /**
   * The advice is "stop" exactly when nothing is thrown again; otherwise it
   * names the single kept die, else the single die thrown again, else the
   * shorter of the two lists (the dice thrown again on a tie).
   */
  lemma {:induction false} AdviceForSpec(keep: seq<int>, reroll: seq<int>)
    ensures AdviceFor(keep, reroll) == Stop <==> reroll == []
    ensures AdviceFor(keep, reroll).KeepA? <==> reroll != [] && |keep| == 1
    ensures AdviceFor(keep, reroll).KeepA? ==> AdviceFor(keep, reroll).face == keep[0]
    ensures AdviceFor(keep, reroll).RerollA? <==> reroll != [] && |keep| != 1 && |reroll| == 1
    ensures AdviceFor(keep, reroll).RerollA? ==> [AdviceFor(keep, reroll).face] == reroll
    ensures AdviceFor(keep, reroll).Keep? ==> AdviceFor(keep, reroll).faces == keep && |keep| != 1 && |keep| < |reroll|
    ensures AdviceFor(keep, reroll).Reroll? ==> AdviceFor(keep, reroll).faces == reroll && 1 < |reroll| <= |keep| && |keep| != 1
  {
  }

  /** The dice a player following the advice throws again, read back from the roll. */
  function RerollOf(roll: seq<int>, a: Advice): multiset<int>
  {
    match a
    case Stop => multiset{}
    case KeepA(f) => multiset(roll) - multiset{f}
    case RerollA(f) => multiset{f}
    case Keep(fs) => multiset(roll) - multiset(fs)
    case Reroll(fs) => multiset(fs)
  }

  /**
   * The advice is complete: whichever branch phrases it, a player who reads
   * it against the roll throws again exactly the dice the strategy chose.
   * A list the advice names is the shorter of the kept dice and the dice
   * thrown again (the latter on a tie), and kept dice are named in order;
   * throwing every die again is phrased as keeping none.
   */
  lemma {:induction false} AdviceRoundTrip(roll: seq<int>, reroll: seq<int>)
    requires multiset(reroll) <= multiset(roll)
    ensures RerollOf(roll, AdviceFor(Kept(roll, reroll), reroll)) == multiset(reroll)
    ensures AdviceFor(Kept(roll, reroll), reroll).Keep? ==>
              var fs := AdviceFor(Kept(roll, reroll), reroll).faces;
              |fs| != 1 && |fs| < |reroll| && forall i, j :: 0 <= i < j < |fs| ==> fs[i] <= fs[j]
    ensures |reroll| > 1 && |reroll| == |roll| ==> AdviceFor(Kept(roll, reroll), reroll) == Keep([])
    ensures AdviceFor(Kept(roll, reroll), reroll).Reroll? ==>
              1 < |reroll| <= |Kept(roll, reroll)|
  {
    KeptPartition(roll, reroll);
    AdviceReadsBack(roll, Kept(roll, reroll), reroll);
  }

  /** AdviceRoundTrip for any split of the roll into kept dice and dice thrown again. */
  lemma {:induction false} AdviceReadsBack(roll: seq<int>, keep: seq<int>, reroll: seq<int>)
    requires multiset(keep) + multiset(reroll) == multiset(roll)
    ensures RerollOf(roll, AdviceFor(keep, reroll)) == multiset(reroll)
    ensures AdviceFor(keep, reroll).Keep? ==> AdviceFor(keep, reroll).faces == keep && |keep| != 1 && |keep| < |reroll|
    ensures AdviceFor(keep, reroll).Reroll? ==> 1 < |reroll| <= |keep|
  {
    var mk, mr := multiset(keep), multiset(reroll);
    if reroll == [] {
    } else if |keep| == 1 {
      assert keep == [keep[0]];
      assert mr == multiset(roll) - mk;
    } else if |reroll| == 1 {
      assert reroll == [reroll[0]];
    } else if |keep| < |reroll| {
      assert mr == multiset(roll) - mk;
    }
  }

  /**
   * When the dice thrown again are among the dice of the roll (as a strategy
   * that throws again a slice of the roll does), the kept dice and the dice
   * thrown again together are exactly the roll, and the kept dice are sorted.
   */
  lemma {:induction false} KeptPartition(roll: seq<int>, reroll: seq<int>)
    requires multiset(reroll) <= multiset(roll)
    ensures multiset(Kept(roll, reroll)) + multiset(reroll) == multiset(roll)
    ensures |Kept(roll, reroll)| + |reroll| == |roll|
    ensures forall i, j :: 0 <= i < j < |Kept(roll, reroll)| ==> Kept(roll, reroll)[i] <= Kept(roll, reroll)[j]
  {
    var keep := Kept(roll, reroll);
    assert multiset(keep) + multiset(reroll) == multiset(roll);
    assert |multiset(keep) + multiset(reroll)| == |multiset(keep)| + |multiset(reroll)|;
  }

  /** Throwing again the slice a .. b of the roll keeps the rest of the roll. */
  lemma {:induction false} KeptSlice(roll: seq<int>, a: nat, b: nat)
    requires a <= b <= |roll|
    ensures multiset(Kept(roll, roll[a..b])) == multiset(roll[..a] + roll[b..])
    ensures |Kept(roll, roll[a..b])| + (b - a) == |roll|
  {
    SliceSplit(roll, a, b);
    KeptPartition(roll, roll[a..b]);
  }

  lemma {:induction false} SliceSplit(roll: seq<int>, a: nat, b: nat)
    requires a <= b <= |roll|
    ensures multiset(roll) == multiset(roll[..a] + roll[b..]) + multiset(roll[a..b])
  {
    assert roll == roll[..a] + roll[a..b] + roll[b..];
    assert multiset(roll) == multiset(roll[..a]) + multiset(roll[a..b]) + multiset(roll[b..]);
  }
}
