/**
 * The rule-building core of `describe_strategy`: group the targets (n dice
 * kept, 0-based sum s) of the solved table into tiers of equal value, most
 * valuable first, dropping targets already covered by earlier ones; split off
 * the targets that cannot co-occur with an earlier tier; then move single
 * conditional rules earlier past rules they cannot co-occur with.
 */
module DescribeStrategy {
  import opened Wrappers
  import opened Arith
  import opened Descriptions
  import PE = PolicyEval

  /** A target: keep n dice whose 0-based faces sum to s. */
  type Target = (int, int)

  /**
   * The helpers `combinations_summing_to(sides, n, s)` and
   * `subsequences(outcome)` that describe_strategy imports are not part of
   * this model: they are parameters with no assumed properties.
   */
  datatype Helpers = Helpers(
    sides: int,
    combinations: (int, int, int) -> seq<seq<int>>,
    subsequences: seq<int> -> seq<seq<int>>)

  // ---------------------------------------------------------------------
  // the values of the table, most valuable first (lines 85 and 92)
  // ---------------------------------------------------------------------

  /** The values of the first dice_count rows; Python slicing never raises. */
  function ValueSet(values: PE.Table, diceCount: int): set<real>
  {
    set n, s | 0 <= n < Min(diceCount, |values|) && 0 <= s < |values[n]| :: values[n][s]
  }

  /** A non-empty multiset of reals has a largest element. */
  lemma {:induction false} MultisetMaxExists(m: multiset<real>)
    requires m != multiset{}
    ensures exists x :: x in m && forall y :: y in m ==> y <= x
    decreases |m|
  {
    var z :| z in m;
    var rest := m - multiset{z};
    assert forall y :: y in m && y != z ==> y in rest by {
      forall y | y in m && y != z
        ensures y in rest
      {
        assert rest[y] == m[y];
      }
    }
    if rest == multiset{} {
      assert forall y :: y in m ==> y <= z;
    } else {
      MultisetMaxExists(rest);
      var w :| w in rest && forall y :: y in rest ==> y <= w;
      var x := if z <= w then w else z;
      assert x in m;
      assert forall y :: y in m ==> y <= x;
    }
  }

  /** A non-empty set of reals has a largest element. */
  lemma {:induction false} RealMaxExists(vs: set<real>)
    requires vs != {}
    ensures exists m :: m in vs && forall v :: v in vs ==> v <= m
  {
    var ms := multiset(vs);
    assert |vs| != 0;
    assert |ms| == |vs|;
    MultisetMaxExists(ms);
    var x :| x in ms && forall y :: y in ms ==> y <= x;
    assert x in vs;
    forall v | v in vs
      ensures v <= x
    {
      assert v in ms;
    }
  }

  /** `reversed(sorted(vs))`: the distinct values, strictly descending. */
  function Descending(vs: set<real>): (r: seq<real>)
    ensures forall i, j :: 0 <= i < j < |r| ==> r[i] > r[j]
    ensures forall v :: v in r <==> v in vs
    decreases |vs|
  {
    if vs == {} then []
    else
      RealMaxExists(vs);
      var m :| m in vs && forall v :: v in vs ==> v <= m;
      var rest := Descending(vs - {m});
      DescendingCons(vs, m, rest);
      [m] + rest
  }

  /** The largest value of vs put before the rest of vs, strictly descending, is vs strictly descending. */
  lemma {:induction false} DescendingCons(vs: set<real>, m: real, rest: seq<real>)
    requires m in vs && forall v :: v in vs ==> v <= m
    requires forall i, j :: 0 <= i < j < |rest| ==> rest[i] > rest[j]
    requires forall v :: v in rest <==> v in vs - {m}
    ensures forall i, j :: 0 <= i < j < |[m] + rest| ==> ([m] + rest)[i] > ([m] + rest)[j]
    ensures forall v :: v in [m] + rest <==> v in vs
  {
    var r := [m] + rest;
    forall i, j | 0 <= i < j < |r|
      ensures r[i] > r[j]
    {
      if i == 0 {
        assert r[j] == rest[j - 1] && r[j] in rest;
      } else {
        assert r[i] == rest[i - 1] && r[j] == rest[j - 1];
      }
    }
  }

  // ---------------------------------------------------------------------
  // the targets of one value (lines 93-97)
  // ---------------------------------------------------------------------

  /** The positions (n, s), s < k, of row n holding v, in ascending s. */
  function RowMatches(row: seq<real>, n: int, v: real, k: nat): seq<Target>
    requires k <= |row|
  {
    if k == 0 then []
    else RowMatches(row, n, v, k - 1) + (if row[k - 1] == v then [(n, k - 1)] else [])
  }

  lemma {:induction false} RowMatchesSpec(row: seq<real>, n: int, v: real, k: nat)
    requires k <= |row|
    ensures forall t :: t in RowMatches(row, n, v, k) <==> t.0 == n && 0 <= t.1 < k && row[t.1] == v
  {
    if k > 0 {
      RowMatchesSpec(row, n, v, k - 1);
    }
  }

  /** `rerolls` for v, rows n .. d - 1; `None` is the `IndexError` of a missing row. */
  function RerollsFrom(values: PE.Table, v: real, n: nat, d: nat): Option<seq<Target>>
    decreases d - n
  {
    if n >= d then Some([])
    else if n >= |values| then None
    else
      match RerollsFrom(values, v, n + 1, d)
      case None => None
      case Some(rest) => Some(RowMatches(values[n], n, v, |values[n]|) + rest)
  }

  lemma {:induction false} RerollsFromSpec(values: PE.Table, v: real, n: nat, d: nat)
    ensures RerollsFrom(values, v, n, d).Some? <==> (n >= d || d <= |values|)
    ensures RerollsFrom(values, v, n, d).Some? ==>
              forall t :: t in RerollsFrom(values, v, n, d).value <==>
                n <= t.0 < d && 0 <= t.1 < |values[t.0]| && values[t.0][t.1] == v
    decreases d - n
  {
    if n < d && n < |values| {
      RerollsFromSpec(values, v, n + 1, d);
      RowMatchesSpec(values[n], n, v, |values[n]|);
    }
  }

  /** `all_dice`: each position (n, s) of the table as the target (dice_count - n, s). */
  function AllDice(rerolls: seq<Target>, diceCount: int): seq<Target>
  {
    seq(|rerolls|, i requires 0 <= i < |rerolls| => (diceCount - rerolls[i].0, rerolls[i].1))
  }

  /** The value of the table at the position of a target. */
  function TargetValue(values: PE.Table, diceCount: int, t: Target): real
    requires OnTable(values, diceCount, t)
  {
    values[diceCount - t.0][t.1]
  }

  /** A target whose position lies in the first dice_count rows of the table. */
  predicate OnTable(values: PE.Table, diceCount: int, t: Target)
  {
    1 <= t.0 <= diceCount && diceCount - t.0 < |values| && 0 <= t.1 < |values[diceCount - t.0]|
  }

  /** The targets of value v: exactly the positions of the first dice_count rows holding v. */
  lemma {:induction false} AllDiceSpec(values: PE.Table, diceCount: nat, v: real)
    requires diceCount <= |values|
    ensures RerollsFrom(values, v, 0, diceCount).Some?
    ensures forall t :: t in AllDice(RerollsFrom(values, v, 0, diceCount).value, diceCount) <==>
              OnTable(values, diceCount, t) && TargetValue(values, diceCount, t) == v
  {
    RerollsFromSpec(values, v, 0, diceCount);
    var rerolls := RerollsFrom(values, v, 0, diceCount).value;
    forall t
      ensures t in AllDice(rerolls, diceCount) <==> OnTable(values, diceCount, t) && TargetValue(values, diceCount, t) == v
    {
      AllDiceMember(values, diceCount, v, rerolls, t);
    }
  }

  /** The positions (n, s), n < dice_count, of the table holding v are exactly the members of rerolls. */
  ghost predicate Matches(values: PE.Table, diceCount: nat, v: real, rerolls: seq<Target>)
    requires diceCount <= |values|
  {
    forall p :: p in rerolls <==> 0 <= p.0 < diceCount && 0 <= p.1 < |values[p.0]| && values[p.0][p.1] == v
  }

  /** AllDiceSpec for one target t. */
  lemma {:induction false} AllDiceMember(values: PE.Table, diceCount: nat, v: real, rerolls: seq<Target>, t: Target)
    requires diceCount <= |values| && Matches(values, diceCount, v, rerolls)
    ensures t in AllDice(rerolls, diceCount) <==> OnTable(values, diceCount, t) && TargetValue(values, diceCount, t) == v
  {
    var all := AllDice(rerolls, diceCount);
    if t in all {
      var i :| 0 <= i < |all| && all[i] == t;
      assert rerolls[i] in rerolls;
    }
    if OnTable(values, diceCount, t) && TargetValue(values, diceCount, t) == v {
      var p := (diceCount - t.0, t.1);
      assert p in rerolls;
      var i :| 0 <= i < |rerolls| && rerolls[i] == p;
      assert all[i] == t;
    }
  }

  // ---------------------------------------------------------------------
  // the sweep over the targets of one value (lines 99-108)
  // ---------------------------------------------------------------------

  /** The number of dice and the sum of a sub-combination. */
  function SizeSum(q: seq<int>): Target
  {
    (|q|, Sum(q))
  }

  /** Some sub-combination of the outcome has a (size, sum) already seen. */
  predicate SeenPart(h: Helpers, seen: set<Target>, outcome: seq<int>)
  {
    exists j :: 0 <= j < |h.subsequences(outcome)| && SizeSum(h.subsequences(outcome)[j]) in seen
  }

  /**
   * `all_seen_before`: every way of throwing n dice making s has a
   * sub-combination whose (size, sum) was already seen.
   */
  predicate Covered(h: Helpers, seen: set<Target>, t: Target)
  {
    forall i :: 0 <= i < |h.combinations(h.sides, t.0, t.1)| ==> SeenPart(h, seen, h.combinations(h.sides, t.0, t.1)[i])
  }

  /** A covered target stays covered as `seen` grows. */
  lemma {:induction false} CoveredMonotone(h: Helpers, s1: set<Target>, s2: set<Target>, t: Target)
    requires s1 <= s2 && Covered(h, s1, t)
    ensures Covered(h, s2, t)
  {
    var outcomes := h.combinations(h.sides, t.0, t.1);
    forall i | 0 <= i < |outcomes|
      ensures SeenPart(h, s2, outcomes[i])
    {
      assert SeenPart(h, s1, outcomes[i]);
      var j :| 0 <= j < |h.subsequences(outcomes[i])| && SizeSum(h.subsequences(outcomes[i])[j]) in s1;
    }
  }

  /** The set and the list of the sweep once it has looked at the first k targets. */
  function Sweep(h: Helpers, seen0: set<Target>, allDice: seq<Target>, k: nat): (set<Target>, seq<Target>)
    requires k <= |allDice|
  {
    if k == 0 then (seen0, [])
    else
      var st := Sweep(h, seen0, allDice, k - 1);
      var t := allDice[k - 1];
      if !Covered(h, st.0, t) then (st.0 + {t}, st.1 + [t]) else st
  }

  /** One step of the sweep: add target t to seen and to dice unless it is covered. */
  method SweepStep(h: Helpers, seen: set<Target>, dice: seq<Target>, t: Target) returns (seen': set<Target>, dice': seq<Target>)
    ensures (seen', dice') == if !Covered(h, seen, t) then (seen + {t}, dice + [t]) else (seen, dice)
  {
    var outcomes := h.combinations(h.sides, t.0, t.1);
    var allSeenBefore := true;
    var i := 0;
    while i < |outcomes|
      invariant 0 <= i <= |outcomes|
      invariant allSeenBefore <==> forall k :: 0 <= k < i ==> SeenPart(h, seen, outcomes[k])
    {
      var subs := h.subsequences(outcomes[i]);
      var any := false;
      var j := 0;
      while j < |subs|
        invariant 0 <= j <= |subs|
        invariant any <==> exists m :: 0 <= m < j && SizeSum(subs[m]) in seen
      {
        if (|subs[j]|, Sum(subs[j])) in seen {
          any := true;
        }
        j := j + 1;
      }
      assert any <==> SeenPart(h, seen, outcomes[i]);
      allSeenBefore := allSeenBefore && any;
      i := i + 1;
    }
    if !allSeenBefore {
      seen' := seen + {t};
      dice' := dice + [t];
    } else {
      seen' := seen;
      dice' := dice;
    }
  }

  /**
   * After the sweep, `seen` has grown by exactly the targets kept, every
   * target kept is one of the targets swept, and every target swept is kept
   * or covered by the final `seen`.
   */
  lemma {:induction false} SweepSpec(h: Helpers, seen0: set<Target>, allDice: seq<Target>, k: nat)
    requires k <= |allDice|
    ensures seen0 <= Sweep(h, seen0, allDice, k).0
    ensures Sweep(h, seen0, allDice, k).0 == seen0 + set t | t in Sweep(h, seen0, allDice, k).1
    ensures forall t :: t in Sweep(h, seen0, allDice, k).1 ==> t in allDice[..k]
    ensures forall t :: t in allDice[..k] ==>
              t in Sweep(h, seen0, allDice, k).1 || Covered(h, Sweep(h, seen0, allDice, k).0, t)
  {
    if k > 0 {
      SweepSpec(h, seen0, allDice, k - 1);
      var st := Sweep(h, seen0, allDice, k - 1);
      var st' := Sweep(h, seen0, allDice, k);
      var t := allDice[k - 1];
      assert allDice[..k] == allDice[..k - 1] + [t];
      forall u | u in allDice[..k]
        ensures u in st'.1 || Covered(h, st'.0, u)
      {
        if u != t && u !in st.1 {
          assert u in allDice[..k - 1];
          CoveredMonotone(h, st.0, st'.0, u);
        }
      }
    }
  }

  // ---------------------------------------------------------------------
  // the tiers (lines 90-110)
  // ---------------------------------------------------------------------

  /** The seen set and the tiers once the first k values have been processed; `None` on a missing row. */
  function Tiers(h: Helpers, values: PE.Table, diceCount: nat, vs: seq<real>, k: nat): Option<(set<Target>, seq<seq<Target>>)>
    requires k <= |vs|
  {
    if k == 0 then Some(({}, []))
    else
      match Tiers(h, values, diceCount, vs, k - 1)
      case None => None
      case Some(st) =>
        match RerollsFrom(values, vs[k - 1], 0, diceCount)
        case None => None
        case Some(rerolls) =>
          var allDice := AllDice(rerolls, diceCount);
          var sw := Sweep(h, st.0, allDice, |allDice|);
          Some((sw.0, AddTier(st.1, sw.1)))
  }

  /** Every target of every tier lies on the table. */
  ghost predicate TiersOnTable(tiers: seq<seq<Target>>, values: PE.Table, diceCount: int)
  {
    forall i, t :: 0 <= i < |tiers| && t in tiers[i] ==> OnTable(values, diceCount, t)
  }

  /**
   * Tiers are non-empty, hold targets of equal value, and come in strictly
   * descending order of value; the seen set is exactly their targets.
   */
  ghost predicate TiersOrdered(tiers: seq<seq<Target>>, values: PE.Table, diceCount: int)
    requires TiersOnTable(tiers, values, diceCount)
  {
    (forall i :: 0 <= i < |tiers| ==> tiers[i] != []) &&
    (forall i, t, u :: 0 <= i < |tiers| && t in tiers[i] && u in tiers[i] ==>
       TargetValue(values, diceCount, t) == TargetValue(values, diceCount, u)) &&
    (forall i, j, t, u :: 0 <= i < j < |tiers| && t in tiers[i] && u in tiers[j] ==>
       TargetValue(values, diceCount, t) > TargetValue(values, diceCount, u))
  }

  /** The targets of all tiers. */
  ghost function TargetsOf(tiers: seq<seq<Target>>): set<Target>
  {
    set i, t | 0 <= i < |tiers| && t in tiers[i] :: t
  }

  /**
   * For a strictly descending list of values, the tiers are ordered by value
   * and the targets of the first k values are all on the table with values
   * among the first k; the seen set is exactly the targets of the tiers.
   */
  lemma {:induction false} TiersSpec(h: Helpers, values: PE.Table, diceCount: nat, vs: seq<real>, k: nat)
    requires k <= |vs| && diceCount <= |values|
    requires forall i, j :: 0 <= i < j < |vs| ==> vs[i] > vs[j]
    ensures Tiers(h, values, diceCount, vs, k).Some?
    ensures var st := Tiers(h, values, diceCount, vs, k).value;
            TiersOnTable(st.1, values, diceCount) && TiersOrdered(st.1, values, diceCount) &&
            st.0 == TargetsOf(st.1) &&
            forall i, t :: 0 <= i < |st.1| && t in st.1[i] ==> TargetValue(values, diceCount, t) in vs[..k]
  {
    if k > 0 {
      TiersSpec(h, values, diceCount, vs, k - 1);
      var st := Tiers(h, values, diceCount, vs, k - 1).value;
      var v := vs[k - 1];
      AllDiceSpec(values, diceCount, v);
      var allDice := AllDice(RerollsFrom(values, v, 0, diceCount).value, diceCount);
      SweepSpec(h, st.0, allDice, |allDice|);
      var sw := Sweep(h, st.0, allDice, |allDice|);
      assert allDice[..|allDice|] == allDice;
      assert forall t :: t in sw.1 ==> OnTable(values, diceCount, t) && TargetValue(values, diceCount, t) == v;
      assert Tiers(h, values, diceCount, vs, k) == Some((sw.0, AddTier(st.1, sw.1)));
      TiersStep(st.1, sw.1, values, diceCount, vs, k, st.0, sw.0);
    }
  }

  /** The tiers with one more tier, when it is not empty. */
  function AddTier(tiers: seq<seq<Target>>, dice: seq<Target>): seq<seq<Target>>
  {
    if dice != [] then tiers + [dice] else tiers
  }

  /** Appending the tier of value vs[k - 1] (if not empty) keeps the tiers ordered. */
  lemma {:induction false} TiersStep(tiers: seq<seq<Target>>, dice: seq<Target>, values: PE.Table, diceCount: nat, vs: seq<real>, k: nat,
                  seen: set<Target>, seen': set<Target>)
    requires 0 < k <= |vs|
    requires forall i, j :: 0 <= i < j < |vs| ==> vs[i] > vs[j]
    requires TiersOnTable(tiers, values, diceCount) && TiersOrdered(tiers, values, diceCount)
    requires forall i, t :: 0 <= i < |tiers| && t in tiers[i] ==> TargetValue(values, diceCount, t) in vs[..k - 1]
    requires forall t :: t in dice ==> OnTable(values, diceCount, t) && TargetValue(values, diceCount, t) == vs[k - 1]
    requires seen == TargetsOf(tiers) && seen' == seen + set t | t in dice
    ensures TiersOnTable(AddTier(tiers, dice), values, diceCount) && TiersOrdered(AddTier(tiers, dice), values, diceCount)
    ensures seen' == TargetsOf(AddTier(tiers, dice))
    ensures forall i, t :: 0 <= i < |AddTier(tiers, dice)| && t in AddTier(tiers, dice)[i] ==>
              TargetValue(values, diceCount, t) in vs[..k]
  {
    TiersStepTable(tiers, dice, values, diceCount);
    TiersStepValues(tiers, dice, values, diceCount, vs, k);
    TiersStepOrdered(tiers, dice, values, diceCount, vs, k);
    TiersStepSeen(tiers, dice, seen, seen');
  }

  lemma {:induction false} TiersStepTable(tiers: seq<seq<Target>>, dice: seq<Target>, values: PE.Table, diceCount: nat)
    requires TiersOnTable(tiers, values, diceCount)
    requires forall t :: t in dice ==> OnTable(values, diceCount, t)
    ensures TiersOnTable(AddTier(tiers, dice), values, diceCount)
  {
    var tiers' := AddTier(tiers, dice);
    assert forall i :: 0 <= i < |tiers| ==> tiers'[i] == tiers[i];
  }

  lemma {:induction false} TiersStepValues(tiers: seq<seq<Target>>, dice: seq<Target>, values: PE.Table, diceCount: nat, vs: seq<real>, k: nat)
    requires 0 < k <= |vs|
    requires TiersOnTable(tiers, values, diceCount)
    requires forall i, t :: 0 <= i < |tiers| && t in tiers[i] ==> TargetValue(values, diceCount, t) in vs[..k - 1]
    requires forall t :: t in dice ==> OnTable(values, diceCount, t) && TargetValue(values, diceCount, t) == vs[k - 1]
    ensures TiersOnTable(AddTier(tiers, dice), values, diceCount)
    ensures forall i, t :: 0 <= i < |AddTier(tiers, dice)| && t in AddTier(tiers, dice)[i] ==>
              TargetValue(values, diceCount, t) in vs[..k]
  {
    TiersStepTable(tiers, dice, values, diceCount);
    var tiers' := AddTier(tiers, dice);
    assert forall i :: 0 <= i < |tiers| ==> tiers'[i] == tiers[i];
    assert vs[..k] == vs[..k - 1] + [vs[k - 1]];
  }

  lemma {:induction false} TiersStepOrdered(tiers: seq<seq<Target>>, dice: seq<Target>, values: PE.Table, diceCount: nat, vs: seq<real>, k: nat)
    requires 0 < k <= |vs|
    requires forall i, j :: 0 <= i < j < |vs| ==> vs[i] > vs[j]
    requires TiersOnTable(tiers, values, diceCount) && TiersOrdered(tiers, values, diceCount)
    requires forall i, t :: 0 <= i < |tiers| && t in tiers[i] ==> TargetValue(values, diceCount, t) in vs[..k - 1]
    requires forall t :: t in dice ==> OnTable(values, diceCount, t) && TargetValue(values, diceCount, t) == vs[k - 1]
    ensures TiersOnTable(AddTier(tiers, dice), values, diceCount) && TiersOrdered(AddTier(tiers, dice), values, diceCount)
  {
    TiersStepTable(tiers, dice, values, diceCount);
    if dice != [] {
      var tiers' := tiers + [dice];
      assert forall i :: 0 <= i < |tiers| ==> tiers'[i] == tiers[i];
      forall i, j, t, u | 0 <= i < j < |tiers'| && t in tiers'[i] && u in tiers'[j]
        ensures TargetValue(values, diceCount, t) > TargetValue(values, diceCount, u)
      {
        if j == |tiers| {
          AboveLater(vs, k, TargetValue(values, diceCount, t));
        }
      }
    }
  }

  /** In a strictly descending list, a value among the first k - 1 is above the k-th. */
  lemma {:induction false} AboveLater(vs: seq<real>, k: nat, x: real)
    requires 0 < k <= |vs| && x in vs[..k - 1]
    requires forall i, j :: 0 <= i < j < |vs| ==> vs[i] > vs[j]
    ensures x > vs[k - 1]
  {
    var p :| 0 <= p < k - 1 && vs[p] == x;
  }

  lemma {:induction false} TiersStepSeen(tiers: seq<seq<Target>>, dice: seq<Target>, seen: set<Target>, seen': set<Target>)
    requires seen == TargetsOf(tiers) && seen' == seen + set t | t in dice
    ensures seen' == TargetsOf(AddTier(tiers, dice))
  {
    var tiers' := AddTier(tiers, dice);
    if dice != [] {
      forall t | t in seen'
        ensures t in TargetsOf(tiers')
      {
        if t in dice {
          assert t in tiers'[|tiers|];
        } else {
          var i :| 0 <= i < |tiers| && t in tiers[i];
          assert t in tiers'[i];
        }
      }
      forall t | t in TargetsOf(tiers')
        ensures t in seen'
      {
        var i :| 0 <= i < |tiers'| && t in tiers'[i];
        if i < |tiers| {
          assert tiers'[i] == tiers[i];
        }
      }
    }
  }

  // ---------------------------------------------------------------------
  // unconditional and conditional targets (lines 112-124)
  // ---------------------------------------------------------------------

  /** Some target of a tier before tier i can co-occur with t. */
  predicate Conflicts(h: Helpers, diceCount: int, tiers: seq<seq<Target>>, i: nat, t: Target)
    requires i <= |tiers|
  {
    exists j, m :: 0 <= j < i && 0 <= m < |tiers[j]| && CanCooccur(h.sides, diceCount, t.0, t.1, tiers[j][m].0, tiers[j][m].1)
  }

  /** Target t belongs to one of the first k tiers, and can co-occur with an earlier tier exactly when `conditional`. */
  ghost predicate Placed(h: Helpers, diceCount: int, tiers: seq<seq<Target>>, k: nat, t: Target, conditional: bool)
    requires k <= |tiers|
  {
    exists i :: 0 <= i < k && t in tiers[i] && Conflicts(h, diceCount, tiers, i, t) == conditional
  }

  /** The split of the first k targets of tier i into (unconditional, conditional). */
  function SplitTier(h: Helpers, diceCount: int, tiers: seq<seq<Target>>, i: nat, k: nat): (seq<Target>, seq<Target>)
    requires i < |tiers| && k <= |tiers[i]|
  {
    if k == 0 then ([], [])
    else
      var sp := SplitTier(h, diceCount, tiers, i, k - 1);
      var t := tiers[i][k - 1];
      if Conflicts(h, diceCount, tiers, i, t) then (sp.0, sp.1 + [t]) else (sp.0 + [t], sp.1)
  }

  /** The unconditional targets and the conditional rules after the first k tiers. */
  function Partition(h: Helpers, diceCount: int, tiers: seq<seq<Target>>, k: nat): (seq<Target>, seq<seq<Target>>)
    requires k <= |tiers|
  {
    if k == 0 then ([], [])
    else
      var p := Partition(h, diceCount, tiers, k - 1);
      var sp := SplitTier(h, diceCount, tiers, k - 1, |tiers[k - 1]|);
      (p.0 + sp.0, if sp.1 != [] then p.1 + [sp.1] else p.1)
  }

  /** The concatenation of a list of lists. */
  function Flatten(xss: seq<seq<Target>>): seq<Target>
  {
    if xss == [] then [] else Flatten(xss[..|xss| - 1]) + xss[|xss| - 1]
  }

  lemma {:induction false} SplitTierSpec(h: Helpers, diceCount: int, tiers: seq<seq<Target>>, i: nat, k: nat)
    requires i < |tiers| && k <= |tiers[i]|
    ensures multiset(SplitTier(h, diceCount, tiers, i, k).0) + multiset(SplitTier(h, diceCount, tiers, i, k).1)
            == multiset(tiers[i][..k])
    ensures forall t :: t in SplitTier(h, diceCount, tiers, i, k).0 ==> !Conflicts(h, diceCount, tiers, i, t)
    ensures forall t :: t in SplitTier(h, diceCount, tiers, i, k).1 ==> Conflicts(h, diceCount, tiers, i, t)
  {
    SplitTierCounts(h, diceCount, tiers, i, k);
    SplitTierSides(h, diceCount, tiers, i, k);
  }

  lemma {:induction false} SplitTierCounts(h: Helpers, diceCount: int, tiers: seq<seq<Target>>, i: nat, k: nat)
    requires i < |tiers| && k <= |tiers[i]|
    ensures multiset(SplitTier(h, diceCount, tiers, i, k).0) + multiset(SplitTier(h, diceCount, tiers, i, k).1)
            == multiset(tiers[i][..k])
    decreases k
  {
    if k > 0 {
      SplitTierCounts(h, diceCount, tiers, i, k - 1);
      var sp := SplitTier(h, diceCount, tiers, i, k - 1);
      var t := tiers[i][k - 1];
      assert tiers[i][..k] == tiers[i][..k - 1] + [t];
      MultisetAppendOne(sp.0, sp.1, tiers[i][..k - 1], t, SplitTier(h, diceCount, tiers, i, k));
    }
  }

  /** Appending t to one side of a split of xs splits xs + [t]. */
  lemma {:induction false} MultisetAppendOne(a: seq<Target>, b: seq<Target>, xs: seq<Target>, t: Target, sp: (seq<Target>, seq<Target>))
    requires multiset(a) + multiset(b) == multiset(xs)
    requires sp == (a, b + [t]) || sp == (a + [t], b)
    ensures multiset(sp.0) + multiset(sp.1) == multiset(xs + [t])
  {
  }

  lemma {:induction false} SplitTierSides(h: Helpers, diceCount: int, tiers: seq<seq<Target>>, i: nat, k: nat)
    requires i < |tiers| && k <= |tiers[i]|
    ensures forall t :: t in SplitTier(h, diceCount, tiers, i, k).0 ==> !Conflicts(h, diceCount, tiers, i, t)
    ensures forall t :: t in SplitTier(h, diceCount, tiers, i, k).1 ==> Conflicts(h, diceCount, tiers, i, t)
  {
    if k > 0 {
      SplitTierSides(h, diceCount, tiers, i, k - 1);
    }
  }

  /**
   * Every target of the tiers lands in exactly one place: the unconditional
   * list, for targets that cannot co-occur with any earlier tier, or one
   * conditional rule, for targets that can; no conditional rule is empty.
   */
  lemma {:induction false} PartitionSpec(h: Helpers, diceCount: int, tiers: seq<seq<Target>>, k: nat)
    requires k <= |tiers|
    ensures multiset(Partition(h, diceCount, tiers, k).0) + multiset(Flatten(Partition(h, diceCount, tiers, k).1))
            == multiset(Flatten(tiers[..k]))
    ensures forall m :: 0 <= m < |Partition(h, diceCount, tiers, k).1| ==> Partition(h, diceCount, tiers, k).1[m] != []
    ensures forall t :: t in Partition(h, diceCount, tiers, k).0 ==> Placed(h, diceCount, tiers, k, t, false)
    ensures forall r, t :: r in Partition(h, diceCount, tiers, k).1 && t in r ==> Placed(h, diceCount, tiers, k, t, true)
  {
    PartitionCounts(h, diceCount, tiers, k);
    PartitionNonEmpty(h, diceCount, tiers, k);
    PartitionSides(h, diceCount, tiers, k);
  }

  lemma {:induction false} PartitionCounts(h: Helpers, diceCount: int, tiers: seq<seq<Target>>, k: nat)
    requires k <= |tiers|
    ensures multiset(Partition(h, diceCount, tiers, k).0) + multiset(Flatten(Partition(h, diceCount, tiers, k).1))
            == multiset(Flatten(tiers[..k]))
  {
    if k > 0 {
      PartitionCounts(h, diceCount, tiers, k - 1);
      SplitTierCounts(h, diceCount, tiers, k - 1, |tiers[k - 1]|);
      var p := Partition(h, diceCount, tiers, k - 1);
      var sp := SplitTier(h, diceCount, tiers, k - 1, |tiers[k - 1]|);
      assert tiers[k - 1][..|tiers[k - 1]|] == tiers[k - 1];
      assert tiers[..k][..k - 1] == tiers[..k - 1];
      assert Flatten(tiers[..k]) == Flatten(tiers[..k - 1]) + tiers[k - 1];
      if sp.1 != [] {
        assert (p.1 + [sp.1])[..|p.1|] == p.1;
        assert Flatten(p.1 + [sp.1]) == Flatten(p.1) + sp.1;
      }
    }
  }

  lemma {:induction false} PartitionNonEmpty(h: Helpers, diceCount: int, tiers: seq<seq<Target>>, k: nat)
    requires k <= |tiers|
    ensures forall m :: 0 <= m < |Partition(h, diceCount, tiers, k).1| ==> Partition(h, diceCount, tiers, k).1[m] != []
  {
    if k > 0 {
      PartitionNonEmpty(h, diceCount, tiers, k - 1);
    }
  }

  lemma {:induction false} PartitionSides(h: Helpers, diceCount: int, tiers: seq<seq<Target>>, k: nat)
    requires k <= |tiers|
    ensures forall t :: t in Partition(h, diceCount, tiers, k).0 ==> Placed(h, diceCount, tiers, k, t, false)
    ensures forall r, t :: r in Partition(h, diceCount, tiers, k).1 && t in r ==> Placed(h, diceCount, tiers, k, t, true)
  {
    if k > 0 {
      PartitionSides(h, diceCount, tiers, k - 1);
      SplitTierSides(h, diceCount, tiers, k - 1, |tiers[k - 1]|);
      SplitTierCounts(h, diceCount, tiers, k - 1, |tiers[k - 1]|);
      var sp := SplitTier(h, diceCount, tiers, k - 1, |tiers[k - 1]|);
      assert tiers[k - 1][..|tiers[k - 1]|] == tiers[k - 1];
      forall t | t in sp.0
        ensures t in tiers[k - 1]
      {
        assert t in multiset(tiers[k - 1]);
      }
      forall t | t in sp.1
        ensures t in tiers[k - 1]
      {
        assert t in multiset(tiers[k - 1]);
      }
    }
  }

  // ---------------------------------------------------------------------
  // moving single conditional rules earlier (lines 125-136)
  // ---------------------------------------------------------------------

  /**
   * The inner loop of the pass: the single rule [t] at position j moves one
   * place earlier while the rule before it is single, keeps no more dice
   * than t, and cannot co-occur with t.
   */
  function Sink(h: Helpers, diceCount: int, xs: seq<seq<Target>>, j: nat, t: Target): seq<seq<Target>>
    requires j < |xs| && forall m :: 0 <= m < |xs| ==> xs[m] != []
    decreases j
  {
    if j == 0 || |xs[j - 1]| > 1 then xs
    else
      var u := xs[j - 1][0];
      if t.0 < u.0 || CanCooccur(h.sides, diceCount, t.0, t.1, u.0, u.1) then xs
      else Sink(h, diceCount, xs[j - 1 := xs[j]][j := xs[j - 1]], j - 1, t)
  }

  /** The rules after the first i iterations of the outer loop. */
  function Pass(h: Helpers, diceCount: int, xs: seq<seq<Target>>, i: nat): seq<seq<Target>>
    requires i <= |xs| && forall m :: 0 <= m < |xs| ==> xs[m] != []
    decreases i, 1
  {
    if i == 0 then xs
    else
      var ys := Pass(h, diceCount, xs, i - 1);
      PassPreserves(h, diceCount, xs, i - 1);
      if |ys[i - 1]| > 1 then ys else Sink(h, diceCount, ys, i - 1, ys[i - 1][0])
  }

  /** The rules that keep their place: those with more than one target. */
  ghost predicate SameShape(xs: seq<seq<Target>>, ys: seq<seq<Target>>)
  {
    |ys| == |xs| && multiset(ys) == multiset(xs) &&
    (forall m :: 0 <= m < |ys| ==> ys[m] != []) &&
    (forall m :: 0 <= m < |xs| && |xs[m]| > 1 ==> ys[m] == xs[m])
  }

  /** Sinking permutes single rules among themselves and leaves every longer rule in place. */
  lemma {:induction false} SinkPreserves(h: Helpers, diceCount: int, xs: seq<seq<Target>>, j: nat, t: Target)
    requires j < |xs| && forall m :: 0 <= m < |xs| ==> xs[m] != []
    requires |xs[j]| == 1
    ensures SameShape(xs, Sink(h, diceCount, xs, j, t))
    decreases j
  {
    if j > 0 && |xs[j - 1]| <= 1 {
      var u := xs[j - 1][0];
      if !(t.0 < u.0 || CanCooccur(h.sides, diceCount, t.0, t.1, u.0, u.1)) {
        var ys := xs[j - 1 := xs[j]][j := xs[j - 1]];
        SwapSameShape(xs, j);
        SinkPreserves(h, diceCount, ys, j - 1, t);
        SameShapeTrans(xs, ys, Sink(h, diceCount, ys, j - 1, t));
      }
    }
  }

  lemma {:induction false} SwapSameShape(xs: seq<seq<Target>>, j: nat)
    requires 0 < j < |xs| && forall m :: 0 <= m < |xs| ==> xs[m] != []
    requires |xs[j]| == 1 && |xs[j - 1]| == 1
    ensures SameShape(xs, xs[j - 1 := xs[j]][j := xs[j - 1]])
  {
    var ys := xs[j - 1 := xs[j]][j := xs[j - 1]];
    assert xs == xs[..j - 1] + [xs[j - 1], xs[j]] + xs[j + 1..];
    assert ys == xs[..j - 1] + [xs[j], xs[j - 1]] + xs[j + 1..];
  }

  lemma {:induction false} SameShapeTrans(xs: seq<seq<Target>>, ys: seq<seq<Target>>, zs: seq<seq<Target>>)
    requires SameShape(xs, ys) && SameShape(ys, zs)
    ensures SameShape(xs, zs)
  {
  }

  /**
   * The pass permutes the conditional rules, keeps every rule with more than
   * one target at its index, and keeps every rule non-empty.
   */
  lemma {:induction false} PassPreserves(h: Helpers, diceCount: int, xs: seq<seq<Target>>, i: nat)
    requires i <= |xs| && forall m :: 0 <= m < |xs| ==> xs[m] != []
    ensures SameShape(xs, Pass(h, diceCount, xs, i))
    decreases i, 2
  {
    if i > 0 {
      PassPreserves(h, diceCount, xs, i - 1);
      var ys := Pass(h, diceCount, xs, i - 1);
      if |ys[i - 1]| <= 1 {
        SinkPreserves(h, diceCount, ys, i - 1, ys[i - 1][0]);
        SameShapeTrans(xs, ys, Pass(h, diceCount, xs, i));
      }
    }
  }

  /** The pass over the conditional rules, swapping in place. */
  method BubbleSingles(h: Helpers, diceCount: int, rules: array<seq<Target>>)
    requires forall m :: 0 <= m < rules.Length ==> rules[m] != []
    modifies rules
    ensures rules[..] == Pass(h, diceCount, old(rules[..]), rules.Length)
  {
    ghost var xs := rules[..];
    for i := 0 to rules.Length
      invariant rules[..] == Pass(h, diceCount, xs, i)
    {
      PassPreserves(h, diceCount, xs, i);
      if |rules[i]| > 1 {
        continue;
      }
      SinkRule(h, diceCount, rules, i, rules[i][0]);
    }
  }

  /** The inner loop of the pass: rule i, a single target t, moves up past the singles it may precede. */
  method SinkRule(h: Helpers, diceCount: int, rules: array<seq<Target>>, i: nat, t: Target)
    requires i < rules.Length && forall m :: 0 <= m < rules.Length ==> rules[m] != []
    requires |rules[i]| == 1
    modifies rules
    ensures rules[..] == Sink(h, diceCount, old(rules[..]), i, t)
  {
    ghost var start := rules[..];
    var j := i;
    while j > 0
      invariant 0 <= j <= i
      invariant (forall m :: 0 <= m < rules.Length ==> rules[m] != []) && |rules[j]| == 1
      invariant Sink(h, diceCount, start, i, t) == Sink(h, diceCount, rules[..], j, t)
      decreases j
    {
      if |rules[j - 1]| > 1 {
        SinkStays(h, diceCount, rules[..], j, t);
        return;
      }
      var u := rules[j - 1][0];
      if t.0 < u.0 || CanCooccur(h.sides, diceCount, t.0, t.1, u.0, u.1) {
        SinkStays(h, diceCount, rules[..], j, t);
        return;
      }
      ghost var before := rules[..];
      rules[j - 1], rules[j] := rules[j], rules[j - 1];
      assert rules[..] == before[j - 1 := before[j]][j := before[j - 1]];
      SinkMoves(h, diceCount, before, j, t, rules[..]);
      j := j - 1;
    }
    SinkStays(h, diceCount, rules[..], j, t);
  }

  /** Sinking stops at the top, under a longer rule, or under a single it may not pass. */
  lemma {:induction false} SinkStays(h: Helpers, diceCount: int, xs: seq<seq<Target>>, j: nat, t: Target)
    requires j < |xs| && forall m :: 0 <= m < |xs| ==> xs[m] != []
    requires j == 0 || |xs[j - 1]| > 1 || t.0 < xs[j - 1][0].0 ||
             CanCooccur(h.sides, diceCount, t.0, t.1, xs[j - 1][0].0, xs[j - 1][0].1)
    ensures Sink(h, diceCount, xs, j, t) == xs
  {
  }

  /** Otherwise it swaps rules j - 1 and j and goes on from j - 1. */
  lemma {:induction false} SinkMoves(h: Helpers, diceCount: int, xs: seq<seq<Target>>, j: nat, t: Target, ys: seq<seq<Target>>)
    requires 0 < j < |xs| && forall m :: 0 <= m < |xs| ==> xs[m] != []
    requires |xs[j - 1]| <= 1 && !(t.0 < xs[j - 1][0].0 ||
             CanCooccur(h.sides, diceCount, t.0, t.1, xs[j - 1][0].0, xs[j - 1][0].1))
    requires ys == xs[j - 1 := xs[j]][j := xs[j - 1]]
    ensures forall m :: 0 <= m < |ys| ==> ys[m] != []
    ensures Sink(h, diceCount, xs, j, t) == Sink(h, diceCount, ys, j - 1, t)
  {
  }

  /** A single rule that a rule for t may move above: it keeps no more dice than t and cannot co-occur with it. */
  predicate Passable(h: Helpers, diceCount: int, t: Target, r: seq<Target>)
  {
    |r| == 1 && !(t.0 < r[0].0 || CanCooccur(h.sides, diceCount, t.0, t.1, r[0].0, r[0].1))
  }

  /** Where the rule at j comes to rest: the start of the run of passable rules right above it. */
  function SinkStop(h: Helpers, diceCount: int, xs: seq<seq<Target>>, j: nat, t: Target): (p: nat)
    requires j <= |xs|
    ensures p <= j
  {
    if j == 0 || !Passable(h, diceCount, t, xs[j - 1]) then j else SinkStop(h, diceCount, xs, j - 1, t)
  }

  /**
   * What the inner loop achieves: the rule at j moves up past the whole run
   * of passable rules directly above it and stops under the first rule it
   * may not pass (or at the front); the rules it passes each move down one
   * place, and nothing else moves.
   */
  lemma {:induction false} SinkClosedForm(h: Helpers, diceCount: int, xs: seq<seq<Target>>, j: nat, t: Target)
    requires j < |xs| && forall m :: 0 <= m < |xs| ==> xs[m] != []
    ensures var p := SinkStop(h, diceCount, xs, j, t);
            (forall m :: p <= m < j ==> Passable(h, diceCount, t, xs[m])) &&
            (p == 0 || !Passable(h, diceCount, t, xs[p - 1])) &&
            Sink(h, diceCount, xs, j, t) == xs[..p] + [xs[j]] + xs[p..j] + xs[j + 1..]
    decreases j
  {
    if j == 0 || !Passable(h, diceCount, t, xs[j - 1]) {
      SinkStays(h, diceCount, xs, j, t);
      assert xs == xs[..j] + [xs[j]] + xs[j..j] + xs[j + 1..];
    } else {
      var ys := xs[j - 1 := xs[j]][j := xs[j - 1]];
      SinkMoves(h, diceCount, xs, j, t, ys);
      SinkClosedForm(h, diceCount, ys, j - 1, t);
      assert ys[..j - 1] == xs[..j - 1];
      SinkStopPrefix(h, diceCount, xs, ys, j - 1, t);
      var p := SinkStop(h, diceCount, xs, j, t);
      SwapSplice(xs, ys, p, j);
      forall m | p <= m < j
        ensures Passable(h, diceCount, t, xs[m])
      {
        if m < j - 1 {
          assert ys[m] == xs[m];
        }
      }
      if p > 0 {
        assert ys[p - 1] == xs[p - 1];
      }
    }
  }

  /** Moving the element at j - 1 .. past p, after a swap of j - 1 and j, moves the element at j past p. */
  lemma {:induction false} SwapSplice<T>(xs: seq<T>, ys: seq<T>, p: nat, j: nat)
    requires 0 < j < |xs| && p <= j - 1 && ys == xs[j - 1 := xs[j]][j := xs[j - 1]]
    ensures forall m :: 0 <= m < j - 1 ==> ys[m] == xs[m]
    ensures ys[..p] + [ys[j - 1]] + ys[p..j - 1] + ys[j..] == xs[..p] + [xs[j]] + xs[p..j] + xs[j + 1..]
  {
    assert ys[..p] == xs[..p] && ys[p..j - 1] == xs[p..j - 1];
    assert ys[j..] == [xs[j - 1]] + xs[j + 1..];
    assert xs[p..j] == xs[p..j - 1] + [xs[j - 1]];
  }

  /** Where a rule comes to rest depends only on the rules above it. */
  lemma {:induction false} SinkStopPrefix(h: Helpers, diceCount: int, xs: seq<seq<Target>>, ys: seq<seq<Target>>, k: nat, t: Target)
    requires k <= |xs| && k <= |ys| && xs[..k] == ys[..k]
    ensures SinkStop(h, diceCount, xs, k, t) == SinkStop(h, diceCount, ys, k, t)
    decreases k
  {
    if k > 0 {
      assert xs[k - 1] == xs[..k][k - 1] == ys[..k][k - 1] == ys[k - 1];
      assert xs[..k - 1] == xs[..k][..k - 1];
      assert ys[..k - 1] == ys[..k][..k - 1];
      SinkStopPrefix(h, diceCount, xs, ys, k - 1, t);
    }
  }

  // ---------------------------------------------------------------------
  // the whole rule-building core
  // ---------------------------------------------------------------------

  /**
   * The rules of `describe_strategy` before printing: the unconditional
   * targets first, then the conditional rules after the pass; `None` where a
   * row of the table is missing.
   */
  function Rules(h: Helpers, diceCount: nat, values: PE.Table): Option<seq<seq<Target>>>
  {
    var vs := Descending(ValueSet(values, diceCount));
    match Tiers(h, values, diceCount, vs, |vs|)
    case None => None
    case Some(st) =>
      var p := Partition(h, diceCount, st.1, |st.1|);
      PartitionSpec(h, diceCount, st.1, |st.1|);
      Some([p.0] + Pass(h, diceCount, p.1, |p.1|))
  }

  /**
   * For a table with at least dice_count rows the rules are built; every
   * target of every tier appears exactly once among them; the first rule
   * holds the targets that cannot co-occur with a more valuable tier, every
   * later rule is non-empty and holds targets that can; and the tiers are
   * ordered by strictly descending value.
   */
  lemma {:induction false} RulesSpec(h: Helpers, diceCount: nat, values: PE.Table)
    requires diceCount <= |values|
    ensures Rules(h, diceCount, values).Some?
    ensures var vs := Descending(ValueSet(values, diceCount));
            var tiers := Tiers(h, values, diceCount, vs, |vs|).value.1;
            var rules := Rules(h, diceCount, values).value;
            TiersOnTable(tiers, values, diceCount) && TiersOrdered(tiers, values, diceCount) &&
            |rules| >= 1 &&
            multiset(Flatten(rules)) == multiset(Flatten(tiers)) &&
            (forall t :: t in rules[0] ==> Placed(h, diceCount, tiers, |tiers|, t, false)) &&
            (forall m :: 1 <= m < |rules| ==> rules[m] != []) &&
            (forall m, t :: 1 <= m < |rules| && t in rules[m] ==> Placed(h, diceCount, tiers, |tiers|, t, true))
  {
    var vs := Descending(ValueSet(values, diceCount));
    TiersSpec(h, values, diceCount, vs, |vs|);
    var tiers := Tiers(h, values, diceCount, vs, |vs|).value.1;
    assert tiers[..|tiers|] == tiers;
    PartitionSpec(h, diceCount, tiers, |tiers|);
    var p := Partition(h, diceCount, tiers, |tiers|);
    PassPreserves(h, diceCount, p.1, |p.1|);
    var passed := Pass(h, diceCount, p.1, |p.1|);
    assert Rules(h, diceCount, values).value == [p.0] + passed;
    RulesOfParts(h, diceCount, tiers, p.0, p.1, passed);
  }

  /** The rules assembled from the unconditional list and the conditional rules after the pass. */
  lemma {:induction false} RulesOfParts(h: Helpers, diceCount: int, tiers: seq<seq<Target>>, u: seq<Target>, cond: seq<seq<Target>>, passed: seq<seq<Target>>)
    requires multiset(u) + multiset(Flatten(cond)) == multiset(Flatten(tiers))
    requires forall r, t :: r in cond && t in r ==> Placed(h, diceCount, tiers, |tiers|, t, true)
    requires SameShape(cond, passed)
    ensures multiset(Flatten([u] + passed)) == multiset(Flatten(tiers))
    ensures forall m :: 1 <= m < |[u] + passed| ==> ([u] + passed)[m] != []
    ensures forall m, t :: 1 <= m < |[u] + passed| && t in ([u] + passed)[m] ==> Placed(h, diceCount, tiers, |tiers|, t, true)
  {
    FlattenPermutation(cond, passed);
    FlattenCons(u, passed);
    forall m, t | 1 <= m < |[u] + passed| && t in ([u] + passed)[m]
      ensures Placed(h, diceCount, tiers, |tiers|, t, true)
    {
      assert ([u] + passed)[m] == passed[m - 1];
      assert passed[m - 1] in multiset(cond);
    }
  }

  /** Flattening a list starting with xs. */
  lemma {:induction false} FlattenCons(xs: seq<Target>, rest: seq<seq<Target>>)
    ensures Flatten([xs] + rest) == xs + Flatten(rest)
    decreases |rest|
  {
    if rest != [] {
      var last := rest[|rest| - 1];
      assert ([xs] + rest)[..|rest|] == [xs] + rest[..|rest| - 1];
      FlattenCons(xs, rest[..|rest| - 1]);
    }
  }

  /** Reordering the lists does not change the multiset of their elements. */
  lemma {:induction false} FlattenPermutation(xs: seq<seq<Target>>, ys: seq<seq<Target>>)
    requires multiset(xs) == multiset(ys)
    ensures multiset(Flatten(xs)) == multiset(Flatten(ys))
    decreases |xs|
  {
    if xs != [] {
      var last := xs[|xs| - 1];
      assert last in multiset(ys);
      var k :| 0 <= k < |ys| && ys[k] == last;
      var ys' := ys[..k] + ys[k + 1..];
      assert ys == ys[..k] + [last] + ys[k + 1..];
      assert xs == xs[..|xs| - 1] + [last];
      assert multiset(xs) == multiset(xs[..|xs| - 1]) + multiset{last};
      assert multiset(ys) == multiset(ys[..k]) + multiset{last} + multiset(ys[k + 1..]);
      assert multiset(ys') == multiset(ys[..k]) + multiset(ys[k + 1..]);
      assert multiset(xs[..|xs| - 1]) == multiset(xs) - multiset{last};
      assert multiset(ys') == multiset(ys) - multiset{last};
      FlattenPermutation(xs[..|xs| - 1], ys');
      FlattenRemove(ys, k);
    }
  }

  /** Taking out the list at position k takes its elements out of the flattening. */
  lemma {:induction false} FlattenRemove(ys: seq<seq<Target>>, k: nat)
    requires k < |ys|
    ensures multiset(Flatten(ys)) == multiset(Flatten(ys[..k] + ys[k + 1..])) + multiset(ys[k])
    decreases |ys|
  {
    var n := |ys| - 1;
    var zs := ys[..k] + ys[k + 1..];
    if k == n {
      assert zs == ys[..n];
      FlattenLast(ys, zs, ys[k]);
    } else {
      var ys' := ys[..n];
      FlattenRemove(ys', k);
      assert zs[..n - 1] == ys'[..k] + ys'[k + 1..];
      assert zs[n - 1] == ys[n] && ys'[k] == ys[k];
      FlattenLast(ys, ys', ys[n]);
      FlattenLast(zs, zs[..n - 1], ys[n]);
      MultisetShuffle(multiset(Flatten(ys)), multiset(Flatten(ys')), multiset(ys[n]), multiset(Flatten(zs)), multiset(Flatten(zs[..n - 1])), multiset(ys[k]));
    }
  }

  /** a == b + c, b == e + f and d == e + c give a == d + f. */
  lemma {:induction false} MultisetShuffle(a: multiset<Target>, b: multiset<Target>, c: multiset<Target>, d: multiset<Target>, e: multiset<Target>, f: multiset<Target>)
    requires a == b + c && b == e + f && d == e + c
    ensures a == d + f
  {
  }

  /** Flattening splits off the last list. */
  lemma {:induction false} FlattenLast(ys: seq<seq<Target>>, init: seq<seq<Target>>, last: seq<Target>)
    requires ys != [] && init == ys[..|ys| - 1] && last == ys[|ys| - 1]
    ensures multiset(Flatten(ys)) == multiset(Flatten(init)) + multiset(last)
  {
  }

  /**
   * The rule-building core of `describe_strategy(dice_count, sides, values)`
   * (lines 90-137): the loops over the values, the targets and the tiers,
   * and the pass over the conditional rules in place.
   */
  method DescribeStrategyRules(h: Helpers, diceCount: nat, values: PE.Table) returns (r: Option<seq<seq<Target>>>)
    ensures r == Rules(h, diceCount, values)
  {
    var vs := Descending(ValueSet(values, diceCount));
    var tiers := BuildTiers(h, diceCount, values, vs);
    if tiers.None? {
      return None;
    }
    var unconditional, conditional := SplitTiers(h, diceCount, tiers.value);
    PartitionSpec(h, diceCount, tiers.value, |tiers.value|);
    var rules := new seq<Target>[|conditional|](i requires 0 <= i < |conditional| => conditional[i]);
    assert rules[..] == conditional;
    BubbleSingles(h, diceCount, rules);
    return Some([unconditional] + rules[..]);
  }

  /** The loop over the values (lines 90-110). */
  method BuildTiers(h: Helpers, diceCount: nat, values: PE.Table, vs: seq<real>) returns (r: Option<seq<seq<Target>>>)
    ensures r.Some? <==> Tiers(h, values, diceCount, vs, |vs|).Some?
    ensures r.Some? ==> r.value == Tiers(h, values, diceCount, vs, |vs|).value.1
  {
    var seen: set<Target> := {};
    var actions: seq<seq<Target>> := [];
    for k := 0 to |vs|
      invariant Tiers(h, values, diceCount, vs, k) == Some((seen, actions))
    {
      var rerolls := RerollsFrom(values, vs[k], 0, diceCount);
      if rerolls.None? {
        TiersFailFrom(h, values, diceCount, vs, k + 1);
        return None;
      }
      var allDice := AllDice(rerolls.value, diceCount);
      var dice: seq<Target> := [];
      for m := 0 to |allDice|
        invariant Sweep(h, SeenBefore(h, values, diceCount, vs, k), allDice, m) == (seen, dice)
      {
        seen, dice := SweepStep(h, seen, dice, allDice[m]);
      }
      if dice != [] {
        actions := actions + [dice];
      }
    }
    return Some(actions);
  }

  /** The seen set before value k. */
  function SeenBefore(h: Helpers, values: PE.Table, diceCount: nat, vs: seq<real>, k: nat): set<Target>
    requires k <= |vs|
  {
    match Tiers(h, values, diceCount, vs, k)
    case None => {}
    case Some(st) => st.0
  }

  lemma {:induction false} TiersFailFrom(h: Helpers, values: PE.Table, diceCount: nat, vs: seq<real>, k: nat)
    requires 0 < k <= |vs| && RerollsFrom(values, vs[k - 1], 0, diceCount).None?
    ensures Tiers(h, values, diceCount, vs, |vs|).None?
    decreases |vs| - k
  {
    if k < |vs| {
      RerollsFromSpec(values, vs[k - 1], 0, diceCount);
      RerollsFromSpec(values, vs[k], 0, diceCount);
      TiersFailFrom(h, values, diceCount, vs, k + 1);
    }
  }

  /** The loop over the tiers (lines 112-124). */
  method SplitTiers(h: Helpers, diceCount: int, tiers: seq<seq<Target>>) returns (unconditional: seq<Target>, conditional: seq<seq<Target>>)
    ensures (unconditional, conditional) == Partition(h, diceCount, tiers, |tiers|)
  {
    unconditional := [];
    conditional := [];
    for i := 0 to |tiers|
      invariant (unconditional, conditional) == Partition(h, diceCount, tiers, i)
    {
      var a: seq<Target> := [];
      ghost var u0 := unconditional;
      assert u0 + [] == u0;
      for m := 0 to |tiers[i]|
        invariant unconditional == u0 + SplitTier(h, diceCount, tiers, i, m).0
        invariant a == SplitTier(h, diceCount, tiers, i, m).1
      {
        var t := tiers[i][m];
        var conflicts := AnyConflict(h, diceCount, tiers, i, t);
        if conflicts {
          a := a + [t];
        } else {
          unconditional := unconditional + [t];
        }
      }
      if a != [] {
        conditional := conditional + [a];
      }
    }
  }

  /** `any(can_cooccur(...) for j in range(i) for n_, s_ in actions[j])`. */
  method AnyConflict(h: Helpers, diceCount: int, tiers: seq<seq<Target>>, i: nat, t: Target) returns (r: bool)
    requires i <= |tiers|
    ensures r == Conflicts(h, diceCount, tiers, i, t)
  {
    for j := 0 to i
      invariant !exists j', m :: 0 <= j' < j && 0 <= m < |tiers[j']| && CanCooccur(h.sides, diceCount, t.0, t.1, tiers[j'][m].0, tiers[j'][m].1)
    {
      for m := 0 to |tiers[j]|
        invariant !exists m' :: 0 <= m' < m && CanCooccur(h.sides, diceCount, t.0, t.1, tiers[j][m'].0, tiers[j][m'].1)
      {
        if CanCooccur(h.sides, diceCount, t.0, t.1, tiers[j][m].0, tiers[j][m].1) {
          return true;
        }
      }
    }
    return false;
  }
}
