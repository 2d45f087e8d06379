/**
 * Counting the rolls of identical dice: `product`, `permutations` and
 * `outcomes` of rolls.py.  An outcome is a sorted tuple of face indices
 * `0 .. sides - 1`; its multiplicity is the number of ordered rolls that sort
 * to it.
 */
module Rolls {
  import opened Wrappers
  import opened Arith

  /** `product(xs)`: the left fold of `*` starting from 1. */
  function Product(xs: seq<int>): (r: int)
    ensures (forall i :: 0 <= i < |xs| ==> xs[i] >= 1) ==> r >= 1
  {
    if xs == [] then 1
    else
      var p := Product(xs[..|xs| - 1]);
      assert p >= 1 && xs[|xs| - 1] >= 1 ==> p * xs[|xs| - 1] >= 1 by {
        if p >= 1 && xs[|xs| - 1] >= 1 {
          MulSign(xs[|xs| - 1], p);
        }
      }
      p * xs[|xs| - 1]
  }

  lemma {:induction false} ProductConcat(a: seq<int>, b: seq<int>)
    ensures Product(a + b) == Product(a) * Product(b)
  {
    if b == [] {
      assert a + b == a;
    } else {
      assert (a + b)[..|a + b| - 1] == a + b[..|b| - 1];
      assert (a + b)[|a + b| - 1] == b[|b| - 1];
      ProductConcat(a, b[..|b| - 1]);
      MulAssoc(Product(a), Product(b[..|b| - 1]), b[|b| - 1]);
    }
  }

  // ---------------------------------------------------------------------
  // collections.Counter
  // ---------------------------------------------------------------------

  /** A `collections.Counter`: (element, count) pairs in first-occurrence order. */
  type Counter<T> = seq<(T, nat)>

  function Keys<T>(c: Counter<T>): seq<T>
  {
    seq(|c|, i requires 0 <= i < |c| => c[i].0)
  }

  /** `counter.values()`, in the counter's order. */
  function Counts<T>(c: Counter<T>): seq<nat>
  {
    seq(|c|, i requires 0 <= i < |c| => c[i].1)
  }

  /** No element has two entries. */
  ghost predicate DistinctKeys<T>(c: Counter<T>)
  {
    forall i, j :: 0 <= i < j < |c| ==> c[i].0 != c[j].0
  }

  /** Counts one more occurrence of x: bumps x's entry, or appends (x, 1). */
  function Tally<T(==,!new)>(c: Counter<T>, x: T): Counter<T>
  {
    if c == [] then [(x, 1)]
    else if c[0].0 == x then [(x, c[0].1 + 1)] + c[1..]
    else [c[0]] + Tally(c[1..], x)
  }

  /** Tally keeps the keys distinct and adds exactly one occurrence of x. */
  lemma {:induction false} TallySpec<T(!new)>(c: Counter<T>, x: T)
    requires DistinctKeys(c)
    ensures TallyOk(c, x)
  {
    if c != [] {
      if c[0].0 == x {
        TallyFound(c, x);
      } else {
        TallySpec(c[1..], x);
        TallyPassed(c, x);
      }
    }
  }

  /** What TallySpec promises about Tally(c, x). */
  ghost predicate TallyOk<T(!new)>(c: Counter<T>, x: T)
  {
    Tallied(c, x, Tally(c, x))
  }

  /** r is c with one more occurrence of x: x's count bumped, or (x, 1) appended, keys still distinct. */
  ghost predicate Tallied<T(!new)>(c: Counter<T>, x: T, r: Counter<T>)
  {
    DistinctKeys(r) &&
    |r| == (if x in Keys(c) then |c| else |c| + 1) &&
    (forall i :: 0 <= i < |c| ==> r[i].0 == c[i].0 && r[i].1 == c[i].1 + (if c[i].0 == x then 1 else 0)) &&
    (x !in Keys(c) ==> r[|c|] == (x, 1))
  }

  /** TallySpec when the first entry is x's. */
  lemma {:induction false} TallyFound<T(!new)>(c: Counter<T>, x: T)
    requires DistinctKeys(c) && c != [] && c[0].0 == x
    ensures TallyOk(c, x)
  {
    var r := Tally(c, x);
    assert r == [(x, c[0].1 + 1)] + c[1..];
    assert x in Keys(c) by {
      assert Keys(c)[0] == x;
    }
    forall i | 0 <= i < |c|
      ensures r[i].0 == c[i].0 && r[i].1 == c[i].1 + (if c[i].0 == x then 1 else 0)
    {
      if i > 0 {
        assert r[i] == c[i];
        assert c[i].0 != c[0].0;
      }
    }
  }

  /** TallySpec when the first entry is another element's, from TallySpec for the rest. */
  lemma {:induction false} TallyPassed<T(!new)>(c: Counter<T>, x: T)
    requires DistinctKeys(c) && c != [] && c[0].0 != x && TallyOk(c[1..], x)
    ensures TallyOk(c, x)
  {
    var r, t := Tally(c, x), Tally(c[1..], x);
    assert r == [c[0]] + t;
    PassedStep(c, x, t, r);
  }

  /** Tallied for [c[0]] + t, from Tallied for t over c[1..], when c[0] is not x's. */
  lemma {:induction false} PassedStep<T(!new)>(c: Counter<T>, x: T, t: Counter<T>, r: Counter<T>)
    requires DistinctKeys(c) && c != [] && c[0].0 != x && r == [c[0]] + t && Tallied(c[1..], x, t)
    ensures Tallied(c, x, r)
  {
    assert Keys(c) == [c[0].0] + Keys(c[1..]);
    assert (x in Keys(c)) == (x in Keys(c[1..]));
    PassedEntries(c, x, t, r);
    PassedDistinct(c, x, t, r);
    if x !in Keys(c) {
      assert r[|c|] == t[|c| - 1];
    }
  }

  /** The entries of [c[0]] + t, where t is Tally(c[1..], x) and c[0] is not x's. */
  lemma {:induction false} PassedEntries<T(!new)>(c: Counter<T>, x: T, t: Counter<T>, r: Counter<T>)
    requires c != [] && c[0].0 != x && r == [c[0]] + t
    requires |t| >= |c| - 1
    requires forall i :: 0 <= i < |c| - 1 ==> t[i].0 == c[1..][i].0 && t[i].1 == c[1..][i].1 + (if c[1..][i].0 == x then 1 else 0)
    ensures forall i :: 0 <= i < |c| ==> r[i].0 == c[i].0 && r[i].1 == c[i].1 + (if c[i].0 == x then 1 else 0)
  {
    forall i | 0 <= i < |c|
      ensures r[i].0 == c[i].0 && r[i].1 == c[i].1 + (if c[i].0 == x then 1 else 0)
    {
      if i > 0 {
        assert r[i] == t[i - 1] && c[i] == c[1..][i - 1];
      }
    }
  }

  /** The keys of [c[0]] + t stay distinct, where t is Tally(c[1..], x) and c[0] is not x's. */
  lemma {:induction false} PassedDistinct<T(!new)>(c: Counter<T>, x: T, t: Counter<T>, r: Counter<T>)
    requires DistinctKeys(c) && c != [] && c[0].0 != x && r == [c[0]] + t && DistinctKeys(t)
    requires |t| == |c| - 1 || (|t| == |c| && t[|c| - 1] == (x, 1))
    requires forall i :: 0 <= i < |c| - 1 ==> t[i].0 == c[1..][i].0
    ensures DistinctKeys(r)
  {
    forall i, j | 0 <= i < j < |r|
      ensures r[i].0 != r[j].0
    {
      if i == 0 {
        assert r[j] == t[j - 1];
        if j - 1 < |c| - 1 {
          assert t[j - 1].0 == c[1..][j - 1].0 == c[j].0;
        }
      } else {
        assert r[i] == t[i - 1] && r[j] == t[j - 1];
      }
    }
  }

  /** `collections.Counter(s)`. */
  function Count<T(==,!new)>(s: seq<T>): Counter<T>
  {
    if s == [] then [] else Tally(Count(s[..|s| - 1]), s[|s| - 1])
  }

  /**
   * The Counter of s has one entry per distinct element of s, whose count is
   * the number of its occurrences.
   */
  lemma {:induction false} CountSpec<T(!new)>(s: seq<T>)
    ensures DistinctKeys(Count(s))
    ensures forall x :: x in Keys(Count(s)) <==> x in s
    ensures forall i :: 0 <= i < |Count(s)| ==> Count(s)[i].1 == multiset(s)[Count(s)[i].0]
  {
    if s != [] {
      var front, x := s[..|s| - 1], s[|s| - 1];
      assert s == front + [x];
      var c := Count(front);
      var r := Tally(c, x);
      CountSpec(front);
      TallySpec(c, x);
      assert forall i :: 0 <= i < |c| ==> Keys(r)[i] == Keys(c)[i];
      assert x !in Keys(c) ==> Keys(r) == Keys(c) + [x];
      assert x in Keys(c) ==> Keys(r) == Keys(c);
    }
  }

  lemma {:induction false} TallyAppend<T(!new)>(c1: Counter<T>, c2: Counter<T>, x: T)
    requires x !in Keys(c1)
    ensures Tally(c1 + c2, x) == c1 + Tally(c2, x)
  {
    if c1 != [] {
      assert (c1 + c2)[1..] == c1[1..] + c2;
      assert Keys(c1) == [c1[0].0] + Keys(c1[1..]);
      TallyAppend(c1[1..], c2, x);
    } else {
      assert c1 + c2 == c2;
    }
  }

  /** A new element is appended with count 1. */
  lemma {:induction false} TallyNew<T(!new)>(c: Counter<T>, x: T)
    requires x !in Keys(c)
    ensures Tally(c, x) == c + [(x, 1)]
  {
    TallyAppend(c, [], x);
    assert c + [] == c;
  }

  /** Counting a concatenation whose halves share no element. */
  lemma {:induction false} CountConcat<T(!new)>(a: seq<T>, b: seq<T>)
    requires forall y :: y in b ==> y !in a
    ensures Count(a + b) == Count(a) + Count(b)
  {
    if b == [] {
      assert a + b == a;
    } else {
      var front, x := b[..|b| - 1], b[|b| - 1];
      assert (a + b)[..|a + b| - 1] == a + front;
      assert (a + b)[|a + b| - 1] == x;
      CountConcat(a, front);
      CountSpec(a);
      TallyAppend(Count(a), Count(front), x);
    }
  }

  function Repeat(x: int, k: nat): (r: seq<int>)
    ensures |r| == k && forall i :: 0 <= i < k ==> r[i] == x
  {
    seq(k, _ => x)
  }

  lemma {:induction false} CountRepeat(x: int, k: nat)
    ensures Count(Repeat(x, k)) == if k == 0 then [] else [(x, k)]
  {
    if k > 0 {
      assert Repeat(x, k)[..k - 1] == Repeat(x, k - 1);
      CountRepeat(x, k - 1);
    }
  }

  lemma {:induction false} CountTotal<T(!new)>(s: seq<T>)
    ensures Sum(Counts(Count(s))) == |s|
  {
    if s != [] {
      var front, x := s[..|s| - 1], s[|s| - 1];
      var c := Count(front);
      CountTotal(front);
      TallySum(c, x);
    }
  }

  lemma {:induction false} TallySum<T(!new)>(c: Counter<T>, x: T)
    ensures Sum(Counts(Tally(c, x))) == Sum(Counts(c)) + 1
  {
    if c == [] {
      SumSingle(1);
    } else {
      SumCons(c[0], c[1..]);
      assert c == [c[0]] + c[1..];
      if c[0].0 == x {
        SumCons((x, c[0].1 + 1), c[1..]);
      } else {
        SumCons(c[0], Tally(c[1..], x));
        TallySum(c[1..], x);
      }
    }
  }

  lemma {:induction false} SumCons<T>(e: (T, nat), c: Counter<T>)
    ensures Sum(Counts([e] + c)) == e.1 + Sum(Counts(c))
  {
    assert Counts([e] + c) == [e.1] + Counts(c);
    SumConcat([e.1], Counts(c));
    SumSingle(e.1);
  }

  // ---------------------------------------------------------------------
  // permutations
  // ---------------------------------------------------------------------

  function MapFactorial(cs: seq<nat>): seq<int>
  {
    seq(|cs|, i requires 0 <= i < |cs| => Factorial(cs[i]))
  }

  /** The multinomial coefficient (c0 + c1 + ...)! / (c0! c1! ...), from binomial coefficients. */
  function Multinomial(cs: seq<nat>): nat
  {
    if cs == [] then 1
    else
      SumNonNegative(cs);
      Binom(Sum(cs), cs[0]) * Multinomial(cs[1..])
  }

  lemma {:induction false} MultinomialFactorial(cs: seq<nat>)
    ensures Sum(cs) >= 0
    ensures Multinomial(cs) * Product(MapFactorial(cs)) == Factorial(Sum(cs))
    ensures Multinomial(cs) >= 1
  {
    SumNonNegative(cs);
    if cs != [] {
      var c, rest := cs[0], cs[1..];
      assert cs == [c] + rest;
      SumConcat([c], rest);
      SumSingle(c);
      assert MapFactorial(cs) == [Factorial(c)] + MapFactorial(rest);
      ProductConcat([Factorial(c)], MapFactorial(rest));
      assert Product([Factorial(c)]) == Factorial(c) by {
        assert [Factorial(c)][..0] == [];
      }
      MultinomialFactorial(rest);
      SumNonNegative(rest);
      var s := Sum(cs);
      BinomFactorial(s, c);
      BinomPositive(s, c);
      MultinomialStep(Binom(s, c), Multinomial(rest), Factorial(c), Product(MapFactorial(rest)),
                      Factorial(s - c), Factorial(s));
      MulSign(Binom(s, c), Multinomial(rest));
    }
  }

  lemma {:induction false} MultinomialStep(b: int, m: int, f: int, p: int, g: int, h: int)
    requires m * p == g && b * f * g == h
    ensures (b * m) * (f * p) == h
  {
    assert (b * m) * (f * p) == b * f * (m * p);
  }

  /**
   * `permutations(s)`: the number of distinct orderings of s, computed as
   * `factorial(n) // product(map(factorial, counts))` over its Counter.
   */
  function Permutations<T(==,!new)>(s: seq<T>): int
  {
    var cs := Counts(Count(s));
    SumNonNegative(cs);
    Factorial(Sum(cs)) / Product(MapFactorial(cs))
  }

  /**
   * The floor division in `permutations` is exact: the result is the
   * multinomial coefficient of the counts, so n! is the result times the
   * product of the counts' factorials, and it is at least 1.
   */
  lemma {:induction false} PermutationsExact<T(!new)>(s: seq<T>)
    ensures Permutations(s) == Multinomial(Counts(Count(s)))
    ensures Permutations(s) * Product(MapFactorial(Counts(Count(s)))) == Factorial(|s|)
    ensures Permutations(s) >= 1
  {
    var cs := Counts(Count(s));
    MultinomialFactorial(cs);
    CountTotal(s);
    PermutationsMultinomial(s);
  }

  lemma {:induction false} PermutationsMultinomial<T(!new)>(s: seq<T>)
    ensures Permutations(s) == Multinomial(Counts(Count(s)))
  {
    var cs := Counts(Count(s));
    MultinomialFactorial(cs);
    ExactDivision(Factorial(Sum(cs)), Product(MapFactorial(cs)), Multinomial(cs));
  }

  /** The doctests of `permutations`: 'cat' has 6 orderings, 'mom' has 3. */
  lemma {:induction false} PermutationsExamples()
    ensures Permutations("cat") == 6
    ensures Permutations("mom") == 3
  {
    CountCat();
    PermutationsExact("cat");
    MultinomialExamples();
    CountMom();
    PermutationsExact("mom");
  }

  lemma {:induction false} MultinomialExamples()
    ensures Multinomial([1, 1, 1]) == 6 && Multinomial([2, 1]) == 3
  {
    SumExamples();
    MultinomialCons(1, [], 0);
    assert [1] == [1] + [];
    assert Multinomial([1]) == 1;
    MultinomialCons(1, [1], 1);
    assert [1, 1] == [1] + [1];
    assert Binom(2, 1) == 2;
    assert Multinomial([1, 1]) == 2;
    MultinomialCons(1, [1, 1], 2);
    assert [1, 1, 1] == [1] + [1, 1];
    assert Binom(3, 1) == 3;
    MultinomialCons(2, [1], 1);
    assert [2, 1] == [2] + [1];
    assert Binom(3, 2) == 3;
  }

  lemma {:induction false} CountCat()
    ensures Counts(Count("cat")) == [1, 1, 1]
  {
    assert "cat"[..2] == "ca" && "ca"[..1] == "c" && "c"[..0] == "";
    assert Count("c") == [('c', 1)];
    TallyNew([('c', 1)], 'a');
    assert Count("ca") == [('c', 1), ('a', 1)];
    TallyNew([('c', 1), ('a', 1)], 't');
  }

  lemma {:induction false} CountMom()
    ensures Counts(Count("mom")) == [2, 1]
  {
    assert "mom"[..2] == "mo" && "mo"[..1] == "m" && "m"[..0] == "";
    assert Count("m") == [('m', 1)];
    TallyNew([('m', 1)], 'o');
    assert Count("mo") == [('m', 1), ('o', 1)];
    assert Count("mom") == [('m', 2), ('o', 1)];
  }

  lemma {:induction false} SumExamples()
    ensures Sum([]) == 0 && Sum([1]) == 1 && Sum([1, 1]) == 2 && Sum([1, 1, 1]) == 3 && Sum([2, 1]) == 3
  {
    assert [1, 1, 1][..2] == [1, 1] && [1, 1][..1] == [1] && [1][..0] == [];
    assert [2, 1][..1] == [2] && [2][..0] == [];
  }

  lemma {:induction false} MultinomialCons(k: nat, cs: seq<nat>, n: nat)
    requires Sum(cs) == n
    ensures Multinomial([k] + cs) == Binom(k + n, k) * Multinomial(cs)
  {
    SumNonNegative(cs);
    assert ([k] + cs)[1..] == cs;
    SumConcat([k], cs);
    SumSingle(k);
  }

  lemma {:induction false} CountsPrefix(x: int, k: nat, t: seq<int>)
    requires x !in t && k > 0
    ensures Counts(Count(Repeat(x, k) + t)) == [k] + Counts(Count(t))
  {
    CountConcat(Repeat(x, k), t);
    CountRepeat(x, k);
  }

  /** Prefixing a run of k copies of a value absent from t multiplies the orderings by C(k + |t|, k). */
  lemma {:induction false} PermutationsPrefix(x: int, k: nat, t: seq<int>)
    requires x !in t
    ensures Permutations(Repeat(x, k) + t) == Binom(k + |t|, k) * Permutations(t)
  {
    PermutationsMultinomial(t);
    PermutationsMultinomial(Repeat(x, k) + t);
    MultinomialPrefix(x, k, t);
  }

  lemma {:induction false} MultinomialPrefix(x: int, k: nat, t: seq<int>)
    requires x !in t
    ensures Multinomial(Counts(Count(Repeat(x, k) + t))) == Binom(k + |t|, k) * Multinomial(Counts(Count(t)))
  {
    if k == 0 {
      assert Repeat(x, k) + t == t;
      assert Binom(k + |t|, k) == 1;
    } else {
      MultinomialPrefixRun(x, k, t);
    }
  }

  /** MultinomialPrefix for a run of at least one copy. */
  lemma {:induction false} MultinomialPrefixRun(x: int, k: nat, t: seq<int>)
    requires x !in t && k > 0
    ensures Multinomial(Counts(Count(Repeat(x, k) + t))) == Binom(k + |t|, k) * Multinomial(Counts(Count(t)))
  {
    var l, cs := Counts(Count(Repeat(x, k) + t)), Counts(Count(t));
    assert l == [k] + cs by {
      CountsPrefix(x, k, t);
    }
    assert Sum(cs) == |t| by {
      CountTotal(t);
    }
    MultinomialConsNamed(k, |t|, l, cs, Multinomial(l), Binom(k + |t|, k), Multinomial(cs));
  }

  /** MultinomialCons with the counts and the coefficients given by name. */
  lemma {:induction false} MultinomialConsNamed(k: nat, n: nat, l: seq<nat>, cs: seq<nat>, m: int, b: int, mc: int)
    requires l == [k] + cs && Sum(cs) == n && m == Multinomial(l) && b == Binom(k + n, k) && mc == Multinomial(cs)
    ensures m == b * mc
  {
    MultinomialCons(k, cs, n);
  }

  // ---------------------------------------------------------------------
  // itertools.combinations_with_replacement
  // ---------------------------------------------------------------------

  /** p + t for every t in ts, in order. */
  function Prepend(p: seq<int>, ts: seq<seq<int>>): (r: seq<seq<int>>)
    ensures |r| == |ts|
  {
    seq(|ts|, i requires 0 <= i < |ts| => p + ts[i])
  }

  predicate NonDecreasing(t: seq<int>)
  {
    forall i, j :: 0 <= i < j < |t| ==> t[i] <= t[j]
  }

  predicate InRange(t: seq<int>, lo: int, hi: int)
  {
    forall i :: 0 <= i < |t| ==> lo <= t[i] < hi
  }

  /** Strict lexicographic order on tuples of equal length. */
  predicate LexLess(a: seq<int>, b: seq<int>)
  {
    |a| > 0 && |b| > 0 && (a[0] < b[0] || (a[0] == b[0] && LexLess(a[1..], b[1..])))
  }

  lemma {:induction false} LexLessIrreflexive(a: seq<int>)
    ensures !LexLess(a, a)
  {
    if |a| > 0 {
      LexLessIrreflexive(a[1..]);
    }
  }

  /**
   * `combinations_with_replacement(range(lo, hi), n)`: first every tuple
   * starting with lo, then those drawn from `range(lo + 1, hi)`.
   */
  function Combinations(lo: int, hi: int, n: nat): seq<seq<int>>
    decreases n, hi - lo
  {
    if n == 0 then [[]]
    else if lo >= hi then []
    else Prepend([lo], Combinations(lo, hi, n - 1)) + Combinations(lo + 1, hi, n)
  }

  /** Every tuple produced has length n, is sorted and draws from `range(lo, hi)`. */
  lemma {:induction false} CombinationsSound(lo: int, hi: int, n: nat, t: seq<int>)
    requires t in Combinations(lo, hi, n)
    ensures |t| == n && NonDecreasing(t) && InRange(t, lo, hi)
  {
    var c := Combinations(lo, hi, n);
    var i :| 0 <= i < |c| && c[i] == t;
    CombinationsSoundAt(lo, hi, n, i);
  }

  /** CombinationsSound for the tuple at position i. */
  lemma {:induction false} CombinationsSoundAt(lo: int, hi: int, n: nat, i: nat)
    requires i < |Combinations(lo, hi, n)|
    ensures var t := Combinations(lo, hi, n)[i]; |t| == n && NonDecreasing(t) && InRange(t, lo, hi)
    decreases n, hi - lo
  {
    if n > 0 && lo < hi {
      var x := Combinations(lo, hi, n - 1);
      var a, b := Prepend([lo], x), Combinations(lo + 1, hi, n);
      assert Combinations(lo, hi, n) == a + b;
      if i < |a| {
        assert Combinations(lo, hi, n)[i] == [lo] + x[i];
        CombinationsSoundAt(lo, hi, n - 1, i);
        ConsSorted(lo, hi, x[i]);
      } else {
        assert Combinations(lo, hi, n)[i] == b[i - |a|];
        CombinationsSoundAt(lo + 1, hi, n, i - |a|);
      }
    }
  }

  /** Putting lo in front of a sorted tuple over `range(lo, hi)` keeps it sorted and in range. */
  lemma {:induction false} ConsSorted(lo: int, hi: int, u: seq<int>)
    requires lo < hi && NonDecreasing(u) && InRange(u, lo, hi)
    ensures NonDecreasing([lo] + u) && InRange([lo] + u, lo, hi)
  {
    var t := [lo] + u;
    forall i, j | 0 <= i < j < |t|
      ensures t[i] <= t[j]
    {
      assert t[j] == u[j - 1];
      if i > 0 {
        assert t[i] == u[i - 1];
      }
    }
    forall i | 0 <= i < |t|
      ensures lo <= t[i] < hi
    {
      if i > 0 {
        assert t[i] == u[i - 1];
      }
    }
  }

  /** Every sorted tuple of length n over `range(lo, hi)` is produced. */
  lemma {:induction false} CombinationsComplete(lo: int, hi: int, n: nat, t: seq<int>)
    requires |t| == n && NonDecreasing(t) && InRange(t, lo, hi)
    ensures t in Combinations(lo, hi, n)
    decreases n, hi - lo, 1
  {
    if n == 0 {
      assert t == [];
    } else if t[0] == lo {
      CompleteFromLow(lo, hi, n, t);
    } else {
      CompleteAboveLow(lo, hi, n, t);
    }
  }

  /** A tuple starting with lo is found among those built on `combinations(lo, hi, n - 1)`. */
  lemma {:induction false} CompleteFromLow(lo: int, hi: int, n: nat, t: seq<int>)
    requires |t| == n > 0 && NonDecreasing(t) && InRange(t, lo, hi) && t[0] == lo
    ensures t in Combinations(lo, hi, n)
    decreases n, hi - lo, 0
  {
    var x := Combinations(lo, hi, n - 1);
    var a, b := Prepend([lo], x), Combinations(lo + 1, hi, n);
    assert Combinations(lo, hi, n) == a + b;
    TailSorted(t, lo, hi);
    CombinationsComplete(lo, hi, n - 1, t[1..]);
    var k :| 0 <= k < |x| && x[k] == t[1..];
    assert a[k] == t by {
      assert t == [lo] + t[1..];
    }
    InLeft(a, b, k);
  }

  /** A tuple not starting with lo is found among `combinations(lo + 1, hi, n)`. */
  lemma {:induction false} CompleteAboveLow(lo: int, hi: int, n: nat, t: seq<int>)
    requires |t| == n > 0 && NonDecreasing(t) && InRange(t, lo, hi) && t[0] != lo
    ensures t in Combinations(lo, hi, n)
    decreases n, hi - lo, 0
  {
    var a, b := Prepend([lo], Combinations(lo, hi, n - 1)), Combinations(lo + 1, hi, n);
    assert Combinations(lo, hi, n) == a + b;
    RaiseLow(t, lo, hi);
    CombinationsComplete(lo + 1, hi, n, t);
    InRight(a, b, t);
  }

  /** The tail of a sorted tuple over `range(lo, hi)` is sorted and over the same range. */
  lemma {:induction false} TailSorted(t: seq<int>, lo: int, hi: int)
    requires |t| > 0 && NonDecreasing(t) && InRange(t, lo, hi)
    ensures NonDecreasing(t[1..]) && InRange(t[1..], lo, hi)
  {
    var u := t[1..];
    forall i, j | 0 <= i < j < |u|
      ensures u[i] <= u[j]
    {
      assert u[i] == t[i + 1] && u[j] == t[j + 1];
    }
    forall i | 0 <= i < |u|
      ensures lo <= u[i] < hi
    {
      assert u[i] == t[i + 1];
    }
  }

  /** A sorted tuple over `range(lo, hi)` that does not start with lo draws from `range(lo + 1, hi)`. */
  lemma {:induction false} RaiseLow(t: seq<int>, lo: int, hi: int)
    requires |t| > 0 && NonDecreasing(t) && InRange(t, lo, hi) && t[0] != lo
    ensures InRange(t, lo + 1, hi)
  {
    forall i | 0 <= i < |t|
      ensures lo + 1 <= t[i] < hi
    {
      assert t[0] <= t[i];
    }
  }

  lemma {:induction false} InLeft(a: seq<seq<int>>, b: seq<seq<int>>, k: nat)
    requires k < |a|
    ensures a[k] in a + b
  {
    assert (a + b)[k] == a[k];
  }

  lemma {:induction false} InRight(a: seq<seq<int>>, b: seq<seq<int>>, t: seq<int>)
    requires t in b
    ensures t in a + b
  {
    var k :| 0 <= k < |b| && b[k] == t;
    assert (a + b)[|a| + k] == t;
  }

  /** The tuples come out in strictly increasing lexicographic order, so each appears once. */
  lemma {:induction false} CombinationsSorted(lo: int, hi: int, n: nat)
    ensures forall i, j :: 0 <= i < j < |Combinations(lo, hi, n)| ==>
              LexLess(Combinations(lo, hi, n)[i], Combinations(lo, hi, n)[j])
    ensures forall i, j :: 0 <= i < |Combinations(lo, hi, n)| && 0 <= j < |Combinations(lo, hi, n)| && i != j ==>
              Combinations(lo, hi, n)[i] != Combinations(lo, hi, n)[j]
  {
    var c := Combinations(lo, hi, n);
    forall i, j | 0 <= i < j < |c|
      ensures LexLess(c[i], c[j])
    {
      CombinationsPairSorted(lo, hi, n, i, j);
    }
    forall i, j | 0 <= i < |c| && 0 <= j < |c| && i != j
      ensures c[i] != c[j]
    {
      LexLessIrreflexive(c[i]);
      LexLessIrreflexive(c[j]);
    }
  }

  /** CombinationsSorted for one pair of positions i < j. */
  lemma {:induction false} CombinationsPairSorted(lo: int, hi: int, n: nat, i: nat, j: nat)
    requires i < j < |Combinations(lo, hi, n)|
    ensures LexLess(Combinations(lo, hi, n)[i], Combinations(lo, hi, n)[j])
    decreases n, hi - lo
  {
    var c := Combinations(lo, hi, n);
    var x := Combinations(lo, hi, n - 1);
    var a, b := Prepend([lo], x), Combinations(lo + 1, hi, n);
    assert c == a + b;
    if j < |a| {
      CombinationsPairSorted(lo, hi, n - 1, i, j);
      assert c[i] == [lo] + x[i] && c[j] == [lo] + x[j];
      assert c[i][1..] == x[i] && c[j][1..] == x[j];
    } else if i < |a| {
      assert c[i] == [lo] + x[i];
      assert c[j] == b[j - |a|];
      CombinationsSoundAt(lo + 1, hi, n, j - |a|);
      assert c[j][0] > lo;
    } else {
      assert c[i] == b[i - |a|] && c[j] == b[j - |a|];
      CombinationsPairSorted(lo + 1, hi, n, i - |a|, j - |a|);
    }
  }

  /** There are C(n + m - 1, n) sorted tuples of length n over m >= 1 values. */
  lemma {:induction false} CombinationsCount(lo: int, hi: int, n: nat)
    requires lo < hi
    ensures |Combinations(lo, hi, n)| == Binom(n + (hi - lo) - 1, n)
    decreases n, hi - lo
  {
    if n > 0 {
      var m := hi - lo;
      CombinationsCount(lo, hi, n - 1);
      if lo + 1 < hi {
        CombinationsCount(lo + 1, hi, n);
      } else {
        BinomAbove(n - 1, n);
      }
      assert Binom(n + m - 1, n) == Binom(n + m - 2, n - 1) + Binom(n + m - 2, n);
    }
  }

  // ---------------------------------------------------------------------
  // The total multiplicity is sides ** dice_count
  // ---------------------------------------------------------------------

  /** The tuples grouped by how many copies of lo they start with: k, k - 1, ..., 0. */
  function Blocks(lo: int, hi: int, n: nat, k: nat): seq<seq<int>>
    requires k <= n
  {
    Prepend(Repeat(lo, k), Combinations(lo + 1, hi, n - k)) + (if k == 0 then [] else Blocks(lo, hi, n, k - 1))
  }

  lemma {:induction false} PrependPrepend(p: seq<int>, q: seq<int>, ts: seq<seq<int>>)
    ensures Prepend(p, Prepend(q, ts)) == Prepend(p + q, ts)
  {
    forall i | 0 <= i < |ts|
      ensures Prepend(p, Prepend(q, ts))[i] == Prepend(p + q, ts)[i]
    {
      assert p + (q + ts[i]) == (p + q) + ts[i];
    }
  }

  lemma {:induction false} PrependConcat(p: seq<int>, a: seq<seq<int>>, b: seq<seq<int>>)
    ensures Prepend(p, a + b) == Prepend(p, a) + Prepend(p, b)
  {
  }

  lemma {:induction false} PrependEmpty(ts: seq<seq<int>>)
    ensures Prepend([], ts) == ts
  {
    forall i | 0 <= i < |ts|
      ensures Prepend([], ts)[i] == ts[i]
    {
      assert [] + ts[i] == ts[i];
    }
  }

  lemma {:induction false} BlocksShift(lo: int, hi: int, n: nat, k: nat)
    requires n >= 1 && k <= n - 1
    ensures Prepend([lo], Blocks(lo, hi, n - 1, k)) + Combinations(lo + 1, hi, n) == Blocks(lo, hi, n, k + 1)
  {
    if k == 0 {
      BlocksShiftFirst(lo, hi, n);
    } else {
      BlocksShift(lo, hi, n, k - 1);
      BlocksShiftNext(lo, hi, n, k);
    }
  }

  /** BlocksShift for k = 0. */
  lemma {:induction false} BlocksShiftFirst(lo: int, hi: int, n: nat)
    requires n >= 1
    ensures Prepend([lo], Blocks(lo, hi, n - 1, 0)) + Combinations(lo + 1, hi, n) == Blocks(lo, hi, n, 1)
  {
    var h := Prepend(Repeat(lo, 1), Combinations(lo + 1, hi, n - 1));
    var c := Combinations(lo + 1, hi, n);
    ShiftFirstBlock(lo, hi, n, 0);
    assert Prepend([lo], Blocks(lo, hi, n - 1, 0)) == h + [];
    BlocksZero(lo, hi, n);
    assert Blocks(lo, hi, n, 1) == h + c;
  }

  /** BlocksShift for k, from BlocksShift for k - 1. */
  lemma {:induction false} BlocksShiftNext(lo: int, hi: int, n: nat, k: nat)
    requires n >= 1 && 1 <= k <= n - 1
    requires Prepend([lo], Blocks(lo, hi, n - 1, k - 1)) + Combinations(lo + 1, hi, n) == Blocks(lo, hi, n, k)
    ensures Prepend([lo], Blocks(lo, hi, n - 1, k)) + Combinations(lo + 1, hi, n) == Blocks(lo, hi, n, k + 1)
  {
    var h := Prepend(Repeat(lo, k + 1), Combinations(lo + 1, hi, n - (k + 1)));
    var q := Prepend([lo], Blocks(lo, hi, n - 1, k - 1));
    var c := Combinations(lo + 1, hi, n);
    ShiftFirstBlock(lo, hi, n, k);
    ConcatAssoc(Prepend([lo], Blocks(lo, hi, n - 1, k)), h, q, c);
    assert Blocks(lo, hi, n, k + 1) == h + Blocks(lo, hi, n, k);
  }

  lemma {:induction false} ConcatAssoc(p: seq<seq<int>>, h: seq<seq<int>>, q: seq<seq<int>>, c: seq<seq<int>>)
    requires p == h + q
    ensures p + c == h + (q + c)
  {
  }

  /** Prefixing lo to the blocks for n - 1 dice turns their first block into the first block for n dice. */
  lemma {:induction false} ShiftFirstBlock(lo: int, hi: int, n: nat, k: nat)
    requires n >= 1 && k <= n - 1
    ensures Prepend([lo], Blocks(lo, hi, n - 1, k)) ==
            Prepend(Repeat(lo, k + 1), Combinations(lo + 1, hi, n - (k + 1))) +
            Prepend([lo], if k == 0 then [] else Blocks(lo, hi, n - 1, k - 1))
  {
    var head := Combinations(lo + 1, hi, n - 1 - k);
    var rest := if k == 0 then [] else Blocks(lo, hi, n - 1, k - 1);
    assert Blocks(lo, hi, n - 1, k) == Prepend(Repeat(lo, k), head) + rest;
    PrependConcat([lo], Prepend(Repeat(lo, k), head), rest);
    PrependPrepend([lo], Repeat(lo, k), head);
    assert [lo] + Repeat(lo, k) == Repeat(lo, k + 1);
  }

  /** The last block, with no copy of lo in front, is the tuples over `range(lo + 1, hi)`. */
  lemma {:induction false} BlocksZero(lo: int, hi: int, n: nat)
    ensures Blocks(lo, hi, n, 0) == Combinations(lo + 1, hi, n)
  {
    var c := Combinations(lo + 1, hi, n);
    assert Repeat(lo, 0) == [];
    PrependEmpty(c);
    assert Blocks(lo, hi, n, 0) == Prepend([], c) + [];
  }

  /** combinations_with_replacement over `range(lo, hi)` is the concatenation of its blocks. */
  lemma {:induction false} CombinationsBlocks(lo: int, hi: int, n: nat)
    requires lo < hi
    ensures Combinations(lo, hi, n) == Blocks(lo, hi, n, n)
  {
    if n == 0 {
      assert Repeat(lo, 0) == [];
      PrependEmpty(Combinations(lo + 1, hi, 0));
    } else {
      CombinationsBlocks(lo, hi, n - 1);
      BlocksShift(lo, hi, n, n - 1);
    }
  }

  /** The sum of the multiplicities of a list of tuples, folded from the left. */
  function SumPermutations(ts: seq<seq<int>>): int
  {
    if ts == [] then 0 else SumPermutations(ts[..|ts| - 1]) + Permutations(ts[|ts| - 1])
  }

  lemma {:induction false} SumPermutationsConcat(a: seq<seq<int>>, b: seq<seq<int>>)
    ensures SumPermutations(a + b) == SumPermutations(a) + SumPermutations(b)
  {
    if b == [] {
      assert a + b == a;
    } else {
      assert (a + b)[..|a + b| - 1] == a + b[..|b| - 1];
      assert (a + b)[|a + b| - 1] == b[|b| - 1];
      SumPermutationsConcat(a, b[..|b| - 1]);
    }
  }

  lemma {:induction false} SumPermutationsPrefix(x: int, k: nat, ts: seq<seq<int>>, m: nat)
    requires forall i :: 0 <= i < |ts| ==> |ts[i]| == m && x !in ts[i]
    ensures SumPermutations(Prepend(Repeat(x, k), ts)) == Binom(k + m, k) * SumPermutations(ts)
  {
    if ts != [] {
      var front, last := ts[..|ts| - 1], ts[|ts| - 1];
      var p := Prepend(Repeat(x, k), ts);
      var b := Binom(k + m, k);
      assert SumPermutations(p) == SumPermutations(Prepend(Repeat(x, k), front)) + Permutations(Repeat(x, k) + last) by {
        assert p[..|ts| - 1] == Prepend(Repeat(x, k), front);
      }
      assert SumPermutations(Prepend(Repeat(x, k), front)) == b * SumPermutations(front) by {
        SumPermutationsPrefix(x, k, front, m);
      }
      assert Permutations(Repeat(x, k) + last) == b * Permutations(last) by {
        PermutationsPrefix(x, k, last);
      }
      assert SumPermutations(ts) == SumPermutations(front) + Permutations(last);
      Distribute(b, SumPermutations(front), Permutations(last));
    }
  }

  lemma {:induction false} Distribute(b: int, u: int, v: int)
    ensures b * u + b * v == b * (u + v)
  {
  }

  /** The tuples over `range(lo, hi)` of length n have multiplicities summing to (hi - lo) ** n. */
  lemma {:induction false} CombinationsTotal(lo: int, hi: int, n: nat)
    requires lo <= hi
    ensures SumPermutations(Combinations(lo, hi, n)) == Pow(hi - lo, n)
    decreases hi - lo, 2, 0
  {
    if lo == hi {
      if n == 0 {
        var one: seq<seq<int>> := [[]];
        assert Combinations(lo, hi, n) == one;
        assert SumPermutations(one) == 1 by {
          assert one[..0] == [];
          assert Counts(Count<int>([])) == [];
          assert MapFactorial([]) == [];
        }
      } else {
        assert Pow(0, n) == Pow(0, n - 1) * 0;
      }
    } else {
      assert SumPermutations(Combinations(lo, hi, n)) == BinomPartial(n, hi - lo - 1, n + 1) by {
        CombinationsBlocks(lo, hi, n);
        BlocksTotal(lo, hi, n, n);
      }
      BinomialTheorem(n, hi - lo - 1);
    }
  }

  lemma {:induction false} BlocksTotal(lo: int, hi: int, n: nat, k: nat)
    requires lo < hi && k <= n
    ensures SumPermutations(Blocks(lo, hi, n, k)) == BinomPartial(n, hi - lo - 1, k + 1)
    decreases hi - lo, 1, k
  {
    var block := Prepend(Repeat(lo, k), Combinations(lo + 1, hi, n - k));
    var rest := if k == 0 then [] else Blocks(lo, hi, n, k - 1);
    assert Blocks(lo, hi, n, k) == block + rest;
    SumPermutationsConcat(block, rest);
    BlockTotal(lo, hi, n, k);
    if k > 0 {
      BlocksTotal(lo, hi, n, k - 1);
    } else {
      assert SumPermutations(rest) == 0;
    }
  }

  /** The block of tuples starting with exactly k copies of lo has multiplicities summing to C(n, k) * (hi - lo - 1) ** (n - k). */
  lemma {:induction false} BlockTotal(lo: int, hi: int, n: nat, k: nat)
    requires lo < hi && k <= n
    ensures SumPermutations(Prepend(Repeat(lo, k), Combinations(lo + 1, hi, n - k))) == BinomTerm(n, hi - lo - 1, k)
    decreases hi - lo, 0, 0
  {
    var m: nat := n - k;
    var head := Combinations(lo + 1, hi, m);
    var b, s := Binom(k + m, k), SumPermutations(head);
    PrefixBlockTotal(lo, hi, k, m);
    assert s == Pow(hi - lo - 1, m) by {
      CombinationsTotal(lo + 1, hi, m);
    }
    TermProduct(n, k, hi - lo - 1, b, s);
  }

  /** Prefixing k copies of lo to every tuple over `range(lo + 1, hi)` scales their multiplicities by C(k + m, k). */
  lemma {:induction false} PrefixBlockTotal(lo: int, hi: int, k: nat, m: nat)
    ensures SumPermutations(Prepend(Repeat(lo, k), Combinations(lo + 1, hi, m))) ==
            Binom(k + m, k) * SumPermutations(Combinations(lo + 1, hi, m))
  {
    CombinationsAvoid(lo, lo + 1, hi, m);
    SumPermutationsPrefix(lo, k, Combinations(lo + 1, hi, m), m);
  }

  /** The tuples over `range(lo, hi)` have length m and never hold a value x below lo. */
  lemma {:induction false} CombinationsAvoid(x: int, lo: int, hi: int, m: nat)
    requires x < lo
    ensures forall i :: 0 <= i < |Combinations(lo, hi, m)| ==>
              |Combinations(lo, hi, m)[i]| == m && x !in Combinations(lo, hi, m)[i]
  {
    var c := Combinations(lo, hi, m);
    forall i | 0 <= i < |c|
      ensures |c[i]| == m && x !in c[i]
    {
      CombinationsSoundAt(lo, hi, m, i);
    }
  }

  /** C(n, k) * y ** (n - k) given its two factors by name. */
  lemma {:induction false} TermProduct(n: nat, k: nat, y: int, b: int, s: int)
    requires k <= n && b == Binom(k + (n - k), k) && s == Pow(y, n - k)
    ensures b * s == BinomTerm(n, y, k)
  {
    assert k + (n - k) == n;
  }

  // ---------------------------------------------------------------------
  // outcomes
  // ---------------------------------------------------------------------

  /** The second assertion of `outcomes`: the number of distinct sorted rolls. */
  lemma {:induction false} DistinctOutcomes(sides: nat, diceCount: nat)
    requires sides >= 1
    ensures |Combinations(0, sides, diceCount)| ==
            Factorial(diceCount + sides - 1) / (Factorial(diceCount) * Factorial(sides - 1))
  {
    CombinationsCount(0, sides, diceCount);
    BinomQuotient(diceCount + sides - 1, diceCount);
  }

  /**
   * The two assertions closing `outcomes` hold once every sorted roll has been
   * counted: the multiplicities total sides ** dice_count, and there are
   * C(dice_count + sides - 1, dice_count) distinct rolls.
   */
  lemma {:induction false} OutcomesChecks(sides: nat, diceCount: nat, nOutcomes: int, nDistinct: int)
    requires nOutcomes == SumPermutations(Combinations(0, sides, diceCount))
    requires nDistinct == |Combinations(0, sides, diceCount)|
    ensures nOutcomes == Pow(sides, diceCount)
    ensures sides >= 1 ==>
              nDistinct == Factorial(diceCount + sides - 1) / (Factorial(diceCount) * Factorial(sides - 1))
  {
    CombinationsTotal(0, sides, diceCount);
    if sides >= 1 {
      DistinctOutcomes(sides, diceCount);
    }
  }

  /** The (outcome, multiplicity) pairs `outcomes(sides, dice_count)` yields, in order. */
  function OutcomeList(sides: nat, diceCount: nat): (r: seq<(seq<int>, int)>)
    ensures |r| == |Combinations(0, sides, diceCount)|
    ensures forall i :: 0 <= i < |r| ==> r[i].0 == Combinations(0, sides, diceCount)[i]
    ensures forall i :: 0 <= i < |r| ==> r[i].1 == Permutations(r[i].0)
  {
    var cs := Combinations(0, sides, diceCount);
    seq(|cs|, i requires 0 <= i < |cs| => (cs[i], Permutations(cs[i])))
  }

  /** A list pairing each sorted roll with its multiplicity, in order, is OutcomeList. */
  lemma {:induction false} TabulatedList(sides: nat, diceCount: nat, out: seq<(seq<int>, int)>)
    requires |out| == |Combinations(0, sides, diceCount)|
    requires forall j :: 0 <= j < |out| ==>
               out[j] == (Combinations(0, sides, diceCount)[j], Permutations(Combinations(0, sides, diceCount)[j]))
    ensures out == OutcomeList(sides, diceCount)
  {
    var r := OutcomeList(sides, diceCount);
    forall j | 0 <= j < |out|
      ensures out[j] == r[j]
    {
    }
  }

  /**
   * The loop of `outcomes`: pairs every roll with its multiplicity, in order,
   * while summing the multiplicities and counting the rolls.
   */
  method Tabulate(outcomes: seq<seq<int>>) returns (out: seq<(seq<int>, int)>, nOutcomes: int, nDistinct: int)
    ensures |out| == |outcomes|
    ensures forall j :: 0 <= j < |out| ==> out[j] == (outcomes[j], Permutations(outcomes[j]))
    ensures nOutcomes == SumPermutations(outcomes)
    ensures nDistinct == |outcomes|
  {
    nOutcomes := 0;
    nDistinct := 0;
    out := [];
    for i := 0 to |outcomes|
      invariant nDistinct == i == |out|
      invariant forall j :: 0 <= j < i ==> out[j] == (outcomes[j], Permutations(outcomes[j]))
      invariant nOutcomes == SumPermutations(outcomes[..i])
    {
      var multiplicity := Permutations(outcomes[i]);
      assert outcomes[..i + 1][..i] == outcomes[..i];
      nOutcomes := nOutcomes + multiplicity;
      nDistinct := nDistinct + 1;
      out := out + [(outcomes[i], multiplicity)];
    }
    assert outcomes[..|outcomes|] == outcomes;
  }

  /**
   * `outcomes(sides, dice_count)`: every sorted roll with its multiplicity,
   * checking on the way that the multiplicities add up to sides ** dice_count
   * and that there are C(dice_count + sides - 1, dice_count) distinct rolls.
   * With no sides `math.factorial(-1)` raises, which is `None` here.
   */
  method Outcomes(sides: nat, diceCount: nat) returns (r: Option<seq<(seq<int>, int)>>)
    ensures r.Some? <==> sides >= 1
    ensures r.Some? ==> r.value == OutcomeList(sides, diceCount)
  {
    var outcomes := Combinations(0, sides, diceCount);
    var out, nOutcomes, nDistinct := Tabulate(outcomes);
    TabulatedList(sides, diceCount, out);
    OutcomesChecks(sides, diceCount, nOutcomes, nDistinct);
    assert nOutcomes == Pow(sides, diceCount);
    if sides == 0 {
      return None;
    }
    assert nDistinct == Factorial(diceCount + sides - 1) / (Factorial(diceCount) * Factorial(sides - 1));
    return Some(out);
  }
}
