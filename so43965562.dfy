/**
 * so43965562.py: writing a length as a sum of n integers in [l, u]
 * (`combinations_summing_to`) and pairing the compositions of two lengths
 * (`so43965562`).
 *
 * A tuple is a `seq<int>`; the generator is the sequence of the tuples it
 * yields, in the order it yields them.
 */
module So43965562 {
  import opened Arith
  import Rolls
  import D = Descriptions

  /** t is a way to write s as a sum of n integers in [l, u], in non-decreasing order. */
  predicate Composition(t: seq<int>, l: int, u: int, n: nat, s: int)
  {
    |t| == n && Rolls.NonDecreasing(t) && (forall i :: 0 <= i < |t| ==> l <= t[i] <= u) && Sum(t) == s
  }

  /**
   * `combinations_summing_to(l, u, n, s, suffix)`: the tuples t + suffix for
   * the compositions t of s, grouped by their last element k, from u down to l.
   */
  function CombinationsSummingTo(l: int, u: int, n: nat, s: int, suffix: seq<int>): seq<seq<int>>
    decreases n, 1, 0
  {
    if n == 0 then (if s == 0 then [suffix] else [])
    else if n == 1 then (if l <= s <= u then [[s] + suffix] else [])
    else Branches(l, n, s, suffix, u)
  }

  /**
   * The chain over `k in range(k, l - 1, -1)` of the tuples whose last element
   * is k, skipping a k for which `l * n <= s <= k * n` fails.
   */
  function Branches(l: int, n: nat, s: int, suffix: seq<int>, k: int): seq<seq<int>>
    requires n >= 2
    decreases n, 0, k - l + 1
  {
    if k < l then []
    else
      (if l * n <= s <= k * n then CombinationsSummingTo(l, k, n - 1, s - k, [k] + suffix) else [])
      + Branches(l, n, s, suffix, k - 1)
  }

  /** With no numbers, the empty sum is the only one, and it sums to 0. */
  lemma {:induction false} NoNumbers(l: int, u: int, s: int, suffix: seq<int>)
    ensures CombinationsSummingTo(l, u, 0, s, suffix) == (if s == 0 then [suffix] else [])
    ensures |CombinationsSummingTo(l, u, 0, s, suffix)| == 1 <==> s == 0
  {
  }

  /** With one number, s itself is the only candidate, kept when it lies in [l, u]. */
  lemma {:induction false} OneNumber(l: int, u: int, s: int, suffix: seq<int>)
    ensures CombinationsSummingTo(l, u, 1, s, suffix) == (if l <= s <= u then [[s] + suffix] else [])
    ensures |CombinationsSummingTo(l, u, 1, s, suffix)| == 1 <==> l <= s <= u
  {
  }

  /**
   * Every yielded tuple is a composition t of s into n parts in [l, u],
   * followed by the suffix.
   */
  lemma {:induction false} Sound(l: int, u: int, n: nat, s: int, suffix: seq<int>, r: seq<int>)
    requires r in CombinationsSummingTo(l, u, n, s, suffix)
    ensures |r| == n + |suffix| && r[n..] == suffix && Composition(r[..n], l, u, n, s)
    decreases n, 1, 0
  {
    if n == 0 {
      assert r == suffix && r[..0] == [];
    } else if n == 1 {
      assert r == [s] + suffix && r[..1] == [s];
      SumSingle(s);
    } else {
      BranchesSound(l, n, s, suffix, u, r);
    }
  }

  /** The tuples of the chain from k down: compositions in [l, u] whose last part is at most k. */
  lemma {:induction false} BranchesSound(l: int, n: nat, s: int, suffix: seq<int>, k: int, r: seq<int>)
    requires n >= 2 && r in Branches(l, n, s, suffix, k)
    ensures |r| == n + |suffix| && r[n..] == suffix && Composition(r[..n], l, k, n, s)
    decreases n, 0, k - l + 1
  {
    var here := if l * n <= s <= k * n then CombinationsSummingTo(l, k, n - 1, s - k, [k] + suffix) else [];
    var rest := Branches(l, n, s, suffix, k - 1);
    assert Branches(l, n, s, suffix, k) == here + rest;
    if r in here {
      Sound(l, k, n - 1, s - k, [k] + suffix, r);
      LastPart(r, n, suffix, l, k, s);
    } else {
      assert r in rest;
      BranchesSound(l, n, s, suffix, k - 1, r);
      Widen(r[..n], l, k - 1, k, n, s);
    }
  }

  /** A composition of s - k in [l, k], with k put after it, is a composition of s in [l, k]. */
  lemma {:induction false} LastPart(r: seq<int>, n: nat, suffix: seq<int>, l: int, k: int, s: int)
    requires n >= 1 && |r| == n - 1 + |[k] + suffix| && r[n - 1..] == [k] + suffix
    requires Composition(r[..n - 1], l, k, n - 1, s - k) && l <= k
    ensures |r| == n + |suffix| && r[n..] == suffix && Composition(r[..n], l, k, n, s)
  {
    var t := r[..n];
    assert r[n - 1] == k;
    assert t == r[..n - 1] + [k];
    SumConcat(r[..n - 1], [k]);
    SumSingle(k);
    assert r[n..] == (r[n - 1..])[1..];
  }

  /** A composition with parts in [l, u] has them in [l, u'] for u' >= u. */
  lemma {:induction false} Widen(t: seq<int>, l: int, u: int, u': int, n: nat, s: int)
    requires Composition(t, l, u, n, s) && u <= u'
    ensures Composition(t, l, u', n, s)
  {
  }

  /** Every composition of s into n parts in [l, u] is yielded, followed by the suffix. */
  lemma {:induction false} Complete(l: int, u: int, n: nat, s: int, suffix: seq<int>, t: seq<int>)
    requires Composition(t, l, u, n, s)
    ensures t + suffix in CombinationsSummingTo(l, u, n, s, suffix)
    decreases n, 1, 0
  {
    if n == 0 {
      assert t == [] && t + suffix == suffix;
    } else if n == 1 {
      assert t == [t[0]] && Sum(t) == t[0] by { SumSingle(t[0]); }
    } else {
      BranchesComplete(l, n, s, suffix, u, t);
    }
  }

  /** The chain from k down yields every composition in [l, k] (its last part is at most k). */
  lemma {:induction false} BranchesComplete(l: int, n: nat, s: int, suffix: seq<int>, k: int, t: seq<int>)
    requires n >= 2 && Composition(t, l, k, n, s)
    ensures t + suffix in Branches(l, n, s, suffix, k)
    decreases n, 0, k - l + 1
  {
    var last := t[n - 1];
    var init := t[..n - 1];
    assert t == init + [last];
    var rest := Branches(l, n, s, suffix, k - 1);
    if last == k {
      PartBounds(t, l, k, n, s);
      assert l * n <= s <= k * n;
      InitComposition(t, l, k, n, s);
      Complete(l, k, n - 1, s - k, [k] + suffix, init);
      assert init + ([k] + suffix) == t + suffix;
      assert Branches(l, n, s, suffix, k)
          == CombinationsSummingTo(l, k, n - 1, s - k, [k] + suffix) + rest;
    } else {
      assert Composition(t, l, k - 1, n, s) by {
        assert forall i :: 0 <= i < n ==> t[i] <= last;
      }
      BranchesComplete(l, n, s, suffix, k - 1, t);
      assert Branches(l, n, s, suffix, k)
          == (if l * n <= s <= k * n then CombinationsSummingTo(l, k, n - 1, s - k, [k] + suffix) else []) + rest;
    }
  }

  /** A composition of s into n parts in [l, u] whose last part is u has l * n <= s <= u * n. */
  lemma {:induction false} PartBounds(t: seq<int>, l: int, u: int, n: nat, s: int)
    requires Composition(t, l, u, n, s)
    ensures n * l <= s <= n * u
  {
    SumBounds(t, l, u);
  }

  /** Dropping the last part k of a composition of s leaves a composition of s - k in [l, k]. */
  lemma {:induction false} InitComposition(t: seq<int>, l: int, u: int, n: nat, s: int)
    requires n >= 1 && Composition(t, l, u, n, s)
    ensures Composition(t[..n - 1], l, t[n - 1], n - 1, s - t[n - 1])
  {
    assert t == t[..n - 1] + [t[n - 1]];
    SumConcat(t[..n - 1], [t[n - 1]]);
    SumSingle(t[n - 1]);
  }

  /** There is no composition of s into n parts in [l, u] unless n * l <= s <= n * u. */
  lemma {:induction false} OutOfRangeEmpty(l: int, u: int, n: nat, s: int, suffix: seq<int>)
    requires !(n * l <= s <= n * u)
    ensures CombinationsSummingTo(l, u, n, s, suffix) == []
  {
    var c := CombinationsSummingTo(l, u, n, s, suffix);
    if c != [] {
      Sound(l, u, n, s, suffix, c[0]);
      SumBounds(c[0][..n], l, u);
      assert false;
    }
  }

  /**
   * The early bailout only skips empty branches: when `l * n <= s <= k * n`
   * fails for some k >= l, s - k has no composition into n - 1 parts in [l, k].
   */
  lemma {:induction false} PruneSound(l: int, k: int, n: nat, s: int, suffix: seq<int>)
    requires n >= 2 && l <= k && !(l * n <= s <= k * n)
    ensures CombinationsSummingTo(l, k, n - 1, s - k, [k] + suffix) == []
  {
    assert n * l == (n - 1) * l + l && n * k == (n - 1) * k + k;
    OutOfRangeEmpty(l, k, n - 1, s - k, [k] + suffix);
  }

  /** Every tuple of the chain from k down has its n-th entry, the last part, in [l, k]. */
  lemma {:induction false} BranchLast(l: int, n: nat, s: int, suffix: seq<int>, k: int, r: seq<int>)
    requires n >= 2 && r in Branches(l, n, s, suffix, k)
    ensures |r| >= n && l <= r[n - 1] <= k
  {
    BranchesSound(l, n, s, suffix, k, r);
    assert r[n - 1] == r[..n][n - 1];
  }

  /** No sequence lists the same element twice. */
  predicate Distinct(rs: seq<seq<int>>)
  {
    forall i, j :: 0 <= i < j < |rs| ==> rs[i] != rs[j]
  }

  /** No tuple is yielded twice. */
  lemma {:induction false} NoDuplicates(l: int, u: int, n: nat, s: int, suffix: seq<int>)
    ensures Distinct(CombinationsSummingTo(l, u, n, s, suffix))
    decreases n, 1, 0
  {
    if n >= 2 {
      BranchesDistinct(l, n, s, suffix, u);
    }
  }

  lemma {:induction false} BranchesDistinct(l: int, n: nat, s: int, suffix: seq<int>, k: int)
    requires n >= 2
    ensures Distinct(Branches(l, n, s, suffix, k))
    decreases n, 0, k - l + 1
  {
    if k >= l {
      var here := if l * n <= s <= k * n then CombinationsSummingTo(l, k, n - 1, s - k, [k] + suffix) else [];
      var rest := Branches(l, n, s, suffix, k - 1);
      assert Branches(l, n, s, suffix, k) == here + rest;
      if l * n <= s <= k * n {
        NoDuplicates(l, k, n - 1, s - k, [k] + suffix);
      }
      BranchesDistinct(l, n, s, suffix, k - 1);
      forall a, b | a in here && b in rest
        ensures a != b
      {
        HereLast(l, n, s, suffix, k, a);
        BranchLast(l, n, s, suffix, k - 1, b);
      }
      DistinctConcat(here, rest);
    }
  }

  lemma {:induction false} DistinctConcat(a: seq<seq<int>>, b: seq<seq<int>>)
    requires Distinct(a) && Distinct(b)
    requires forall x, y :: x in a && y in b ==> x != y
    ensures Distinct(a + b)
  {
    forall i, j | 0 <= i < j < |a + b|
      ensures (a + b)[i] != (a + b)[j]
    {
      if j < |a| {
        assert (a + b)[i] == a[i] && (a + b)[j] == a[j];
      } else if i >= |a| {
        assert (a + b)[i] == b[i - |a|] && (a + b)[j] == b[j - |a|];
      } else {
        assert (a + b)[i] in a && (a + b)[j] in b;
      }
    }
  }

  /** Every tuple has an n-th entry, and these never increase along the sequence. */
  predicate GroupedDescending(rs: seq<seq<int>>, n: nat)
    requires n >= 1
  {
    (forall i :: 0 <= i < |rs| ==> |rs[i]| >= n)
    && forall i, j :: 0 <= i < j < |rs| ==> rs[i][n - 1] >= rs[j][n - 1]
  }

  /** For n >= 1, the tuples come grouped by their last part, largest first. */
  lemma {:induction false} GroupedByLast(l: int, u: int, n: nat, s: int, suffix: seq<int>)
    requires n >= 1
    ensures GroupedDescending(CombinationsSummingTo(l, u, n, s, suffix), n)
  {
    var rs := CombinationsSummingTo(l, u, n, s, suffix);
    if n >= 2 {
      BranchesGrouped(l, n, s, suffix, u);
    } else {
      assert rs == [] || rs == [[s] + suffix];
    }
  }

  lemma {:induction false} BranchesGrouped(l: int, n: nat, s: int, suffix: seq<int>, k: int)
    requires n >= 2
    ensures GroupedDescending(Branches(l, n, s, suffix, k), n)
    decreases k - l + 1
  {
    if k >= l {
      var cond := l * n <= s <= k * n;
      var here := if cond then CombinationsSummingTo(l, k, n - 1, s - k, [k] + suffix) else [];
      var rest := Branches(l, n, s, suffix, k - 1);
      var rs := Branches(l, n, s, suffix, k);
      assert rs == here + rest;
      BranchesGrouped(l, n, s, suffix, k - 1);
      forall i | 0 <= i < |here|
        ensures |here[i]| >= n && here[i][n - 1] == k
      {
        HereLast(l, n, s, suffix, k, here[i]);
      }
      forall j | 0 <= j < |rest|
        ensures rest[j][n - 1] <= k - 1
      {
        BranchLast(l, n, s, suffix, k - 1, rest[j]);
      }
      GroupedConcat(here, rest, n, k);
    }
  }

  /** A group with n-th entry k followed by grouped tuples whose n-th entries are below k is grouped. */
  lemma {:induction false} GroupedConcat(here: seq<seq<int>>, rest: seq<seq<int>>, n: nat, k: int)
    requires n >= 1 && GroupedDescending(rest, n)
    requires forall i :: 0 <= i < |here| ==> |here[i]| >= n && here[i][n - 1] == k
    requires forall j :: 0 <= j < |rest| ==> rest[j][n - 1] <= k - 1
    ensures GroupedDescending(here + rest, n)
  {
    var rs := here + rest;
    forall i, j | 0 <= i < j < |rs|
      ensures rs[i][n - 1] >= rs[j][n - 1]
    {
      if j < |here| {
        assert rs[i] == here[i] && rs[j] == here[j];
      } else if i < |here| {
        assert rs[i] == here[i] && rs[j] == rest[j - |here|];
      } else {
        assert rs[i] == rest[i - |here|] && rs[j] == rest[j - |here|];
      }
    }
  }

  /** The tuples yielded for the branch k have k as their n-th entry. */
  lemma {:induction false} HereLast(l: int, n: nat, s: int, suffix: seq<int>, k: int, r: seq<int>)
    requires n >= 2 && r in CombinationsSummingTo(l, k, n - 1, s - k, [k] + suffix)
    ensures |r| >= n && r[n - 1] == k
  {
    Sound(l, k, n - 1, s - k, [k] + suffix, r);
    assert r[n - 1] == r[n - 1..][0];
  }

  /** `[zip(t1, t2) for t1, t2 in itertools.product(combs1, combs2)]`, with t1 the outer loop. */
  function ProductZip(combs1: seq<seq<int>>, combs2: seq<seq<int>>): seq<seq<(int, int)>>
  {
    if combs1 == [] then []
    else ProductZip(combs1[..|combs1| - 1], combs2) + ZipRow(combs1[|combs1| - 1], combs2)
  }

  /** The pairings of t1 with each of combs2, in order. */
  function ZipRow(t1: seq<int>, combs2: seq<seq<int>>): seq<seq<(int, int)>>
  {
    if combs2 == [] then [] else ZipRow(t1, combs2[..|combs2| - 1]) + [D.Zip(t1, combs2[|combs2| - 1])]
  }

  /** Row a of the product lists combs1[a] against combs2, entry b being zip(combs1[a], combs2[b]). */
  lemma {:induction false} ZipRowEntries(t1: seq<int>, combs2: seq<seq<int>>)
    ensures |ZipRow(t1, combs2)| == |combs2|
    ensures forall b :: 0 <= b < |combs2| ==> ZipRow(t1, combs2)[b] == D.Zip(t1, combs2[b])
    decreases |combs2|
  {
    if combs2 != [] {
      ZipRowEntries(t1, combs2[..|combs2| - 1]);
    }
  }

  /** The product has |combs1| * |combs2| entries. */
  lemma {:induction false} ProductZipLength(combs1: seq<seq<int>>, combs2: seq<seq<int>>)
    ensures |ProductZip(combs1, combs2)| == |combs1| * |combs2|
    decreases |combs1|
  {
    if combs1 != [] {
      var k, m := |combs1|, |combs2|;
      ProductZipLength(combs1[..k - 1], combs2);
      ZipRowEntries(combs1[k - 1], combs2);
      assert (k - 1) * m + m == k * m;
    }
  }

  /** Every entry of the product pairs some combs1[a] with some combs2[b]. */
  lemma {:induction false} ProductZipMember(combs1: seq<seq<int>>, combs2: seq<seq<int>>, p: seq<(int, int)>)
    requires p in ProductZip(combs1, combs2)
    ensures exists a, b :: 0 <= a < |combs1| && 0 <= b < |combs2| && p == D.Zip(combs1[a], combs2[b])
    decreases |combs1|
  {
    var k := |combs1|;
    var init := combs1[..k - 1];
    ZipRowEntries(combs1[k - 1], combs2);
    if p in ProductZip(init, combs2) {
      ProductZipMember(init, combs2, p);
      var a, b :| 0 <= a < |init| && 0 <= b < |combs2| && p == D.Zip(init[a], combs2[b]);
      assert init[a] == combs1[a];
    } else {
      var row := ZipRow(combs1[k - 1], combs2);
      assert p in row;
      var b :| 0 <= b < |row| && row[b] == p;
      assert p == D.Zip(combs1[k - 1], combs2[b]);
    }
  }

  /** Every pairing of some combs1[a] with some combs2[b] is in the product. */
  lemma {:induction false} ProductZipHas(combs1: seq<seq<int>>, combs2: seq<seq<int>>, a: nat, b: nat)
    requires a < |combs1| && b < |combs2|
    ensures D.Zip(combs1[a], combs2[b]) in ProductZip(combs1, combs2)
    decreases |combs1|
  {
    var k := |combs1|;
    var init := combs1[..k - 1];
    ZipRowEntries(combs1[k - 1], combs2);
    if a < k - 1 {
      ProductZipHas(init, combs2, a, b);
      assert init[a] == combs1[a];
    } else {
      assert ZipRow(combs1[k - 1], combs2)[b] == D.Zip(combs1[a], combs2[b]);
    }
  }

  /** Every pairing of two compositions of the same number of parts has that many pairs, summing to each length. */
  lemma {:induction false} PairedLengths(lower: int, upper: int, n: nat, s1: int, s2: int)
    ensures forall p :: p in ProductZip(CombinationsSummingTo(lower, upper, n, s1, []), CombinationsSummingTo(lower, upper, n, s2, [])) ==>
      |p| == n && Sum(Firsts(p)) == s1 && Sum(Seconds(p)) == s2
  {
    var c1 := CombinationsSummingTo(lower, upper, n, s1, []);
    var c2 := CombinationsSummingTo(lower, upper, n, s2, []);
    forall p | p in ProductZip(c1, c2)
      ensures |p| == n && Sum(Firsts(p)) == s1 && Sum(Seconds(p)) == s2
    {
      ProductZipMember(c1, c2, p);
      var a, b :| 0 <= a < |c1| && 0 <= b < |c2| && p == D.Zip(c1[a], c2[b]);
      var t1, t2 := c1[a], c2[b];
      Sound(lower, upper, n, s1, [], t1);
      Sound(lower, upper, n, s2, [], t2);
      assert t1[..n] == t1 && t2[..n] == t2;
      assert Firsts(p) == t1 && Seconds(p) == t2;
    }
  }

  /** The first components of a list of pairs. */
  function Firsts(p: seq<(int, int)>): (r: seq<int>)
    ensures |r| == |p| && forall i :: 0 <= i < |p| ==> r[i] == p[i].0
  {
    seq(|p|, i requires 0 <= i < |p| => p[i].0)
  }

  /** The second components of a list of pairs. */
  function Seconds(p: seq<(int, int)>): (r: seq<int>)
    ensures |r| == |p| && forall i :: 0 <= i < |p| ==> r[i] == p[i].1
  {
    seq(|p|, i requires 0 <= i < |p| => p[i].1)
  }

  /** The results appended to `lists_out[i]` for one n: the pairings of the compositions of both lengths. */
  function Pairings(lower: int, upper: int, n: nat, len1: nat, len2: nat): seq<seq<(int, int)>>
  {
    ProductZip(CombinationsSummingTo(lower, upper, n, len1, []), CombinationsSummingTo(lower, upper, n, len2, []))
  }

  /** Everything `so43965562` appends to `lists_out[i]`: first the 7-part pairings, then the 8-part ones. */
  function Appended(lower: int, upper: int, sizes: seq<nat>, len1: nat, len2: nat): seq<seq<(int, int)>>
  {
    if sizes == [] then []
    else Appended(lower, upper, sizes[..|sizes| - 1], len1, len2) + Pairings(lower, upper, sizes[|sizes| - 1], len1, len2)
  }

  /** The part counts tried, in order. */
  const Sizes: seq<nat> := [7, 8]

  /**
   * `so43965562(list1, list2, lists_out, lower, upper)`: fails its assert
   * (false, nothing changed) unless the three lists have one length; otherwise
   * appends to each `lists_out[i]`, and to no other list, the pairings for
   * 7 and then 8 parts of the lengths of `list1[i]` and `list2[i]`.
   */
  method So43965562<T>(list1: seq<seq<T>>, list2: seq<seq<T>>, listsOut: array<seq<seq<(int, int)>>>, lower: int, upper: int)
    returns (ok: bool)
    modifies listsOut
    ensures ok <==> |list1| == |list2| == listsOut.Length
    ensures !ok ==> listsOut[..] == old(listsOut[..])
    ensures ok ==> forall i :: 0 <= i < listsOut.Length ==>
      listsOut[i] == old(listsOut[i]) + Appended(lower, upper, Sizes, |list1[i]|, |list2[i]|)
  {
    if !(|list1| == |list2| == listsOut.Length) {
      return false;
    }
    ghost var start := listsOut[..];
    for w := 0 to |Sizes|
      invariant forall i :: 0 <= i < listsOut.Length ==>
        listsOut[i] == start[i] + Appended(lower, upper, Sizes[..w], |list1[i]|, |list2[i]|)
    {
      AppendAll(list1, list2, listsOut, lower, upper, Sizes[w]);
      assert Sizes[..w + 1][..w] == Sizes[..w];
    }
    assert Sizes[..|Sizes|] == Sizes;
    return true;
  }

  /** The loop over i for one n: appends the n-part pairings to each `lists_out[i]`. */
  method AppendAll<T>(list1: seq<seq<T>>, list2: seq<seq<T>>, listsOut: array<seq<seq<(int, int)>>>, lower: int, upper: int, n: nat)
    requires |list1| == |list2| == listsOut.Length
    modifies listsOut
    ensures forall i :: 0 <= i < listsOut.Length ==>
      listsOut[i] == old(listsOut[i]) + Pairings(lower, upper, n, |list1[i]|, |list2[i]|)
  {
    for i := 0 to |list1|
      invariant forall j :: 0 <= j < i ==>
        listsOut[j] == old(listsOut[j]) + Pairings(lower, upper, n, |list1[j]|, |list2[j]|)
      invariant forall j :: i <= j < listsOut.Length ==> listsOut[j] == old(listsOut[j])
    {
      var combs1 := CombinationsSummingTo(lower, upper, n, |list1[i]|, []);
      var combs2 := CombinationsSummingTo(lower, upper, n, |list2[i]|, []);
      AppendProduct(listsOut, i, combs1, combs2);
    }
  }

  /** The loop over `itertools.product(combs1, combs2)`: appends each pairing to `lists_out[i]`. */
  method AppendProduct(listsOut: array<seq<seq<(int, int)>>>, i: nat, combs1: seq<seq<int>>, combs2: seq<seq<int>>)
    requires i < listsOut.Length
    modifies listsOut
    ensures listsOut[i] == old(listsOut[i]) + ProductZip(combs1, combs2)
    ensures forall j :: 0 <= j < listsOut.Length && j != i ==> listsOut[j] == old(listsOut[j])
  {
    ghost var base := listsOut[i];
    for a := 0 to |combs1|
      invariant listsOut[i] == base + ProductZip(combs1[..a], combs2)
      invariant forall j :: 0 <= j < listsOut.Length && j != i ==> listsOut[j] == old(listsOut[j])
    {
      assert combs1[..a + 1][..a] == combs1[..a];
      AppendRow(listsOut, i, combs1[a], combs2);
    }
    assert combs1[..|combs1|] == combs1;
  }

  /** The inner loop of the product, over combs2 for one t1: appends each zip(t1, t2) to `lists_out[i]`. */
  method AppendRow(listsOut: array<seq<seq<(int, int)>>>, i: nat, t1: seq<int>, combs2: seq<seq<int>>)
    requires i < listsOut.Length
    modifies listsOut
    ensures listsOut[i] == old(listsOut[i]) + ZipRow(t1, combs2)
    ensures forall j :: 0 <= j < listsOut.Length && j != i ==> listsOut[j] == old(listsOut[j])
  {
    ghost var base := listsOut[i];
    for b := 0 to |combs2|
      invariant listsOut[i] == base + ZipRow(t1, combs2[..b])
      invariant forall j :: 0 <= j < listsOut.Length && j != i ==> listsOut[j] == old(listsOut[j])
    {
      var result := ZipPairs(t1, combs2[b]);
      assert combs2[..b + 1][..b] == combs2[..b];
      listsOut[i] := listsOut[i] + [result];
    }
    assert combs2[..|combs2|] == combs2;
  }

  /** The list comprehension over `zip(t1, t2)`. */
  method ZipPairs(t1: seq<int>, t2: seq<int>) returns (r: seq<(int, int)>)
    ensures r == D.Zip(t1, t2)
  {
    r := [];
    var k := 0;
    while k < |t1| && k < |t2|
      invariant 0 <= k <= Min(|t1|, |t2|)
      invariant r == D.Zip(t1, t2)[..k]
    {
      r := r + [(t1[k], t2[k])];
      k := k + 1;
    }
  }

  /** Branches above s - (n - 1) * l are empty: their remaining n - 1 parts would sum to less than (n - 1) * l. */
  lemma {:induction false} SkipHigh(l: int, n: nat, s: int, suffix: seq<int>, k: int, k0: int)
    requires n >= 2 && k0 <= k && s - (n - 1) * l <= k0
    ensures Branches(l, n, s, suffix, k) == Branches(l, n, s, suffix, k0)
    decreases k - k0
  {
    if k0 < k {
      if k >= l {
        OutOfRangeEmpty(l, k, n - 1, s - k, [k] + suffix);
      }
      SkipHigh(l, n, s, suffix, k - 1, k0);
    }
  }

  /** The whole chain from k down is empty once s > k * n. */
  lemma {:induction false} SkipLow(l: int, n: nat, s: int, suffix: seq<int>, k: int)
    requires n >= 2 && s > k * n
    ensures Branches(l, n, s, suffix, k) == []
    decreases k - l + 1
  {
    if k >= l {
      assert (k - 1) * n == k * n - n;
      SkipLow(l, n, s, suffix, k - 1);
    }
  }

  /** Write 2 as a sum of 4 integers between 0 and 5. */
  lemma {:induction false} ExampleTwoOfFour()
    ensures CombinationsSummingTo(0, 5, 4, 2, []) == [[0, 0, 0, 2], [0, 0, 1, 1]]
  {
    assert [0] + [0, 2] == [0, 0, 2] && [0] + [0, 0, 2] == [0, 0, 0, 2];
    assert Branches(0, 2, 0, [0, 2], 0) == [[0, 0, 0, 2]];
    assert [0] + [2] == [0, 2];
    assert Branches(0, 3, 0, [2], 0) == [[0, 0, 0, 2]];
    SkipHigh(0, 3, 0, [2], 2, 0);
    assert [0] + [1, 1] == [0, 1, 1] && [0] + [0, 1, 1] == [0, 0, 1, 1];
    assert Branches(0, 2, 0, [1, 1], 0) == [[0, 0, 1, 1]];
    SkipHigh(0, 2, 0, [1, 1], 1, 0);
    SkipLow(0, 3, 1, [1], 0);
    assert [1] + [1] == [1, 1];
    assert Branches(0, 3, 1, [1], 1) == [[0, 0, 1, 1]];
    SkipLow(0, 4, 2, [], 0);
    assert [1] + [] == [1];
    assert Branches(0, 4, 2, [], 1) == [[0, 0, 1, 1]];
    assert [2] + [] == [2];
    assert Branches(0, 4, 2, [], 2) == [[0, 0, 0, 2], [0, 0, 1, 1]];
    SkipHigh(0, 4, 2, [], 5, 2);
  }

  /** Write 5 as a sum of 3 integers between 0 and 5. */
  lemma {:induction false} ExampleFiveOfThree()
    ensures CombinationsSummingTo(0, 5, 3, 5, []) == [[0, 0, 5], [0, 1, 4], [0, 2, 3], [1, 1, 3], [1, 2, 2]]
  {
    FiveOfThreeUpToTwo();
    FiveOfThreeThree();
    assert [3] + [] == [3];
    assert Branches(0, 3, 5, [], 3) == [[0, 2, 3], [1, 1, 3], [1, 2, 2]];
    FiveOfThreeFour();
    assert [4] + [] == [4];
    assert Branches(0, 3, 5, [], 4) == [[0, 1, 4], [0, 2, 3], [1, 1, 3], [1, 2, 2]];
    FiveOfThreeFive();
    assert [5] + [] == [5];
    assert Branches(0, 3, 5, [], 5) == [[0, 0, 5], [0, 1, 4], [0, 2, 3], [1, 1, 3], [1, 2, 2]];
  }

  /** The branches of `(0, 5, 3, 5)` with last part at most 2. */
  lemma {:induction false} FiveOfThreeUpToTwo()
    ensures Branches(0, 3, 5, [], 2) == [[1, 2, 2]]
  {
    SkipLow(0, 3, 5, [], 1);
    SkipLow(0, 2, 3, [2], 1);
    assert [2] + [] == [2] && [2] + [2] == [2, 2] && [1] + [2, 2] == [1, 2, 2];
    assert Branches(0, 2, 3, [2], 2) == [[1, 2, 2]];
  }

  /** The branch of `(0, 5, 3, 5)` with last part 3. */
  lemma {:induction false} FiveOfThreeThree()
    ensures Branches(0, 2, 2, [3], 3) == [[0, 2, 3], [1, 1, 3]]
  {
    SkipLow(0, 2, 2, [3], 0);
    assert [1] + [3] == [1, 3] && [1] + [1, 3] == [1, 1, 3];
    assert Branches(0, 2, 2, [3], 1) == [[1, 1, 3]];
    assert [2] + [3] == [2, 3] && [0] + [2, 3] == [0, 2, 3];
    assert Branches(0, 2, 2, [3], 2) == [[0, 2, 3], [1, 1, 3]];
    SkipHigh(0, 2, 2, [3], 3, 2);
  }

  /** The branch of `(0, 5, 3, 5)` with last part 4. */
  lemma {:induction false} FiveOfThreeFour()
    ensures Branches(0, 2, 1, [4], 4) == [[0, 1, 4]]
  {
    SkipLow(0, 2, 1, [4], 0);
    assert [1] + [4] == [1, 4] && [0] + [1, 4] == [0, 1, 4];
    assert Branches(0, 2, 1, [4], 1) == [[0, 1, 4]];
    SkipHigh(0, 2, 1, [4], 4, 1);
  }

  /** The branch of `(0, 5, 3, 5)` with last part 5. */
  lemma {:induction false} FiveOfThreeFive()
    ensures Branches(0, 2, 0, [5], 5) == [[0, 0, 5]]
  {
    assert [0] + [5] == [0, 5] && [0] + [0, 5] == [0, 0, 5];
    assert Branches(0, 2, 0, [5], 0) == [[0, 0, 5]];
    SkipHigh(0, 2, 0, [5], 5, 0);
  }

  /** Write 12 as a sum of 3 integers between 0 and 5. */
  lemma {:induction false} ExampleTwelveOfThree()
    ensures CombinationsSummingTo(0, 5, 3, 12, []) == [[2, 5, 5], [3, 4, 5], [4, 4, 4]]
  {
    SkipLow(0, 3, 12, [], 3);
    TwelveOfThreeFour();
    assert [4] + [] == [4];
    assert Branches(0, 3, 12, [], 4) == [[4, 4, 4]];
    TwelveOfThreeFive();
    assert [5] + [] == [5];
    assert Branches(0, 3, 12, [], 5) == [[2, 5, 5], [3, 4, 5], [4, 4, 4]];
  }

  /** The branch of `(0, 5, 3, 12)` with last part 4. */
  lemma {:induction false} TwelveOfThreeFour()
    ensures Branches(0, 2, 8, [4], 4) == [[4, 4, 4]]
  {
    SkipLow(0, 2, 8, [4], 3);
    assert [4] + [4] == [4, 4] && [4] + [4, 4] == [4, 4, 4];
  }

  /** The branch of `(0, 5, 3, 12)` with last part 5. */
  lemma {:induction false} TwelveOfThreeFive()
    ensures Branches(0, 2, 7, [5], 5) == [[2, 5, 5], [3, 4, 5]]
  {
    SkipLow(0, 2, 7, [5], 3);
    assert [4] + [5] == [4, 5] && [3] + [4, 5] == [3, 4, 5];
    assert Branches(0, 2, 7, [5], 4) == [[3, 4, 5]];
    assert [5] + [5] == [5, 5] && [2] + [5, 5] == [2, 5, 5];
  }

  /** Write 34 as a sum of 2 integers between 16 and 36. */
  lemma {:induction false} ExampleThirtyFourOfTwo()
    ensures CombinationsSummingTo(16, 36, 2, 34, []) == [[16, 18], [17, 17]]
  {
    SkipLow(16, 2, 34, [], 16);
    assert [17] + [] == [17] && [17] + [17] == [17, 17];
    assert Branches(16, 2, 34, [], 17) == [[17, 17]];
    assert [18] + [] == [18] && [16] + [18] == [16, 18];
    assert Branches(16, 2, 34, [], 18) == [[16, 18], [17, 17]];
    SkipHigh(16, 2, 34, [], 36, 18);
  }
}
