/**
 * Sequences, filtering and sampling without replacement.
 *
 * The scripts draw their random choices from Python's seeded generators
 * (`random.sample`, `np.random.shuffle`). The model does not reproduce the
 * generator: a draw is given as input, as the list of positions the generator
 * picked, and the only thing assumed about it is what the library promises:
 * the positions are in range and pairwise distinct.
 */
module Sampling {

  predicate Distinct<T(==)>(s: seq<T>)
  {
    forall i, j :: 0 <= i < j < |s| ==> s[i] != s[j]
  }

  function Min(a: int, b: int): (m: int)
    ensures m <= a && m <= b && (m == a || m == b)
  {
    if a < b then a else b
  }

  /** The elements of `s` that satisfy `p`, in their original order (a list comprehension with a condition). */
  function Filter<T>(s: seq<T>, p: T -> bool): (r: seq<T>)
    ensures |r| <= |s|
  {
    if s == [] then []
    else Filter(s[..|s| - 1], p) + (if p(s[|s| - 1]) then [s[|s| - 1]] else [])
  }

  /** What the filter keeps: the elements of `s` that satisfy `p`, and nothing else. */
  lemma {:induction false} FilterMembers<T>(s: seq<T>, p: T -> bool)
    ensures forall x :: x in Filter(s, p) <==> x in s && p(x)
  {
    if s != [] {
      FilterMembers(s[..|s| - 1], p);
      assert forall x :: x in s <==> x in s[..|s| - 1] || x == s[|s| - 1];
    }
  }

  /** Filtering one more element appends it or not: how a loop over `s` builds the filter. */
  lemma FilterSnoc<T>(s: seq<T>, x: T, p: T -> bool)
    ensures Filter(s + [x], p) == Filter(s, p) + (if p(x) then [x] else [])
  {
    assert (s + [x])[..|s|] == s;
  }

  lemma {:induction false} FilterDistinct<T>(s: seq<T>, p: T -> bool)
    requires Distinct(s)
    ensures Distinct(Filter(s, p))
  {
    if s != [] {
      var s' := s[..|s| - 1];
      FilterDistinct(s', p);
      FilterMembers(s', p);
      assert s[|s| - 1] !in s';
    }
  }

  /** `d` is a legal outcome of drawing `k` of `n` positions without replacement. */
  predicate IsDraw(d: seq<nat>, n: nat, k: nat)
  {
    |d| == k && (forall i :: 0 <= i < |d| ==> d[i] < n) && Distinct(d)
  }

  /** The population elements at the drawn positions, in draw order
      (what `random.sample(pop, k)` returns; with `k == |pop|`, the shuffled list). */
  function Select<T(==)>(pop: seq<T>, d: seq<nat>): (r: seq<T>)
    requires forall i :: 0 <= i < |d| ==> d[i] < |pop|
    ensures |r| == |d|
    ensures forall i :: 0 <= i < |d| ==> r[i] == pop[d[i]]
  {
    seq(|d|, i requires 0 <= i < |d| => pop[d[i]])
  }

  /** Sampling without replacement from a duplicate-free population never repeats an element,
      and only yields population elements. */
  lemma SelectDistinct<T>(pop: seq<T>, d: seq<nat>, k: nat)
    requires IsDraw(d, |pop|, k) && Distinct(pop)
    ensures Distinct(Select(pop, d))
    ensures forall i :: 0 <= i < k ==> Select(pop, d)[i] in pop
  {
    var r := Select(pop, d);
    forall i, j | 0 <= i < j < |r| ensures r[i] != r[j] {
      assert d[i] != d[j];
    }
  }

  function Elements<T(==)>(s: seq<T>): set<T> { set x | x in s }

  lemma {:induction false} DistinctCard<T>(s: seq<T>)
    requires Distinct(s)
    ensures |Elements(s)| == |s|
  {
    if s != [] {
      var s' := s[..|s| - 1];
      DistinctCard(s');
      assert Elements(s) == Elements(s') + {s[|s| - 1]};
      assert s[|s| - 1] !in s';
    }
  }

  function Range(n: nat): (r: set<nat>)
    ensures forall j: nat :: j in r <==> j < n
  {
    if n == 0 then {} else Range(n - 1) + {n - 1}
  }

  lemma {:induction false} RangeCard(n: nat)
    ensures |Range(n)| == n
  {
    if n > 0 {
      RangeCard(n - 1);
      var r := Range(n - 1);
      assert Range(n) == r + {n - 1};
      assert n - 1 !in r;
    }
  }

  /** Pigeonhole: a draw of all `n` positions visits every position. */
  lemma FullDrawCovers(d: seq<nat>, n: nat)
    requires IsDraw(d, n, n)
    ensures forall j :: 0 <= j < n ==> j in d
  {
    DistinctCard(d);
    RangeCard(n);
    var e := Elements(d);
    assert e <= Range(n);
    assert |Range(n) - e| == 0;
    assert Range(n) == e;
    forall j | 0 <= j < n ensures j in d {
      assert j in Range(n);
    }
  }

  /** A full draw is a shuffle: on a duplicate-free list it yields a duplicate-free
      list of the same length and the same elements. */
  lemma ShuffleIsPermutation<T>(pop: seq<T>, d: seq<nat>)
    requires IsDraw(d, |pop|, |pop|) && Distinct(pop)
    ensures |Select(pop, d)| == |pop| && Distinct(Select(pop, d))
    ensures forall i :: 0 <= i < |pop| ==> pop[i] in Select(pop, d)
    ensures forall i :: 0 <= i < |pop| ==> Select(pop, d)[i] in pop
  {
    SelectDistinct(pop, d, |pop|);
    FullDrawCovers(d, |pop|);
    var r := Select(pop, d);
    forall j | 0 <= j < |pop| ensures pop[j] in r {
      assert j in d;
      var i :| 0 <= i < |d| && d[i] == j;
      assert r[i] == pop[j];
    }
  }
}
