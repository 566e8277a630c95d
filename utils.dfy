/** The small generic helpers of MstUtils: sortIndices, keys, min and max,
    instantiated at the types the contact code uses them with (real values,
    integer map keys). */
module MstUtils {

  /** min: the smaller argument (b when they are equal). */
  function Min(a: real, b: real): (r: real)
    ensures r <= a && r <= b
    ensures r == a || r == b
  {
    if a < b then a else b
  }

  /** max: the larger argument (b when they are equal). */
  function Max(a: real, b: real): (r: real)
    ensures r >= a && r >= b
    ensures r == a || r == b
  {
    if a > b then a else b
  }

  /** The indices 0, 1, ..., n - 1 in order. */
  function Iota(n: nat): (s: seq<int>)
    ensures |s| == n && forall i :: 0 <= i < n ==> s[i] == i
  {
    seq(n, i => i)
  }

  /** p lists each of 0 .. n - 1 exactly once. */
  ghost predicate IsPermutation(p: seq<int>, n: nat)
  {
    multiset(p) == multiset(Iota(n))
  }

  /** A permutation of 0 .. n - 1 has length n, stays in range and misses no index. */
  lemma PermutationRange(p: seq<int>, n: nat)
    requires IsPermutation(p, n)
    ensures |p| == n
    ensures forall t :: 0 <= t < |p| ==> 0 <= p[t] < n
    ensures forall v :: 0 <= v < n ==> v in p
  {
    assert |multiset(p)| == |multiset(Iota(n))|;
    forall t | 0 <= t < |p|
      ensures 0 <= p[t] < n
    {
      assert p[t] in multiset(p);
      assert p[t] in Iota(n);
    }
    forall v | 0 <= v < n
      ensures v in p
    {
      assert Iota(n)[v] == v;
      assert v in multiset(Iota(n));
    }
  }

  /** s repeats no value. */
  predicate Distinct(s: seq<int>)
  {
    forall a, b :: 0 <= a < b < |s| ==> s[a] != s[b]
  }

  /** A sequence without repetitions holds each value at most once. */
  lemma {:induction false} DistinctCounts(q: seq<int>)
    requires Distinct(q)
    ensures forall x :: multiset(q)[x] <= 1
  {
    if q != [] {
      var r := q[1..];
      DistinctCounts(r);
      assert q == [q[0]] + r;
      assert q[0] !in r;
    }
  }

  /** A permutation names no index twice. */
  lemma PermutationInjective(p: seq<int>, n: nat)
    requires IsPermutation(p, n)
    ensures Distinct(p)
  {
    DistinctCounts(Iota(n));
    forall s, t | 0 <= s < t < |p|
      ensures p[s] != p[t]
    {
      var x := p[s];
      assert p == p[..t] + [p[t]] + p[t + 1..];
      assert multiset(p) == multiset(p[..t]) + multiset([p[t]]) + multiset(p[t + 1..]);
      assert p[..t][s] == x;
      assert x in multiset(p[..t]);
      assert multiset(p)[x] >= multiset(p[..t])[x] + multiset([p[t]])[x];
    }
  }

  /** The position of index x in the sort: the value itself when ascending,
      its negation when descending, so that both orders sort ascending. */
  function Rank(vec: seq<real>, descending: bool, x: int): real
    requires 0 <= x < |vec|
  {
    if descending then -vec[x] else vec[x]
  }

  predicate InRange(a: seq<int>, n: nat)
  {
    forall t :: 0 <= t < |a| ==> 0 <= a[t] < n
  }

  method Swap(a: array<int>, i: int, j: int)
    requires 0 <= i < a.Length && 0 <= j < a.Length
    modifies a
    ensures a[..] == old(a[..])[i := old(a[j])][j := old(a[i])]
    ensures multiset(a[..]) == old(multiset(a[..]))
  {
    a[i], a[j] := a[j], a[i];
  }

  /** The sort call of sortIndices: reorder the index array a so that the
      values it names are non-decreasing in rank. */
  method SortByRank(a: array<int>, vec: seq<real>, descending: bool)
    requires InRange(a[..], |vec|)
    modifies a
    ensures InRange(a[..], |vec|)
    ensures multiset(a[..]) == old(multiset(a[..]))
    ensures forall s, t :: 0 <= s < t < a.Length ==> Rank(vec, descending, a[s]) <= Rank(vec, descending, a[t])
  {
    var i := 0;
    while i < a.Length
      invariant 0 <= i <= a.Length
      invariant InRange(a[..], |vec|)
      invariant multiset(a[..]) == old(multiset(a[..]))
      invariant forall s, t :: 0 <= s < t < i ==> Rank(vec, descending, a[s]) <= Rank(vec, descending, a[t])
      invariant forall s, t :: 0 <= s < i <= t < a.Length ==> Rank(vec, descending, a[s]) <= Rank(vec, descending, a[t])
    {
      var m := i;
      var j := i + 1;
      while j < a.Length
        invariant i <= m < a.Length && i + 1 <= j <= a.Length
        invariant forall t :: i <= t < j ==> Rank(vec, descending, a[m]) <= Rank(vec, descending, a[t])
      {
        if Rank(vec, descending, a[j]) < Rank(vec, descending, a[m]) {
          m := j;
        }
        j := j + 1;
      }
      Swap(a, i, m);
      i := i + 1;
    }
  }

  /** sortIndices: a permutation of the indices of vec ordering its values
      non-decreasingly, or non-increasingly when descending. */
  method SortIndices(vec: seq<real>, descending: bool) returns (sortedIndices: seq<int>)
    ensures IsPermutation(sortedIndices, |vec|)
    ensures |sortedIndices| == |vec| && InRange(sortedIndices, |vec|)
    ensures forall s, t :: 0 <= s < t < |vec| ==>
      if descending then vec[sortedIndices[s]] >= vec[sortedIndices[t]]
      else vec[sortedIndices[s]] <= vec[sortedIndices[t]]
  {
    var a := new int[|vec|](_ => 0);
    for i := 0 to |vec|
      invariant forall t :: 0 <= t < i ==> a[t] == t
    {
      a[i] := i;
    }
    assert a[..] == Iota(|vec|);
    SortByRank(a, vec, descending);
    sortedIndices := a[..];
  }

  /** A set that is not empty has an element. */
  lemma NonEmpty(s: set<int>)
    requires s != {}
    ensures exists x :: x in s
  {
    if forall x :: x !in s {
      assert false;
    }
  }

  /** A non-empty finite set of integers has a least element. */
  lemma HasLeast(s: set<int>)
    requires s != {}
    ensures exists m :: m in s && forall o :: o in s ==> m <= o
  {
    NonEmpty(s);
    var x :| x in s;
    LeastBelow(s, x);
  }

  /** Some element of s is at most x and at most every element of s. */
  lemma {:induction false} LeastBelow(s: set<int>, x: int)
    requires x in s
    ensures exists m :: m in s && m <= x && forall o :: o in s ==> m <= o
    decreases |s|
  {
    var r := s - {x};
    if r == {} {
      forall o | o in s
        ensures x <= o
      {
        assert o !in r;
      }
    } else {
      NonEmpty(r);
      var y :| y in r;
      LeastBelow(r, y);
      var m :| m in r && forall o :: o in r ==> m <= o;
      var least := if x < m then x else m;
      forall o | o in s
        ensures least <= o
      {
        if o != x {
          assert o in r;
        }
      }
      assert least in s && least <= x;
    }
  }

  /** What keys returns as written: a vector of |m| entries in which only
      the first is ever assigned; it ends up holding the last key visited
      (the greatest), and the others keep their initial value 0. */
  ghost predicate KeysAsWritten(m: map<int, real>, K: seq<int>)
  {
    && |K| == |m|
    && (|m| > 0 ==> K[0] in m && forall x :: x in m ==> x <= K[0])
    && forall t :: 1 <= t < |K| ==> K[t] == 0
  }

  /** The state of the as-written keys loop after visiting the keys in
      visited, the least ones, in increasing order. */
  ghost predicate KeysLoop(m: map<int, real>, K: seq<int>, rest: set<int>, visited: set<int>)
  {
    && rest + visited == m.Keys && rest !! visited
    && |K| == |m|
    && (visited != {} ==> |K| > 0 && K[0] in visited)
    && (visited != {} ==> forall v :: v in visited ==> v <= K[0])
    && (visited != {} ==> forall r :: r in rest ==> K[0] < r)
    && (forall t :: 1 <= t < |K| ==> K[t] == 0)
  }

  /** One iteration writes the least remaining key to position 0. */
  lemma KeysLoopStep(m: map<int, real>, K: seq<int>, rest: set<int>, visited: set<int>, key: int)
    requires KeysLoop(m, K, rest, visited)
    requires key in rest && forall o :: o in rest ==> key <= o
    ensures |K| > 0 && KeysLoop(m, K[0 := key], rest - {key}, visited + {key})
  {
    assert |m.Keys| == |m|;
    assert key in m.Keys;
  }

  /** keys, as written: the loop visits the keys in increasing order, as a
      std::map iterator does, but never advances the output position k. */
  method Keys(m: map<int, real>) returns (K: seq<int>)
    ensures KeysAsWritten(m, K)
  {
    K := seq(|m|, _ => 0);
    var k := 0;
    var rest := m.Keys;
    ghost var visited: set<int> := {};
    while rest != {}
      invariant k == 0 && KeysLoop(m, K, rest, visited)
      decreases |rest|
    {
      HasLeast(rest);
      var key :| key in rest && forall o :: o in rest ==> key <= o;
      KeysLoopStep(m, K, rest, visited, key);
      K := K[k := key];
      rest := rest - {key};
      visited := visited + {key};
    }
    assert |m.Keys| == |m|;
  }

  /** Exhibits the difference: whenever the map has two keys or more and no
      key 0, some key is missing from the vector keys returns. */
  lemma KeysMissesAKey(m: map<int, real>, K: seq<int>)
    requires KeysAsWritten(m, K) && |m| >= 2 && 0 !in m
    ensures exists x :: x in m && x !in K
  {
    var top := K[0];
    var others := m.Keys - {top};
    assert |others| >= 1 by {
      assert |m.Keys| == |others| + 1;
    }
    NonEmpty(others);
    var x :| x in others;
    forall t | 0 <= t < |K|
      ensures K[t] != x
    {
      if t == 0 {
      } else {
        assert K[t] == 0;
      }
    }
  }

  /** keys, as evidently intended (k advanced after each key): every key of
      the map exactly once, in increasing order. */
  method SortedKeys(m: map<int, real>) returns (K: seq<int>)
    ensures |K| == |m|
    ensures forall x :: x in K <==> x in m
    ensures forall s, t :: 0 <= s < t < |K| ==> K[s] < K[t]
  {
    K := [];
    var rest := m.Keys;
    while rest != {}
      invariant rest !! set x | x in K
      invariant forall x :: x in m <==> x in rest || x in K
      invariant |K| + |rest| == |m|
      invariant forall s, r :: 0 <= s < |K| && r in rest ==> K[s] < r
      invariant forall s, t :: 0 <= s < t < |K| ==> K[s] < K[t]
      decreases |rest|
    {
      HasLeast(rest);
      var key :| key in rest && forall o :: o in rest ==> key <= o;
      K := K + [key];
      rest := rest - {key};
    }
  }
}
