/** Sequence operations shared by every component: the order-preserving filter
    behind SQL `WHERE` clauses, Kotlin `filter` and JavaScript `Array.filter`,
    and the stable sort by an integer key behind `ORDER BY`, `sortedByDescending`
    and `Array.sort` with a numeric comparator. */
module Seqs {

  /** The elements of `s` that satisfy `p`, in their original order. */
  function Filter<T(!new)>(s: seq<T>, p: T -> bool): (r: seq<T>)
    ensures |r| <= |s|
    ensures forall x :: x in r <==> x in s && p(x)
    decreases |s|
  {
    if |s| == 0 then []
    else
      var rest := Filter(s[1..], p);
      if p(s[0]) then [s[0]] + rest else rest
  }

  /** The filter keeps every occurrence of an element that satisfies `p` and none of one that does not. */
  lemma {:induction false} FilterMultiset<T(!new)>(s: seq<T>, p: T -> bool)
    ensures forall x :: multiset(Filter(s, p))[x] == if p(x) then multiset(s)[x] else 0
    decreases |s|
  {
    if |s| > 0 {
      assert s == [s[0]] + s[1..];
      FilterMultiset(s[1..], p);
    }
  }

  /** Filtering distributes over concatenation: the filter keeps the order of `a + b`. */
  lemma {:induction false} FilterConcat<T(!new)>(a: seq<T>, b: seq<T>, p: T -> bool)
    ensures Filter(a + b, p) == Filter(a, p) + Filter(b, p)
    decreases |a|
  {
    if |a| == 0 {
      assert a + b == b;
    } else {
      assert (a + b)[1..] == a[1..] + b;
      FilterConcat(a[1..], b, p);
    }
  }

  /** Two predicates that agree on the elements of `s` filter it alike. */
  lemma {:induction false} FilterExt<T(!new)>(s: seq<T>, p: T -> bool, q: T -> bool)
    requires forall x :: x in s ==> p(x) == q(x)
    ensures Filter(s, p) == Filter(s, q)
    decreases |s|
  {
    if |s| > 0 {
      FilterExt(s[1..], p, q);
    }
  }

  /** Filtering twice is filtering once by the conjunction. */
  lemma {:induction false} FilterFilter<T(!new)>(s: seq<T>, p: T -> bool, q: T -> bool)
    ensures Filter(Filter(s, p), q) == Filter(s, x => p(x) && q(x))
    decreases |s|
  {
    if |s| > 0 {
      FilterFilter(s[1..], p, q);
      var rest := Filter(s[1..], p);
      if p(s[0]) {
        assert ([s[0]] + rest)[1..] == rest;
      }
    }
  }

  /** Filtering by `p` first changes nothing when `q` implies `p`. */
  lemma {:induction false} FilterWeaker<T(!new)>(s: seq<T>, p: T -> bool, q: T -> bool)
    requires forall x :: q(x) ==> p(x)
    ensures Filter(Filter(s, p), q) == Filter(s, q)
    decreases |s|
  {
    if |s| > 0 {
      FilterWeaker(s[1..], p, q);
      if p(s[0]) {
        assert ([s[0]] + Filter(s[1..], p))[1..] == Filter(s[1..], p);
      }
    }
  }

  /** A predicate that holds of every element filters nothing out. */
  lemma {:induction false} FilterAll<T(!new)>(s: seq<T>, p: T -> bool)
    requires forall x :: x in s ==> p(x)
    ensures Filter(s, p) == s
    decreases |s|
  {
    if |s| > 0 {
      FilterAll(s[1..], p);
      assert s == [s[0]] + s[1..];
    }
  }

  /** A predicate that holds of no element filters everything out. */
  lemma {:induction false} FilterNone<T(!new)>(s: seq<T>, p: T -> bool)
    requires forall x :: x in s ==> !p(x)
    ensures Filter(s, p) == []
    decreases |s|
  {
    if |s| > 0 {
      FilterNone(s[1..], p);
      assert s[0] in s;
    }
  }

  /** No two positions of `s` hold the same value. */
  ghost predicate Distinct<T>(s: seq<T>)
  {
    forall i, j :: 0 <= i < j < |s| ==> s[i] != s[j]
  }

  /** A sequence without repetitions keeps none under filtering. */
  lemma {:induction false} FilterDistinct<T(!new)>(s: seq<T>, p: T -> bool)
    requires Distinct(s)
    ensures Distinct(Filter(s, p))
    decreases |s|
  {
    if |s| > 0 {
      assert s == [s[0]] + s[1..];
      FilterDistinct(s[1..], p);
      assert s[0] !in s[1..];
    }
  }

  /** No two positions of `s` share a `key`. */
  ghost predicate DistinctBy<T, K>(s: seq<T>, key: T -> K)
  {
    forall i, j :: 0 <= i < j < |s| ==> key(s[i]) != key(s[j])
  }

  /** Filtering keeps keys unique. */
  lemma {:induction false} FilterDistinctBy<T(!new), K>(s: seq<T>, p: T -> bool, key: T -> K)
    requires DistinctBy(s, key)
    ensures DistinctBy(Filter(s, p), key)
    decreases |s|
  {
    if |s| > 0 {
      FilterDistinctBy(s[1..], p, key);
      var rest := Filter(s[1..], p);
      forall y | y in rest ensures key(y) != key(s[0]) {
        var k :| 0 <= k < |s[1..]| && s[1..][k] == y;
        assert s[k + 1] == y;
      }
    }
  }

  /** An element whose key no element of `s` has keeps keys unique when appended. */
  lemma AppendDistinctBy<T, K>(s: seq<T>, x: T, key: T -> K)
    requires DistinctBy(s, key)
    requires forall y :: y in s ==> key(y) != key(x)
    ensures DistinctBy(s + [x], key)
  {
    var t := s + [x];
    forall i, j | 0 <= i < j < |t| ensures key(t[i]) != key(t[j]) {
      if j == |s| {
        assert t[i] in s;
      } else {
        assert t[i] == s[i] && t[j] == s[j];
      }
    }
  }

  /** With unique keys no value occurs twice. */
  lemma {:induction false} DistinctByCount<T, K>(s: seq<T>, key: T -> K, x: T)
    requires DistinctBy(s, key)
    ensures multiset(s)[x] <= 1
    decreases |s|
  {
    if |s| > 0 {
      var rest := s[1..];
      assert s == [s[0]] + rest;
      forall i, j | 0 <= i < j < |rest| ensures key(rest[i]) != key(rest[j]) {
        assert rest[i] == s[i + 1] && rest[j] == s[j + 1];
      }
      DistinctByCount(rest, key, x);
      if s[0] == x {
        forall k | 0 <= k < |rest| ensures rest[k] != x {
          assert key(s[0]) != key(s[k + 1]);
        }
        assert x !in rest;
      }
    }
  }

  /** A permutation of a sequence with unique keys has unique keys. */
  lemma DistinctByPermutation<T, K>(u: seq<T>, v: seq<T>, key: T -> K)
    requires DistinctBy(u, key) && multiset(u) == multiset(v)
    ensures DistinctBy(v, key)
  {
    forall i, j | 0 <= i < j < |v| ensures key(v[i]) != key(v[j]) {
      var x := v[j];
      DistinctByCount(u, key, x);
      assert v == v[..j] + v[j..];
      assert v[j..][0] == x;
      assert multiset(v[..j])[x] == 0;
      assert v[..j][i] == v[i];
      assert v[i] in multiset(u) && x in multiset(u);
      var a :| 0 <= a < |u| && u[a] == v[i];
      var b :| 0 <= b < |u| && u[b] == x;
      if a < b {
        assert key(u[a]) != key(u[b]);
      } else {
        assert key(u[b]) != key(u[a]);
      }
    }
  }

  ghost predicate SortedDesc<T>(s: seq<T>, key: T -> int)
  {
    forall i, j :: 0 <= i < j < |s| ==> key(s[i]) >= key(s[j])
  }

  ghost predicate SortedAsc<T>(s: seq<T>, key: T -> int)
  {
    forall i, j :: 0 <= i < j < |s| ==> key(s[i]) <= key(s[j])
  }

  /** Puts `x` in front of the first element whose key is not larger than its own. */
  function InsertDesc<T(!new)>(x: T, s: seq<T>, key: T -> int): (r: seq<T>)
    ensures |r| == |s| + 1
    ensures multiset(r) == multiset(s) + multiset{x}
    ensures SortedDesc(s, key) ==> SortedDesc(r, key)
    decreases |s|
  {
    if |s| == 0 then [x]
    else if key(x) >= key(s[0]) then [x] + s
    else
      assert s == [s[0]] + s[1..];
      var rest := InsertDesc(x, s[1..], key);
      assert SortedDesc(s, key) ==> forall y :: y in rest ==> key(y) <= key(s[0]) by {
        if SortedDesc(s, key) {
          SortedHeadBound(s, key);
          assert forall y :: y in rest ==> y in multiset(s[1..]) + multiset{x};
        }
      }
      [s[0]] + rest
  }

  /** In a descending sequence no later element has a larger key than the head. */
  lemma SortedHeadBound<T>(s: seq<T>, key: T -> int)
    requires |s| > 0 && SortedDesc(s, key)
    ensures forall y :: y in s[1..] ==> key(y) <= key(s[0])
  {
    forall y | y in s[1..] ensures key(y) <= key(s[0]) {
      var k :| 0 <= k < |s[1..]| && s[1..][k] == y;
      assert s[k + 1] == y;
    }
  }

  /** `s` in order of non-increasing `key`, by insertion, so that elements with
      equal keys keep their relative order (a stable sort). */
  function SortDesc<T(!new)>(s: seq<T>, key: T -> int): (r: seq<T>)
    ensures |r| == |s|
    ensures multiset(r) == multiset(s)
    ensures SortedDesc(r, key)
    decreases |s|
  {
    if |s| == 0 then []
    else
      assert s == [s[0]] + s[1..];
      InsertDesc(s[0], SortDesc(s[1..], key), key)
  }

  /** `s` in order of non-decreasing `key`: the stable descending sort by the negated key. */
  function SortAsc<T(!new)>(s: seq<T>, key: T -> int): (r: seq<T>)
    ensures |r| == |s|
    ensures multiset(r) == multiset(s)
    ensures SortedAsc(r, key)
  {
    var r := SortDesc(s, x => -key(x));
    assert forall i, j :: 0 <= i < j < |r| ==> -key(r[i]) >= -key(r[j]);
    r
  }

  /** The first `n` elements of `s`, or all of them when there are fewer (SQL `LIMIT n`). */
  function Take<T>(s: seq<T>, n: nat): (r: seq<T>)
    ensures |r| == if |s| < n then |s| else n
    ensures r == s[..|r|]
  {
    if |s| <= n then s else s[..n]
  }

  /** The first `n` elements of a descending sort of `all` hold the largest
      keys: no element of `all` left out has a larger key than one kept. */
  lemma TakeOfSortedDescIsTop<T>(s: seq<T>, all: seq<T>, n: nat, key: T -> int)
    requires SortedDesc(s, key) && multiset(s) == multiset(all)
    ensures var r := Take(s, n);
      forall x, y :: x in r && y in all && y !in r ==> key(x) >= key(y)
  {
    var r := Take(s, n);
    assert s == r + s[|r|..];
    forall x, y | x in r && y in all && y !in r ensures key(x) >= key(y) {
      assert y in multiset(all);
      assert y in s;
      var j :| 0 <= j < |s| && s[j] == y;
      var i :| 0 <= i < |r| && r[i] == x;
      assert j >= |r|;
    }
  }

  /** `f` applied to each element, in order (Kotlin's `map`). */
  function MapSeq<A, B>(s: seq<A>, f: A -> B): (r: seq<B>)
    ensures |r| == |s|
    ensures forall i :: 0 <= i < |s| ==> r[i] == f(s[i])
    decreases |s|
  {
    if s == [] then [] else [f(s[0])] + MapSeq(s[1..], f)
  }
}
