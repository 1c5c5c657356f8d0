/** The LINQ operators the query pipeline composes (`Where`, `OrderBy`,
    `OrderByDescending`, `Skip`, `Take`), on finite sequences, with the
    semantics of LINQ to Objects. */
module Linq {

  /** `a` is `b` with some elements dropped and the rest kept in order. */
  ghost predicate IsSubsequence<T>(a: seq<T>, b: seq<T>)
    decreases |b|
  {
    if a == [] then true
    else if b == [] then false
    else (a[0] == b[0] && IsSubsequence(a[1..], b[1..])) || IsSubsequence(a, b[1..])
  }

  lemma {:induction false} SubsequenceOfSelf<T>(a: seq<T>)
    ensures IsSubsequence(a, a)
    decreases |a|
  {
    if a != [] {
      SubsequenceOfSelf(a[1..]);
    }
  }

  /** `q.Where(p)`. */
  function Where<T>(q: seq<T>, p: T -> bool): (r: seq<T>)
    ensures |r| <= |q|
    ensures forall i :: 0 <= i < |r| ==> r[i] in q && p(r[i])
    ensures forall i :: 0 <= i < |q| && p(q[i]) ==> q[i] in r
  {
    if q == [] then []
    else if p(q[0]) then [q[0]] + Where(q[1..], p)
    else Where(q[1..], p)
  }

  /** Where keeps the elements it keeps in their original order. */
  lemma {:induction false} WhereIsSubsequence<T>(q: seq<T>, p: T -> bool)
    ensures IsSubsequence(Where(q, p), q)
  {
    if q != [] {
      WhereIsSubsequence(q[1..], p);
    }
  }

  /** Where keeps a passing element as often as it occurs and drops every
      occurrence of a failing one. */
  lemma {:induction false} WhereCount<T>(q: seq<T>, p: T -> bool, x: T)
    ensures multiset(Where(q, p))[x] == if p(x) then multiset(q)[x] else 0
  {
    if q != [] {
      WhereCount(q[1..], p, x);
      assert q == [q[0]] + q[1..];
    }
  }

  /** Where depends only on the predicate's values on the elements of `q`. */
  lemma {:induction false} WhereCongruent<T>(q: seq<T>, p1: T -> bool, p2: T -> bool)
    requires forall i :: 0 <= i < |q| ==> p1(q[i]) == p2(q[i])
    ensures Where(q, p1) == Where(q, p2)
  {
    if q != [] {
      WhereCongruent(q[1..], p1, p2);
    }
  }

  /** The elements of `s` are in non-decreasing `rank`. */
  ghost predicate SortedBy<T>(s: seq<T>, rank: T -> int) {
    forall i, j :: 0 <= i < j < |s| ==> rank(s[i]) <= rank(s[j])
  }

  /** Inserts `x` before the first element of rank not below its own. */
  function Insert<T>(x: T, s: seq<T>, rank: T -> int): (r: seq<T>)
    requires SortedBy(s, rank)
    ensures SortedBy(r, rank)
    ensures multiset(r) == multiset(s) + multiset{x}
    ensures r[0] == x || (s != [] && r[0] == s[0])
  {
    if s == [] || rank(x) <= rank(s[0]) then
      SortedCons(x, s, rank);
      [x] + s
    else
      assert s == [s[0]] + s[1..];
      var r := Insert(x, s[1..], rank);
      SortedCons(s[0], r, rank);
      [s[0]] + r
  }

  lemma SortedCons<T>(a: T, s: seq<T>, rank: T -> int)
    requires SortedBy(s, rank)
    requires s != [] ==> rank(a) <= rank(s[0])
    ensures SortedBy([a] + s, rank)
  {
    var r := [a] + s;
    forall i, j | 0 <= i < j < |r| ensures rank(r[i]) <= rank(r[j]) {
      if i == 0 && j > 1 {
        assert rank(s[0]) <= rank(s[j - 1]);
      }
    }
  }

  /** An insertion sort by `rank`, standing for `q.OrderBy(rank)`. Records of
      equal rank keep their order by construction; that is not proved. */
  function SortBy<T>(q: seq<T>, rank: T -> int): (r: seq<T>)
    ensures SortedBy(r, rank)
    ensures multiset(r) == multiset(q)
    ensures |r| == |q|
  {
    if q == [] then []
    else
      assert q == [q[0]] + q[1..];
      Insert(q[0], SortBy(q[1..], rank), rank)
  }

  /** `q.Skip(n)`: a count at or below zero skips nothing. */
  function Skip<T>(q: seq<T>, n: int): (r: seq<T>)
    ensures |r| <= |q| && r == q[|q| - |r|..]
    ensures n <= 0 ==> r == q
    ensures 0 <= n <= |q| ==> |r| == |q| - n
    ensures n >= |q| ==> r == []
  {
    if n <= 0 then q else if n >= |q| then [] else q[n..]
  }

  /** `q.Take(n)`: a count at or below zero takes nothing. */
  function Take<T>(q: seq<T>, n: int): (r: seq<T>)
    ensures |r| <= |q| && r == q[..|r|]
    ensures n <= 0 ==> r == []
    ensures 0 <= n <= |q| ==> |r| == n
    ensures n >= |q| ==> r == q
  {
    if n <= 0 then [] else if n >= |q| then q else q[..n]
  }
}
