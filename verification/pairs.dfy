/** Candidate edges in greedy order (solver/greedy_2opt.py, pairs_by_dist).

    numpy's `triu_indices(N, k=1)` lists the pairs (i, j) with i < j row by
    row; each pair is then flipped to (j, i), larger index first, and the list
    is sorted by `dist_matrix[j][i]` with a stable mergesort. Because the
    enumeration is already ordered by (i, j), a stable sort by distance is
    the same as a sort by the key (distance, i, j); `SortedUnique` shows
    that the sorted order is fully determined by that key. */
module Pairs {
  import opened Distances

  /** An unordered pair as the solver lists it: larger index first. */
  datatype Pair = Pair(hi: nat, lo: nat)

  predicate ValidPair(p: Pair, n: nat) {
    p.lo < p.hi < n
  }

  /** Enumeration order of `triu_indices`: by smaller index, then larger. */
  predicate EnumBefore(p: Pair, q: Pair) {
    p.lo < q.lo || (p.lo == q.lo && p.hi < q.hi)
  }

  /** The distance the sort reads: row `hi`, column `lo`, below the diagonal. */
  function PairDist(m: Matrix, p: Pair): int
    requires LowerComplete(m) && ValidPair(p, |m|)
  {
    m[p.hi][p.lo]
  }

  predicate KeyBefore(m: Matrix, p: Pair, q: Pair)
    requires LowerComplete(m) && ValidPair(p, |m|) && ValidPair(q, |m|)
  {
    PairDist(m, p) < PairDist(m, q) || (PairDist(m, p) == PairDist(m, q) && EnumBefore(p, q))
  }

  predicate AllValid(s: seq<Pair>, n: nat) {
    forall k :: 0 <= k < |s| ==> ValidPair(s[k], n)
  }

  /** Strictly increasing by the sort key; in particular no pair repeats. */
  predicate SortedByKey(m: Matrix, s: seq<Pair>)
    requires LowerComplete(m) && AllValid(s, |m|)
  {
    forall k, l :: 0 <= k < l < |s| ==> KeyBefore(m, s[k], s[l])
  }

  /** Pairs (hi, lo) of row `lo` with hi running from `hi` to n - 1. */
  function RowPairs(lo: nat, hi: nat, n: nat): (r: seq<Pair>)
    requires lo < hi
    decreases n - hi
    ensures forall p :: p in r <==> p.lo == lo && hi <= p.hi < n
    ensures forall k, l :: 0 <= k < l < |r| ==> EnumBefore(r[k], r[l])
  {
    if hi >= n then [] else [Pair(hi, lo)] + RowPairs(lo, hi + 1, n)
  }

  /** All pairs whose smaller index is at least `lo`, in enumeration order. */
  function Enumerate(lo: nat, n: nat): (r: seq<Pair>)
    decreases n - lo
    ensures forall p :: p in r <==> lo <= p.lo < p.hi < n
    ensures forall k, l :: 0 <= k < l < |r| ==> EnumBefore(r[k], r[l])
  {
    if lo >= n then []
    else
      var row := RowPairs(lo, lo + 1, n);
      var rest := Enumerate(lo + 1, n);
      assert forall k, l :: 0 <= k < |row| && 0 <= l < |rest| ==> EnumBefore(row[k], rest[l]) by {
        forall k, l | 0 <= k < |row| && 0 <= l < |rest|
          ensures EnumBefore(row[k], rest[l])
        {
          assert row[k] in row && rest[l] in rest;
        }
      }
      row + rest
  }

  function Insert(m: Matrix, x: Pair, s: seq<Pair>): (r: seq<Pair>)
    requires LowerComplete(m) && ValidPair(x, |m|) && AllValid(s, |m|)
    requires SortedByKey(m, s) && x !in s
    ensures AllValid(r, |m|) && SortedByKey(m, r) && |r| == |s| + 1
    ensures forall p :: p in r <==> p == x || p in s
  {
    if s == [] then [x]
    else if KeyBefore(m, x, s[0]) then [x] + s
    else
      var t := Insert(m, x, s[1..]);
      assert forall p :: p in s[1..] ==> p in s;
      assert forall p :: p in t ==> KeyBefore(m, s[0], p) by {
        forall p | p in t
          ensures KeyBefore(m, s[0], p)
        {
          if p != x {
            var l :| 0 <= l < |s[1..]| && s[1..][l] == p;
            assert s[l + 1] == p;
          }
        }
      }
      [s[0]] + t
  }

  function Sort(m: Matrix, s: seq<Pair>): (r: seq<Pair>)
    requires LowerComplete(m) && AllValid(s, |m|)
    requires forall k, l :: 0 <= k < l < |s| ==> s[k] != s[l]
    ensures AllValid(r, |m|) && SortedByKey(m, r) && |r| == |s|
    ensures forall p :: p in r <==> p in s
  {
    if s == [] then []
    else
      assert s[0] !in s[1..];
      Insert(m, s[0], Sort(m, s[1..]))
  }

  function PairsByDist(m: Matrix): (r: seq<Pair>)
    requires LowerComplete(m)
    ensures forall p :: p in r <==> ValidPair(p, |m|)
    ensures AllValid(r, |m|)
    ensures forall k, l :: 0 <= k < l < |r| ==> r[k] != r[l]
    ensures forall k, l :: 0 <= k < l < |r| ==> PairDist(m, r[k]) <= PairDist(m, r[l])
    ensures forall k, l :: 0 <= k < l < |r| && PairDist(m, r[k]) == PairDist(m, r[l]) ==> EnumBefore(r[k], r[l])
  {
    var e := Enumerate(0, |m|);
    assert AllValid(e, |m|) by {
      forall k | 0 <= k < |e|
        ensures ValidPair(e[k], |m|)
      {
        assert e[k] in e;
      }
    }
    assert forall k, l :: 0 <= k < l < |e| ==> e[k] != e[l] by {
      forall k, l | 0 <= k < l < |e|
        ensures e[k] != e[l]
      {
        assert EnumBefore(e[k], e[l]);
      }
    }
    var r := Sort(m, e);
    assert forall k, l :: 0 <= k < l < |r| ==> KeyBefore(m, r[k], r[l]);
    r
  }

  /** Two key-sorted lists of the same pairs are equal: the order the
      stable sort produces is determined by the key alone. */
  lemma {:induction false} SortedUnique(m: Matrix, s: seq<Pair>, t: seq<Pair>)
    requires LowerComplete(m) && AllValid(s, |m|) && AllValid(t, |m|)
    requires SortedByKey(m, s) && SortedByKey(m, t)
    requires forall p :: p in s <==> p in t
    ensures s == t
  {
    assert s != [] ==> s[0] in t;
    assert t != [] ==> t[0] in s;
    if s != [] && t != [] {
      if s[0] != t[0] {
        assert false;
      }
      forall p
        ensures p in s[1..] <==> p in t[1..]
      {
        if p in s[1..] {
          var k :| 0 <= k < |s[1..]| && s[1..][k] == p;
          assert s[k + 1] == p && KeyBefore(m, s[0], p);
          assert p in t && p != t[0];
          var l :| 0 <= l < |t| && t[l] == p;
          assert t[1..][l - 1] == p;
        }
        if p in t[1..] {
          var k :| 0 <= k < |t[1..]| && t[1..][k] == p;
          assert t[k + 1] == p && KeyBefore(m, t[0], p);
          assert p in s && p != s[0];
          var l :| 0 <= l < |s| && s[l] == p;
          assert s[1..][l - 1] == p;
        }
      }
      SortedUnique(m, s[1..], t[1..]);
      assert s == [s[0]] + s[1..] && t == [t[0]] + t[1..];
    }
  }
}
