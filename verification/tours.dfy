/** Tours and the adjacency sets that describe them.

    An open tour is a permutation of the nodes 0..n-1. A closed tour lists
    n + 1 nodes, the last repeating the first, as `restore_path` returns it
    in loop mode. `Matches` says that an adjacency list (one neighbour set per
    node, the solver's `connections`) is exactly the edge set of a tour. */
module Tours {
  import opened Distances

  predicate Distinct(s: seq<nat>) {
    forall k, l :: 0 <= k < l < |s| ==> s[k] != s[l]
  }

  predicate IsPerm(s: seq<nat>, n: nat) {
    |s| == n && Distinct(s) && Nodes(s, n)
  }

  /** Every entry is a node and consecutive entries are neighbours in `adj`. */
  predicate Linked(adj: seq<set<nat>>, w: seq<nat>) {
    Nodes(w, |adj|) && forall k :: 0 <= k < |w| - 1 ==> w[k + 1] in adj[w[k]]
  }

  predicate IsTour(w: seq<nat>, n: nat, closed: bool) {
    if closed then n >= 3 && |w| == n + 1 && w[n] == w[0] && IsPerm(w[..n], n)
    else n >= 2 && IsPerm(w, n)
  }

  /** The neighbours the tour gives to its k-th entry. */
  function Around(w: seq<nat>, k: nat, closed: bool): set<nat>
    requires closed ==> 0 < k + 1 < |w| && |w| >= 2
    requires !closed ==> k < |w|
  {
    if closed then {if k == 0 then w[|w| - 2] else w[k - 1], w[k + 1]}
    else (if k > 0 then {w[k - 1]} else {}) + (if k + 1 < |w| then {w[k + 1]} else {})
  }

  predicate Matches(adj: seq<set<nat>>, w: seq<nat>, n: nat, closed: bool)
    requires IsTour(w, n, closed)
  {
    |adj| == n && forall k {:trigger Around(w, k, closed)} :: 0 <= k < n ==> adj[w[k]] == Around(w, k, closed)
  }

  lemma TourNodes(w: seq<nat>, n: nat, closed: bool)
    requires IsTour(w, n, closed)
    ensures Nodes(w, n)
  {
    if closed {
      assert forall k :: 0 <= k < n ==> w[..n][k] == w[k];
    }
  }

  /** Reading a tour backwards gives a tour described by the same adjacency. */
  lemma ReverseTour(adj: seq<set<nat>>, w: seq<nat>, n: nat, closed: bool)
    requires IsTour(w, n, closed) && Matches(adj, w, n, closed)
    ensures IsTour(Reverse(w), n, closed) && Matches(adj, Reverse(w), n, closed)
  {
    if closed {
      ReverseClosedPerm(w, n);
      ReverseClosedMatches(adj, w, n);
    } else {
      ReverseOpen(adj, w, n);
    }
  }

  lemma ReverseOpen(adj: seq<set<nat>>, w: seq<nat>, n: nat)
    requires IsTour(w, n, false) && Matches(adj, w, n, false)
    ensures IsTour(Reverse(w), n, false) && Matches(adj, Reverse(w), n, false)
  {
    var r := Reverse(w);
    forall k | 0 <= k < n
      ensures adj[r[k]] == Around(r, k, false)
    {
      assert adj[w[n - 1 - k]] == Around(w, n - 1 - k, false);
    }
  }

  lemma ReverseClosedPerm(w: seq<nat>, n: nat)
    requires IsTour(w, n, true)
    ensures IsTour(Reverse(w), n, true)
  {
    var r := Reverse(w);
    var h := w[..n];
    forall k, l | 0 <= k < l < n
      ensures r[..n][k] != r[..n][l]
    {
      if k == 0 {
        assert r[k] == h[0] && r[l] == h[n - l];
      } else {
        assert r[k] == h[n - k] && r[l] == h[n - l];
      }
    }
    forall k | 0 <= k < n
      ensures r[..n][k] < n
    {
      if k == 0 { assert r[k] == h[0]; } else { assert r[k] == h[n - k]; }
    }
  }

  lemma ReverseClosedMatches(adj: seq<set<nat>>, w: seq<nat>, n: nat)
    requires IsTour(w, n, true) && Matches(adj, w, n, true)
    ensures IsTour(Reverse(w), n, true)
    ensures Matches(adj, Reverse(w), n, true)
  {
    ReverseClosedPerm(w, n);
    forall k | 0 <= k < n
      ensures adj[Reverse(w)[k]] == Around(Reverse(w), k, true)
    {
      ReverseClosedAt(adj, w, n, k);
    }
  }

  lemma ReverseClosedAt(adj: seq<set<nat>>, w: seq<nat>, n: nat, k: nat)
    requires n >= 3 && |w| == n + 1 && w[n] == w[0] && |adj| == n && k < n
    requires forall i :: 0 <= i < n ==> w[i] < n
    requires forall i {:trigger Around(w, i, true)} :: 0 <= i < n ==> adj[w[i]] == Around(w, i, true)
    ensures adj[Reverse(w)[k]] == Around(Reverse(w), k, true)
  {
    var r := Reverse(w);
    if k == 0 {
      assert r[0] == w[0] && r[n - 1] == w[1] && r[1] == w[n - 1];
      assert Around(r, 0, true) == {w[1], w[n - 1]} == Around(w, 0, true);
    } else {
      var j := n - k;
      assert r[k] == w[j] && r[k - 1] == w[j + 1] && r[k + 1] == w[j - 1];
      assert Around(r, k, true) == {w[j + 1], w[j - 1]} == Around(w, j, true);
    }
  }

  /** Pigeonhole: distinct ids below n are at most n. */
  lemma {:induction false} DistinctBound(s: seq<nat>, n: nat)
    requires Distinct(s) && Nodes(s, n)
    ensures |s| <= n
    decreases n
  {
    if |s| == 0 {
    } else if i :| 0 <= i < |s| && s[i] == n - 1 {
      var t := s[..i] + s[i + 1..];
      assert forall k :: 0 <= k < |t| ==> t[k] == (if k < i then s[k] else s[k + 1]);
      DistinctBound(t, n - 1);
    } else {
      assert s[0] < n;
      DistinctBound(s, n - 1);
    }
  }

  /** A permutation of 0..n-1 contains every node. */
  lemma PermCovers(s: seq<nat>, n: nat, v: nat)
    requires IsPerm(s, n) && v < n
    ensures v in s
  {
    if v !in s {
      var t := seq(|s|, k requires 0 <= k < |s| => if s[k] == n - 1 then v else s[k]);
      assert Distinct(t) by {
        forall k, l | 0 <= k < l < |t|
          ensures t[k] != t[l]
        {
          assert s[k] != s[l];
        }
      }
      DistinctBound(t, n - 1);
    }
  }

  /** Neighbour sets of a graph without self-loops in which every edge is
      recorded at both ends and no node has more than two neighbours. */
  predicate Simple(adj: seq<set<nat>>) {
    && (forall v: nat, u: nat {:trigger u in adj[v]} :: v < |adj| && u in adj[v] ==> u < |adj| && u != v && v in adj[u])
    && (forall v :: 0 <= v < |adj| ==> |adj[v]| <= 2)
  }

  /** No step of `w` goes straight back to the node before. */
  predicate Forward(w: seq<nat>) {
    forall k :: 0 <= k && k + 2 < |w| ==> w[k + 2] != w[k]
  }

  lemma TwoIn(s: set<nat>, a: nat, b: nat)
    requires a in s && b in s && a != b
    ensures |s| >= 2
  {
    assert {a, b} <= s;
    assert s == {a, b} + (s - {a, b});
  }

  lemma ThreeIn(s: set<nat>, a: nat, b: nat, c: nat)
    requires a in s && b in s && c in s && a != b && b != c && a != c
    ensures |s| >= 3
  {
    assert {a, b, c} <= s;
    assert s == {a, b, c} + (s - {a, b, c});
  }

  /** The last node of a forward linked walk from a node with at most one
      neighbour is none of the earlier ones, when those are distinct. */
  lemma NoReturn(adj: seq<set<nat>>, w: seq<nat>, i: nat)
    requires Simple(adj) && Linked(adj, w) && Forward(w) && |w| >= 1 && |adj[w[0]]| <= 1
    requires Distinct(w[..|w| - 1]) && i < |w| - 1
    ensures w[i] != w[|w| - 1]
  {
    var j := |w| - 1;
    var h := w[..j];
    if w[i] == w[j] {
      assert w[j] in adj[w[j - 1]];
      assert w[j - 1] in adj[w[i]];
      if i + 1 == j {
        assert false;
      } else if i + 2 == j {
        assert false;
      } else {
        assert h[i + 1] != h[j - 1];
        assert w[i + 1] in adj[w[i]];
        if i == 0 {
          TwoIn(adj[w[0]], w[1], w[j - 1]);
          assert false;
        } else {
          assert w[i] in adj[w[i - 1]];
          assert h[i - 1] != h[i + 1] && h[i - 1] != h[j - 1];
          ThreeIn(adj[w[i]], w[i - 1], w[i + 1], w[j - 1]);
          assert false;
        }
      }
    }
  }

  /** A forward linked walk from a node with at most one neighbour never
      returns to a node: in a graph of degree at most two it runs along a
      path. */
  lemma {:induction false} LinkedDistinct(adj: seq<set<nat>>, w: seq<nat>)
    requires Simple(adj) && Linked(adj, w) && Forward(w) && |w| >= 1 && |adj[w[0]]| <= 1
    ensures Distinct(w)
    decreases |w|
  {
    if |w| >= 2 {
      var u := w[..|w| - 1];
      assert forall k :: 0 <= k < |u| ==> u[k] == w[k];
      LinkedDistinct(adj, u);
      forall i | 0 <= i < |w| - 1
        ensures w[i] != w[|w| - 1]
      {
        NoReturn(adj, w, i);
      }
    }
  }

  /** A neighbour of the k-th node of a linked permutation is next to it in
      the permutation. */
  lemma AroundOnly(adj: seq<set<nat>>, p: seq<nat>, n: nat, k: nat, x: nat)
    requires Simple(adj) && |adj| == n && n >= 2 && IsPerm(p, n) && Linked(adj, p) && |adj[p[0]]| <= 1
    requires k < n && x in adj[p[k]]
    ensures x in Around(p, k, false)
  {
    PermCovers(p, n, x);
    var m :| 0 <= m < n && p[m] == x;
    if m + 1 != k && m != k + 1 {
      assert m != k;
      if k == 0 {
        TwoIn(adj[p[0]], p[1], p[m]);
        assert false;
      } else if k < n - 1 {
        assert p[k] in adj[p[k - 1]];
        ThreeIn(adj[p[k]], p[k - 1], p[k + 1], p[m]);
        assert false;
      } else {
        assert p[k] in adj[p[m]];
        if m == 0 {
          TwoIn(adj[p[0]], p[1], p[k]);
          assert false;
        } else {
          assert p[m] in adj[p[m - 1]];
          ThreeIn(adj[p[m]], p[m - 1], p[m + 1], p[k]);
          assert false;
        }
      }
    }
  }

  /** A linked permutation starting at a node with at most one neighbour, in
      a graph of degree at most two, is an open tour its adjacency describes
      exactly. */
  lemma LinkedTour(adj: seq<set<nat>>, p: seq<nat>, n: nat)
    requires Simple(adj) && |adj| == n && n >= 2 && IsPerm(p, n) && Linked(adj, p) && |adj[p[0]]| <= 1
    ensures IsTour(p, n, false) && Matches(adj, p, n, false)
  {
    forall k | 0 <= k < n
      ensures adj[p[k]] == Around(p, k, false)
    {
      if k > 0 {
        assert p[k] in adj[p[k - 1]];
      }
      if k + 1 < n {
        assert p[k + 1] in adj[p[k]];
      }
      forall x | x in adj[p[k]]
        ensures x in Around(p, k, false)
      {
        AroundOnly(adj, p, n, k, x);
      }
    }
  }

  /** In an open tour exactly the two ends have one neighbour; the rest have two. */
  lemma OpenTourDegrees(adj: seq<set<nat>>, p: seq<nat>, n: nat, v: nat)
    requires IsTour(p, n, false) && Matches(adj, p, n, false) && v < n
    ensures |adj[v]| == (if v == p[0] || v == p[n - 1] then 1 else 2)
  {
    PermCovers(p, n, v);
    var k :| 0 <= k < n && p[k] == v;
    assert adj[p[k]] == Around(p, k, false);
    if k == 0 {
      assert Around(p, k, false) == {p[1]};
    } else if k == n - 1 {
      assert Around(p, k, false) == {p[k - 1]};
    } else {
      assert Around(p, k, false) == {p[k - 1], p[k + 1]};
    }
  }

  /** In a closed tour every node has two neighbours. */
  lemma ClosedTourDegrees(adj: seq<set<nat>>, q: seq<nat>, n: nat, v: nat)
    requires IsTour(q, n, true) && Matches(adj, q, n, true) && v < n
    ensures |adj[v]| == 2
  {
    var h := q[..n];
    PermCovers(h, n, v);
    var k :| 0 <= k < n && h[k] == v;
    assert adj[q[k]] == Around(q, k, true);
    if k == 0 {
      assert q[n - 1] == h[n - 1] && q[1] == h[1];
    } else if k == n - 1 {
      assert q[k - 1] == h[k - 1] && q[k + 1] == h[0];
    } else {
      assert q[k - 1] == h[k - 1] && q[k + 1] == h[k + 1];
    }
  }
}
