/** Graph bookkeeping of the greedy stage: edge sets, segment labels and
    reachability along adjacency sets. */
module Segments {
  import opened Distances
  import opened Pairs
  import opened Tours

  /** The accepted edges, each once, as (larger, smaller) pairs. */
  function Edges(adj: seq<set<nat>>): set<Pair> {
    set u: nat, v: nat | 0 <= u < v < |adj| && v in adj[u] :: Pair(v, u)
  }

  /** The segment labels in use. */
  function Labels(seg: seq<nat>): set<nat> {
    set v | 0 <= v < |seg| :: seg[v]
  }

  /** Relabel the nodes of segments `a` and `b` as `a` (the merge of lines 129-131). */
  function Merge(seg: seq<nat>, a: nat, b: nat): (r: seq<nat>)
    ensures |r| == |seg|
    ensures forall v :: 0 <= v < |seg| ==> (r[v] == a <==> seg[v] == a || seg[v] == b)
    ensures forall v :: 0 <= v < |seg| && seg[v] != a && seg[v] != b ==> r[v] == seg[v]
  {
    seq(|seg|, v requires 0 <= v < |seg| => if seg[v] == a || seg[v] == b then a else seg[v])
  }

  /** Merging keeps nodes that shared a segment together. */
  lemma MergeKeepsTogether(seg: seq<nat>, a: nat, b: nat, u: nat, v: nat)
    requires u < |seg| && v < |seg|
    ensures seg[u] == seg[v] ==> Merge(seg, a, b)[u] == Merge(seg, a, b)[v]
  {
  }

  /** Merging two different labels retires exactly the second one. */
  lemma MergeLabels(seg: seq<nat>, i: nat, j: nat)
    requires i < |seg| && j < |seg| && seg[i] != seg[j]
    ensures Labels(Merge(seg, seg[i], seg[j])) == Labels(seg) - {seg[j]}
    ensures |Labels(Merge(seg, seg[i], seg[j]))| == |Labels(seg)| - 1
  {
    var a, b := seg[i], seg[j];
    var r := Merge(seg, a, b);
    forall x | x in Labels(r)
      ensures x in Labels(seg) - {b}
    {
      var v :| 0 <= v < |r| && r[v] == x;
      if x == a {
        assert seg[i] == a;
      } else {
        assert seg[v] == x;
      }
    }
    forall x | x in Labels(seg) - {b}
      ensures x in Labels(r)
    {
      var v :| 0 <= v < |seg| && seg[v] == x;
      assert r[v] == x;
    }
    assert b in Labels(seg) by { assert seg[j] == b; }
  }

  /** Adding one absent undirected edge adds one element to the edge set. */
  lemma AddEdge(adj: seq<set<nat>>, i: nat, j: nat)
    requires i < |adj| && j < |adj| && i != j
    requires j !in adj[i] && i !in adj[j]
    ensures var adj' := adj[i := adj[i] + {j}][j := adj[j] + {i}];
      Edges(adj') == Edges(adj) + {if i < j then Pair(j, i) else Pair(i, j)}
      && |Edges(adj')| == |Edges(adj)| + 1
  {
    var adj' := adj[i := adj[i] + {j}][j := adj[j] + {i}];
    var e := if i < j then Pair(j, i) else Pair(i, j);
    assert e !in Edges(adj);
    forall p | p in Edges(adj')
      ensures p in Edges(adj) + {e}
    {
      var u: nat, v: nat :| 0 <= u < v < |adj'| && v in adj'[u] && p == Pair(v, u);
      if p != e {
        assert v in adj[u];
      }
    }
    forall p | p in Edges(adj) + {e}
      ensures p in Edges(adj')
    {
      if p == e {
        if i < j { assert j in adj'[i]; } else { assert i in adj'[j]; }
      } else {
        var u: nat, v: nat :| 0 <= u < v < |adj| && v in adj[u] && p == Pair(v, u);
        assert v in adj'[u];
      }
    }
  }

  ghost predicate Reaches(adj: seq<set<nat>>, u: nat, v: nat) {
    exists w :: |w| >= 1 && w[0] == u && w[|w| - 1] == v && Linked(adj, w)
  }

  predicate SymmetricAdj(adj: seq<set<nat>>) {
    forall v, u :: 0 <= v < |adj| && u in adj[v] ==> u < |adj| && v in adj[u]
  }

  predicate Grows(adj: seq<set<nat>>, adj': seq<set<nat>>) {
    |adj| == |adj'| && forall v :: 0 <= v < |adj| ==> adj[v] <= adj'[v]
  }

  lemma ReachesSelf(adj: seq<set<nat>>, u: nat)
    requires u < |adj|
    ensures Reaches(adj, u, u)
  {
    assert Linked(adj, [u]);
  }

  lemma ReachesEdge(adj: seq<set<nat>>, u: nat, v: nat)
    requires u < |adj| && v < |adj| && v in adj[u]
    ensures Reaches(adj, u, v)
  {
    assert Linked(adj, [u, v]);
  }

  lemma ReachesGrow(adj: seq<set<nat>>, adj': seq<set<nat>>, u: nat, v: nat)
    requires Grows(adj, adj') && Reaches(adj, u, v)
    ensures Reaches(adj', u, v)
  {
    var w :| |w| >= 1 && w[0] == u && w[|w| - 1] == v && Linked(adj, w);
    assert Linked(adj', w);
  }

  lemma ReachesBack(adj: seq<set<nat>>, u: nat, v: nat)
    requires SymmetricAdj(adj) && Reaches(adj, u, v)
    ensures Reaches(adj, v, u)
  {
    var w :| |w| >= 1 && w[0] == u && w[|w| - 1] == v && Linked(adj, w);
    var r := Reverse(w);
    forall k | 0 <= k < |r| - 1
      ensures r[k + 1] in adj[r[k]]
    {
      var i := |w| - 2 - k;
      assert r[k] == w[i + 1] && r[k + 1] == w[i];
    }
    assert Linked(adj, r);
  }

  lemma ReachesJoin(adj: seq<set<nat>>, u: nat, v: nat, x: nat)
    requires Reaches(adj, u, v) && Reaches(adj, v, x)
    ensures Reaches(adj, u, x)
  {
    var w1 :| |w1| >= 1 && w1[0] == u && w1[|w1| - 1] == v && Linked(adj, w1);
    var w2 :| |w2| >= 1 && w2[0] == v && w2[|w2| - 1] == x && Linked(adj, w2);
    var w := w1 + w2[1..];
    forall k | 0 <= k < |w| - 1
      ensures w[k + 1] in adj[w[k]]
    {
      if k < |w1| - 1 {
        assert w[k] == w1[k] && w[k + 1] == w1[k + 1];
      } else {
        var i := k - |w1| + 1;
        assert w[k] == w2[i] && w[k + 1] == w2[i + 1];
      }
    }
    assert Linked(adj, w);
  }
}
