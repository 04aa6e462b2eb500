/** The greedy-edge stage of `run` (solver/greedy_2opt.py:91-142).

    Pairs are taken in `pairs_by_dist` order. A pair is accepted when both
    nodes still have a free slot (valency) and lie in different segments;
    with both endpoints fixed, a pair that would join the start segment to
    the end segment is held back unless it is the last edge needed. */
module Greedy {
  import opened Basics
  import opened Distances
  import opened Pairs
  import opened Segments
  import opened Validation

  /** A configuration as the constructor leaves it: sizes agree, endpoints
      are nodes, and a loop is a start equal to the end. */
  predicate Configured(cfg: Config) {
    && cfg.n == |cfg.m|
    && (cfg.start.Some? ==> cfg.start.value < cfg.n)
    && (cfg.end.Some? ==> cfg.end.value < cfg.n)
    && (cfg.isLoop <==> cfg.start.Some? && cfg.start == cfg.end)
  }

  lemma ValidateConfigures(m: Matrix, start: Option<int>, end: Option<int>)
    requires Validate(m, start, end).Ok?
    ensures Configured(Validate(m, start, end).value)
  {
  }

  /** Working state of the greedy loop: `node_valency`, `connections`,
      segment labels and `edges_left`. */
  datatype State = State(valency: seq<int>, adj: seq<set<nat>>, seg: seq<nat>, edgesLeft: int)

  predicate HasBothEnds(cfg: Config) {
    cfg.start.Some? && cfg.end.Some?
  }

  /** Initial free slots: two per node, one at a fixed end of an open path. */
  function StartValency(cfg: Config): (v: seq<int>)
    requires Configured(cfg)
    ensures |v| == cfg.n
    ensures forall k :: 0 <= k < cfg.n ==>
      v[k] == (if !cfg.isLoop && (cfg.start == Some(k) || cfg.end == Some(k)) then 1 else 2)
  {
    var all := seq(cfg.n, _ => 2);
    var v1 := if !cfg.isLoop && cfg.start.Some? then all[cfg.start.value := 1] else all;
    if !cfg.isLoop && cfg.end.Some? then v1[cfg.end.value := 1] else v1
  }

  function Initial(cfg: Config): State
    requires Configured(cfg)
  {
    State(StartValency(cfg), seq(cfg.n, _ => {}), seq(cfg.n, v => v), cfg.n - 1)
  }

  predicate WellSized(cfg: Config, st: State) {
    |st.valency| == cfg.n && |st.adj| == cfg.n && |st.seg| == cfg.n
  }

  /** Both nodes have a free slot and lie in different segments (line 114). */
  predicate Open(st: State, p: Pair)
    requires p.hi < |st.valency| && p.hi < |st.seg| && p.lo < |st.valency| && p.lo < |st.seg|
  {
    st.valency[p.hi] > 0 && st.valency[p.lo] > 0 && st.seg[p.hi] != st.seg[p.lo]
  }

  /** The edge would join the start segment to the end segment
      (`edge_connects_endpoint_segments`, lines 54-59). */
  predicate ConnectsEnds(cfg: Config, st: State, p: Pair): (b: bool)
    requires Configured(cfg) && WellSized(cfg, st) && HasBothEnds(cfg) && ValidPair(p, cfg.n)
    ensures b <==> {st.seg[p.hi], st.seg[p.lo]} == {st.seg[cfg.start.value], st.seg[cfg.end.value]}
  {
    var ss, se := st.seg[cfg.start.value], st.seg[cfg.end.value];
    (st.seg[p.hi] == ss && st.seg[p.lo] == se) || (st.seg[p.lo] == ss && st.seg[p.hi] == se)
  }

  /** The edge is held back: it joins the end segments and is not the last one (lines 116-121). */
  predicate Held(cfg: Config, st: State, p: Pair)
    requires Configured(cfg) && WellSized(cfg, st) && ValidPair(p, cfg.n)
  {
    HasBothEnds(cfg) && st.edgesLeft != 1 && ConnectsEnds(cfg, st, p)
  }

  /** Accept an edge: spend a slot at each end, record the adjacency both
      ways, merge the segments and count the edge (lines 123-133). */
  function Accept(st: State, p: Pair): (r: State)
    requires p.hi < |st.valency| && p.hi < |st.adj| && p.hi < |st.seg|
    requires p.lo < |st.valency| && p.lo < |st.adj| && p.lo < |st.seg| && p.lo != p.hi
    ensures |r.valency| == |st.valency| && |r.adj| == |st.adj| && |r.seg| == |st.seg|
    ensures r.valency[p.hi] == st.valency[p.hi] - 1 && r.valency[p.lo] == st.valency[p.lo] - 1
    ensures forall v :: 0 <= v < |st.valency| && v != p.hi && v != p.lo ==> r.valency[v] == st.valency[v]
    ensures r.adj[p.hi] == st.adj[p.hi] + {p.lo} && r.adj[p.lo] == st.adj[p.lo] + {p.hi}
    ensures forall v :: 0 <= v < |st.adj| && v != p.hi && v != p.lo ==> r.adj[v] == st.adj[v]
    ensures r.seg[p.hi] == r.seg[p.lo]
    ensures forall v :: 0 <= v < |st.seg| ==>
      (r.seg[v] == r.seg[p.hi] <==> st.seg[v] == st.seg[p.hi] || st.seg[v] == st.seg[p.lo])
    ensures forall v :: 0 <= v < |st.seg| && st.seg[v] != st.seg[p.hi] && st.seg[v] != st.seg[p.lo] ==>
      r.seg[v] == st.seg[v]
    ensures r.edgesLeft == st.edgesLeft - 1
  {
    var i, j := p.hi, p.lo;
    State(
      st.valency[i := st.valency[i] - 1][j := st.valency[j] - 1],
      st.adj[i := st.adj[i] + {j}][j := st.adj[j] + {i}],
      Merge(st.seg, st.seg[i], st.seg[j]),
      st.edgesLeft - 1)
  }

  /** Each node's degree plus its free slots is its initial valency. */
  predicate SlotsOk(cfg: Config, st: State)
    requires Configured(cfg) && WellSized(cfg, st)
  {
    forall v :: 0 <= v < cfg.n ==>
      |st.adj[v]| + st.valency[v] == StartValency(cfg)[v] && st.valency[v] >= 0
  }

  /** Adjacency is symmetric, loop-free, and stays inside a segment. */
  predicate AdjOk(n: nat, st: State)
    requires |st.adj| == n && |st.seg| == n
  {
    forall v: nat, u: nat {:trigger u in st.adj[v]} :: v < n && u in st.adj[v] ==>
      u < n && u != v && v in st.adj[u] && st.seg[u] == st.seg[v]
  }

  /** A label is a node of its own segment. */
  predicate LabelsOk(n: nat, st: State)
    requires |st.seg| == n
  {
    forall v :: 0 <= v < n ==> st.seg[v] < n && st.seg[st.seg[v]] == st.seg[v]
  }

  /** Segments plus edges is the node count, and edges_left counts the rest. */
  predicate Counted(n: nat, st: State) {
    |Labels(st.seg)| + |Edges(st.adj)| == n && st.edgesLeft == n - 1 - |Edges(st.adj)|
  }

  /** Each node reaches the label of its segment. */
  ghost predicate Connected(n: nat, st: State)
    requires |st.seg| == n
  {
    forall v :: 0 <= v < n ==> Reaches(st.adj, v, st.seg[v])
  }

  /** With both ends of an open path fixed, they share a segment only once no edge is left. */
  predicate EndsApart(cfg: Config, st: State)
    requires Configured(cfg) && WellSized(cfg, st)
  {
    HasBothEnds(cfg) && !cfg.isLoop && st.edgesLeft > 0 ==>
      st.seg[cfg.start.value] != st.seg[cfg.end.value]
  }

  /** What the greedy loop keeps true after every pair. Together, `Counted`
      and `Connected` say the accepted edges form a forest whose trees are
      the segments. */
  ghost predicate Inv(cfg: Config, st: State)
    requires Configured(cfg)
  {
    && WellSized(cfg, st)
    && SlotsOk(cfg, st)
    && AdjOk(cfg.n, st)
    && LabelsOk(cfg.n, st)
    && Counted(cfg.n, st)
    && Connected(cfg.n, st)
    && EndsApart(cfg, st)
  }

  lemma InitialInv(cfg: Config)
    requires Configured(cfg)
    ensures Inv(cfg, Initial(cfg))
  {
    var st := Initial(cfg);
    var n := cfg.n;
    IdentityLabels(n);
    assert Edges(st.adj) == {};
    forall v | 0 <= v < n
      ensures Reaches(st.adj, v, st.seg[v])
    {
      ReachesSelf(st.adj, v);
    }
  }

  /** The node ids 0 .. n-1. */
  function Range(n: nat): (r: set<nat>)
    ensures |r| == n
    ensures forall x: nat :: x in r <==> x < n
  {
    if n == 0 then {}
    else
      var r := Range(n - 1);
      assert n - 1 !in r;
      r + {n - 1}
  }

  /** n singleton segments use n labels. */
  lemma IdentityLabels(n: nat)
    ensures |Labels(seq(n, v => v))| == n
  {
    var s := seq(n, v => v);
    forall x | x in Labels(s)
      ensures x in Range(n)
    {
      var v :| 0 <= v < n && s[v] == x;
    }
    forall x | x in Range(n)
      ensures x in Labels(s)
    {
      assert s[x] == x;
    }
    assert Labels(s) == Range(n);
  }

  /** Accepting an open, not held-back edge keeps every part of `Inv`. */
  lemma AcceptKeepsInv(cfg: Config, st: State, p: Pair)
    requires Configured(cfg) && Inv(cfg, st) && ValidPair(p, cfg.n)
    requires Open(st, p) && !Held(cfg, st, p)
    ensures Inv(cfg, Accept(st, p))
  {
    AcceptLocal(cfg, st, p);
    AcceptCounts(cfg, st, p);
    AcceptReach(cfg, st, p);
    AcceptEnds(cfg, st, p);
  }

  lemma AcceptLocal(cfg: Config, st: State, p: Pair)
    requires Configured(cfg) && Inv(cfg, st) && ValidPair(p, cfg.n) && Open(st, p)
    ensures WellSized(cfg, Accept(st, p))
    ensures SlotsOk(cfg, Accept(st, p))
    ensures AdjOk(cfg.n, Accept(st, p))
    ensures LabelsOk(cfg.n, Accept(st, p))
  {
    AcceptSlots(cfg, st, p);
    AcceptAdj(cfg, st, p);
    AcceptLabels(cfg, st, p);
  }

  lemma AcceptSlots(cfg: Config, st: State, p: Pair)
    requires Configured(cfg) && WellSized(cfg, st) && SlotsOk(cfg, st) && AdjOk(cfg.n, st)
    requires ValidPair(p, cfg.n) && Open(st, p)
    ensures WellSized(cfg, Accept(st, p))
    ensures SlotsOk(cfg, Accept(st, p))
  {
    var i, j := p.hi, p.lo;
    var r := Accept(st, p);
    assert j !in st.adj[i] && i !in st.adj[j];
    forall v | 0 <= v < cfg.n
      ensures |r.adj[v]| + r.valency[v] == StartValency(cfg)[v] && r.valency[v] >= 0
    {
      if v == i {
        assert r.adj[v] == st.adj[i] + {j};
      } else if v == j {
        assert r.adj[v] == st.adj[j] + {i};
      }
    }
  }

  lemma AcceptAdj(cfg: Config, st: State, p: Pair)
    requires Configured(cfg) && WellSized(cfg, st) && AdjOk(cfg.n, st)
    requires ValidPair(p, cfg.n) && Open(st, p)
    ensures WellSized(cfg, Accept(st, p))
    ensures AdjOk(cfg.n, Accept(st, p))
  {
    var i, j := p.hi, p.lo;
    var r := Accept(st, p);
    var a, b := st.seg[i], st.seg[j];
    forall v: nat, u: nat | v < cfg.n && u in r.adj[v]
      ensures u < cfg.n && u != v && v in r.adj[u] && r.seg[u] == r.seg[v]
    {
      if (v == i && u == j) || (v == j && u == i) {
        assert r.seg[i] == a && r.seg[j] == a;
      } else {
        assert u in st.adj[v];
        assert v in st.adj[u] && st.adj[u] <= r.adj[u];
        MergeKeepsTogether(st.seg, a, b, u, v);
      }
    }
  }

  lemma AcceptLabels(cfg: Config, st: State, p: Pair)
    requires Configured(cfg) && WellSized(cfg, st) && LabelsOk(cfg.n, st)
    requires ValidPair(p, cfg.n) && Open(st, p)
    ensures WellSized(cfg, Accept(st, p))
    ensures LabelsOk(cfg.n, Accept(st, p))
  {
    var i, j := p.hi, p.lo;
    var r := Accept(st, p);
    var a, b := st.seg[i], st.seg[j];
    forall v | 0 <= v < cfg.n
      ensures r.seg[v] < cfg.n && r.seg[r.seg[v]] == r.seg[v]
    {
      if st.seg[v] == a || st.seg[v] == b {
        assert r.seg[v] == a && st.seg[a] == a;
      } else {
        assert r.seg[v] == st.seg[v];
        assert st.seg[st.seg[v]] == st.seg[v];
      }
    }
  }

  lemma AcceptCounts(cfg: Config, st: State, p: Pair)
    requires Configured(cfg) && Inv(cfg, st) && ValidPair(p, cfg.n) && Open(st, p)
    ensures Counted(cfg.n, Accept(st, p))
  {
    var i, j := p.hi, p.lo;
    assert j !in st.adj[i] && i !in st.adj[j];
    MergeLabels(st.seg, i, j);
    AddEdge(st.adj, i, j);
  }

  lemma InvSymmetric(cfg: Config, st: State)
    requires Configured(cfg) && WellSized(cfg, st) && AdjOk(cfg.n, st)
    ensures SymmetricAdj(st.adj)
  {
    forall v, u | 0 <= v < |st.adj| && u in st.adj[v]
      ensures u < |st.adj| && v in st.adj[u]
    {
    }
  }

  /** After joining i and j, a node of j's segment reaches i's label through the new edge. */
  lemma AcceptReachOne(cfg: Config, st: State, p: Pair, v: nat)
    requires Configured(cfg) && WellSized(cfg, st) && ValidPair(p, cfg.n) && Open(st, p)
    requires SymmetricAdj(st.adj) && Connected(cfg.n, st) && v < cfg.n
    ensures Reaches(Accept(st, p).adj, v, Accept(st, p).seg[v])
  {
    var i, j := p.hi, p.lo;
    var r := Accept(st, p);
    var a, b := st.seg[i], st.seg[j];
    assert Grows(st.adj, r.adj);
    assert Reaches(st.adj, v, st.seg[v]);
    ReachesGrow(st.adj, r.adj, v, st.seg[v]);
    if st.seg[v] == b {
      // v reaches b, b reaches j, j steps to i, and i reaches a
      assert Reaches(st.adj, j, b) && Reaches(st.adj, i, a);
      ReachesBack(st.adj, j, b);
      ReachesGrow(st.adj, r.adj, b, j);
      assert j in r.adj[i] && i in r.adj[j];
      ReachesEdge(r.adj, j, i);
      ReachesGrow(st.adj, r.adj, i, a);
      ReachesJoin(r.adj, v, b, j);
      ReachesJoin(r.adj, v, j, i);
      ReachesJoin(r.adj, v, i, a);
      assert r.seg[v] == a;
    } else if st.seg[v] == a {
      assert r.seg[v] == a;
    } else {
      assert r.seg[v] == st.seg[v];
    }
  }

  lemma AcceptReach(cfg: Config, st: State, p: Pair)
    requires Configured(cfg) && Inv(cfg, st) && ValidPair(p, cfg.n) && Open(st, p)
    ensures WellSized(cfg, Accept(st, p))
    ensures Connected(cfg.n, Accept(st, p))
  {
    InvSymmetric(cfg, st);
    forall v | 0 <= v < cfg.n
      ensures Reaches(Accept(st, p).adj, v, Accept(st, p).seg[v])
    {
      AcceptReachOne(cfg, st, p, v);
    }
  }

  lemma AcceptEnds(cfg: Config, st: State, p: Pair)
    requires Configured(cfg) && Inv(cfg, st) && ValidPair(p, cfg.n)
    requires Open(st, p) && !Held(cfg, st, p)
    ensures WellSized(cfg, Accept(st, p))
    ensures EndsApart(cfg, Accept(st, p))
  {
  }

  /** A pair the loop has passed over that could not be taken now either:
      it is blocked, or it still joins the two end segments. */
  predicate Settled(cfg: Config, st: State, p: Pair)
    requires Configured(cfg) && WellSized(cfg, st) && ValidPair(p, cfg.n)
  {
    !Open(st, p) || (HasBothEnds(cfg) && ConnectsEnds(cfg, st, p))
  }

  lemma AcceptKeepsSettled(cfg: Config, st: State, p: Pair, q: Pair)
    requires Configured(cfg) && WellSized(cfg, st) && ValidPair(p, cfg.n) && ValidPair(q, cfg.n)
    requires Open(st, p) && Settled(cfg, st, q)
    ensures WellSized(cfg, Accept(st, p))
    ensures Settled(cfg, Accept(st, p), q)
  {
    var r := Accept(st, p);
    var a, b := st.seg[p.hi], st.seg[p.lo];
    if !Open(st, q) {
      if st.seg[q.hi] == st.seg[q.lo] {
        MergeKeepsTogether(st.seg, a, b, q.hi, q.lo);
      } else if st.valency[q.hi] <= 0 {
        assert q.hi != p.hi && q.hi != p.lo;
        assert r.valency[q.hi] == st.valency[q.hi];
      } else {
        assert q.lo != p.hi && q.lo != p.lo;
        assert r.valency[q.lo] == st.valency[q.lo];
      }
    } else {
      MergeKeepsTogether(st.seg, a, b, q.hi, cfg.start.value);
      MergeKeepsTogether(st.seg, a, b, q.hi, cfg.end.value);
      MergeKeepsTogether(st.seg, a, b, q.lo, cfg.start.value);
      MergeKeepsTogether(st.seg, a, b, q.lo, cfg.end.value);
    }
  }

  /** Pairs already seen stay settled after an acceptance, and so does the
      accepted pair itself. */
  lemma AcceptStep(cfg: Config, st: State, pairs: seq<Pair>, idx: nat)
    requires Configured(cfg) && Inv(cfg, st) && AllValid(pairs, cfg.n) && idx < |pairs|
    requires Open(st, pairs[idx]) && !Held(cfg, st, pairs[idx])
    requires forall k :: 0 <= k < idx ==> Settled(cfg, st, pairs[k])
    ensures Inv(cfg, Accept(st, pairs[idx]))
    ensures forall k :: 0 <= k <= idx ==> Settled(cfg, Accept(st, pairs[idx]), pairs[k])
  {
    var p := pairs[idx];
    var next := Accept(st, p);
    AcceptKeepsInv(cfg, st, p);
    forall k | 0 <= k < idx
      ensures Settled(cfg, next, pairs[k])
    {
      AcceptKeepsSettled(cfg, st, p, pairs[k]);
    }
    assert next.seg[p.hi] == st.seg[p.hi] && next.seg[p.lo] == st.seg[p.hi];
  }

  lemma SkipSettles(cfg: Config, st: State, p: Pair)
    requires Configured(cfg) && WellSized(cfg, st) && ValidPair(p, cfg.n)
    ensures !Open(st, p) || Held(cfg, st, p) ==> Settled(cfg, st, p)
  {
  }

  /** An open pair means two segments remain, so an edge is still missing. */
  lemma OpenHasBudget(cfg: Config, st: State, p: Pair)
    requires Configured(cfg) && Inv(cfg, st) && ValidPair(p, cfg.n) && Open(st, p)
    ensures st.edgesLeft > 0
  {
    var x, y := st.seg[p.hi], st.seg[p.lo];
    assert x in Labels(st.seg) && y in Labels(st.seg);
    assert y in Labels(st.seg) - {x};
    assert |Labels(st.seg) - {x}| == |Labels(st.seg)| - 1;
  }

  /** Taking a pair keeps the invariant and leaves every pair up to it settled. */
  lemma TakeAccepted(cfg: Config, st: State, pairs: seq<Pair>, idx: nat)
    requires Configured(cfg) && Inv(cfg, st) && AllValid(pairs, cfg.n) && idx < |pairs|
    requires Open(st, pairs[idx]) && !Held(cfg, st, pairs[idx])
    requires st.edgesLeft > 0 ==> forall k :: 0 <= k < idx ==> Settled(cfg, st, pairs[k])
    ensures Inv(cfg, Accept(st, pairs[idx]))
    ensures forall k :: 0 <= k <= idx ==> Settled(cfg, Accept(st, pairs[idx]), pairs[k])
  {
    OpenHasBudget(cfg, st, pairs[idx]);
    AcceptStep(cfg, st, pairs, idx);
  }

  /** Passing over a pair that cannot be taken leaves it settled. */
  lemma TakeSkipped(cfg: Config, st: State, pairs: seq<Pair>, idx: nat)
    requires Configured(cfg) && WellSized(cfg, st) && AllValid(pairs, cfg.n) && idx < |pairs|
    requires !Open(st, pairs[idx]) || Held(cfg, st, pairs[idx])
    requires st.edgesLeft > 0 ==> forall k :: 0 <= k < idx ==> Settled(cfg, st, pairs[k])
    ensures st.edgesLeft > 0 ==> forall k :: 0 <= k <= idx ==> Settled(cfg, st, pairs[k])
  {
    SkipSettles(cfg, st, pairs[idx]);
  }

  /** One iteration of the edge loop: take the pair if it is open and not
      held back (lines 113-135). `taken` reports an acceptance. */
  method TakePair(cfg: Config, st: State, pairs: seq<Pair>, idx: nat) returns (next: State, taken: bool)
    requires Configured(cfg) && Inv(cfg, st) && AllValid(pairs, cfg.n) && idx < |pairs|
    requires st.edgesLeft > 0 ==> forall k :: 0 <= k < idx ==> Settled(cfg, st, pairs[k])
    ensures Inv(cfg, next)
    ensures taken <==> Open(st, pairs[idx]) && !Held(cfg, st, pairs[idx])
    ensures taken ==> next == Accept(st, pairs[idx])
    ensures !taken ==> next == st
    ensures next.edgesLeft > 0 ==> forall k :: 0 <= k <= idx ==> Settled(cfg, next, pairs[k])
  {
    var p := pairs[idx];
    if Open(st, p) && !Held(cfg, st, p) {
      TakeAccepted(cfg, st, pairs, idx);
      next, taken := Accept(st, p), true;
    } else {
      TakeSkipped(cfg, st, pairs, idx);
      next, taken := st, false;
    }
  }

  /** The edge loop of `run` (lines 108-135): walk the sorted pairs, accept
      each open pair that is not held back, and stop after N - 1 edges. If
      it stops with edges still missing, no pair it saw can be taken. */
  method GreedyEdges(cfg: Config, pairs: seq<Pair>) returns (st: State)
    requires Configured(cfg) && AllValid(pairs, cfg.n)
    ensures Inv(cfg, st)
    ensures st.edgesLeft > 0 ==> forall k :: 0 <= k < |pairs| ==> Settled(cfg, st, pairs[k])
  {
    st := Initial(cfg);
    InitialInv(cfg);
    var idx := 0;
    while idx < |pairs|
      invariant 0 <= idx <= |pairs|
      invariant Inv(cfg, st)
      invariant st.edgesLeft > 0 ==> forall k :: 0 <= k < idx ==> Settled(cfg, st, pairs[k])
    {
      var taken;
      st, taken := TakePair(cfg, st, pairs, idx);
      if taken && st.edgesLeft == 0 {
        break;
      }
      idx := idx + 1;
    }
  }

  /** At most N - 1 edges are accepted, and edges_left never goes below zero. */
  lemma EdgeBudget(cfg: Config, st: State)
    requires Configured(cfg) && Inv(cfg, st) && cfg.n >= 1
    ensures |Edges(st.adj)| <= cfg.n - 1 && st.edgesLeft >= 0
  {
    assert st.seg[0] in Labels(st.seg);
  }

  /** Every degree stays at most 2, and at most 1 at a fixed end of an open path. */
  lemma DegreeBound(cfg: Config, st: State, v: nat)
    requires Configured(cfg) && Inv(cfg, st) && v < cfg.n
    ensures |st.adj[v]| <= 2
    ensures !cfg.isLoop && (cfg.start == Some(v) || cfg.end == Some(v)) ==> |st.adj[v]| <= 1
  {
  }

  /** Nodes from `from` on with exactly one neighbour, in increasing order. */
  function OpenEnds(adj: seq<set<nat>>, from: nat): (r: seq<nat>)
    decreases |adj| - from
    ensures forall v :: v in r <==> from <= v < |adj| && |adj[v]| == 1
    ensures forall k :: 0 <= k < |r| ==> from <= r[k]
    ensures forall k, l :: 0 <= k < l < |r| ==> r[k] < r[l]
  {
    if from >= |adj| then []
    else if |adj[from]| == 1 then [from] + OpenEnds(adj, from + 1)
    else OpenEnds(adj, from + 1)
  }

  /** i and j are the only nodes with exactly one neighbour. */
  predicate EndsOf(adj: seq<set<nat>>, i: nat, j: nat) {
    i < j < |adj| && |adj[i]| == 1 && |adj[j]| == 1
    && forall v :: 0 <= v < |adj| && |adj[v]| == 1 ==> v == i || v == j
  }

  /** Close the loop (lines 137-142): the unpack into `i, j` succeeds only
      when exactly two nodes have one neighbour; they are joined and no other
      adjacency set changes. */
  function CloseLoop(adj: seq<set<nat>>): (r: Result<seq<set<nat>>>)
    ensures r.Ok? <==> exists i: nat, j: nat :: EndsOf(adj, i, j)
    ensures r.Err? ==> r.error == LoopEndCount(|OpenEnds(adj, 0)|)
    ensures r.Ok? ==> |r.value| == |adj| && exists i: nat, j: nat ::
      && EndsOf(adj, i, j)
      && r.value[i] == adj[i] + {j} && r.value[j] == adj[j] + {i}
      && forall v :: 0 <= v < |adj| && v != i && v != j ==> r.value[v] == adj[v]
  {
    var ends := OpenEnds(adj, 0);
    if |ends| == 2 then
      var i, j := ends[0], ends[1];
      assert EndsOf(adj, i, j) by {
        forall v | 0 <= v < |adj| && |adj[v]| == 1
          ensures v == i || v == j
        {
          assert v in ends;
        }
      }
      Ok(adj[i := adj[i] + {j}][j := adj[j] + {i}])
    else
      assert forall i: nat, j: nat :: !EndsOf(adj, i, j) by {
        forall i: nat, j: nat | EndsOf(adj, i, j)
          ensures false
        {
          assert i in ends && j in ends;
          var k :| 0 <= k < |ends| && ends[k] == i;
          var l :| 0 <= l < |ends| && ends[l] == j;
          forall t | 0 <= t < |ends|
            ensures ends[t] == i || ends[t] == j
          {
            assert ends[t] in ends;
          }
        }
      }
      Err(LoopEndCount(|ends|))
  }
}
