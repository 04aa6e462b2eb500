/** The solver object and its `run` entry point (solver/greedy_2opt.py:10-18, 91-147). */
module Solver {
  import opened Basics
  import opened Distances
  import opened Tours
  import opened Pairs
  import opened Segments
  import opened Validation
  import opened Greedy
  import opened Restore

  /** What the solver object holds after `run`: its configuration, the
      adjacency sets (`connections`), the start node `restore_path` stored,
      and the current path. */
  datatype Solver = Solver(cfg: Config, adj: seq<set<nat>>, start: Option<nat>, path: seq<nat>)

  /** Every neighbour relation shows up as an undirected edge. */
  lemma InEdges(cfg: Config, st: State, v: nat, u: nat)
    requires Configured(cfg) && Inv(cfg, st) && v < cfg.n && u in st.adj[v]
    ensures (if v < u then Pair(u, v) else Pair(v, u)) in Edges(st.adj)
  {
    assert AdjOk(cfg.n, st);
    assert u < cfg.n && v in st.adj[u];
  }

  /** Adjacency with no edge at all. */
  lemma NoEdges(cfg: Config, st: State)
    requires Configured(cfg) && Inv(cfg, st) && |Edges(st.adj)| == 0
    ensures forall v :: 0 <= v < cfg.n ==> st.adj[v] == {}
  {
    forall v | 0 <= v < cfg.n
      ensures st.adj[v] == {}
    {
      forall u | u in st.adj[v]
        ensures (if v < u then Pair(u, v) else Pair(v, u)) in Edges(st.adj)
      {
        InEdges(cfg, st, v, u);
      }
    }
  }

  /** Two nodes carry one label or two. */
  lemma TwoLabels(seg: seq<nat>)
    requires |seg| == 2
    ensures |Labels(seg)| == (if seg[0] == seg[1] then 1 else 2)
  {
    assert Labels(seg) == {seg[0], seg[1]};
  }

  /** Before any edge exists the only pair of two loop nodes is open and
      does not count as joining the end segments. */
  lemma TwoNodeLoopOpen(cfg: Config, st: State)
    requires Configured(cfg) && Inv(cfg, st) && cfg.n == 2 && cfg.isLoop
    ensures st.edgesLeft > 0 ==> !Settled(cfg, st, Pair(1, 0))
  {
    if st.edgesLeft > 0 {
      NoEdges(cfg, st);
      assert st.valency[0] == 2 && st.valency[1] == 2;
      TwoLabels(st.seg);
    }
  }

  /** The only edge two nodes can have, seen from both sides. */
  lemma OneEdgeTwoNodes(st: State)
    requires |st.adj| == 2 && |st.seg| == 2 && AdjOk(2, st) && |Edges(st.adj)| == 1
    ensures st.adj == [{1}, {0}]
  {
    var e :| e in Edges(st.adj);
    assert e == Pair(1, 0);
    assert 1 in st.adj[0];
    assert 0 in st.adj[1];
    forall u | u in st.adj[0]
      ensures u == 1
    {
      assert u < 2 && u != 0;
    }
    forall u | u in st.adj[1]
      ensures u == 0
    {
      assert u < 2 && u != 1;
    }
    assert st.adj[0] == {1};
    assert st.adj[1] == {0};
  }

  /** On two nodes in loop mode the greedy stage joins them with one edge. */
  lemma TwoNodeLoopGreedy(cfg: Config, st: State)
    requires Configured(cfg) && Inv(cfg, st) && cfg.n == 2 && cfg.isLoop
    requires st.edgesLeft > 0 ==> Settled(cfg, st, Pair(1, 0))
    ensures st.adj == [{1}, {0}]
  {
    TwoNodeLoopOpen(cfg, st);
    EdgeBudget(cfg, st);
    assert st.edgesLeft == 0;
    assert Counted(2, st) && AdjOk(2, st);
    OneEdgeTwoNodes(st);
  }

  /** Every node has at most two neighbours. */
  predicate Degrees(n: nat, adj: seq<set<nat>>) {
    |adj| == n && forall v :: 0 <= v < n ==> |adj[v]| <= 2
  }

  /** Closing the loop joins two nodes of degree one, so degrees stay at most two. */
  lemma CloseLoopDegrees(n: nat, adj: seq<set<nat>>)
    requires Degrees(n, adj) && CloseLoop(adj).Ok?
    ensures Degrees(n, CloseLoop(adj).value)
  {
    var adj' := CloseLoop(adj).value;
    var i: nat, j: nat :|
      && EndsOf(adj, i, j)
      && adj'[i] == adj[i] + {j} && adj'[j] == adj[j] + {i}
      && forall v :: 0 <= v < |adj| && v != i && v != j ==> adj'[v] == adj[v];
    assert |adj[i]| == 1 && |adj[j]| == 1;
  }

  /** A successful run keeps its configuration, has at most two neighbours
      per node, and holds a path over the node ids of the right length that
      follows the adjacency sets: from the fixed start, towards the fixed end
      when only that is given, and otherwise from a node with one neighbour. */
  predicate Sound(cfg: Config, r: Result<Solver>)
    requires Configured(cfg)
  {
    r.Ok? ==>
      && r.value.cfg == cfg && Degrees(cfg.n, r.value.adj) && cfg.n >= 1
      && r.value.start.Some? && r.value.start.value < cfg.n
      && |r.value.path| == (if cfg.isLoop then cfg.n + 1 else cfg.n)
      && Nodes(r.value.path, cfg.n)
      && (cfg.start.Some? ==>
            r.value.start == cfg.start && r.value.path[0] == cfg.start.value
            && Linked(r.value.adj, r.value.path))
      && (cfg.start.None? && cfg.end.Some? ==>
            r.value.start == cfg.end && r.value.path[cfg.n - 1] == cfg.end.value
            && Linked(r.value.adj, Reverse(r.value.path)))
      && (cfg.start.None? && cfg.end.None? ==>
            r.value.path[0] == r.value.start.value && |r.value.adj[r.value.start.value]| == 1
            && Linked(r.value.adj, r.value.path))
  }

  /** Only the end of the path is fixed: `restore_path` then walks from that
      end and reverses what it walked (lines 64-73). */
  predicate EndOnly(cfg: Config) {
    cfg.start.None? && cfg.end.Some?
  }

  /** The fixed endpoints sit where the caller asked: the start at the front
      of the path and, for an open path, the end at its back. */
  predicate EndsAt(cfg: Config, p: seq<nat>) {
    && (cfg.start.Some? ==> |p| >= 1 && p[0] == cfg.start.value)
    && (!cfg.isLoop && cfg.end.Some? ==> |p| >= 1 && p[|p| - 1] == cfg.end.value)
  }

  /** A solver whose adjacency sets describe its path as a tour, with the
      fixed endpoints in place and the stored start at the front of the
      path or, when only the end is fixed, at its back, where that end is.
      An open path over a single node is that node with no neighbour. The
      distance matrix is a full square array, as the numpy indexing of
      lines 170-176 needs. */
  predicate Valid(s: Solver) {
    && Configured(s.cfg) && Square(s.cfg.m) && s.start.Some?
    && (s.cfg.start.Some? ==> s.start == s.cfg.start)
    && (EndOnly(s.cfg) ==> s.start == s.cfg.end)
    && EndsAt(s.cfg, s.path)
    && if s.cfg.n == 1 && !s.cfg.isLoop then
         s.path == [0] && s.adj == [{}] && s.start == Some(0)
       else
         && IsTour(s.path, s.cfg.n, s.cfg.isLoop) && Matches(s.adj, s.path, s.cfg.n, s.cfg.isLoop)
         && Nodes(s.path, s.cfg.n)
         && s.start.value == (if EndOnly(s.cfg) then s.path[s.cfg.n - 1] else s.path[0])
  }

  /** The solver `run` leaves for one node of an open path is valid. */
  lemma OneNodeValid(cfg: Config)
    requires Configured(cfg) && cfg.n == 1 && !cfg.isLoop && Square(cfg.m)
    ensures Valid(Solver(cfg, [{}], Some(0), [0]))
  {
  }

  /** What `run` does after the greedy stage: close the loop if asked,
      then rebuild the path (lines 134-147). */
  function Finish(cfg: Config, adj: seq<set<nat>>): (r: Result<Solver>)
    requires Configured(cfg) && Degrees(cfg.n, adj)
    ensures Sound(cfg, r)
    ensures r.Ok? && !cfg.isLoop ==> r.value.adj == adj
    ensures cfg.isLoop && CloseLoop(adj).Err? ==> r == Err(CloseLoop(adj).error)
    ensures cfg.start.None? && cfg.end.None? && (forall v :: 0 <= v < cfg.n ==> |adj[v]| != 1) ==>
      r == Err(NoOpenEnd)
  {
    var closed := if cfg.isLoop then CloseLoop(adj) else Ok(adj);
    match closed
    case Err(e) => Err(e)
    case Ok(adj') =>
      assert Degrees(cfg.n, adj') by {
        if cfg.isLoop { CloseLoopDegrees(cfg.n, adj); }
      }
      match RestorePath(adj', cfg.start, cfg.end, cfg.isLoop)
      case Err(e) => Err(e)
      case Ok(restored) => Ok(Solver(cfg, adj', Some(restored.start), restored.path))
  }

  /** On an open path, when the adjacency is a graph of degree at most two
      and the fixed ends have at most one neighbour, a successful
      reconstruction visits every node exactly once, and the adjacency
      describes the path as a tour. */
  lemma FinishOpenValid(cfg: Config, adj: seq<set<nat>>)
    requires Configured(cfg) && !cfg.isLoop
    requires Simple(adj) && Degrees(cfg.n, adj)
    requires forall v :: 0 <= v < cfg.n && (cfg.start == Some(v) || cfg.end == Some(v)) ==> |adj[v]| <= 1
    requires Finish(cfg, adj).Ok?
    ensures IsPerm(Finish(cfg, adj).value.path, cfg.n)
    ensures EndsAt(cfg, Finish(cfg, adj).value.path)
    ensures Square(cfg.m) ==> Valid(Finish(cfg, adj).value)
  {
    var n := cfg.n;
    var rr := RestorePath(adj, cfg.start, cfg.end, false).value;
    assert Finish(cfg, adj) == Ok(Solver(cfg, adj, Some(rr.start), rr.path));
    if n == 1 {
      assert rr.path == [rr.path[0]] && rr.path[0] == 0;
      assert adj[0] == {};
      assert adj == [{}];
    } else {
      RestoredTour(cfg, adj);
    }
  }

  /** On an open path over two or more nodes, the walk `restore_path` makes
      through a graph of degree at most two, from a node with at most one
      neighbour, is a tour of that graph, and a second fixed end is at its
      back. */
  lemma RestoredTour(cfg: Config, adj: seq<set<nat>>)
    requires Configured(cfg) && !cfg.isLoop && cfg.n >= 2
    requires Simple(adj) && |adj| == cfg.n
    requires forall v :: 0 <= v < cfg.n && (cfg.start == Some(v) || cfg.end == Some(v)) ==> |adj[v]| <= 1
    requires RestorePath(adj, cfg.start, cfg.end, false).Ok?
    ensures var p := RestorePath(adj, cfg.start, cfg.end, false).value.path;
      && IsTour(p, cfg.n, false) && Matches(adj, p, cfg.n, false)
      && (HasBothEnds(cfg) ==> p[cfg.n - 1] == cfg.end.value)
  {
    var n := cfg.n;
    var rr := RestorePath(adj, cfg.start, cfg.end, false).value;
    RestoreWalks(adj, cfg.start, cfg.end, false);
    var flip := EndOnly(cfg);
    var w := if flip then Reverse(rr.path) else rr.path;
    assert |adj[w[0]]| <= 1;
    LinkedDistinct(adj, w);
    LinkedTour(adj, w, n);
    if HasBothEnds(cfg) {
      EndAtBack(adj, w, n, cfg.end.value);
    }
    if flip {
      ReverseTour(adj, w, n, false);
      ReverseTwice(rr.path);
    }
  }

  /** A node with at most one neighbour that is not at the front of an open
      tour is at its back. */
  lemma EndAtBack(adj: seq<set<nat>>, w: seq<nat>, n: nat, v: nat)
    requires IsTour(w, n, false) && Matches(adj, w, n, false) && v < n
    requires |adj[v]| <= 1 && v != w[0]
    ensures w[n - 1] == v
  {
    OpenTourDegrees(adj, w, n, v);
  }

  /** The greedy stage leaves a graph of degree at most two without
      self-loops, every edge recorded at both ends. */
  lemma InvSimple(cfg: Config, st: State)
    requires Configured(cfg) && Inv(cfg, st)
    ensures Simple(st.adj)
  {
    GreedyDegrees(cfg, st);
    assert AdjOk(cfg.n, st);
  }

  /** After the greedy stage of an open path, a successful reconstruction
      visits every node once and describes the adjacency as a tour. */
  lemma GreedyOpenValid(cfg: Config, st: State)
    requires Configured(cfg) && Inv(cfg, st) && !cfg.isLoop
    requires Degrees(cfg.n, st.adj) && Finish(cfg, st.adj).Ok?
    ensures IsPerm(Finish(cfg, st.adj).value.path, cfg.n)
    ensures EndsAt(cfg, Finish(cfg, st.adj).value.path)
    ensures Square(cfg.m) ==> Valid(Finish(cfg, st.adj).value)
  {
    InvSimple(cfg, st);
    GreedyDegrees(cfg, st);
    FinishOpenValid(cfg, st.adj);
  }

  /** Two nodes joined into a loop fail on the second step of the walk. */
  lemma TwoNodeLoopFails(cfg: Config)
    requires Configured(cfg) && cfg.n == 2 && cfg.isLoop
    ensures Finish(cfg, [{1}, {0}]).Err?
  {
    var adj: seq<set<nat>> := [{1}, {0}];
    assert EndsOf(adj, 0, 1);
    var s := cfg.start.value;
    assert Next(adj, s, None) == Some(1 - s);
    assert Next(adj, 1 - s, Some(s)) == None;
    assert Walk(adj, Some(s), 1 - s, 1).Err?;
  }

  /** The greedy stage leaves at most two neighbours per node and at most
      one at a fixed end of an open path. */
  lemma GreedyDegrees(cfg: Config, st: State)
    requires Configured(cfg) && Inv(cfg, st)
    ensures Degrees(cfg.n, st.adj)
    ensures !cfg.isLoop ==> forall v :: 0 <= v < cfg.n && (cfg.start == Some(v) || cfg.end == Some(v)) ==>
      |st.adj[v]| <= 1
  {
    forall v | 0 <= v < cfg.n
      ensures |st.adj[v]| <= 2
      ensures !cfg.isLoop && (cfg.start == Some(v) || cfg.end == Some(v)) ==> |st.adj[v]| <= 1
    {
      DegreeBound(cfg, st, v);
    }
  }

  /** A single node gets no neighbour. */
  lemma OneNodeGreedy(cfg: Config, st: State)
    requires Configured(cfg) && Inv(cfg, st) && cfg.n == 1
    ensures st.adj == [{}] && OpenEnds(st.adj, 0) == []
  {
    assert st.seg[0] in Labels(st.seg);
    NoEdges(cfg, st);
  }

  /** With no node, or one node and no fixed end, there is no open end to
      start from; one node in loop mode has no ends to join. */
  lemma TinyFails(cfg: Config, st: State)
    requires Configured(cfg) && Inv(cfg, st) && Degrees(cfg.n, st.adj)
    ensures cfg.n == 0 ==> Finish(cfg, st.adj) == Err(NoOpenEnd)
    ensures cfg.n == 1 && cfg.isLoop ==> Finish(cfg, st.adj) == Err(LoopEndCount(0))
    ensures cfg.n == 1 && cfg.start.None? && cfg.end.None? ==> Finish(cfg, st.adj) == Err(NoOpenEnd)
  {
    if cfg.n == 1 {
      OneNodeGreedy(cfg, st);
    }
  }

  /** Two nodes in loop mode end in an error. */
  lemma TwoNodeLoopRunFails(cfg: Config, pairs: seq<Pair>, st: State)
    requires Configured(cfg) && Inv(cfg, st) && Degrees(cfg.n, st.adj)
    requires AllValid(pairs, cfg.n) && cfg.n == 2 && Pair(1, 0) in pairs
    requires st.edgesLeft > 0 ==> forall k :: 0 <= k < |pairs| ==> Settled(cfg, st, pairs[k])
    ensures cfg.isLoop ==> Finish(cfg, st.adj).Err?
  {
    if cfg.isLoop {
      TwoNodeLoopGreedy(cfg, st);
      TwoNodeLoopFails(cfg);
    }
  }

  /** `run` (lines 91-147): the greedy stage over the pairs in distance
      order, then loop closing and path reconstruction. Line 50 indexes the
      matrix as a two-dimensional array, which rows of unequal length are not. */
  method Run(cfg: Config) returns (r: Result<Solver>)
    requires Configured(cfg) && LowerComplete(cfg.m)
    ensures Sound(cfg, r)
    ensures r.Ok? && !cfg.isLoop ==> forall v :: 0 <= v < cfg.n && (cfg.start == Some(v) || cfg.end == Some(v)) ==>
      |r.value.adj[v]| <= 1
    ensures cfg.n == 0 ==> r == Err(NoOpenEnd)
    ensures cfg.n == 1 && cfg.isLoop ==> r == Err(LoopEndCount(0))
    ensures cfg.n == 1 && cfg.start.None? && cfg.end.None? ==> r == Err(NoOpenEnd)
    ensures cfg.n == 2 && cfg.isLoop ==> r.Err?
    ensures !Rectangular(cfg.m) ==> r == Err(RaggedMatrix)
    ensures r.Ok? ==> EndsAt(cfg, r.value.path)
    ensures r.Ok? && !cfg.isLoop ==> IsPerm(r.value.path, cfg.n)
    ensures r.Ok? && !cfg.isLoop && Square(cfg.m) ==> Valid(r.value)
  {
    if !Rectangular(cfg.m) {
      return Err(RaggedMatrix);
    }
    var pairs := PairsByDist(cfg.m);
    var st := GreedyEdges(cfg, pairs);
    if cfg.n == 2 {
      assert Pair(1, 0) in pairs;
    }
    GreedyFinish(cfg, pairs, st);
    r := Finish(cfg, st.adj);
  }

  /** What the rest of `run` makes of the greedy stage's adjacency. */
  lemma GreedyFinish(cfg: Config, pairs: seq<Pair>, st: State)
    requires Configured(cfg) && Inv(cfg, st) && AllValid(pairs, cfg.n)
    requires cfg.n == 2 ==> Pair(1, 0) in pairs
    requires st.edgesLeft > 0 ==> forall k :: 0 <= k < |pairs| ==> Settled(cfg, st, pairs[k])
    ensures Degrees(cfg.n, st.adj)
    ensures !cfg.isLoop ==> forall v :: 0 <= v < cfg.n && (cfg.start == Some(v) || cfg.end == Some(v)) ==>
      |st.adj[v]| <= 1
    ensures cfg.n == 0 ==> Finish(cfg, st.adj) == Err(NoOpenEnd)
    ensures cfg.n == 1 && cfg.isLoop ==> Finish(cfg, st.adj) == Err(LoopEndCount(0))
    ensures cfg.n == 1 && cfg.start.None? && cfg.end.None? ==> Finish(cfg, st.adj) == Err(NoOpenEnd)
    ensures cfg.n == 2 && cfg.isLoop ==> Finish(cfg, st.adj).Err?
    ensures Finish(cfg, st.adj).Ok? ==> EndsAt(cfg, Finish(cfg, st.adj).value.path)
    ensures Finish(cfg, st.adj).Ok? && !cfg.isLoop ==> IsPerm(Finish(cfg, st.adj).value.path, cfg.n)
    ensures Finish(cfg, st.adj).Ok? && !cfg.isLoop && Square(cfg.m) ==> Valid(Finish(cfg, st.adj).value)
  {
    GreedyDegrees(cfg, st);
    TinyFails(cfg, st);
    if cfg.n == 2 {
      TwoNodeLoopRunFails(cfg, pairs, st);
    }
    if Finish(cfg, st.adj).Ok? && !cfg.isLoop {
      GreedyOpenValid(cfg, st);
    }
  }

  /** The routes `check_validity` works out for the sizes it settles before
      looking at the matrix (lines 28-33): nothing, the single node, or the
      two-node loop. */
  function EarlyPath(cfg: Config): (p: seq<nat>)
    requires Configured(cfg) && Degenerate(cfg.n, cfg.isLoop)
    ensures |p| == (if cfg.isLoop then cfg.n + 1 else cfg.n)
    ensures Nodes(p, cfg.n) && forall v :: 0 <= v < cfg.n ==> v in p
    ensures cfg.start.Some? ==> p[0] == cfg.start.value
    ensures cfg.end.Some? ==> p[|p| - 1] == cfg.end.value
    ensures cfg.isLoop ==> p[0] == p[cfg.n]
  {
    if cfg.n == 0 then []
    else if cfg.n == 1 then (if cfg.isLoop then [0, 0] else [0])
    else
      var s := cfg.start.value;
      assert s == 0 || s == 1;
      [s, 1 - s, s]
  }

  /** The solver with the early answers of `check_validity` used rather than
      discarded: small inputs get their route, all others go through `run`. */
  method Solve(cfg: Config) returns (r: Result<seq<nat>>)
    requires Configured(cfg) && (Degenerate(cfg.n, cfg.isLoop) || LowerComplete(cfg.m))
    ensures Degenerate(cfg.n, cfg.isLoop) ==> r.Ok?
    ensures r.Ok? ==> |r.value| == (if cfg.isLoop then cfg.n + 1 else cfg.n) && Nodes(r.value, cfg.n)
    ensures r.Ok? && cfg.start.Some? ==> r.value[0] == cfg.start.value
    ensures r.Ok? && cfg.end.Some? && (!cfg.isLoop || Degenerate(cfg.n, cfg.isLoop)) ==>
      r.value[|r.value| - 1] == cfg.end.value
    ensures r.Ok? && Degenerate(cfg.n, cfg.isLoop) ==> forall v :: 0 <= v < cfg.n ==> v in r.value
  {
    if Degenerate(cfg.n, cfg.isLoop) {
      return Ok(EarlyPath(cfg));
    }
    var s := Run(cfg);
    match s
    case Err(e) => r := Err(e);
    case Ok(solver) => r := Ok(solver.path);
  }
}
