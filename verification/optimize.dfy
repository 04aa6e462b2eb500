/** `opt2_optimize` (solver/greedy_2opt.py:149-206): passes of 2-opt moves
    over the path `run` built, each move followed by `restore_path`. */
module Optimize {
  import opened Basics
  import opened Distances
  import opened Tours
  import opened Validation
  import opened Greedy
  import opened Restore
  import opened Solver
  import opened TwoOpt

  /** t has the same end nodes as s: both ends of an open path, the first
      node of a closed one. */
  predicate SameEnds(s: Solver, t: Solver)
    requires Valid(s) && Valid(t) && t.cfg == s.cfg
  {
    if s.cfg.isLoop then t.path[0] == s.path[0]
    else {t.path[0], t.path[s.cfg.n - 1]} == {s.path[0], s.path[s.cfg.n - 1]}
  }

  /** The move at positions a and c (lines 190-201) followed by a
      `restore_path` whose walk starts at `from`, or at the fixed end and is
      then reversed when `from` is absent; a missing neighbour or a dead end
      is an error. */
  function MoveThenRestore(s: Solver, a: nat, c: nat, from: Option<nat>): (r: Result<Solver>)
    requires Configured(s.cfg) && |s.adj| == s.cfg.n && Nodes(s.path, s.cfg.n)
    requires from.Some? ==> from.value < s.cfg.n
    requires a < c && c + 1 < |s.path|
    ensures r.Ok? ==> r.value.cfg == s.cfg && r.value.start.Some? && s.cfg.n >= 1
    ensures r.Ok? ==> |r.value.path| == (if s.cfg.isLoop then s.cfg.n + 1 else s.cfg.n)
    ensures r.Ok? && from.Some? ==> r.value.start == from && r.value.path[0] == from.value
    ensures r.Ok? && from.None? && s.cfg.end.Some? ==>
      r.value.start == s.cfg.end && r.value.path[|r.value.path| - 1] == s.cfg.end.value
  {
    match Swap(s.adj, s.path[a], s.path[a + 1], s.path[c], s.path[c + 1])
    case Err(e) => Err(e)
    case Ok(adj') =>
      match RestorePath(adj', from, s.cfg.end, s.cfg.isLoop)
      case Err(e) => Err(e)
      case Ok(restored) => Ok(Solver(s.cfg, adj', Some(restored.start), restored.path))
  }

  /** Line 203 as written: the rebuilt path is walked from the stored start.
      Once only the end is fixed, the first reconstruction stored that end
      as the start (line 72), so every later walk begins at the fixed end
      and is no longer reversed. */
  function StoredStartApply(s: Solver, a: nat, c: nat): (r: Result<Solver>)
    requires Configured(s.cfg) && |s.adj| == s.cfg.n && Nodes(s.path, s.cfg.n)
    requires s.start.Some? ==> s.start.value < s.cfg.n
    requires a < c && c + 1 < |s.path|
    ensures r.Ok? ==> r.value.cfg == s.cfg && |r.value.path| == (if s.cfg.isLoop then s.cfg.n + 1 else s.cfg.n)
    ensures r.Ok? && s.start.Some? ==> r.value.start == s.start && r.value.path[0] == s.start.value
  {
    MoveThenRestore(s, a, c, s.start)
  }

  /** On a valid solver whose end alone is fixed, the move as written
      succeeds but puts the fixed end at the front of the path and leaves
      the other end at the back: the endpoint is not kept. */
  lemma StoredStartMovesEnd(s: Solver, a: nat, c: nat)
    requires Valid(s) && EndOnly(s.cfg) && a + 3 <= c && c + 2 <= s.cfg.n
    ensures StoredStartApply(s, a, c).Ok?
    ensures var t := StoredStartApply(s, a, c).value;
      && t.path[0] == s.cfg.end.value && t.path[s.cfg.n - 1] != s.cfg.end.value
      && !EndsAt(s.cfg, t.path) && !Valid(t)
  {
    var n, p := s.cfg.n, s.path;
    SwapMatches(s.adj, p, n, false, a, c);
    var adj' := Swap(s.adj, p[a], p[a + 1], p[c], p[c + 1]).value;
    var q := Move(p, a, c);
    MoveEnds(p, a, c);
    RestoreGivesTour(adj', q, n, false, s.start, s.cfg.end);
    var rr := RestorePath(adj', s.start, s.cfg.end, false).value;
    assert StoredStartApply(s, a, c) == Ok(Solver(s.cfg, adj', Some(rr.start), rr.path));
    assert rr.path[0] != rr.path[n - 1];
  }

  /** Where the rebuilt path is walked from so that the fixed ends stay in
      place: the stored start, except that a path whose end alone is fixed
      is walked from that end and reversed, as the first reconstruction
      did. */
  function RebuildFrom(s: Solver): (from: Option<nat>)
    ensures EndOnly(s.cfg) ==> from.None?
    ensures !EndOnly(s.cfg) ==> from == s.start
  {
    if EndOnly(s.cfg) then None else s.start
  }

  /** The move at positions a and c followed by `restore_path`, read so
      that the fixed endpoints stay where they were (lines 190-203, with the
      end-only walk of lines 70-73 kept). */
  function Apply(s: Solver, a: nat, c: nat): (r: Result<Solver>)
    requires Configured(s.cfg) && |s.adj| == s.cfg.n && Nodes(s.path, s.cfg.n)
    requires s.start.Some? ==> s.start.value < s.cfg.n
    requires a < c && c + 1 < |s.path|
    ensures r.Ok? ==> r.value.cfg == s.cfg && r.value.start.Some? && s.cfg.n >= 1
    ensures r.Ok? ==> |r.value.path| == (if s.cfg.isLoop then s.cfg.n + 1 else s.cfg.n)
    ensures r.Ok? && !EndOnly(s.cfg) && s.start.Some? ==>
      r.value.start == s.start && r.value.path[0] == s.start.value
    ensures r.Ok? && EndOnly(s.cfg) ==>
      r.value.start == s.cfg.end && r.value.path[|r.value.path| - 1] == s.cfg.end.value
    ensures !EndOnly(s.cfg) ==> r == StoredStartApply(s, a, c)
  {
    MoveThenRestore(s, a, c, RebuildFrom(s))
  }

  /** A path read in either direction has the same two ends. */
  lemma EitherEnds(p: seq<nat>, q: seq<nat>, w: seq<nat>, n: nat)
    requires 2 <= n <= |p| && |q| == n && |w| == n && q[0] == p[0] && q[n - 1] == p[n - 1]
    requires w == q || w == Reverse(q)
    ensures {w[0], w[n - 1]} == {p[0], p[n - 1]}
  {
  }

  /** On a valid solver the move succeeds and the rebuilt path is the moved
      path in one direction or the other, a tour of the swapped adjacency. */
  lemma ApplyTour(s: Solver, a: nat, c: nat)
    requires Valid(s) && a + 3 <= c && c + 2 <= s.cfg.n
    ensures Apply(s, a, c).Ok?
    ensures var t := Apply(s, a, c).value;
      && IsTour(t.path, s.cfg.n, s.cfg.isLoop) && Matches(t.adj, t.path, s.cfg.n, s.cfg.isLoop)
      && Swap(s.adj, s.path[a], s.path[a + 1], s.path[c], s.path[c + 1]) == Ok(t.adj)
      && (t.path == Move(s.path, a, c) || t.path == Reverse(Move(s.path, a, c)))
  {
    var n, p, closed := s.cfg.n, s.path, s.cfg.isLoop;
    SwapMatches(s.adj, p, n, closed, a, c);
    var adj' := Swap(s.adj, p[a], p[a + 1], p[c], p[c + 1]).value;
    MoveEnds(p, a, c);
    var from := RebuildFrom(s);
    RestoreGivesTour(adj', Move(p, a, c), n, closed, from, s.cfg.end);
    var rr := RestorePath(adj', from, s.cfg.end, closed).value;
    assert Apply(s, a, c) == Ok(Solver(s.cfg, adj', Some(rr.start), rr.path));
  }

  /** The move keeps the stored start and the fixed endpoints in place. */
  lemma ApplyEnds(s: Solver, a: nat, c: nat)
    requires Valid(s) && a + 3 <= c && c + 2 <= s.cfg.n && Apply(s, a, c).Ok?
    requires var t := Apply(s, a, c).value;
      IsTour(t.path, s.cfg.n, s.cfg.isLoop) && (t.path == Move(s.path, a, c) || t.path == Reverse(Move(s.path, a, c)))
    ensures var t := Apply(s, a, c).value;
      && t.start == s.start && EndsAt(s.cfg, t.path)
      && t.start.value == (if EndOnly(s.cfg) then t.path[s.cfg.n - 1] else t.path[0])
      && (!s.cfg.isLoop ==> {t.path[0], t.path[s.cfg.n - 1]} == {s.path[0], s.path[s.cfg.n - 1]})
  {
    var n, t := s.cfg.n, Apply(s, a, c).value;
    MoveEnds(s.path, a, c);
    if !s.cfg.isLoop {
      EitherEnds(s.path, Move(s.path, a, c), t.path, n);
      assert t.path[0] != t.path[n - 1];
    }
  }

  /** On a valid solver the move succeeds, the fixed endpoints stay in
      place, and the rebuilt path is the moved path in one direction or the
      other. */
  lemma ApplyValid(s: Solver, a: nat, c: nat)
    requires Valid(s) && a + 3 <= c && c + 2 <= s.cfg.n
    ensures Apply(s, a, c).Ok?
    ensures var t := Apply(s, a, c).value;
      && Valid(t) && t.cfg == s.cfg && t.start == s.start && SameEnds(s, t)
      && Swap(s.adj, s.path[a], s.path[a + 1], s.path[c], s.path[c + 1]) == Ok(t.adj)
      && (t.path == Move(s.path, a, c) || t.path == Reverse(Move(s.path, a, c)))
  {
    ApplyTour(s, a, c);
    var t := Apply(s, a, c).value;
    TourNodes(t.path, s.cfg.n, s.cfg.isLoop);
    ApplyEnds(s, a, c);
    assert Valid(t);
  }

  /** On a symmetric matrix the move shortens the path by the gain, whichever
      direction the rebuilt path takes. */
  lemma ApplyLength(s: Solver, a: nat, c: nat)
    requires Valid(s) && a + 3 <= c && c + 2 <= s.cfg.n && Symmetric(s.cfg.m)
    ensures Apply(s, a, c).Ok?
    ensures Length(s.cfg.m, Apply(s, a, c).value.path) == Length(s.cfg.m, s.path) - Gain(s.cfg.m, s.path, a, c)
  {
    ApplyValid(s, a, c);
    GainLength(s.cfg.m, s.path, a, c);
    LengthReverse(s.cfg.m, Move(s.path, a, c));
  }

  /** The outcome of one position a: either no candidate gains and nothing
      changes, or `chosen` is the first candidate of largest gain, that gain
      is positive, and the move at it was applied. */
  predicate Improved(s: Solver, a: nat, t: Solver, chosen: Option<nat>)
    requires Valid(s) && a + 5 <= s.cfg.n
  {
    && (chosen.None? <==> forall x :: a + 3 <= x < s.cfg.n - 1 ==> Gain(s.cfg.m, s.path, a, x) <= 0)
    && (chosen.None? ==> t == s)
    && (chosen.Some? ==>
          && FirstMax(s.cfg.m, s.path, a, a + 3, s.cfg.n - 1, chosen.value)
          && Gain(s.cfg.m, s.path, a, chosen.value) > 0
          && chosen.value + 1 < |s.path|
          && Apply(s, a, chosen.value) == Ok(t))
  }

  /** No position of a pass has a candidate of positive gain (lines
      164-181), so a pass has nothing to apply: the path is 2-optimal. */
  predicate TwoOptimal(s: Solver)
    requires Valid(s)
  {
    forall a: nat, x: nat :: a + 4 < s.cfg.n && a + 3 <= x < s.cfg.n - 1 ==> Gain(s.cfg.m, s.path, a, x) <= 0
  }

  /** A positive first maximum leads to a valid, shorter solver. */
  lemma ImproveAt(s: Solver, a: nat, c: nat)
    requires Valid(s) && a + 5 <= s.cfg.n
    requires FirstMax(s.cfg.m, s.path, a, a + 3, s.cfg.n - 1, c) && Gain(s.cfg.m, s.path, a, c) > 0
    ensures Apply(s, a, c).Ok?
    ensures var t := Apply(s, a, c).value;
      && Valid(t) && t.cfg == s.cfg && t.start == s.start && SameEnds(s, t)
      && Improved(s, a, t, Some(c))
      && (Symmetric(s.cfg.m) ==> Length(s.cfg.m, t.path) == Length(s.cfg.m, s.path) - Gain(s.cfg.m, s.path, a, c))
  {
    ApplyValid(s, a, c);
    if Symmetric(s.cfg.m) {
      ApplyLength(s, a, c);
    }
  }

  /** Without a positive gain the solver is left as it is. */
  lemma NoImprovement(s: Solver, a: nat, c: nat)
    requires Valid(s) && a + 5 <= s.cfg.n
    requires FirstMax(s.cfg.m, s.path, a, a + 3, s.cfg.n - 1, c) && Gain(s.cfg.m, s.path, a, c) <= 0
    ensures Improved(s, a, s, None) && SameEnds(s, s)
  {
  }

  /** One position a of a pass (lines 164-203): pick the first candidate of
      largest gain; when that gain is positive, swap the four adjacency sets
      and rebuild the path with its fixed ends in place. */
  method Improve(s: Solver, a: nat) returns (t: Solver, chosen: Option<nat>)
    requires Valid(s) && a + 5 <= s.cfg.n
    ensures Valid(t) && t.cfg == s.cfg && t.start == s.start && SameEnds(s, t)
    ensures Improved(s, a, t, chosen)
    ensures Symmetric(s.cfg.m) && t != s ==> Length(s.cfg.m, t.path) < Length(s.cfg.m, s.path)
    ensures Symmetric(s.cfg.m) ==>
      Length(s.cfg.m, t.path) == Length(s.cfg.m, s.path) - (if chosen.Some? then Gain(s.cfg.m, s.path, a, chosen.value) else 0)
  {
    var c := BestCandidate(s.cfg.m, s.path, a, a + 3, s.cfg.n - 1);
    if Gain(s.cfg.m, s.path, a, c) <= 0 {
      NoImprovement(s, a, c);
      return s, None;
    }
    ImproveAt(s, a, c);
    t, chosen := Apply(s, a, c).value, Some(c);
  }

  /** One pass (lines 160-203): positions a = 0 .. N-5 in order, each on
      the path the previous position left. */
  method Pass(s: Solver) returns (t: Solver)
    requires Valid(s)
    ensures Valid(t) && t.cfg == s.cfg && t.start == s.start && SameEnds(s, t)
    ensures s.cfg.n < 5 ==> t == s
    ensures TwoOptimal(s) ==> t == s
    ensures Symmetric(s.cfg.m) && t == s ==> TwoOptimal(s)
    ensures Symmetric(s.cfg.m) ==> Length(s.cfg.m, t.path) <= Length(s.cfg.m, s.path)
    ensures Symmetric(s.cfg.m) && t != s ==> Length(s.cfg.m, t.path) < Length(s.cfg.m, s.path)
  {
    t := s;
    var a := 0;
    while a + 4 < s.cfg.n
      invariant Valid(t) && t.cfg == s.cfg && t.start == s.start && SameEnds(s, t)
      invariant s.cfg.n < 5 ==> t == s
      invariant TwoOptimal(s) ==> t == s
      invariant Symmetric(s.cfg.m) && t == s ==>
        forall b: nat, x: nat :: b < a && b + 4 < s.cfg.n && b + 3 <= x < s.cfg.n - 1 ==> Gain(s.cfg.m, s.path, b, x) <= 0
      invariant Symmetric(s.cfg.m) ==> Length(s.cfg.m, t.path) <= Length(s.cfg.m, s.path)
      invariant Symmetric(s.cfg.m) && t != s ==> Length(s.cfg.m, t.path) < Length(s.cfg.m, s.path)
    {
      var next, chosen := Improve(t, a);
      SameEndsTrans(s, t, next);
      t := next;
      a := a + 1;
    }
  }

  /** Keeping the ends twice keeps them once. */
  lemma SameEndsTrans(s: Solver, t: Solver, u: Solver)
    requires Valid(s) && Valid(t) && Valid(u) && t.cfg == s.cfg && u.cfg == s.cfg
    requires SameEnds(s, t) && SameEnds(t, u)
    ensures SameEnds(s, u)
  {
  }

  /** Equal ends give every node the same number of neighbours. */
  lemma SameEndsDegrees(s: Solver, t: Solver, v: nat)
    requires Valid(s) && Valid(t) && t.cfg == s.cfg && SameEnds(s, t) && v < s.cfg.n
    ensures |t.adj[v]| == |s.adj[v]|
  {
    var n := s.cfg.n;
    if n == 1 && !s.cfg.isLoop {
      assert s.adj == t.adj;
    } else if s.cfg.isLoop {
      ClosedTourDegrees(s.adj, s.path, n, v);
      ClosedTourDegrees(t.adj, t.path, n, v);
    } else {
      OpenTourDegrees(s.adj, s.path, n, v);
      OpenTourDegrees(t.adj, t.path, n, v);
      assert v == s.path[0] || v == s.path[n - 1] <==> v in {s.path[0], s.path[n - 1]};
      assert v == t.path[0] || v == t.path[n - 1] <==> v in {t.path[0], t.path[n - 1]};
    }
  }

  /** `steps` passes one after another (the loop of lines 159-203). Zero
      passes leave the solver as it is. */
  method Passes(s: Solver, steps: nat) returns (t: Solver)
    requires Valid(s)
    ensures Valid(t) && t.cfg == s.cfg && t.start == s.start && SameEnds(s, t)
    ensures forall v :: 0 <= v < s.cfg.n ==> |t.adj[v]| == |s.adj[v]|
    ensures steps == 0 || s.cfg.n < 5 ==> t == s
    ensures TwoOptimal(s) ==> t == s
    ensures Symmetric(s.cfg.m) ==> TwoOptimal(t) || Length(s.cfg.m, t.path) + steps <= Length(s.cfg.m, s.path)
    ensures EndsAt(s.cfg, t.path)
    ensures Symmetric(s.cfg.m) ==> Length(s.cfg.m, t.path) <= Length(s.cfg.m, s.path)
    ensures Symmetric(s.cfg.m) && t != s ==> Length(s.cfg.m, t.path) < Length(s.cfg.m, s.path)
  {
    t := s;
    var pass := 0;
    while pass < steps
      invariant pass <= steps
      invariant Valid(t) && t.cfg == s.cfg && t.start == s.start && SameEnds(s, t)
      invariant s.cfg.n < 5 || pass == 0 ==> t == s
      invariant TwoOptimal(s) ==> t == s
      invariant Symmetric(s.cfg.m) ==> TwoOptimal(t) || Length(s.cfg.m, t.path) + pass <= Length(s.cfg.m, s.path)
      invariant Symmetric(s.cfg.m) ==> Length(s.cfg.m, t.path) <= Length(s.cfg.m, s.path)
      invariant Symmetric(s.cfg.m) && t != s ==> Length(s.cfg.m, t.path) < Length(s.cfg.m, s.path)
    {
      var next := Pass(t);
      SameEndsTrans(s, t, next);
      t := next;
      pass := pass + 1;
    }
    forall v | 0 <= v < s.cfg.n
      ensures |t.adj[v]| == |s.adj[v]|
    {
      SameEndsDegrees(s, t, v);
    }
  }

  /** `opt2_optimize(steps)` (lines 149-206). With zero steps the progress
      bar the final `close()` refers to was never bound, so the call fails. */
  method Opt2(s: Solver, steps: nat) returns (r: Result<Solver>)
    requires Valid(s)
    ensures steps == 0 <==> r == Err(NoPassRun)
    ensures steps > 0 ==> r.Ok?
    ensures r.Ok? ==> Valid(r.value) && r.value.cfg == s.cfg && r.value.start == s.start && SameEnds(s, r.value)
    ensures r.Ok? ==> forall v :: 0 <= v < s.cfg.n ==> |r.value.adj[v]| == |s.adj[v]|
    ensures r.Ok? && s.cfg.n < 5 ==> r.value == s
    ensures r.Ok? && TwoOptimal(s) ==> r.value == s
    ensures r.Ok? && Symmetric(s.cfg.m) ==>
      TwoOptimal(r.value) || Length(s.cfg.m, r.value.path) + steps <= Length(s.cfg.m, s.path)
    ensures r.Ok? ==> EndsAt(s.cfg, r.value.path)
    ensures r.Ok? && Symmetric(s.cfg.m) ==> Length(s.cfg.m, r.value.path) <= Length(s.cfg.m, s.path)
    ensures r.Ok? && Symmetric(s.cfg.m) && r.value != s ==> Length(s.cfg.m, r.value.path) < Length(s.cfg.m, s.path)
  {
    if steps == 0 {
      return Err(NoPassRun);
    }
    var t := Passes(s, steps);
    r := Ok(t);
  }

  /** How main.py uses the solver (lines 19-25): `run`, then
      `opt2_optimize(steps)` on the solver `run` left. For an open path on a
      square matrix the greedy result is a valid solver, so the passes
      apply; the final path visits every node once and, on a symmetric
      matrix, is no longer than the greedy one. */
  method GreedyThenTwoOpt(cfg: Config, steps: nat) returns (greedy: Result<Solver>, improved: Result<Solver>)
    requires Configured(cfg) && LowerComplete(cfg.m) && Square(cfg.m) && !cfg.isLoop
    ensures greedy.Err? ==> improved == greedy
    ensures greedy.Ok? ==> Valid(greedy.value) && IsPerm(greedy.value.path, cfg.n)
    ensures greedy.Ok? ==> (improved.Ok? <==> steps > 0)
    ensures improved.Ok? ==> greedy.Ok? && Valid(improved.value) && IsPerm(improved.value.path, cfg.n)
    ensures greedy.Ok? ==> EndsAt(cfg, greedy.value.path)
    ensures improved.Ok? ==> EndsAt(cfg, improved.value.path)
    ensures improved.Ok? && Symmetric(cfg.m) ==> Length(cfg.m, improved.value.path) <= Length(cfg.m, greedy.value.path)
    ensures improved.Ok? && TwoOptimal(greedy.value) ==> improved == greedy
    ensures improved.Ok? && Symmetric(cfg.m) ==>
      TwoOptimal(improved.value) || Length(cfg.m, improved.value.path) + steps <= Length(cfg.m, greedy.value.path)
  {
    greedy := Run(cfg);
    match greedy
    case Err(e) => improved := Err(e);
    case Ok(s) =>
      ValidPerm(s);
      improved := Opt2(s, steps);
      if improved.Ok? {
        ValidPerm(improved.value);
      }
  }

  /** The path of a valid solver for an open path visits every node once. */
  lemma ValidPerm(s: Solver)
    requires Valid(s) && !s.cfg.isLoop
    ensures IsPerm(s.path, s.cfg.n)
  {
  }
}
