/** Path reconstruction from the adjacency sets (solver/greedy_2opt.py, restore_path).

    Python iterates a node's neighbour set in an order the language leaves
    open; the model fixes one such order, increasing node id. */
module Restore {
  import opened Basics
  import opened Distances
  import opened Tours

  /** The smallest node id in [from, n) that belongs to `s` and is not `prev`. */
  function FirstOther(s: set<nat>, prev: Option<nat>, from: nat, n: nat): (r: Option<nat>)
    decreases n - from
    ensures r.Some? ==> from <= r.value < n && r.value in s && prev != Some(r.value)
    ensures r.Some? ==> forall x :: from <= x < r.value && x in s ==> prev == Some(x)
    ensures r.None? ==> forall x :: from <= x < n && x in s ==> prev == Some(x)
  {
    if from >= n then None
    else if from in s && prev != Some(from) then Some(from)
    else FirstOther(s, prev, from + 1, n)
  }

  /** The neighbour of `cur` the walk moves to, having arrived from `prev`. */
  function Next(adj: seq<set<nat>>, cur: nat, prev: Option<nat>): Option<nat>
    requires cur < |adj|
  {
    FirstOther(adj[cur], prev, 0, |adj|)
  }

  /** The first node with exactly one neighbour, searching from `from`. */
  function FirstOpenEnd(adj: seq<set<nat>>, from: nat): (r: Option<nat>)
    decreases |adj| - from
    ensures r.Some? ==> from <= r.value < |adj| && |adj[r.value]| == 1
    ensures r.Some? ==> forall v :: from <= v < r.value ==> |adj[v]| != 1
    ensures r.None? ==> forall v :: from <= v < |adj| ==> |adj[v]| != 1
  {
    if from >= |adj| then None
    else if |adj[from]| == 1 then Some(from)
    else FirstOpenEnd(adj, from + 1)
  }

  /** `steps` moves from `cur`, never stepping straight back. */
  function Walk(adj: seq<set<nat>>, prev: Option<nat>, cur: nat, steps: nat): (r: Result<seq<nat>>)
    requires cur < |adj|
    decreases steps
    ensures r.Ok? ==> |r.value| == steps + 1 && r.value[0] == cur
    ensures r.Ok? ==> Nodes(r.value, |adj|) && Linked(adj, r.value)
    ensures r.Ok? ==> forall k :: 0 <= k && k + 2 <= steps ==> r.value[k + 2] != r.value[k]
    ensures r.Ok? && steps > 0 ==> prev != Some(r.value[1])
    ensures r.Err? ==> r.error.DeadEnd?
  {
    if steps == 0 then Ok([cur])
    else
      match Next(adj, cur, prev)
      case None => Err(DeadEnd(cur))
      case Some(nx) =>
        match Walk(adj, Some(cur), nx, steps - 1)
        case Err(e) => Err(e)
        case Ok(rest) => Ok([cur] + rest)
  }

  /** The rebuilt path together with the start node the solver keeps afterwards. */
  datatype Restored = Restored(path: seq<nat>, start: nat)

  function RestorePath(adj: seq<set<nat>>, start: Option<nat>, end: Option<nat>, isLoop: bool): (r: Result<Restored>)
    requires start.Some? ==> start.value < |adj|
    requires end.Some? ==> end.value < |adj|
    ensures r.Ok? ==> |adj| >= 1 && |r.value.path| == (if isLoop then |adj| + 1 else |adj|)
    ensures r.Ok? ==> Nodes(r.value.path, |adj|) && r.value.start < |adj|
    ensures r.Ok? && start.Some? ==>
      r.value.start == start.value && r.value.path[0] == start.value && Linked(adj, r.value.path)
    ensures r.Ok? && start.None? && end.Some? ==>
      r.value.start == end.value && r.value.path[|r.value.path| - 1] == end.value
      && Linked(adj, Reverse(r.value.path))
    ensures r.Ok? && start.None? && end.None? ==>
      r.value.path[0] == r.value.start && |adj[r.value.start]| == 1 && Linked(adj, r.value.path)
      && forall v :: 0 <= v < r.value.start ==> |adj[v]| != 1
    ensures start.None? && end.None? && (forall v :: 0 <= v < |adj| ==> |adj[v]| != 1) ==> r == Err(NoOpenEnd)
  {
    var first :=
      if start.Some? then Some(start.value)
      else if end.Some? then Some(end.value)
      else FirstOpenEnd(adj, 0);
    match first
    case None => Err(NoOpenEnd)
    case Some(s) => WalkFrom(adj, s, isLoop, start.None? && end.Some?)
  }

  /** The walk from `s` over every edge (lines 76-85), reversed when `flip`
      (lines 86-87); `s` becomes the stored start. */
  function WalkFrom(adj: seq<set<nat>>, s: nat, isLoop: bool, flip: bool): (r: Result<Restored>)
    requires s < |adj|
    ensures r.Ok? ==> |r.value.path| == (if isLoop then |adj| + 1 else |adj|)
    ensures r.Ok? ==> Nodes(r.value.path, |adj|) && r.value.start == s
    ensures r.Ok? && !flip ==> r.value.path[0] == s && Linked(adj, r.value.path)
    ensures r.Ok? && flip ==>
      r.value.path[|r.value.path| - 1] == s && Linked(adj, Reverse(r.value.path))
  {
    var steps := if isLoop then |adj| else |adj| - 1;
    match Walk(adj, None, s, steps)
    case Err(e) => Err(e)
    case Ok(w) =>
      if flip then
        Flipped(adj, w);
        Ok(Restored(Reverse(w), s))
      else Ok(Restored(w, s))
  }

  /** A linked path read backwards ends at its first node, and reading it
      backwards once more gives the linked path again. */
  lemma Flipped(adj: seq<set<nat>>, w: seq<nat>)
    requires |w| >= 1 && Nodes(w, |adj|) && Linked(adj, w)
    ensures Nodes(Reverse(w), |adj|) && Reverse(w)[|w| - 1] == w[0]
    ensures Linked(adj, Reverse(Reverse(w)))
  {
    ReverseTwice(w);
    ReverseNodes(w, |adj|);
  }

  /** A successful reconstruction is the walk from the stored start, read
      backwards when only the end was fixed. */
  lemma RestoreWalks(adj: seq<set<nat>>, start: Option<nat>, end: Option<nat>, isLoop: bool)
    requires start.Some? ==> start.value < |adj|
    requires end.Some? ==> end.value < |adj|
    requires RestorePath(adj, start, end, isLoop).Ok?
    ensures var r := RestorePath(adj, start, end, isLoop).value;
      var w := if start.None? && end.Some? then Reverse(r.path) else r.path;
      r.start < |adj| && Walk(adj, None, r.start, if isLoop then |adj| else |adj| - 1) == Ok(w)
  {
    var r := RestorePath(adj, start, end, isLoop).value;
    if start.None? && end.Some? {
      var w := Walk(adj, None, end.value, if isLoop then |adj| else |adj| - 1).value;
      assert r.path == Reverse(w);
      ReverseTwice(w);
    }
  }

  lemma NextIs(adj: seq<set<nat>>, cur: nat, prev: Option<nat>, y: nat)
    requires cur < |adj| && y < |adj| && y in adj[cur] && prev != Some(y)
    requires forall x :: x in adj[cur] ==> x == y || prev == Some(x)
    ensures Next(adj, cur, prev) == Some(y)
  {
  }

  /** With no previous node, the walk leaves towards the smaller of two neighbours. */
  lemma NextFromPair(adj: seq<set<nat>>, cur: nat, u: nat, v: nat)
    requires cur < |adj| && u < v < |adj| && adj[cur] == {u, v}
    ensures Next(adj, cur, None) == Some(u)
  {
  }

  lemma WalkStep(adj: seq<set<nat>>, prev: Option<nat>, cur: nat, steps: nat, nx: nat, rest: seq<nat>)
    requires cur < |adj| && nx < |adj| && steps > 0
    requires Next(adj, cur, prev) == Some(nx)
    requires Walk(adj, Some(cur), nx, steps - 1) == Ok(rest)
    ensures Walk(adj, prev, cur, steps) == Ok([cur] + rest)
  {
  }

  lemma {:induction false} WalkAlong(adj: seq<set<nat>>, w: seq<nat>, k: nat)
    requires 1 <= k < |w| && Nodes(w, |adj|)
    requires forall i :: 1 <= i < |w| - 1 ==> Next(adj, w[i], Some(w[i - 1])) == Some(w[i + 1])
    ensures Walk(adj, Some(w[k - 1]), w[k], |w| - 1 - k) == Ok(w[k..])
    decreases |w| - k
  {
    if k == |w| - 1 {
      assert w[k..] == [w[k]];
    } else {
      var rest := w[k + 1..];
      assert w[k..] == [w[k]] + rest;
      assert Next(adj, w[k], Some(w[k - 1])) == Some(w[k + 1]);
      WalkAlong(adj, w, k + 1);
      WalkStep(adj, Some(w[k - 1]), w[k], |w| - 1 - k, w[k + 1], rest);
    }
  }

  /** A walk whose every choice agrees with `w` reproduces `w`. */
  lemma WalkFollows(adj: seq<set<nat>>, w: seq<nat>)
    requires |w| >= 2 && Nodes(w, |adj|)
    requires Next(adj, w[0], None) == Some(w[1])
    requires forall i :: 1 <= i < |w| - 1 ==> Next(adj, w[i], Some(w[i - 1])) == Some(w[i + 1])
    ensures Walk(adj, None, w[0], |w| - 1) == Ok(w)
  {
    assert w == [w[0]] + w[1..];
    WalkAlong(adj, w, 1);
    WalkStep(adj, None, w[0], |w| - 1, w[1], w[1..]);
  }

  /** Walking an open tour from its first node retraces it. */
  lemma WalkOpenTour(adj: seq<set<nat>>, p: seq<nat>, n: nat)
    requires IsTour(p, n, false) && Matches(adj, p, n, false)
    ensures Walk(adj, None, p[0], n - 1) == Ok(p)
  {
    assert Around(p, 0, false) == {p[1]};
    NextIs(adj, p[0], None, p[1]);
    forall i | 1 <= i < n - 1
      ensures Next(adj, p[i], Some(p[i - 1])) == Some(p[i + 1])
    {
      assert Around(p, i, false) == {p[i - 1], p[i + 1]};
      NextIs(adj, p[i], Some(p[i - 1]), p[i + 1]);
    }
    WalkFollows(adj, p);
  }

  /** Walking a closed tour whose second node is the smaller neighbour of the first retraces it. */
  lemma WalkClosedTour(adj: seq<set<nat>>, q: seq<nat>, n: nat)
    requires IsTour(q, n, true) && Matches(adj, q, n, true)
    requires q[1] < q[n - 1]
    ensures Walk(adj, None, q[0], n) == Ok(q)
  {
    TourNodes(q, n, true);
    assert Around(q, 0, true) == {q[n - 1], q[1]};
    NextFromPair(adj, q[0], q[1], q[n - 1]);
    forall i | 1 <= i < n
      ensures Next(adj, q[i], Some(q[i - 1])) == Some(q[i + 1])
    {
      assert Around(q, i, true) == {q[i - 1], q[i + 1]};
      assert q[..n][i - 1] == q[i - 1];
      if i + 1 < n {
        assert q[..n][i + 1] == q[i + 1];
      } else {
        assert q[..n][0] == q[i + 1] && q[..n][n - 2] == q[i - 1];
      }
      NextIs(adj, q[i], Some(q[i - 1]), q[i + 1]);
    }
    WalkFollows(adj, q);
  }

  lemma RestoreOpenTour(adj: seq<set<nat>>, p: seq<nat>, n: nat, start: Option<nat>, end: Option<nat>)
    requires IsTour(p, n, false) && Matches(adj, p, n, false)
    requires start.Some? ==> start.value == p[0]
    requires end.Some? ==> end.value < n
    requires start.None? && end.Some? ==> end.value == p[n - 1]
    requires start.None? && end.None? ==> p[0] < p[n - 1]
    ensures RestorePath(adj, start, end, false).Ok?
    ensures RestorePath(adj, start, end, false).value.path == p
  {
    if start.Some? {
      RestoreOpenStart(adj, p, n, end);
    } else if end.Some? {
      RestoreOpenEnd(adj, p, n);
    } else {
      RestoreOpenFree(adj, p, n);
    }
  }

  lemma RestoreOpenStart(adj: seq<set<nat>>, p: seq<nat>, n: nat, end: Option<nat>)
    requires IsTour(p, n, false) && Matches(adj, p, n, false)
    requires end.Some? ==> end.value < n
    ensures RestorePath(adj, Some(p[0]), end, false) == Ok(Restored(p, p[0]))
  {
    TourNodes(p, n, false);
    WalkOpenTour(adj, p, n);
  }

  lemma RestoreOpenEnd(adj: seq<set<nat>>, p: seq<nat>, n: nat)
    requires IsTour(p, n, false) && Matches(adj, p, n, false)
    ensures RestorePath(adj, None, Some(p[n - 1]), false) == Ok(Restored(p, p[n - 1]))
  {
    var e, r := p[n - 1], Reverse(p);
    assert r[0] == e;
    TourNodes(p, n, false);
    ReverseTour(adj, p, n, false);
    WalkOpenTour(adj, r, n);
    ReverseTwice(p);
    WalkFromFlip(adj, e, r);
  }

  /** Rebuilding towards a fixed end returns the walk from it, reversed. */
  lemma WalkFromFlip(adj: seq<set<nat>>, e: nat, w: seq<nat>)
    requires e < |adj| && Walk(adj, None, e, |adj| - 1) == Ok(w)
    ensures RestorePath(adj, None, Some(e), false) == Ok(Restored(Reverse(w), e))
  {
  }

  lemma RestoreOpenFree(adj: seq<set<nat>>, p: seq<nat>, n: nat)
    requires IsTour(p, n, false) && Matches(adj, p, n, false)
    requires p[0] < p[n - 1]
    ensures RestorePath(adj, None, None, false) == Ok(Restored(p, p[0]))
  {
    TourNodes(p, n, false);
    OpenTourDegrees(adj, p, n, p[0]);
    var f := FirstOpenEnd(adj, 0);
    assert f.Some? && f.value <= p[0];
    OpenTourDegrees(adj, p, n, f.value);
    WalkOpenTour(adj, p, n);
  }

  lemma RestoreClosedTour(adj: seq<set<nat>>, q: seq<nat>, n: nat, end: Option<nat>)
    requires IsTour(q, n, true) && Matches(adj, q, n, true)
    requires end.Some? ==> end.value < n
    requires q[1] < q[n - 1]
    ensures RestorePath(adj, Some(q[0]), end, true) == Ok(Restored(q, q[0]))
  {
    TourNodes(q, n, true);
    WalkClosedTour(adj, q, n);
  }

  /** When the adjacency describes a tour and the stored endpoints sit on it,
      reconstruction succeeds and returns that tour, read in one of its two
      directions. */
  lemma RestoreGivesTour(adj: seq<set<nat>>, w: seq<nat>, n: nat, closed: bool, start: Option<nat>, end: Option<nat>)
    requires IsTour(w, n, closed) && Matches(adj, w, n, closed)
    requires end.Some? ==> end.value < n
    requires closed ==> start == Some(w[0])
    requires !closed && start.Some? ==> start.value == w[0] || start.value == w[n - 1]
    requires !closed && start.None? && end.Some? ==> end.value == w[0] || end.value == w[n - 1]
    ensures start.Some? ==> start.value < |adj|
    ensures var r := RestorePath(adj, start, end, closed);
      r.Ok? && (r.value.path == w || r.value.path == Reverse(w))
      && IsTour(r.value.path, n, closed) && Matches(adj, r.value.path, n, closed)
  {
    TourNodes(w, n, closed);
    ReverseTour(adj, w, n, closed);
    if closed {
      RestoreClosedEither(adj, w, n, end);
    } else {
      RestoreOpenEither(adj, w, n, start, end);
    }
  }

  lemma RestoreClosedEither(adj: seq<set<nat>>, w: seq<nat>, n: nat, end: Option<nat>)
    requires IsTour(w, n, true) && Matches(adj, w, n, true)
    requires IsTour(Reverse(w), n, true) && Matches(adj, Reverse(w), n, true)
    requires end.Some? ==> end.value < n
    ensures var r := RestorePath(adj, Some(w[0]), end, true);
      r.Ok? && (r.value.path == w || r.value.path == Reverse(w))
  {
    var v := Reverse(w);
    var h := w[..n];
    assert w[1] == h[1] && w[n - 1] == h[n - 1];
    if w[1] < w[n - 1] {
      RestoreClosedTour(adj, w, n, end);
    } else {
      assert v[0] == w[0] && v[1] == w[n - 1] && v[n - 1] == w[1];
      RestoreClosedTour(adj, v, n, end);
    }
  }

  lemma RestoreOpenEither(adj: seq<set<nat>>, w: seq<nat>, n: nat, start: Option<nat>, end: Option<nat>)
    requires IsTour(w, n, false) && Matches(adj, w, n, false)
    requires IsTour(Reverse(w), n, false) && Matches(adj, Reverse(w), n, false)
    requires end.Some? ==> end.value < n
    requires start.Some? ==> start.value == w[0] || start.value == w[n - 1]
    requires start.None? && end.Some? ==> end.value == w[0] || end.value == w[n - 1]
    ensures start.Some? ==> start.value < |adj|
    ensures var r := RestorePath(adj, start, end, false);
      r.Ok? && (r.value.path == w || r.value.path == Reverse(w))
  {
    TourNodes(w, n, false);
    var v := Reverse(w);
    assert v[0] == w[n - 1] && v[n - 1] == w[0];
    if start.Some? {
      if start.value == w[0] {
        RestoreOpenTour(adj, w, n, start, end);
      } else {
        RestoreOpenTour(adj, v, n, start, end);
      }
    } else if end.Some? {
      if end.value == w[n - 1] {
        RestoreOpenTour(adj, w, n, start, end);
      } else {
        RestoreOpenTour(adj, v, n, start, end);
      }
    } else {
      OpenEndsDiffer(w, n);
      if w[0] < w[n - 1] {
        RestoreOpenTour(adj, w, n, start, end);
      } else {
        RestoreOpenTour(adj, v, n, start, end);
      }
    }
  }

  lemma OpenEndsDiffer(w: seq<nat>, n: nat)
    requires IsTour(w, n, false)
    ensures w[0] != w[n - 1]
  {
  }
}
