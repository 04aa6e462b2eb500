/** The 2-opt refinement (solver/greedy_2opt.py, opt2_optimize).

    For each position a, the move replaces the path edges (a, a+1) and
    (c, c+1) by (a, c) and (a+1, c+1) for the candidate c of largest gain,
    which reverses the stretch a+1..c of the path. */
module TwoOpt {
  import opened Basics
  import opened Distances
  import opened Tours

  /** The length saved by the move at positions a and c (lines 170-179). */
  function Gain(m: Matrix, p: seq<nat>, a: nat, c: nat): int
    requires Square(m) && Nodes(p, |m|) && a + 1 < |p| && c + 1 < |p|
  {
    m[p[a]][p[a + 1]] + m[p[c]][p[c + 1]] - (m[p[a]][p[c]] + m[p[a + 1]][p[c + 1]])
  }

  /** c is the first candidate in [lo, hi) of largest gain, as `np.argmax` picks it. */
  predicate FirstMax(m: Matrix, p: seq<nat>, a: nat, lo: nat, hi: nat, c: nat)
    requires Square(m) && Nodes(p, |m|) && a + 1 < |p| && hi < |p|
  {
    && lo <= c < hi
    && (forall x :: lo <= x < hi ==> Gain(m, p, a, x) <= Gain(m, p, a, c))
    && (forall x :: lo <= x < c ==> Gain(m, p, a, x) < Gain(m, p, a, c))
  }

  /** The first maximum is unique. */
  lemma FirstMaxUnique(m: Matrix, p: seq<nat>, a: nat, lo: nat, hi: nat, c: nat, c': nat)
    requires Square(m) && Nodes(p, |m|) && a + 1 < |p| && hi < |p|
    requires FirstMax(m, p, a, lo, hi, c) && FirstMax(m, p, a, lo, hi, c')
    ensures c == c'
  {
    var g, g' := Gain(m, p, a, c), Gain(m, p, a, c');
    assert c < c' ==> g < g';
    assert c' < c ==> g' < g;
  }

  /** The scan over candidates c in [lo, hi) (the vectorised gain and
      `np.argmax` of lines 170-182). */
  method BestCandidate(m: Matrix, p: seq<nat>, a: nat, lo: nat, hi: nat) returns (c: nat)
    requires Square(m) && Nodes(p, |m|) && a + 1 < |p| && hi < |p| && lo < hi
    ensures FirstMax(m, p, a, lo, hi, c)
  {
    c := lo;
    var x := lo + 1;
    while x < hi
      invariant lo < x <= hi && lo <= c < x
      invariant forall y :: lo <= y < x ==> Gain(m, p, a, y) <= Gain(m, p, a, c)
      invariant forall y :: lo <= y < c ==> Gain(m, p, a, y) < Gain(m, p, a, c)
    {
      if Gain(m, p, a, x) > Gain(m, p, a, c) {
        c := x;
      }
      x := x + 1;
    }
  }

  /** `s.remove(x)`: fails when x is absent. */
  function Remove(s: set<nat>, x: nat): (r: Option<set<nat>>)
    ensures r.Some? <==> x in s
    ensures r.Some? ==> x !in r.value && r.value + {x} == s
  {
    if x in s then Some(s - {x}) else None
  }

  /** The four adjacency updates of lines 192-201, applied in order: a trades
      b for c, b trades a for d, c trades d for a, d trades c for b. */
  function Swap(adj: seq<set<nat>>, pa: nat, pb: nat, pc: nat, pd: nat): (r: Result<seq<set<nat>>>)
    requires pa < |adj| && pb < |adj| && pc < |adj| && pd < |adj|
    ensures r.Ok? ==> |r.value| == |adj|
    ensures r.Ok? ==> forall v :: 0 <= v < |adj| && v != pa && v != pb && v != pc && v != pd ==> r.value[v] == adj[v]
    ensures r.Err? ==> r.error.MissingNeighbour?
  {
    match Remove(adj[pa], pb)
    case None => Err(MissingNeighbour(pa, pb))
    case Some(sa) =>
      var adj1 := adj[pa := sa + {pc}];
      match Remove(adj1[pb], pa)
      case None => Err(MissingNeighbour(pb, pa))
      case Some(sb) =>
        var adj2 := adj1[pb := sb + {pd}];
        match Remove(adj2[pc], pd)
        case None => Err(MissingNeighbour(pc, pd))
        case Some(sc) =>
          var adj3 := adj2[pc := sc + {pa}];
          match Remove(adj3[pd], pc)
          case None => Err(MissingNeighbour(pd, pc))
          case Some(sd) => Ok(adj3[pd := sd + {pb}])
  }

  /** On four distinct nodes the updates do not interfere: the swap succeeds
      exactly when a-b and c-d are edges, and then each of the four loses one
      neighbour and gains one. */
  lemma SwapDistinct(adj: seq<set<nat>>, pa: nat, pb: nat, pc: nat, pd: nat)
    requires pa < |adj| && pb < |adj| && pc < |adj| && pd < |adj|
    requires pa != pb && pa != pc && pa != pd && pb != pc && pb != pd && pc != pd
    ensures Swap(adj, pa, pb, pc, pd).Ok? <==>
      pb in adj[pa] && pa in adj[pb] && pd in adj[pc] && pc in adj[pd]
    ensures Swap(adj, pa, pb, pc, pd).Ok? ==>
      var r := Swap(adj, pa, pb, pc, pd).value;
      && r[pa] == adj[pa] - {pb} + {pc}
      && r[pb] == adj[pb] - {pa} + {pd}
      && r[pc] == adj[pc] - {pd} + {pa}
      && r[pd] == adj[pd] - {pc} + {pb}
  {
  }

  /** Where the move reads entry k of the new path from. */
  function Source(a: nat, c: nat, k: nat): nat {
    if a < k <= c then a + 1 + c - k else k
  }

  /** The path after the move: the stretch a+1..c reversed. */
  function Move(p: seq<nat>, a: nat, c: nat): (q: seq<nat>)
    requires a < c < |p|
    ensures |q| == |p|
    ensures forall k :: 0 <= k < |p| ==> Source(a, c, k) < |p| && q[k] == p[Source(a, c, k)]
  {
    var q := p[..a + 1] + Reverse(p[a + 1..c + 1]) + p[c + 1..];
    assert forall k :: 0 <= k < |p| ==> q[k] == p[Source(a, c, k)] by {
      forall k | 0 <= k < |p|
        ensures q[k] == p[Source(a, c, k)]
      {
        if a < k <= c {
          assert q[k] == Reverse(p[a + 1..c + 1])[k - a - 1];
        }
      }
    }
    q
  }

  /** Distinct positions before n hold distinct nodes. */
  lemma TourDistinctAt(p: seq<nat>, n: nat, closed: bool, i: nat, j: nat)
    requires IsTour(p, n, closed) && i < n && j < n && i != j
    ensures p[i] != p[j]
  {
    if closed {
      assert p[..n][i] == p[i] && p[..n][j] == p[j];
    }
  }

  /** The move keeps a tour a tour. */
  lemma MoveTour(p: seq<nat>, n: nat, closed: bool, a: nat, c: nat)
    requires IsTour(p, n, closed) && a + 3 <= c && c + 2 <= n
    ensures IsTour(Move(p, a, c), n, closed)
  {
    var q := Move(p, a, c);
    TourNodes(p, n, closed);
    var h := q[..n];
    forall k, l | 0 <= k < l < n
      ensures h[k] != h[l]
    {
      TourDistinctAt(p, n, closed, Source(a, c, k), Source(a, c, l));
    }
    forall k | 0 <= k < n
      ensures h[k] < n
    {
      assert h[k] == p[Source(a, c, k)];
    }
    if closed {
      assert q[n] == p[n] && q[0] == p[0];
    } else {
      assert h == q;
    }
  }

  /** `adj'` is `adj` after the four updates on distinct nodes a, b, c, d. */
  predicate Swapped(adj: seq<set<nat>>, adj': seq<set<nat>>, pa: nat, pb: nat, pc: nat, pd: nat) {
    && |adj'| == |adj|
    && pa < |adj| && pb < |adj| && pc < |adj| && pd < |adj|
    && adj'[pa] == adj[pa] - {pb} + {pc}
    && adj'[pb] == adj[pb] - {pa} + {pd}
    && adj'[pc] == adj[pc] - {pd} + {pa}
    && adj'[pd] == adj[pd] - {pc} + {pb}
    && forall v :: 0 <= v < |adj| && v != pa && v != pb && v != pc && v != pd ==> adj'[v] == adj[v]
  }

  /** The shared setting of the case lemmas below. */
  predicate Setting(adj: seq<set<nat>>, adj': seq<set<nat>>, p: seq<nat>, n: nat, closed: bool, a: nat, c: nat) {
    && a + 3 <= c && c + 2 <= n
    && IsTour(p, n, closed) && Matches(adj, p, n, closed)
    && IsTour(Move(p, a, c), n, closed)
    && Swapped(adj, adj', p[a], p[a + 1], p[c], p[c + 1])
  }

  /** A node away from the four keeps its neighbour sets. */
  lemma SwapUntouched(adj: seq<set<nat>>, adj': seq<set<nat>>, p: seq<nat>, n: nat, closed: bool, a: nat, c: nat, k: nat)
    requires Setting(adj, adj', p, n, closed, a, c)
    requires k < n && k != a && k != a + 1 && k != c && k != c + 1
    ensures p[k] < n && adj'[p[k]] == Around(p, k, closed)
  {
    TourNodes(p, n, closed);
    TourDistinctAt(p, n, closed, k, a);
    TourDistinctAt(p, n, closed, k, a + 1);
    TourDistinctAt(p, n, closed, k, c);
    TourDistinctAt(p, n, closed, k, c + 1);
    assert adj[p[k]] == Around(p, k, closed);
  }

  /** Before position a the moved path agrees with the old one around k. */
  lemma SwapBefore(adj: seq<set<nat>>, adj': seq<set<nat>>, p: seq<nat>, n: nat, closed: bool, a: nat, c: nat, k: nat)
    requires Setting(adj, adj', p, n, closed, a, c)
    requires k < a
    ensures adj'[Move(p, a, c)[k]] == Around(Move(p, a, c), k, closed)
  {
    var q := Move(p, a, c);
    SwapUntouched(adj, adj', p, n, closed, a, c, k);
    assert q[k] == p[k] && q[k + 1] == p[k + 1];
    if k > 0 {
      assert q[k - 1] == p[k - 1];
    } else if closed {
      assert q[n - 1] == p[n - 1];
    }
  }

  /** After position c+1 the moved path agrees with the old one around k. */
  lemma SwapAfter(adj: seq<set<nat>>, adj': seq<set<nat>>, p: seq<nat>, n: nat, closed: bool, a: nat, c: nat, k: nat)
    requires Setting(adj, adj', p, n, closed, a, c)
    requires c + 1 < k < n
    ensures adj'[Move(p, a, c)[k]] == Around(Move(p, a, c), k, closed)
  {
    var q := Move(p, a, c);
    SwapUntouched(adj, adj', p, n, closed, a, c, k);
    assert q[k] == p[k] && q[k - 1] == p[k - 1];
    if k + 1 < |p| {
      assert q[k + 1] == p[k + 1];
    }
  }

  /** Inside the reversed stretch a node keeps its two neighbours, in swapped places. */
  lemma SwapInner(adj: seq<set<nat>>, adj': seq<set<nat>>, p: seq<nat>, n: nat, closed: bool, a: nat, c: nat, k: nat)
    requires Setting(adj, adj', p, n, closed, a, c)
    requires a + 2 <= k < c
    ensures adj'[Move(p, a, c)[k]] == Around(Move(p, a, c), k, closed)
  {
    var q := Move(p, a, c);
    var j := a + 1 + c - k;
    SwapUntouched(adj, adj', p, n, closed, a, c, j);
    AroundMirror(p, q, j, k, closed);
  }

  /** Away from the ends, an entry whose two sides are mirrored has the same neighbours. */
  lemma AroundMirror(p: seq<nat>, q: seq<nat>, j: nat, k: nat, closed: bool)
    requires 0 < j && j + 1 < |p| && 0 < k && k + 1 < |q|
    requires q[k - 1] == p[j + 1] && q[k + 1] == p[j - 1]
    ensures Around(q, k, closed) == Around(p, j, closed)
  {
  }

  /** Node a trades b for c. */
  lemma SwapA(adj: seq<set<nat>>, adj': seq<set<nat>>, p: seq<nat>, n: nat, closed: bool, a: nat, c: nat)
    requires Setting(adj, adj', p, n, closed, a, c)
    ensures adj'[Move(p, a, c)[a]] == Around(Move(p, a, c), a, closed)
  {
    var q := Move(p, a, c);
    TourNodes(p, n, closed);
    assert q[a] == p[a] && q[a + 1] == p[c];
    assert adj[p[a]] == Around(p, a, closed);
    if a > 0 {
      assert q[a - 1] == p[a - 1];
      TourDistinctAt(p, n, closed, a - 1, a + 1);
    }
    if closed {
      assert q[n - 1] == p[n - 1];
      TourDistinctAt(p, n, closed, n - 1, a + 1);
    }
  }

  /** Node c (now at a+1) trades d for a. */
  lemma SwapC(adj: seq<set<nat>>, adj': seq<set<nat>>, p: seq<nat>, n: nat, closed: bool, a: nat, c: nat)
    requires Setting(adj, adj', p, n, closed, a, c)
    ensures adj'[Move(p, a, c)[a + 1]] == Around(Move(p, a, c), a + 1, closed)
  {
    var q := Move(p, a, c);
    TourNodes(p, n, closed);
    assert q[a + 1] == p[c] && q[a] == p[a] && q[a + 2] == p[c - 1];
    assert adj[p[c]] == Around(p, c, closed);
    TourDistinctAt(p, n, closed, c - 1, c + 1);
  }

  /** Node b (now at c) trades a for d. */
  lemma SwapB(adj: seq<set<nat>>, adj': seq<set<nat>>, p: seq<nat>, n: nat, closed: bool, a: nat, c: nat)
    requires Setting(adj, adj', p, n, closed, a, c)
    ensures adj'[Move(p, a, c)[c]] == Around(Move(p, a, c), c, closed)
  {
    var q := Move(p, a, c);
    TourNodes(p, n, closed);
    assert q[c] == p[a + 1] && q[c - 1] == p[a + 2] && q[c + 1] == p[c + 1];
    assert adj[p[a + 1]] == Around(p, a + 1, closed);
    TourDistinctAt(p, n, closed, a, a + 2);
  }

  /** Node d trades c for b. */
  lemma SwapD(adj: seq<set<nat>>, adj': seq<set<nat>>, p: seq<nat>, n: nat, closed: bool, a: nat, c: nat)
    requires Setting(adj, adj', p, n, closed, a, c)
    ensures adj'[Move(p, a, c)[c + 1]] == Around(Move(p, a, c), c + 1, closed)
  {
    var q := Move(p, a, c);
    TourNodes(p, n, closed);
    assert q[c + 1] == p[c + 1] && q[c] == p[a + 1];
    assert adj[p[c + 1]] == Around(p, c + 1, closed);
    if c + 2 < |p| {
      assert q[c + 2] == p[c + 2];
      if c + 2 < n {
        TourDistinctAt(p, n, closed, c + 2, c);
      } else {
        TourDistinctAt(p, n, closed, 0, c);
        assert p[c + 2] == p[0];
      }
    }
  }

  /** On a tour the four nodes are distinct and joined as the swap expects,
      so it succeeds. */
  lemma SwapSucceeds(adj: seq<set<nat>>, p: seq<nat>, n: nat, closed: bool, a: nat, c: nat)
    requires IsTour(p, n, closed) && Matches(adj, p, n, closed) && a + 3 <= c && c + 2 <= n
    ensures p[a] < n && p[a + 1] < n && p[c] < n && p[c + 1] < n
    ensures Swap(adj, p[a], p[a + 1], p[c], p[c + 1]).Ok?
    ensures Setting(adj, Swap(adj, p[a], p[a + 1], p[c], p[c + 1]).value, p, n, closed, a, c)
  {
    TourNodes(p, n, closed);
    var pa, pb, pc, pd := p[a], p[a + 1], p[c], p[c + 1];
    TourDistinctAt(p, n, closed, a, a + 1);
    TourDistinctAt(p, n, closed, a, c);
    TourDistinctAt(p, n, closed, a, c + 1);
    TourDistinctAt(p, n, closed, a + 1, c);
    TourDistinctAt(p, n, closed, a + 1, c + 1);
    TourDistinctAt(p, n, closed, c, c + 1);
    assert adj[pa] == Around(p, a, closed) && adj[pb] == Around(p, a + 1, closed);
    assert adj[pc] == Around(p, c, closed) && adj[pd] == Around(p, c + 1, closed);
    SwapDistinct(adj, pa, pb, pc, pd);
    MoveTour(p, n, closed, a, c);
  }

  /** Within the reversed stretch and at its two borders. */
  lemma SwapMiddle(adj: seq<set<nat>>, adj': seq<set<nat>>, p: seq<nat>, n: nat, closed: bool, a: nat, c: nat, k: nat)
    requires Setting(adj, adj', p, n, closed, a, c) && a <= k <= c + 1
    ensures adj'[Move(p, a, c)[k]] == Around(Move(p, a, c), k, closed)
  {
    if k == a {
      SwapA(adj, adj', p, n, closed, a, c);
    } else if k == a + 1 {
      SwapC(adj, adj', p, n, closed, a, c);
    } else if k < c {
      SwapInner(adj, adj', p, n, closed, a, c, k);
    } else if k == c {
      SwapB(adj, adj', p, n, closed, a, c);
    } else {
      SwapD(adj, adj', p, n, closed, a, c);
    }
  }

  /** Entry k of the moved path has the neighbours the new adjacency gives it. */
  lemma SwapAt(adj: seq<set<nat>>, adj': seq<set<nat>>, p: seq<nat>, n: nat, closed: bool, a: nat, c: nat, k: nat)
    requires Setting(adj, adj', p, n, closed, a, c) && k < n
    ensures adj'[Move(p, a, c)[k]] == Around(Move(p, a, c), k, closed)
  {
    if k < a {
      SwapBefore(adj, adj', p, n, closed, a, c, k);
    } else if c + 1 < k {
      SwapAfter(adj, adj', p, n, closed, a, c, k);
    } else {
      SwapMiddle(adj, adj', p, n, closed, a, c, k);
    }
  }

  /** On a tour the swap succeeds and the new adjacency describes the moved
      path, which is again a tour. */
  lemma SwapMatches(adj: seq<set<nat>>, p: seq<nat>, n: nat, closed: bool, a: nat, c: nat)
    requires IsTour(p, n, closed) && Matches(adj, p, n, closed) && a + 3 <= c && c + 2 <= n
    ensures p[a] < n && p[a + 1] < n && p[c] < n && p[c + 1] < n
    ensures Swap(adj, p[a], p[a + 1], p[c], p[c + 1]).Ok?
    ensures IsTour(Move(p, a, c), n, closed)
    ensures Matches(Swap(adj, p[a], p[a + 1], p[c], p[c + 1]).value, Move(p, a, c), n, closed)
  {
    SwapSucceeds(adj, p, n, closed, a, c);
    var adj' := Swap(adj, p[a], p[a + 1], p[c], p[c + 1]).value;
    forall k | 0 <= k < n
      ensures adj'[Move(p, a, c)[k]] == Around(Move(p, a, c), k, closed)
    {
      SwapAt(adj, adj', p, n, closed, a, c, k);
    }
  }

  /** The move keeps both ends of an open path and the first node of a closed one. */
  lemma MoveEnds(p: seq<nat>, a: nat, c: nat)
    requires a + 3 <= c && c + 2 <= |p|
    ensures Move(p, a, c)[0] == p[0] && Move(p, a, c)[|p| - 1] == p[|p| - 1]
  {
  }

  /** Every node keeps its number of neighbours. */
  lemma SwapDegrees(adj: seq<set<nat>>, p: seq<nat>, n: nat, closed: bool, a: nat, c: nat, v: nat)
    requires IsTour(p, n, closed) && Matches(adj, p, n, closed) && a + 3 <= c && c + 2 <= n && v < n
    ensures p[a] < n && p[a + 1] < n && p[c] < n && p[c + 1] < n
    ensures Swap(adj, p[a], p[a + 1], p[c], p[c + 1]).Ok?
    ensures |Swap(adj, p[a], p[a + 1], p[c], p[c + 1]).value[v]| == |adj[v]|
  {
    SwapMatches(adj, p, n, closed, a, c);
    var adj' := Swap(adj, p[a], p[a + 1], p[c], p[c + 1]).value;
    var q := Move(p, a, c);
    if closed {
      ClosedTourDegrees(adj, p, n, v);
      ClosedTourDegrees(adj', q, n, v);
    } else {
      MoveEnds(p, a, c);
      OpenTourDegrees(adj, p, n, v);
      OpenTourDegrees(adj', q, n, v);
    }
  }

  /** The length of three joined routes. */
  lemma {:induction false} LengthThree(m: Matrix, x: seq<nat>, y: seq<nat>, z: seq<nat>)
    requires Square(m) && Nodes(x, |m|) && Nodes(y, |m|) && Nodes(z, |m|)
    requires |x| >= 1 && |y| >= 1 && |z| >= 1 && Nodes(x + y + z, |m|)
    ensures Length(m, x + y + z) ==
      Length(m, x) + m[x[|x| - 1]][y[0]] + Length(m, y) + m[y[|y| - 1]][z[0]] + Length(m, z)
  {
    var xy := x + y;
    assert xy[|xy| - 1] == y[|y| - 1];
    LengthAppend(m, x, y);
    LengthAppend(m, xy, z);
  }

  /** Reversing the middle of three routes on a symmetric matrix only changes
      the two joining hops. */
  lemma {:induction false} ReverseMiddle(m: Matrix, x: seq<nat>, y: seq<nat>, z: seq<nat>)
    requires Square(m) && Symmetric(m) && Nodes(x, |m|) && Nodes(y, |m|) && Nodes(z, |m|)
    requires |x| >= 1 && |y| >= 1 && |z| >= 1
    ensures Nodes(x + Reverse(y) + z, |m|)
    ensures Length(m, x + Reverse(y) + z) ==
      Length(m, x + y + z) - (m[x[|x| - 1]][y[0]] + m[y[|y| - 1]][z[0]])
        + (m[x[|x| - 1]][y[|y| - 1]] + m[y[0]][z[0]])
  {
    var r := Reverse(y);
    LengthReverse(m, y);
    assert Nodes(x + y + z, |m|);
    assert Nodes(x + r + z, |m|);
    LengthThree(m, x, y, z);
    LengthThree(m, x, r, z);
    assert r[0] == y[|y| - 1] && r[|r| - 1] == y[0];
  }

  /** The gain is the weight of the two hops the move removes, a-b and c-d,
      less the two hops of the moved path that replace them. */
  lemma GainHops(m: Matrix, p: seq<nat>, a: nat, c: nat)
    requires Square(m) && Nodes(p, |m|) && a < c && c + 1 < |p|
    ensures var q := Move(p, a, c);
      && q[a] == p[a] && q[a + 1] == p[c] && q[c] == p[a + 1] && q[c + 1] == p[c + 1]
      && Gain(m, p, a, c) == (m[p[a]][p[a + 1]] + m[p[c]][p[c + 1]]) - (m[q[a]][q[a + 1]] + m[q[c]][q[c + 1]])
  {
  }

  /** On a symmetric matrix the move shortens the path by exactly the gain. */
  lemma GainLength(m: Matrix, p: seq<nat>, a: nat, c: nat)
    requires Square(m) && Symmetric(m) && Nodes(p, |m|) && a + 1 < c && c + 1 < |p|
    ensures Nodes(Move(p, a, c), |m|)
    ensures Length(m, Move(p, a, c)) == Length(m, p) - Gain(m, p, a, c)
  {
    var x, mid, y := p[..a + 1], p[a + 1..c + 1], p[c + 1..];
    assert p == x + mid + y;
    assert Move(p, a, c) == x + Reverse(mid) + y;
    assert x[|x| - 1] == p[a] && mid[0] == p[a + 1] && mid[|mid| - 1] == p[c] && y[0] == p[c + 1];
    ReverseMiddle(m, x, mid, y);
  }
}
