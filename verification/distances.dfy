/** Integer distance matrices and the length of a route (utils.py, cost_distance). */
module Distances {

  type Matrix = seq<seq<int>>

  /** Row i holds at least i entries: every entry below the diagonal exists. */
  predicate LowerComplete(m: Matrix) {
    forall i :: 0 <= i < |m| ==> |m[i]| >= i
  }

  /** Every row is as long as the first: the shape of a two-dimensional array. */
  predicate Rectangular(m: Matrix) {
    forall i :: 0 <= i < |m| ==> |m[i]| == |m[0]|
  }

  predicate Square(m: Matrix) {
    forall i :: 0 <= i < |m| ==> |m[i]| == |m|
  }

  predicate Symmetric(m: Matrix)
    requires Square(m)
  {
    forall i, j :: 0 <= i < |m| && 0 <= j < |m| ==> m[i][j] == m[j][i]
  }

  /** Every node id of `r` indexes the matrix. */
  predicate Nodes(r: seq<nat>, n: nat) {
    forall k :: 0 <= k < |r| ==> r[k] < n
  }

  /** No distance is negative. */
  predicate NonNegative(m: Matrix) {
    forall i, j :: 0 <= i < |m| && 0 <= j < |m[i]| ==> m[i][j] >= 0
  }

  /** Sum of the distances between consecutive nodes of a route. */
  function Length(m: Matrix, r: seq<nat>): (len: int)
    requires Square(m) && Nodes(r, |m|)
    ensures |r| <= 1 ==> len == 0
    ensures NonNegative(m) ==> len >= 0
  {
    if |r| <= 1 then 0 else m[r[0]][r[1]] + Length(m, r[1..])
  }

  function Reverse(s: seq<nat>): (r: seq<nat>)
    ensures |r| == |s|
    ensures forall k :: 0 <= k < |s| ==> r[k] == s[|s| - 1 - k]
  {
    seq(|s|, k requires 0 <= k < |s| => s[|s| - 1 - k])
  }

  /** Reversing twice gives the route back. */
  lemma ReverseTwice(s: seq<nat>)
    ensures Reverse(Reverse(s)) == s
  {
  }

  /** Reversal keeps the node ids. */
  lemma ReverseNodes(s: seq<nat>, n: nat)
    requires Nodes(s, n)
    ensures Nodes(Reverse(s), n)
  {
  }

  /** Joining two routes adds the distance of the joining hop. */
  lemma {:induction false} LengthAppend(m: Matrix, x: seq<nat>, y: seq<nat>)
    requires Square(m) && Nodes(x, |m|) && Nodes(y, |m|)
    requires |x| >= 1 && |y| >= 1
    ensures Nodes(x + y, |m|)
    ensures Length(m, x + y) == Length(m, x) + m[x[|x| - 1]][y[0]] + Length(m, y)
  {
    if |x| == 1 {
      assert (x + y)[1..] == y;
    } else {
      assert (x + y)[1..] == x[1..] + y;
      LengthAppend(m, x[1..], y);
    }
  }

  /** On a symmetric matrix a route and its reversal have the same length. */
  lemma {:induction false} LengthReverse(m: Matrix, r: seq<nat>)
    requires Square(m) && Symmetric(m) && Nodes(r, |m|)
    ensures Nodes(Reverse(r), |m|)
    ensures Length(m, Reverse(r)) == Length(m, r)
  {
    if |r| >= 2 {
      var t := r[1..];
      LengthReverse(m, t);
      assert Reverse(r) == Reverse(t) + [r[0]];
      LengthAppend(m, Reverse(t), [r[0]]);
    }
  }
}
