/** Input checks of the solver's constructor (solver/greedy_2opt.py, __init__,
    check_validity and _assert_triangular). */
module Validation {
  import opened Basics
  import opened Distances

  /** A checked solver configuration: the matrix, its size and the endpoints. */
  datatype Config = Config(m: Matrix, n: nat, start: Option<nat>, end: Option<nat>, isLoop: bool)

  predicate InRange(x: Option<int>, n: nat) {
    x.None? || 0 <= x.value < n
  }

  function AsNode(x: Option<int>): Option<nat>
    requires x.None? || x.value >= 0
  {
    if x.None? then None else Some(x.value as nat)
  }

  /** Sizes for which check_validity returns before looking at the rows. */
  predicate Degenerate(n: nat, isLoop: bool) {
    n == 0 || n == 1 || (n == 2 && isLoop)
  }

  /** The first row, from `from` on, holding fewer entries than its index. */
  function FirstShortRow(m: Matrix, from: nat): (r: Option<nat>)
    decreases |m| - from
    ensures r.Some? ==> from <= r.value < |m| && |m[r.value]| < r.value
    ensures r.Some? ==> forall i :: from <= i < r.value ==> |m[i]| >= i
    ensures r.None? <==> forall i :: from <= i < |m| ==> |m[i]| >= i
  {
    if from >= |m| then None
    else if |m[from]| < from then Some(from)
    else FirstShortRow(m, from + 1)
  }

  function Validate(m: Matrix, start: Option<int>, end: Option<int>): (r: Result<Config>)
    ensures !InRange(start, |m|) ==> r == Err(StartOutOfRange)
    ensures InRange(start, |m|) && !InRange(end, |m|) ==> r == Err(EndOutOfRange)
    ensures r.Ok? <==>
      InRange(start, |m|) && InRange(end, |m|)
      && (Degenerate(|m|, start.Some? && start == end) || LowerComplete(m))
    ensures r.Ok? ==>
      r.value.m == m && r.value.n == |m|
      && (r.value.start.Some? <==> start.Some?) && (start.Some? ==> r.value.start.value == start.value)
      && (r.value.end.Some? <==> end.Some?) && (end.Some? ==> r.value.end.value == end.value)
      && (r.value.isLoop <==> start.Some? && start == end)
    ensures r.Err? && r.error.RowTooShort? ==>
      r.error.row < |m| && |m[r.error.row]| < r.error.row
      && forall i :: 0 <= i < r.error.row ==> |m[i]| >= i
  {
    var n := |m|;
    if !InRange(start, n) then Err(StartOutOfRange)
    else if !InRange(end, n) then Err(EndOutOfRange)
    else
      var isLoop := start.Some? && start == end;
      var cfg := Config(m, n, AsNode(start), AsNode(end), isLoop);
      if Degenerate(n, isLoop) then Ok(cfg)
      else
        match FirstShortRow(m, 0)
        case Some(i) => Err(RowTooShort(i))
        case None => Ok(cfg)
  }

  /** Validation reads only the row lengths, never a distance. */
  lemma ValidateIgnoresValues(m1: Matrix, m2: Matrix, start: Option<int>, end: Option<int>)
    requires |m1| == |m2|
    requires forall i :: 0 <= i < |m1| ==> |m1[i]| == |m2[i]|
    ensures Validate(m1, start, end).Ok? <==> Validate(m2, start, end).Ok?
    ensures Validate(m1, start, end).Err? ==> Validate(m2, start, end) == Validate(m1, start, end)
  {
    FirstShortRowLengths(m1, m2, 0);
  }

  lemma {:induction false} FirstShortRowLengths(m1: Matrix, m2: Matrix, from: nat)
    requires |m1| == |m2|
    requires forall i :: 0 <= i < |m1| ==> |m1[i]| == |m2[i]|
    ensures FirstShortRow(m1, from) == FirstShortRow(m2, from)
    decreases |m1| - from
  {
    if from < |m1| {
      FirstShortRowLengths(m1, m2, from + 1);
    }
  }
}
