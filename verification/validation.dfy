/**
 * Validation of the greedy assignment, one existing line at a time. A line
 * is resegmented only if it received new lines, those new lines cover
 * enough of its area and of its ink, and no unassigned new line would be
 * lost that still overlaps it noticeably.
 */
module Validation {
  import opened Matrix

  /** Largest area share an unassigned new line may hold of an accepted line. */
  const LossLimit: real := 0.1

  /** Strictly increasing indices, as numpy's `nonzero` returns them. */
  predicate Increasing(r: seq<nat>)
  {
    forall a, b :: 0 <= a < b < |r| ==> r[a] < r[b]
  }

  /** The new lines assigned to existing line j, in ascending order. */
  function CandidatesOf(assignments: seq<int>, j: int): (r: seq<nat>)
    ensures Increasing(r)
    ensures forall k :: 0 <= k < |r| ==> r[k] < |assignments| && assignments[r[k]] == j
    ensures forall i :: 0 <= i < |assignments| && assignments[i] == j ==> i in r
    decreases |assignments|
  {
    if |assignments| == 0 then []
    else
      var last := |assignments| - 1;
      var prefix := CandidatesOf(assignments[..last], j);
      if assignments[last] == j then prefix + [last] else prefix
  }

  /** The sum of column j of `m` over the listed rows. */
  function ColumnSum(m: seq<seq<real>>, rows: seq<nat>, j: nat): real
    requires forall k :: 0 <= k < |rows| ==> rows[k] < |m| && j < |m[rows[k]]|
  {
    if |rows| == 0 then 0.0 else m[rows[0]][j] + ColumnSum(m, rows[1..], j)
  }

  /** Column sums over the same rows agree when the two matrices agree on those cells. */
  lemma {:induction false} ColumnSumAgrees(m1: seq<seq<real>>, m2: seq<seq<real>>, rows: seq<nat>, j: nat)
    requires forall k :: 0 <= k < |rows| ==> rows[k] < |m1| && j < |m1[rows[k]]| && rows[k] < |m2| && j < |m2[rows[k]]|
    requires forall k :: 0 <= k < |rows| ==> m1[rows[k]][j] == m2[rows[k]][j]
    ensures ColumnSum(m1, rows, j) == ColumnSum(m2, rows, j)
  {
    if |rows| > 0 {
      ColumnSumAgrees(m1, m2, rows[1..], j);
    }
  }

  /** Some unassigned new line still covers more than `LossLimit` of line j's area. */
  predicate WouldLoseAny(assignments: seq<int>, coversBg: seq<seq<real>>, j: nat)
    requires |coversBg| == |assignments| && forall i :: 0 <= i < |coversBg| ==> j < |coversBg[i]|
  {
    exists i :: 0 <= i < |assignments| && assignments[i] < 0 && coversBg[i][j] > LossLimit
  }

  /** Outcome of validating one existing line, with the first failing gate. */
  datatype Verdict =
    | NoCandidates
    | LowBackground
    | LowForeground
    | WouldLose
    | Accepted(candidates: seq<nat>)

  /**
   * The four gates of one existing line, in the source's order. `coversBg`
   * and `coversFg` are the matrices as the assignment loop left them.
   */
  function ValidateLine(assignments: seq<int>, coversBg: seq<seq<real>>, coversFg: seq<seq<real>>,
                        cols: nat, j: nat, threshold: real): (v: Verdict)
    requires IsMatrix(coversBg, |assignments|, cols) && IsMatrix(coversFg, |assignments|, cols) && j < cols
    ensures v == NoCandidates <==> forall i :: 0 <= i < |assignments| ==> assignments[i] != j
    ensures v == LowBackground ==>
      var c := CandidatesOf(assignments, j);
      |c| > 0 && ColumnSum(coversBg, c, j) < threshold / 3.0
    ensures v == LowForeground ==>
      var c := CandidatesOf(assignments, j);
      |c| > 0 && ColumnSum(coversBg, c, j) >= threshold / 3.0 && ColumnSum(coversFg, c, j) < threshold
    ensures v == WouldLose ==>
      var c := CandidatesOf(assignments, j);
      && |c| > 0 && ColumnSum(coversBg, c, j) >= threshold / 3.0 && ColumnSum(coversFg, c, j) >= threshold
      && WouldLoseAny(assignments, coversBg, j)
    ensures v.Accepted? ==>
      var c := CandidatesOf(assignments, j);
      && v.candidates == c && |c| > 0
      && ColumnSum(coversBg, c, j) >= threshold / 3.0
      && ColumnSum(coversFg, c, j) >= threshold
      && forall i :: 0 <= i < |assignments| && assignments[i] < 0 ==> coversBg[i][j] <= LossLimit
  {
    var c := CandidatesOf(assignments, j);
    if |c| == 0 then NoCandidates
    else if ColumnSum(coversBg, c, j) < threshold / 3.0 then LowBackground
    else if ColumnSum(coversFg, c, j) < threshold then LowForeground
    else if WouldLoseAny(assignments, coversBg, j) then WouldLose
    else Accepted(c)
  }

  /**
   * The gates decide acceptance exactly: a line is accepted if and only if
   * it has candidates, they cover at least a third of the threshold in area
   * and the threshold in ink, and no unassigned new line covers more than
   * the loss limit of it.
   */
  lemma AcceptedIffGatesPass(assignments: seq<int>, coversBg: seq<seq<real>>, coversFg: seq<seq<real>>,
                             cols: nat, j: nat, threshold: real)
    requires IsMatrix(coversBg, |assignments|, cols) && IsMatrix(coversFg, |assignments|, cols) && j < cols
    ensures var c := CandidatesOf(assignments, j);
      ValidateLine(assignments, coversBg, coversFg, cols, j, threshold).Accepted?
      <==> (&& (exists i :: 0 <= i < |assignments| && assignments[i] == j)
            && ColumnSum(coversBg, c, j) >= threshold / 3.0
            && ColumnSum(coversFg, c, j) >= threshold
            && forall i :: 0 <= i < |assignments| && assignments[i] < 0 ==> coversBg[i][j] <= LossLimit)
  {
    var v := ValidateLine(assignments, coversBg, coversFg, cols, j, threshold);
    var c := CandidatesOf(assignments, j);
    if exists i :: 0 <= i < |assignments| && assignments[i] == j {
      var i :| 0 <= i < |assignments| && assignments[i] == j;
      assert i in c;
    }
  }

  /**
   * A new line contributes to at most one accepted existing line: the
   * candidate lists of two different accepted lines are disjoint.
   */
  lemma AcceptedCandidatesDisjoint(assignments: seq<int>, coversBg: seq<seq<real>>, coversFg: seq<seq<real>>,
                                   cols: nat, j1: nat, j2: nat, threshold: real)
    requires IsMatrix(coversBg, |assignments|, cols) && IsMatrix(coversFg, |assignments|, cols)
    requires j1 < cols && j2 < cols && j1 != j2
    requires ValidateLine(assignments, coversBg, coversFg, cols, j1, threshold).Accepted?
    requires ValidateLine(assignments, coversBg, coversFg, cols, j2, threshold).Accepted?
    ensures forall a, b ::
      0 <= a < |ValidateLine(assignments, coversBg, coversFg, cols, j1, threshold).candidates| &&
      0 <= b < |ValidateLine(assignments, coversBg, coversFg, cols, j2, threshold).candidates| ==>
        ValidateLine(assignments, coversBg, coversFg, cols, j1, threshold).candidates[a]
        != ValidateLine(assignments, coversBg, coversFg, cols, j2, threshold).candidates[b]
  {
  }
}
