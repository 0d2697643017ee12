/**
 * Greedy forced alignment of new lines (rows) to existing lines (columns).
 *
 * Each round picks, among the rows still kept and all columns, the pair with
 * the largest `coversFg * coversBg` (numpy's flat argmax: the first maximum in
 * row-major order). The pair is accepted when the new line fits the overlap
 * well enough; otherwise that pair's covers entries are zeroed so it is not
 * picked again. An accepted row leaves the kept set; columns are never
 * removed, so one existing line may collect several new lines.
 */
module Alignment {
  import opened Options
  import opened Matrix

  /** Least share of the new line's area the overlap must exceed. */
  const MinFitBg: real := 0.6
  /** Least share of the new line's ink the overlap must exceed. */
  const MinFitFg: real := 0.7
  /** Assignment of a new line that has not been matched. */
  const Unassigned: int := -1

  /**
   * The working state of the loop: the assignment of every new line, the
   * rows still kept, and the covers matrices as zeroed so far.
   */
  datatype AlignState = AlignState(
    assignments: seq<int>,
    keep: seq<bool>,
    coversBg: seq<seq<real>>,
    coversFg: seq<seq<real>>)

  /** All matrices have one row per new line and `cols` columns. */
  predicate Shaped(fitsBg: seq<seq<real>>, fitsFg: seq<seq<real>>, cols: nat, st: AlignState)
  {
    && |st.assignments| == |st.keep|
    && IsMatrix(fitsBg, |st.keep|, cols)
    && IsMatrix(fitsFg, |st.keep|, cols)
    && IsMatrix(st.coversBg, |st.keep|, cols)
    && IsMatrix(st.coversFg, |st.keep|, cols)
  }

  /** The covers matrices alone are shaped (all the arg-max looks at). */
  predicate CoversShaped(st: AlignState, cols: nat)
  {
    IsMatrix(st.coversBg, |st.keep|, cols) && IsMatrix(st.coversFg, |st.keep|, cols)
  }

  /** Nothing assigned, every row kept, covers as scored. */
  function Initial(coversBg: seq<seq<real>>, coversFg: seq<seq<real>>): AlignState
  {
    AlignState(seq(|coversBg|, _ => Unassigned), seq(|coversBg|, _ => true), coversBg, coversFg)
  }

  /** The acceptance test of a candidate pair. */
  predicate Fits(fitsBg: seq<seq<real>>, fitsFg: seq<seq<real>>, i: nat, j: nat)
    requires i < |fitsBg| && j < |fitsBg[i]| && i < |fitsFg| && j < |fitsFg[i]|
  {
    fitsBg[i][j] > MinFitBg && fitsFg[i][j] > MinFitFg
  }

  /** The priority of a pair: the product of its two covers ratios. */
  function Priority(st: AlignState, cols: nat, i: nat, j: nat): real
    requires CoversShaped(st, cols) && i < |st.keep| && j < cols
  {
    st.coversFg[i][j] * st.coversBg[i][j]
  }

  predicate AnyKept(keep: seq<bool>)
  {
    exists i :: 0 <= i < |keep| && keep[i]
  }

  /**
   * (i, j) is the first maximum of the priority in row-major order over the
   * kept rows below `n` and all columns: no such pair has a larger priority,
   * and every such pair before (i, j) has a smaller one.
   */
  predicate IsFirstMaxBelow(st: AlignState, cols: nat, n: nat, i: nat, j: nat)
    requires CoversShaped(st, cols) && n <= |st.keep|
  {
    && i < n && st.keep[i] && j < cols
    && (forall i', j' :: 0 <= i' < n && st.keep[i'] && 0 <= j' < cols ==>
          Priority(st, cols, i', j') <= Priority(st, cols, i, j))
    && (forall i', j' :: 0 <= i' < n && st.keep[i'] && 0 <= j' < cols && (i' < i || (i' == i && j' < j)) ==>
          Priority(st, cols, i', j') < Priority(st, cols, i, j))
  }

  predicate IsFirstMax(st: AlignState, cols: nat, i: nat, j: nat)
    requires CoversShaped(st, cols)
  {
    IsFirstMaxBelow(st, cols, |st.keep|, i, j)
  }

  /** The first maximum is unique. */
  lemma FirstMaxUnique(st: AlignState, cols: nat, i: nat, j: nat, i': nat, j': nat)
    requires CoversShaped(st, cols)
    requires IsFirstMax(st, cols, i, j) && IsFirstMax(st, cols, i', j')
    ensures i == i' && j == j'
  {
    assert Priority(st, cols, i', j') <= Priority(st, cols, i, j);
    assert Priority(st, cols, i, j) <= Priority(st, cols, i', j');
  }

  /** The first maximum of row i over the columns below n. */
  function RowBest(st: AlignState, cols: nat, i: nat, n: nat): (j: nat)
    requires CoversShaped(st, cols) && i < |st.keep| && 0 < n <= cols
    ensures j < n
    ensures forall j' :: 0 <= j' < n ==> Priority(st, cols, i, j') <= Priority(st, cols, i, j)
    ensures forall j' :: 0 <= j' < j ==> Priority(st, cols, i, j') < Priority(st, cols, i, j)
    decreases n
  {
    if n == 1 then 0
    else
      var b := RowBest(st, cols, i, n - 1);
      if Priority(st, cols, i, n - 1) > Priority(st, cols, i, b) then n - 1 else b
  }

  /** The first maximum over the kept rows below n, if there is a kept row. */
  function BestBelow(st: AlignState, cols: nat, n: nat): (r: Option<(nat, nat)>)
    requires CoversShaped(st, cols) && 0 < cols && n <= |st.keep|
    ensures r.None? <==> forall i :: 0 <= i < n ==> !st.keep[i]
    ensures r.Some? ==> IsFirstMaxBelow(st, cols, n, r.value.0, r.value.1)
    decreases n
  {
    if n == 0 then None
    else
      var prev := BestBelow(st, cols, n - 1);
      if !st.keep[n - 1] then prev
      else
        var j := RowBest(st, cols, n - 1, cols);
        if prev.None? || Priority(st, cols, n - 1, j) > Priority(st, cols, prev.value.0, prev.value.1)
        then Some((n - 1, j))
        else prev
  }

  /** The pair a round picks: the row-major first maximum of the priority over kept rows. */
  function Choose(st: AlignState, cols: nat): (ij: (nat, nat))
    requires CoversShaped(st, cols) && 0 < cols && AnyKept(st.keep)
    ensures IsFirstMax(st, cols, ij.0, ij.1)
  {
    BestBelow(st, cols, |st.keep|).value
  }

  /** Number of rows still kept. */
  function KeptCount(keep: seq<bool>): nat
  {
    if |keep| == 0 then 0 else (if keep[0] then 1 else 0) + KeptCount(keep[1..])
  }

  /** One round of the loop body: pick the best pair, then accept or zero it. */
  function AlignStep(fitsBg: seq<seq<real>>, fitsFg: seq<seq<real>>, cols: nat, st: AlignState): (st': AlignState)
    requires Shaped(fitsBg, fitsFg, cols, st) && 0 < cols && AnyKept(st.keep)
    ensures Shaped(fitsBg, fitsFg, cols, st') && |st'.keep| == |st.keep|
    ensures var (i, j) := Choose(st, cols);
      && (Fits(fitsBg, fitsFg, i, j) ==> st'.assignments[i] == j)
      && (Fits(fitsBg, fitsFg, i, j) <==> !st'.keep[i])
      && (forall k :: 0 <= k < |st.keep| && k != i ==>
            st'.assignments[k] == st.assignments[k] && st'.keep[k] == st.keep[k])
      && (forall a, b :: 0 <= a < |st.keep| && 0 <= b < cols && (a != i || b != j) ==>
            st'.coversBg[a][b] == st.coversBg[a][b] && st'.coversFg[a][b] == st.coversFg[a][b])
      && (Fits(fitsBg, fitsFg, i, j) ==>
            st'.coversBg[i][j] == st.coversBg[i][j] && st'.coversFg[i][j] == st.coversFg[i][j])
      && (!Fits(fitsBg, fitsFg, i, j) ==>
            st'.coversBg[i][j] == 0.0 && st'.coversFg[i][j] == 0.0 && st'.assignments[i] == st.assignments[i])
  {
    var (i, j) := Choose(st, cols);
    if Fits(fitsBg, fitsFg, i, j) then
      st.(assignments := st.assignments[i := j], keep := st.keep[i := false])
    else
      st.(coversBg := Update(st.coversBg, i, j, 0.0), coversFg := Update(st.coversFg, i, j, 0.0))
  }

  /**
   * At most `budget` rounds, stopping as soon as the kept view is empty (no
   * kept row, or no column at all).
   */
  function AlignRounds(fitsBg: seq<seq<real>>, fitsFg: seq<seq<real>>, cols: nat, st: AlignState, budget: nat): (st': AlignState)
    requires Shaped(fitsBg, fitsFg, cols, st)
    ensures Shaped(fitsBg, fitsFg, cols, st') && |st'.keep| == |st.keep|
    decreases budget
  {
    if budget == 0 || cols == 0 || !AnyKept(st.keep) then st
    else AlignRounds(fitsBg, fitsFg, cols, AlignStep(fitsBg, fitsFg, cols, st), budget - 1)
  }

  /** The whole loop: as many rounds as there are new lines. */
  function Alignment(fitsBg: seq<seq<real>>, fitsFg: seq<seq<real>>, coversBg: seq<seq<real>>, coversFg: seq<seq<real>>, cols: nat): (st: AlignState)
    requires Shaped(fitsBg, fitsFg, cols, Initial(coversBg, coversFg))
    ensures Shaped(fitsBg, fitsFg, cols, st) && |st.keep| == |coversBg|
  {
    AlignRounds(fitsBg, fitsFg, cols, Initial(coversBg, coversFg), |coversBg|)
  }

  /**
   * A covers entry either still holds its scored value or was zeroed (both
   * covers together) because the pair failed the fit test.
   */
  predicate KeptOrZeroed(fitsBg: seq<seq<real>>, fitsFg: seq<seq<real>>, coversBg0: seq<seq<real>>, coversFg0: seq<seq<real>>,
                         coversBg: seq<seq<real>>, coversFg: seq<seq<real>>, i: nat, j: nat)
    requires i < |fitsBg| && j < |fitsBg[i]| && i < |fitsFg| && j < |fitsFg[i]|
    requires i < |coversBg0| && j < |coversBg0[i]| && i < |coversFg0| && j < |coversFg0[i]|
    requires i < |coversBg| && j < |coversBg[i]| && i < |coversFg| && j < |coversFg[i]|
  {
    || (coversBg[i][j] == coversBg0[i][j] && coversFg[i][j] == coversFg0[i][j])
    || (coversBg[i][j] == 0.0 && coversFg[i][j] == 0.0 && !Fits(fitsBg, fitsFg, i, j))
  }

  /** What holds of the loop state in every round. */
  predicate AlignInv(fitsBg: seq<seq<real>>, fitsFg: seq<seq<real>>, coversBg0: seq<seq<real>>, coversFg0: seq<seq<real>>,
                     cols: nat, st: AlignState)
  {
    && Shaped(fitsBg, fitsFg, cols, st)
    && IsMatrix(coversBg0, |st.keep|, cols) && IsMatrix(coversFg0, |st.keep|, cols)
    && (forall i :: 0 <= i < |st.keep| ==> (st.keep[i] <==> st.assignments[i] == Unassigned))
    && (forall i :: 0 <= i < |st.keep| ==> Unassigned <= st.assignments[i] < cols)
    && (forall i :: 0 <= i < |st.keep| && st.assignments[i] != Unassigned ==>
          Fits(fitsBg, fitsFg, i, st.assignments[i]))
    && (forall i, j :: 0 <= i < |st.keep| && 0 <= j < cols ==>
          KeptOrZeroed(fitsBg, fitsFg, coversBg0, coversFg0, st.coversBg, st.coversFg, i, j))
  }

  lemma InitialInv(fitsBg: seq<seq<real>>, fitsFg: seq<seq<real>>, coversBg: seq<seq<real>>, coversFg: seq<seq<real>>, cols: nat)
    requires Shaped(fitsBg, fitsFg, cols, Initial(coversBg, coversFg))
    ensures AlignInv(fitsBg, fitsFg, coversBg, coversFg, cols, Initial(coversBg, coversFg))
  {
  }

  lemma AlignStepInv(fitsBg: seq<seq<real>>, fitsFg: seq<seq<real>>, coversBg0: seq<seq<real>>, coversFg0: seq<seq<real>>,
                     cols: nat, st: AlignState)
    requires AlignInv(fitsBg, fitsFg, coversBg0, coversFg0, cols, st) && 0 < cols && AnyKept(st.keep)
    ensures AlignInv(fitsBg, fitsFg, coversBg0, coversFg0, cols, AlignStep(fitsBg, fitsFg, cols, st))
  {
    var st' := AlignStep(fitsBg, fitsFg, cols, st);
    var (i, j) := Choose(st, cols);
    forall a, b | 0 <= a < |st.keep| && 0 <= b < cols
      ensures KeptOrZeroed(fitsBg, fitsFg, coversBg0, coversFg0, st'.coversBg, st'.coversFg, a, b)
    {
      assert KeptOrZeroed(fitsBg, fitsFg, coversBg0, coversFg0, st.coversBg, st.coversFg, a, b);
    }
  }

  lemma {:induction false} AlignRoundsInv(fitsBg: seq<seq<real>>, fitsFg: seq<seq<real>>, coversBg0: seq<seq<real>>, coversFg0: seq<seq<real>>,
                                          cols: nat, st: AlignState, budget: nat)
    requires AlignInv(fitsBg, fitsFg, coversBg0, coversFg0, cols, st)
    ensures AlignInv(fitsBg, fitsFg, coversBg0, coversFg0, cols, AlignRounds(fitsBg, fitsFg, cols, st, budget))
    decreases budget
  {
    if budget == 0 || cols == 0 || !AnyKept(st.keep) {
    } else {
      AlignStepInv(fitsBg, fitsFg, coversBg0, coversFg0, cols, st);
      AlignRoundsInv(fitsBg, fitsFg, coversBg0, coversFg0, cols, AlignStep(fitsBg, fitsFg, cols, st), budget - 1);
    }
  }

  /**
   * After the loop: every new line is unassigned exactly when it is still
   * kept, and otherwise assigned to a valid existing line; every assigned
   * pair passed the fit test; every covers entry keeps its scored value or
   * was zeroed because its pair failed the fit test; in particular the
   * covers of assigned pairs are untouched.
   */
  lemma AlignmentSound(fitsBg: seq<seq<real>>, fitsFg: seq<seq<real>>, coversBg: seq<seq<real>>, coversFg: seq<seq<real>>, cols: nat)
    requires Shaped(fitsBg, fitsFg, cols, Initial(coversBg, coversFg))
    ensures var st := Alignment(fitsBg, fitsFg, coversBg, coversFg, cols);
      && (forall i :: 0 <= i < |st.keep| ==> (st.keep[i] <==> st.assignments[i] == Unassigned))
      && (forall i :: 0 <= i < |st.keep| ==> Unassigned <= st.assignments[i] < cols)
      && (forall i :: 0 <= i < |st.keep| && st.assignments[i] != Unassigned ==>
            && Fits(fitsBg, fitsFg, i, st.assignments[i])
            && st.coversBg[i][st.assignments[i]] == coversBg[i][st.assignments[i]]
            && st.coversFg[i][st.assignments[i]] == coversFg[i][st.assignments[i]])
      && (forall i, j :: 0 <= i < |st.keep| && 0 <= j < cols ==>
            KeptOrZeroed(fitsBg, fitsFg, coversBg, coversFg, st.coversBg, st.coversFg, i, j))
  {
    AlignRoundsInv(fitsBg, fitsFg, coversBg, coversFg, cols, Initial(coversBg, coversFg), |coversBg|);
    var st := Alignment(fitsBg, fitsFg, coversBg, coversFg, cols);
    forall i | 0 <= i < |st.keep| && st.assignments[i] != Unassigned
      ensures st.coversBg[i][st.assignments[i]] == coversBg[i][st.assignments[i]]
      ensures st.coversFg[i][st.assignments[i]] == coversFg[i][st.assignments[i]]
    {
      assert KeptOrZeroed(fitsBg, fitsFg, coversBg, coversFg, st.coversBg, st.coversFg, i, st.assignments[i]);
    }
  }

  /** A round keeps "kept exactly when unassigned", the fact behind the source's `assert assignments[ind1] < 0`. */
  lemma KeptUnassignedStep(fitsBg: seq<seq<real>>, fitsFg: seq<seq<real>>, cols: nat, st: AlignState)
    requires Shaped(fitsBg, fitsFg, cols, st) && 0 < cols && AnyKept(st.keep)
    requires forall k :: 0 <= k < |st.keep| ==> (st.keep[k] <==> st.assignments[k] == Unassigned)
    ensures var st' := AlignStep(fitsBg, fitsFg, cols, st);
      forall k :: 0 <= k < |st'.keep| ==> (st'.keep[k] <==> st'.assignments[k] == Unassigned)
  {
    var st' := AlignStep(fitsBg, fitsFg, cols, st);
    var (i, j) := Choose(st, cols);
    assert 0 <= j < cols;
  }

  /** One round of the loop: the remaining rounds continue from the stepped state, which keeps "kept exactly when unassigned". */
  lemma RoundAdvances(fitsBg: seq<seq<real>>, fitsFg: seq<seq<real>>, cols: nat, st: AlignState, budget: nat)
    requires Shaped(fitsBg, fitsFg, cols, st) && 0 < cols && AnyKept(st.keep) && 0 < budget
    requires forall k :: 0 <= k < |st.keep| ==> (st.keep[k] <==> st.assignments[k] == Unassigned)
    ensures AlignRounds(fitsBg, fitsFg, cols, st, budget)
         == AlignRounds(fitsBg, fitsFg, cols, AlignStep(fitsBg, fitsFg, cols, st), budget - 1)
    ensures var st' := AlignStep(fitsBg, fitsFg, cols, st);
      forall k :: 0 <= k < |st'.keep| ==> (st'.keep[k] <==> st'.assignments[k] == Unassigned)
  {
    KeptUnassignedStep(fitsBg, fitsFg, cols, st);
  }

  /**
   * The loop as the source writes it: at most one round per new line,
   * leaving early once the kept view is empty, updating the assignments,
   * the kept rows and the covers matrices in place. It computes exactly
   * `Alignment`, so its results satisfy what `AlignmentSound` states.
   */
  method ForcedAlignment(fitsBg: seq<seq<real>>, fitsFg: seq<seq<real>>, coversBg: seq<seq<real>>, coversFg: seq<seq<real>>, cols: nat)
    returns (assignments: seq<int>, coversBgOut: seq<seq<real>>, coversFgOut: seq<seq<real>>)
    requires Shaped(fitsBg, fitsFg, cols, Initial(coversBg, coversFg))
    ensures var st := Alignment(fitsBg, fitsFg, coversBg, coversFg, cols);
      assignments == st.assignments && coversBgOut == st.coversBg && coversFgOut == st.coversFg
    ensures |assignments| == |coversBg|
    ensures forall i :: 0 <= i < |assignments| ==> Unassigned <= assignments[i] < cols
    ensures forall i :: 0 <= i < |assignments| && assignments[i] != Unassigned ==>
      Fits(fitsBg, fitsFg, i, assignments[i])
    ensures IsMatrix(coversBgOut, |coversBg|, cols) && IsMatrix(coversFgOut, |coversBg|, cols)
    ensures forall i, j :: 0 <= i < |coversBg| && 0 <= j < cols ==>
      KeptOrZeroed(fitsBg, fitsFg, coversBg, coversFg, coversBgOut, coversFgOut, i, j)
  {
    var dim1 := |coversBg|;
    var st := Initial(coversBg, coversFg);
    ghost var target := Alignment(fitsBg, fitsFg, coversBg, coversFg, cols);
    var round := 0;
    while round < dim1
      invariant 0 <= round <= dim1
      invariant Shaped(fitsBg, fitsFg, cols, st) && |st.keep| == dim1
      invariant forall k :: 0 <= k < dim1 ==> (st.keep[k] <==> st.assignments[k] == Unassigned)
      invariant target == AlignRounds(fitsBg, fitsFg, cols, st, dim1 - round)
    {
      if cols == 0 || !AnyKept(st.keep) {
        break;
      }
      var (i, j) := Choose(st, cols);
      assert st.assignments[i] < 0 && st.keep[i];
      RoundAdvances(fitsBg, fitsFg, cols, st, dim1 - round);
      st := AlignStep(fitsBg, fitsFg, cols, st);
      round := round + 1;
    }
    assignments, coversBgOut, coversFgOut := st.assignments, st.coversBg, st.coversFg;
    AlignmentSound(fitsBg, fitsFg, coversBg, coversFg, cols);
  }

  /**
   * Columns are never removed from the kept view: two new lines that both
   * fit the same existing line are both assigned to it.
   */
  lemma SeveralNewLinesPerExistingLine()
    ensures var m := [[1.0], [1.0]];
      Alignment(m, m, m, m, 1).assignments == [0, 0]
  {
    var m := [[1.0], [1.0]];
    var s0 := Initial(m, m);
    assert IsFirstMax(s0, 1, 0, 0);
    var c0 := Choose(s0, 1);
    FirstMaxUnique(s0, 1, c0.0, c0.1, 0, 0);
    var s1 := AlignStep(m, m, 1, s0);
    assert s1.assignments == [0, Unassigned] && s1.keep == [false, true];
    assert IsFirstMax(s1, 1, 1, 0);
    var c1 := Choose(s1, 1);
    FirstMaxUnique(s1, 1, c1.0, c1.1, 1, 0);
    var s2 := AlignStep(m, m, 1, s1);
    assert s2.assignments == [0, 0] && s2.keep == [false, false];
    assert AlignRounds(m, m, 1, s0, 2) == AlignRounds(m, m, 1, s1, 1) == AlignRounds(m, m, 1, s2, 0);
  }

  /** Two new lines; new line 0 fits nothing, new line 1 fits both existing lines but covers them less. */
  const RejectedCovers := [[1.0, 1.0], [0.5, 0.5]]
  const RejectedFits := [[0.0, 0.0], [1.0, 1.0]]
  /** The state after the first round, which rejects pair (0, 0). */
  const AfterFirstRejection := AlignState([Unassigned, Unassigned], [true, true],
                                          [[0.0, 1.0], [0.5, 0.5]], [[0.0, 1.0], [0.5, 0.5]])

  lemma FirstRoundRejects()
    ensures Shaped(RejectedFits, RejectedFits, 2, Initial(RejectedCovers, RejectedCovers))
    ensures AnyKept(Initial(RejectedCovers, RejectedCovers).keep)
    ensures AlignStep(RejectedFits, RejectedFits, 2, Initial(RejectedCovers, RejectedCovers)) == AfterFirstRejection
  {
    var covers, fits := RejectedCovers, RejectedFits;
    var s0 := Initial(covers, covers);
    assert s0.keep[0];
    assert IsFirstMax(s0, 2, 0, 0);
    var c0 := Choose(s0, 2);
    FirstMaxUnique(s0, 2, c0.0, c0.1, 0, 0);
    assert !Fits(fits, fits, 0, 0);
    assert covers[0][0 := 0.0] == [0.0, 1.0];
    assert Update(covers, 0, 0, 0.0) == covers[0 := [0.0, 1.0]] == [[0.0, 1.0], [0.5, 0.5]];
  }

  lemma SecondRoundRejects()
    ensures Shaped(RejectedFits, RejectedFits, 2, AfterFirstRejection) && AnyKept(AfterFirstRejection.keep)
    ensures AlignStep(RejectedFits, RejectedFits, 2, AfterFirstRejection).assignments == [Unassigned, Unassigned]
  {
    var s1 := AfterFirstRejection;
    assert s1.keep[0];
    assert IsFirstMax(s1, 2, 0, 1);
    var c1 := Choose(s1, 2);
    FirstMaxUnique(s1, 2, c1.0, c1.1, 0, 1);
    assert !Fits(RejectedFits, RejectedFits, 0, 1);
  }

  /**
   * Rejected pairs use up rounds: with two new lines the loop has two
   * rounds, and when both go to pairs of new line 0 that fail the fit test,
   * new line 1 stays unassigned although it fits existing line 0.
   */
  lemma RejectionsUseUpRounds()
    ensures && Fits(RejectedFits, RejectedFits, 1, 0)
            && Alignment(RejectedFits, RejectedFits, RejectedCovers, RejectedCovers, 2).assignments == [Unassigned, Unassigned]
  {
    var fits, s0, s1 := RejectedFits, Initial(RejectedCovers, RejectedCovers), AfterFirstRejection;
    FirstRoundRejects();
    SecondRoundRejects();
    var s2 := AlignStep(fits, fits, 2, s1);
    assert AlignRounds(fits, fits, 2, s0, 2) == AlignRounds(fits, fits, 2, s1, 1) == AlignRounds(fits, fits, 2, s2, 0);
  }
}
