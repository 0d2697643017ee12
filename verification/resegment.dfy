/**
 * One scope (a page or a region) of line re-segmentation: score the
 * detector's new lines against the existing lines, align them greedily,
 * validate every existing line, and reconcile the accepted ones.
 */
module Resegment {
  import opened Options
  import opened Matrix
  import opened Shapes
  import opened Overlap
  import opened Alignment
  import opened Validation
  import opened Reconcile

  /** The two segmentations fit together: one mask per existing line, consistent geometry. */
  predicate Compatible(s: Segmentations, lines: seq<Line>, work: seq<Region>)
  {
    s.Valid() && s.OldCount() == |lines| && |work| == |lines|
  }

  /** The state the greedy alignment leaves behind. */
  function Assigned(s: Segmentations): (st: AlignState)
    requires s.Valid()
    ensures |st.assignments| == s.NewCount() && |st.keep| == s.NewCount()
    ensures IsMatrix(st.coversBg, s.NewCount(), s.OldCount()) && IsMatrix(st.coversFg, s.NewCount(), s.OldCount())
  {
    var m := Scores(s);
    Alignment.Alignment(m.fitsBg, m.fitsFg, m.coversBg, m.coversFg, s.OldCount())
  }

  /** The verdict on every existing line. */
  function Plan(s: Segmentations, threshold: real): (verdicts: seq<Verdict>)
    requires s.Valid()
    ensures |verdicts| == s.OldCount()
  {
    var st := Assigned(s);
    seq(s.OldCount(), j requires 0 <= j < s.OldCount() =>
      ValidateLine(st.assignments, st.coversBg, st.coversFg, s.OldCount(), j, threshold))
  }

  /** A verdict's candidates are new lines of the detection. */
  lemma PlanFits(s: Segmentations, threshold: real)
    requires s.Valid()
    ensures VerdictsFit(Plan(s, threshold), s.NewCount())
  {
  }

  /**
   * The scope after re-segmentation. `detected` is the detector's result,
   * None when line segmentation of the parent failed: then nothing changes.
   * `AsWritten` is the source's subtraction; `Cumulative` is the corrected
   * one, under which a line that loses area to two reconciled lines loses
   * it to both.
   */
  function ResegmentScope(policy: Policy, geo: Geometry, detected: Option<Segmentations>, threshold: real,
                          work: seq<Region>, lines: seq<Line>): (sc: Scope)
    requires |work| == |lines|
    requires detected.Some? ==> Compatible(detected.value, lines, work)
    ensures |sc.lines| == |lines|
    ensures detected.None? ==> sc.lines == lines && sc.log == []
  {
    match detected
    case None => Scope(work, lines, [])
    case Some(s) =>
      PlanFits(s, threshold);
      Reconcile.Reconcile(policy, geo, Scores(s).fitsFg, |lines|, Plan(s, threshold), work, lines)
  }

  /** New line i and existing line j pass the fit test, on the scores of the detection. */
  predicate PairFits(s: Segmentations, i: nat, j: nat)
    requires s.Valid() && i < s.NewCount() && j < s.OldCount()
  {
    s.PairAt(i, j).fitsBg > MinFitBg && s.PairAt(i, j).fitsFg > MinFitFg
  }

  /**
   * What an accepted line j owes its acceptance, on the detection's own
   * scores: it has new lines, each of them fits it, together they cover
   * enough of its area and ink, and every new line left unassigned either
   * covers at most `LossLimit` of its area or never fitted it.
   */
  predicate Matched(s: Segmentations, threshold: real, j: nat, c: seq<nat>)
    requires s.Valid() && j < s.OldCount()
  {
    var m := Scores(s);
    && |c| > 0
    && (forall k :: 0 <= k < |c| ==> c[k] < s.NewCount() && PairFits(s, c[k], j))
    && ColumnSum(m.coversBg, c, j) >= threshold / 3.0
    && ColumnSum(m.coversFg, c, j) >= threshold
    && (forall i :: 0 <= i < s.NewCount() && Assigned(s).assignments[i] == Unassigned ==>
          s.PairAt(i, j).coversBg <= LossLimit || !PairFits(s, i, j))
  }

  /** The candidates of line j fit it, and their covers are the scored ones. */
  lemma CandidatesFitAndKeepCovers(s: Segmentations, threshold: real, j: nat)
    requires s.Valid() && j < s.OldCount()
    ensures var m, st, c := Scores(s), Assigned(s), CandidatesOf(Assigned(s).assignments, j);
      forall k :: 0 <= k < |c| ==>
        && c[k] < s.NewCount() && PairFits(s, c[k], j)
        && st.coversBg[c[k]][j] == m.coversBg[c[k]][j] && st.coversFg[c[k]][j] == m.coversFg[c[k]][j]
  {
    var m, st := Scores(s), Assigned(s);
    var c := CandidatesOf(st.assignments, j);
    AlignmentSound(m.fitsBg, m.fitsFg, m.coversBg, m.coversFg, s.OldCount());
    forall k | 0 <= k < |c|
      ensures c[k] < s.NewCount() && PairFits(s, c[k], j)
      ensures st.coversBg[c[k]][j] == m.coversBg[c[k]][j] && st.coversFg[c[k]][j] == m.coversFg[c[k]][j]
    {
      assert st.assignments[c[k]] == j;
      assert m.At(c[k], j) == s.PairAt(c[k], j);
    }
  }

  /** A new line left unassigned either covers little of line j or never fitted it. */
  lemma UnassignedHarmless(s: Segmentations, j: nat)
    requires s.Valid() && j < s.OldCount()
    ensures forall i :: 0 <= i < s.NewCount() && Assigned(s).assignments[i] == Unassigned ==>
              Assigned(s).coversBg[i][j] == s.PairAt(i, j).coversBg || !PairFits(s, i, j)
  {
    var m, st := Scores(s), Assigned(s);
    AlignmentSound(m.fitsBg, m.fitsFg, m.coversBg, m.coversFg, s.OldCount());
    forall i | 0 <= i < s.NewCount() && st.assignments[i] == Unassigned
      ensures st.coversBg[i][j] == s.PairAt(i, j).coversBg || !PairFits(s, i, j)
    {
      assert KeptOrZeroed(m.fitsBg, m.fitsFg, m.coversBg, m.coversFg, st.coversBg, st.coversFg, i, j);
      assert m.At(i, j) == s.PairAt(i, j);
    }
  }

  /** An accepted verdict is matched in the sense of `Matched`. */
  lemma AcceptedMatched(s: Segmentations, threshold: real, j: nat)
    requires s.Valid() && j < s.OldCount()
    ensures Plan(s, threshold)[j].Accepted? ==> Matched(s, threshold, j, Plan(s, threshold)[j].candidates)
  {
    if !Plan(s, threshold)[j].Accepted? {
      return;
    }
    var m, st := Scores(s), Assigned(s);
    var c := Plan(s, threshold)[j].candidates;
    assert c == CandidatesOf(st.assignments, j);
    CandidatesFitAndKeepCovers(s, threshold, j);
    ColumnSumAgrees(st.coversBg, m.coversBg, c, j);
    ColumnSumAgrees(st.coversFg, m.coversFg, c, j);
    UnassignedHarmless(s, j);
  }

  /** Every line a sound run reconciled was matched. */
  lemma ReconciledMatched(geo: Geometry, s: Segmentations, threshold: real, lines: seq<Line>, sc: Scope)
    requires s.Valid() && s.OldCount() == |lines|
    requires Sound(lines, geo, Scores(s).fitsFg, Plan(s, threshold), sc)
    ensures forall j :: 0 <= j < |lines| && IsReconciled(sc.log, j) ==>
              Plan(s, threshold)[j].Accepted? && Matched(s, threshold, j, Plan(s, threshold)[j].candidates)
  {
    var plan := Plan(s, threshold);
    forall j | 0 <= j < |lines| && IsReconciled(sc.log, j)
      ensures plan[j].Accepted? && Matched(s, threshold, j, plan[j].candidates)
    {
      var p :| 0 <= p < |sc.log| && sc.log[p] == Reconciled(j);
      assert Justified(geo, Scores(s).fitsFg, plan, sc.log[p]);
      AcceptedMatched(s, threshold, j);
    }
  }

  /** In a sound run, every subtraction from line k is due to a new line with more than `OverlapLimit` of its ink in k. */
  lemma SubtractionsGrounded(geo: Geometry, s: Segmentations, threshold: real, lines: seq<Line>, sc: Scope)
    requires s.Valid() && s.OldCount() == |lines|
    requires Sound(lines, geo, Scores(s).fitsFg, Plan(s, threshold), sc)
    ensures forall p :: 0 <= p < |sc.log| && sc.log[p].Subtracted? ==>
              var j, k, plan := sc.log[p].line, sc.log[p].other, Plan(s, threshold);
              j < |lines| && k < |lines| && plan[j].Accepted?
              && exists n :: 0 <= n < |plan[j].candidates| && plan[j].candidates[n] < s.NewCount()
                             && s.PairAt(plan[j].candidates[n], k).fitsFg > OverlapLimit
  {
    var m := Scores(s);
    var plan := Plan(s, threshold);
    forall p | 0 <= p < |sc.log| && sc.log[p].Subtracted?
      ensures var j, k := sc.log[p].line, sc.log[p].other;
        j < |lines| && k < |lines| && plan[j].Accepted?
        && exists n :: 0 <= n < |plan[j].candidates| && plan[j].candidates[n] < s.NewCount()
                       && s.PairAt(plan[j].candidates[n], k).fitsFg > OverlapLimit
    {
      var j, k := sc.log[p].line, sc.log[p].other;
      assert Justified(geo, m.fitsFg, plan, sc.log[p]);
      var n :| 0 <= n < |plan[j].candidates| && plan[j].candidates[n] < |m.fitsFg| && k < |m.fitsFg[plan[j].candidates[n]]|
               && m.fitsFg[plan[j].candidates[n]][k] > OverlapLimit;
      assert m.At(plan[j].candidates[n], k) == s.PairAt(plan[j].candidates[n], k);
    }
  }

  /** No new line is a candidate of two accepted lines. */
  lemma PlanDisjoint(s: Segmentations, threshold: real)
    requires s.Valid()
    ensures var plan := Plan(s, threshold);
      forall j1, j2 :: 0 <= j1 < j2 < |plan| && plan[j1].Accepted? && plan[j2].Accepted? ==>
        forall a, b :: 0 <= a < |plan[j1].candidates| && 0 <= b < |plan[j2].candidates| ==>
          plan[j1].candidates[a] != plan[j2].candidates[b]
  {
    var plan := Plan(s, threshold);
    var st := Assigned(s);
    forall j1, j2 | 0 <= j1 < j2 < |plan| && plan[j1].Accepted? && plan[j2].Accepted?
      ensures forall a, b :: 0 <= a < |plan[j1].candidates| && 0 <= b < |plan[j2].candidates| ==>
                plan[j1].candidates[a] != plan[j2].candidates[b]
    {
      AcceptedCandidatesDisjoint(st.assignments, st.coversBg, st.coversFg, |plan|, j1, j2, threshold);
    }
  }

  /**
   * Under either policy, a re-segmented scope is sound in the sense of
   * `Sound` (only justified changes; abandonment ends the run, failed
   * subtractions do not), every reconciled line was matched, and every
   * subtraction is grounded in ink. Only with cumulative subtraction, and
   * when placing polygons inside their parents never adds area, does a line
   * that lost area to a reconciled line and was not reconciled later no
   * longer overlap it (`AsWrittenSubtractionOverwrites` shows the source
   * failing this).
   */
  lemma ResegmentSound(policy: Policy, geo: Geometry, s: Segmentations, threshold: real, work: seq<Region>, lines: seq<Line>)
    requires Compatible(s, lines, work)
    ensures var sc := ResegmentScope(policy, geo, Some(s), threshold, work, lines);
      && Sound(lines, geo, Scores(s).fitsFg, Plan(s, threshold), sc)
      && (forall j :: 0 <= j < |lines| && IsReconciled(sc.log, j) ==>
            Plan(s, threshold)[j].Accepted? && Matched(s, threshold, j, Plan(s, threshold)[j].candidates))
      && (forall p :: 0 <= p < |sc.log| && sc.log[p].Subtracted? ==>
            var j, k, plan := sc.log[p].line, sc.log[p].other, Plan(s, threshold);
            j < |lines| && k < |lines| && plan[j].Accepted?
            && exists n :: 0 <= n < |plan[j].candidates| && plan[j].candidates[n] < s.NewCount()
                           && s.PairAt(plan[j].candidates[n], k).fitsFg > OverlapLimit)
      && (policy == Cumulative && ClipShrinks(geo) ==>
            forall p :: 0 <= p < |sc.log| && StillSubtracted(sc.log, p) ==>
              var j, k := sc.log[p].line, sc.log[p].other;
              j < |lines| && k < |lines| && sc.lines[k].coords * sc.lines[j].coords == {})
  {
    var plan := Plan(s, threshold);
    PlanFits(s, threshold);
    ReconcileSound(policy, geo, Scores(s).fitsFg, |lines|, plan, work, lines);
    var sc := ResegmentScope(policy, geo, Some(s), threshold, work, lines);
    ReconciledMatched(geo, s, threshold, lines, sc);
    SubtractionsGrounded(geo, s, threshold, lines, sc);
    if policy == Cumulative && ClipShrinks(geo) {
      ReconcileSeparates(geo, Scores(s).fitsFg, plan, work, lines);
    }
  }
}
