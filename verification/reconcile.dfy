/**
 * Reconciliation of accepted matches with the document, in line order.
 *
 * An accepted line gets the joined hull of its new lines as outline (and
 * their joined baseline, if any). Every other existing line that one of
 * those new lines overlaps by more than `OverlapLimit` of the new line's
 * ink then has the hull subtracted from its outline. If the hull of an
 * accepted line cannot be placed inside its parent, the rest of the scope
 * is abandoned; if a subtraction's remainder cannot be placed, only that
 * subtraction is skipped.
 *
 * The geometry is abstract (see `Geometry`), and the run records the log
 * the source writes, so the properties can speak about what happened.
 */
module Reconcile {
  import opened Options
  import opened Matrix
  import opened Shapes
  import opened Validation

  /** Least share of a new line's ink inside another existing line that makes it a subtraction target. */
  const OverlapLimit: real := 0.1

  /**
   * The geometry the reconciliation delegates:
   * `hull(c)` joins the polygons of new lines `c` into one concave hull;
   * `baselineOf(c)` joins their baselines clipped to that hull, or is None;
   * `toPage(p)` maps a point from the parent's coordinates (offset,
   * rotation) to page coordinates;
   * `clip(k, r)` places region `r` in page coordinates inside line k's
   * parent region, or is None when no valid polygon remains.
   */
  datatype Geometry = Geometry(
    hull: seq<nat> -> Region,
    baselineOf: seq<nat> -> Option<Baseline>,
    toPage: Point -> Point,
    clip: (nat, Region) -> Option<Region>)

  /** A region of the parent's coordinates, moved to page coordinates. */
  function OnPage(geo: Geometry, r: Region): Region
  {
    set p | p in r :: geo.toPage(p)
  }

  /**
   * What the separation theorems assume of the geometry: the coordinate
   * transform keeps distinct points distinct (an offset and a rotation do),
   * and placing a region inside its parent moves it to page coordinates and
   * then only intersects, so it never adds area there.
   */
  ghost predicate ClipShrinks(geo: Geometry)
  {
    && (forall p, q :: geo.toPage(p) == geo.toPage(q) ==> p == q)
    && (forall k, r :: geo.clip(k, r).Some? ==> geo.clip(k, r).value <= OnPage(geo, r))
  }

  /** A move by 100 in x: the page position of a parent offset from the page's origin. */
  function Shift(p: Point): Point
  {
    Point(p.x + 100, p.y)
  }

  function ShiftRegion(r: Region): Region
  {
    set p | p in r :: Shift(p)
  }

  /** A shifted parent whose placement clips nothing away. */
  const ShiftedGeometry := Geometry(c => {}, c => None, Shift, (k: nat, r: Region) => Some(ShiftRegion(r)))

  /** The assumption of the separation theorems holds for a parent whose every point moves. */
  lemma ShiftedClipShrinks()
    ensures ClipShrinks(ShiftedGeometry)
    ensures ShiftedGeometry.clip(0, {Point(0, 0)}) == Some({Point(100, 0)})
  {
    forall k: nat, r: Region
      ensures ShiftedGeometry.clip(k, r) == Some(OnPage(ShiftedGeometry, r))
    {
      assert ShiftedGeometry.clip(k, r) == Some(ShiftRegion(r));
      forall x ensures x in ShiftRegion(r) <==> x in OnPage(ShiftedGeometry, r) {
        if x in ShiftRegion(r) {
          var p :| p in r && Shift(p) == x;
          assert ShiftedGeometry.toPage(p) == x;
        }
        if x in OnPage(ShiftedGeometry, r) {
          var p :| p in r && ShiftedGeometry.toPage(p) == x;
          assert Shift(p) == x;
        }
      }
      assert ShiftRegion(r) == OnPage(ShiftedGeometry, r);
    }
    var one := ShiftRegion({Point(0, 0)});
    assert Shift(Point(0, 0)) in one;
    assert one == {Point(100, 0)};
  }

  /** Smaller regions move to smaller regions. */
  lemma OnPageMonotone(geo: Geometry, a: Region, b: Region)
    requires a <= b
    ensures OnPage(geo, a) <= OnPage(geo, b)
  {
  }

  /** An injective transform keeps disjoint regions disjoint. */
  lemma OnPageDisjoint(geo: Geometry, a: Region, b: Region)
    requires ClipShrinks(geo) && a * b == {}
    ensures OnPage(geo, a) * OnPage(geo, b) == {}
  {
    forall x | x in OnPage(geo, a)
      ensures x !in OnPage(geo, b)
    {
      var p :| p in a && geo.toPage(p) == x;
      assert p !in a * b;
      assert forall q :: q in b ==> geo.toPage(q) != x;
    }
  }

  /** What the run reports, one entry per decision (the source's log messages). */
  datatype Event =
    | Reconciled(line: nat)
      // `line` got its new hull as outline
    | Subtracted(line: nat, other: nat)
      // `other` got its polygon minus `line`'s hull as outline
    | EmptyDifference(line: nat, other: nat)
      // nothing of `other` would remain: it is left as is
    | ClipFailed(line: nat, other: nat)
      // the remainder of `other` cannot be placed: it is left as is
    | Abandoned(line: nat)
      // the hull of `line` cannot be placed: the rest of the scope is abandoned

  /**
   * How a subtraction treats the working polygon of its target. `AsWritten`
   * leaves it alone, so the next subtraction from the same target starts
   * again from its earlier polygon; `Cumulative` stores the remainder, so
   * subtractions accumulate.
   */
  datatype Policy = AsWritten | Cumulative

  /**
   * The run's state: working polygons of the existing lines (in the parent's
   * coordinates), the lines as the document holds them, and the log.
   */
  datatype Scope = Scope(work: seq<Region>, lines: seq<Line>, log: seq<Event>)

  predicate ScopeShaped(sc: Scope, cols: nat)
  {
    |sc.work| == cols && |sc.lines| == cols
  }

  /** Every accepted verdict lists new lines that exist. */
  predicate VerdictsFit(verdicts: seq<Verdict>, rows: nat)
  {
    forall j :: 0 <= j < |verdicts| && verdicts[j].Accepted? ==>
      forall k :: 0 <= k < |verdicts[j].candidates| ==> verdicts[j].candidates[k] < rows
  }

  /** Line k's polygon minus `hull`, stored according to the policy and the target line. */
  function SubtractOne(policy: Policy, geo: Geometry, j: nat, hull: Region, sc: Scope, k: nat): (sc': Scope)
    requires k < |sc.work| && k < |sc.lines|
    ensures |sc'.work| == |sc.work| && |sc'.lines| == |sc.lines|
  {
    var diff := sc.work[k] - hull;
    if diff == {} then sc.(log := sc.log + [EmptyDifference(j, k)])
    else
      match geo.clip(k, diff)
      case None => sc.(log := sc.log + [ClipFailed(j, k)])
      case Some(r) =>
        Scope(if policy == Cumulative then sc.work[k := diff] else sc.work,
              sc.lines[k := sc.lines[k].(coords := r)],
              sc.log + [Subtracted(j, k)])
  }

  /**
   * Subtract `hull` from every line k >= `from` (in ascending order) that
   * new line i overlaps by more than `OverlapLimit`, except line j itself.
   * `row` is new line i's row of the fits_fg matrix.
   */
  function SubtractRow(policy: Policy, geo: Geometry, row: seq<real>, j: nat, hull: Region, sc: Scope, from: nat): (sc': Scope)
    requires |sc.work| == |row| && |sc.lines| == |row| && from <= |row|
    ensures |sc'.work| == |row| && |sc'.lines| == |row|
    decreases |row| - from
  {
    if from == |row| then sc
    else if !(row[from] > OverlapLimit) || from == j then SubtractRow(policy, geo, row, j, hull, sc, from + 1)
    else SubtractRow(policy, geo, row, j, hull, SubtractOne(policy, geo, j, hull, sc, from), from + 1)
  }

  /** `SubtractRow` for every candidate of line j, in order. */
  function SubtractCandidates(policy: Policy, geo: Geometry, fitsFg: seq<seq<real>>, cols: nat, j: nat, hull: Region,
                              candidates: seq<nat>, sc: Scope): (sc': Scope)
    requires IsMatrix(fitsFg, |fitsFg|, cols) && ScopeShaped(sc, cols)
    requires forall k :: 0 <= k < |candidates| ==> candidates[k] < |fitsFg|
    ensures ScopeShaped(sc', cols)
    decreases |candidates|
  {
    if |candidates| == 0 then sc
    else
      var sc1 := SubtractRow(policy, geo, fitsFg[candidates[0]], j, hull, sc, 0);
      SubtractCandidates(policy, geo, fitsFg, cols, j, hull, candidates[1..], sc1)
  }

  /** Reconcile lines j, j+1, ... in order, stopping for good at the first hull that cannot be placed. */
  function ReconcileFrom(policy: Policy, geo: Geometry, fitsFg: seq<seq<real>>, cols: nat,
                         verdicts: seq<Verdict>, j: nat, sc: Scope): (sc': Scope)
    requires IsMatrix(fitsFg, |fitsFg|, cols) && ScopeShaped(sc, cols) && |verdicts| == cols
    requires VerdictsFit(verdicts, |fitsFg|)
    ensures ScopeShaped(sc', cols)
    decreases cols - j
  {
    if j >= cols then sc
    else if !verdicts[j].Accepted? then ReconcileFrom(policy, geo, fitsFg, cols, verdicts, j + 1, sc)
    else
      var candidates := verdicts[j].candidates;
      var hull := geo.hull(candidates);
      var baseline := geo.baselineOf(candidates);
      match geo.clip(j, hull)
      case None => sc.(log := sc.log + [Abandoned(j)])
      case Some(r) =>
        var line := Line(r, if baseline.Some? then baseline else sc.lines[j].baseline);
        var sc1 := Scope(sc.work[j := hull], sc.lines[j := line], sc.log + [Reconciled(j)]);
        var sc2 := SubtractCandidates(policy, geo, fitsFg, cols, j, hull, candidates, sc1);
        ReconcileFrom(policy, geo, fitsFg, cols, verdicts, j + 1, sc2)
  }

  /** The whole reconciliation of one scope. */
  function Reconcile(policy: Policy, geo: Geometry, fitsFg: seq<seq<real>>, cols: nat,
                     verdicts: seq<Verdict>, work: seq<Region>, lines: seq<Line>): (sc: Scope)
    requires IsMatrix(fitsFg, |fitsFg|, cols) && |work| == cols && |lines| == cols && |verdicts| == cols
    requires VerdictsFit(verdicts, |fitsFg|)
    ensures ScopeShaped(sc, cols)
  {
    ReconcileFrom(policy, geo, fitsFg, cols, verdicts, 0, Scope(work, lines, []))
  }

  // ---------------------------------------------------------------------
  // What the log records

  /** The events about one subtraction attempt (they carry a target `other`). */
  predicate SubtractionEvent(e: Event)
  {
    e.Subtracted? || e.EmptyDifference? || e.ClipFailed?
  }

  /** Event `e` rewrote the outline of line k. */
  predicate Writes(e: Event, k: nat)
  {
    e == Reconciled(k) || (e.Subtracted? && e.other == k)
  }

  /** Some new line among `candidates` has more than `OverlapLimit` of its ink in existing line k. */
  predicate Targets(fitsFg: seq<seq<real>>, candidates: seq<nat>, k: nat)
  {
    exists n :: 0 <= n < |candidates| && candidates[n] < |fitsFg| && k < |fitsFg[candidates[n]]|
                && fitsFg[candidates[n]][k] > OverlapLimit
  }

  /**
   * An event is justified when it concerns an accepted line, a subtraction
   * targets a different line that one of its new lines overlaps, and an
   * abandonment happened because the hull could not be placed.
   */
  predicate Justified(geo: Geometry, fitsFg: seq<seq<real>>, verdicts: seq<Verdict>, e: Event)
  {
    e.line < |verdicts| && verdicts[e.line].Accepted?
    && (SubtractionEvent(e) ==>
          e.other < |verdicts| && e.other != e.line && Targets(fitsFg, verdicts[e.line].candidates, e.other))
    && (e.Abandoned? ==> geo.clip(e.line, geo.hull(verdicts[e.line].candidates)).None?)
  }

  /** Lines differ from `init` only where the log records a write, and baselines only where a line was reconciled. */
  predicate Framed(init: seq<Line>, sc: Scope)
  {
    |sc.lines| == |init|
    && (forall k :: 0 <= k < |init| && sc.lines[k] != init[k] ==>
          exists p :: 0 <= p < |sc.log| && Writes(sc.log[p], k))
    && (forall k :: 0 <= k < |init| && sc.lines[k].baseline != init[k].baseline ==> Reconciled(k) in sc.log)
  }

  lemma SubtractOneLog(policy: Policy, geo: Geometry, j: nat, hull: Region, sc: Scope, k: nat)
    requires k < |sc.work| && k < |sc.lines|
    ensures var sc' := SubtractOne(policy, geo, j, hull, sc, k);
      && |sc'.log| == |sc.log| + 1 && sc'.log[..|sc.log|] == sc.log
      && SubtractionEvent(sc'.log[|sc.log|]) && sc'.log[|sc.log|].line == j && sc'.log[|sc.log|].other == k
      && (forall m :: 0 <= m < |sc.lines| && m != k ==> sc'.lines[m] == sc.lines[m])
      && sc'.lines[k].baseline == sc.lines[k].baseline
      && (sc'.lines[k] != sc.lines[k] ==> sc'.log[|sc.log|] == Subtracted(j, k))
  {
  }

  /**
   * One row of subtractions appends only events about line j's subtraction
   * from lines `from` onwards, other than j, that the new line overlaps by
   * more than `OverlapLimit`.
   */
  lemma {:induction false} SubtractRowEvents(policy: Policy, geo: Geometry, row: seq<real>, j: nat, hull: Region, sc: Scope, from: nat)
    requires |sc.work| == |row| && |sc.lines| == |row| && from <= |row|
    ensures var sc' := SubtractRow(policy, geo, row, j, hull, sc, from);
      && sc.log <= sc'.log
      && (forall p :: |sc.log| <= p < |sc'.log| ==>
            SubtractionEvent(sc'.log[p]) && sc'.log[p].line == j && from <= sc'.log[p].other < |row|
            && sc'.log[p].other != j && row[sc'.log[p].other] > OverlapLimit)
    decreases |row| - from
  {
    if from == |row| {
    } else if !(row[from] > OverlapLimit) || from == j {
      SubtractRowEvents(policy, geo, row, j, hull, sc, from + 1);
    } else {
      var sc1 := SubtractOne(policy, geo, j, hull, sc, from);
      SubtractOneLog(policy, geo, j, hull, sc, from);
      SubtractRowEvents(policy, geo, row, j, hull, sc1, from + 1);
    }
  }

  /** The log from position `start` on records an attempt to subtract from line k. */
  predicate Attempted(log: seq<Event>, start: nat, k: nat)
  {
    exists p :: start <= p < |log| && SubtractionEvent(log[p]) && log[p].other == k
  }

  /** Every target of the row is attempted: it gets an event, whatever its outcome. */
  lemma {:induction false} SubtractRowReachesTargets(policy: Policy, geo: Geometry, row: seq<real>, j: nat, hull: Region, sc: Scope, from: nat)
    requires |sc.work| == |row| && |sc.lines| == |row| && from <= |row|
    ensures forall k :: from <= k < |row| && k != j && row[k] > OverlapLimit ==>
              Attempted(SubtractRow(policy, geo, row, j, hull, sc, from).log, |sc.log|, k)
    decreases |row| - from
  {
    if from == |row| {
    } else if !(row[from] > OverlapLimit) || from == j {
      SubtractRowReachesTargets(policy, geo, row, j, hull, sc, from + 1);
    } else {
      var sc1 := SubtractOne(policy, geo, j, hull, sc, from);
      SubtractOneLog(policy, geo, j, hull, sc, from);
      SubtractRowReachesTargets(policy, geo, row, j, hull, sc1, from + 1);
      SubtractRowEvents(policy, geo, row, j, hull, sc1, from + 1);
      var log' := SubtractRow(policy, geo, row, j, hull, sc1, from + 1).log;
      assert log'[|sc.log|] == sc1.log[|sc.log|];
      assert Attempted(log', |sc.log|, from);
      forall k | from < k < |row| && k != j && row[k] > OverlapLimit
        ensures Attempted(log', |sc.log|, k)
      {
        assert Attempted(log', |sc1.log|, k);
      }
    }
  }

  /** A row of subtractions changes only outlines it reports as `Subtracted`, and no baseline. */
  lemma {:induction false} SubtractRowFrame(policy: Policy, geo: Geometry, row: seq<real>, j: nat, hull: Region, sc: Scope, from: nat)
    requires |sc.work| == |row| && |sc.lines| == |row| && from <= |row|
    ensures var sc' := SubtractRow(policy, geo, row, j, hull, sc, from);
      && (forall k :: 0 <= k < |row| && sc'.lines[k] != sc.lines[k] ==>
            exists p :: |sc.log| <= p < |sc'.log| && sc'.log[p] == Subtracted(j, k))
      && (forall k :: 0 <= k < |row| ==> sc'.lines[k].baseline == sc.lines[k].baseline)
    decreases |row| - from
  {
    if from == |row| {
    } else if !(row[from] > OverlapLimit) || from == j {
      SubtractRowFrame(policy, geo, row, j, hull, sc, from + 1);
    } else {
      var sc1 := SubtractOne(policy, geo, j, hull, sc, from);
      SubtractOneLog(policy, geo, j, hull, sc, from);
      SubtractRowFrame(policy, geo, row, j, hull, sc1, from + 1);
      SubtractRowEvents(policy, geo, row, j, hull, sc1, from + 1);
      var sc' := SubtractRow(policy, geo, row, j, hull, sc1, from + 1);
      assert sc'.log[|sc.log|] == sc1.log[|sc.log|];
      forall k | 0 <= k < |row| && sc'.lines[k] != sc.lines[k]
        ensures exists p :: |sc.log| <= p < |sc'.log| && sc'.log[p] == Subtracted(j, k)
      {
        if sc1.lines[k] == sc.lines[k] {
          var p :| |sc1.log| <= p < |sc'.log| && sc'.log[p] == Subtracted(j, k);
        } else {
          assert sc'.log[|sc.log|] == Subtracted(j, k);
        }
      }
    }
  }

  /** Events line j's subtractions append: each targets another line one of its new lines overlaps. */
  lemma {:induction false} SubtractCandidatesEvents(policy: Policy, geo: Geometry, fitsFg: seq<seq<real>>, cols: nat, j: nat,
                                                    hull: Region, candidates: seq<nat>, sc: Scope)
    requires IsMatrix(fitsFg, |fitsFg|, cols) && ScopeShaped(sc, cols)
    requires forall k :: 0 <= k < |candidates| ==> candidates[k] < |fitsFg|
    ensures var sc' := SubtractCandidates(policy, geo, fitsFg, cols, j, hull, candidates, sc);
      && sc.log <= sc'.log
      && (forall p :: |sc.log| <= p < |sc'.log| ==>
            SubtractionEvent(sc'.log[p]) && sc'.log[p].line == j && sc'.log[p].other < cols
            && sc'.log[p].other != j && Targets(fitsFg, candidates, sc'.log[p].other))
    decreases |candidates|
  {
    if |candidates| > 0 {
      var sc1 := SubtractRow(policy, geo, fitsFg[candidates[0]], j, hull, sc, 0);
      SubtractRowEvents(policy, geo, fitsFg[candidates[0]], j, hull, sc, 0);
      SubtractCandidatesEvents(policy, geo, fitsFg, cols, j, hull, candidates[1..], sc1);
      var sc' := SubtractCandidates(policy, geo, fitsFg, cols, j, hull, candidates[1..], sc1);
      forall p | |sc.log| <= p < |sc'.log|
        ensures SubtractionEvent(sc'.log[p]) && sc'.log[p].line == j && sc'.log[p].other < cols
                && sc'.log[p].other != j && Targets(fitsFg, candidates, sc'.log[p].other)
      {
        if p < |sc1.log| {
          assert sc'.log[p] == sc1.log[p];
          assert fitsFg[candidates[0]][sc'.log[p].other] > OverlapLimit;
        } else {
          var n :| 0 <= n < |candidates[1..]| && candidates[1..][n] < |fitsFg| && sc'.log[p].other < |fitsFg[candidates[1..][n]]|
                   && fitsFg[candidates[1..][n]][sc'.log[p].other] > OverlapLimit;
          assert candidates[n + 1] == candidates[1..][n];
        }
      }
    }
  }

  /** Every line other than j that one of j's new lines overlaps by more than `OverlapLimit` is attempted. */
  lemma {:induction false} SubtractCandidatesReachTargets(policy: Policy, geo: Geometry, fitsFg: seq<seq<real>>, cols: nat, j: nat,
                                                          hull: Region, candidates: seq<nat>, sc: Scope)
    requires IsMatrix(fitsFg, |fitsFg|, cols) && ScopeShaped(sc, cols)
    requires forall k :: 0 <= k < |candidates| ==> candidates[k] < |fitsFg|
    ensures var sc' := SubtractCandidates(policy, geo, fitsFg, cols, j, hull, candidates, sc);
      forall k :: 0 <= k < cols && k != j && Targets(fitsFg, candidates, k) ==> Attempted(sc'.log, |sc.log|, k)
    decreases |candidates|
  {
    if |candidates| > 0 {
      var sc1 := SubtractRow(policy, geo, fitsFg[candidates[0]], j, hull, sc, 0);
      SubtractRowReachesTargets(policy, geo, fitsFg[candidates[0]], j, hull, sc, 0);
      SubtractRowEvents(policy, geo, fitsFg[candidates[0]], j, hull, sc, 0);
      SubtractCandidatesReachTargets(policy, geo, fitsFg, cols, j, hull, candidates[1..], sc1);
      SubtractCandidatesEvents(policy, geo, fitsFg, cols, j, hull, candidates[1..], sc1);
      var sc' := SubtractCandidates(policy, geo, fitsFg, cols, j, hull, candidates[1..], sc1);
      forall k | 0 <= k < cols && k != j && Targets(fitsFg, candidates, k)
        ensures Attempted(sc'.log, |sc.log|, k)
      {
        var n :| 0 <= n < |candidates| && candidates[n] < |fitsFg| && k < |fitsFg[candidates[n]]|
                 && fitsFg[candidates[n]][k] > OverlapLimit;
        if n == 0 {
          assert Attempted(sc1.log, |sc.log|, k);
          var p :| |sc.log| <= p < |sc1.log| && SubtractionEvent(sc1.log[p]) && sc1.log[p].other == k;
          assert sc'.log[p] == sc1.log[p];
        } else {
          assert candidates[1..][n - 1] == candidates[n];
          assert Targets(fitsFg, candidates[1..], k);
          assert Attempted(sc'.log, |sc1.log|, k);
        }
      }
    }
  }

  /** The log from position `start` on records that line j's hull was subtracted from line k. */
  predicate Subtracts(log: seq<Event>, start: nat, j: nat, k: nat)
  {
    exists p :: start <= p < |log| && log[p] == Subtracted(j, k)
  }

  /** Line j's subtractions change only outlines they report as `Subtracted`, and no baseline. */
  lemma {:induction false} SubtractCandidatesFrame(policy: Policy, geo: Geometry, fitsFg: seq<seq<real>>, cols: nat, j: nat,
                                                   hull: Region, candidates: seq<nat>, sc: Scope)
    requires IsMatrix(fitsFg, |fitsFg|, cols) && ScopeShaped(sc, cols)
    requires forall k :: 0 <= k < |candidates| ==> candidates[k] < |fitsFg|
    ensures var sc' := SubtractCandidates(policy, geo, fitsFg, cols, j, hull, candidates, sc);
      && (forall k :: 0 <= k < cols && sc'.lines[k] != sc.lines[k] ==> Subtracts(sc'.log, |sc.log|, j, k))
      && (forall k :: 0 <= k < cols ==> sc'.lines[k].baseline == sc.lines[k].baseline)
    decreases |candidates|
  {
    if |candidates| > 0 {
      var sc1 := SubtractRow(policy, geo, fitsFg[candidates[0]], j, hull, sc, 0);
      SubtractRowFrame(policy, geo, fitsFg[candidates[0]], j, hull, sc, 0);
      SubtractRowEvents(policy, geo, fitsFg[candidates[0]], j, hull, sc, 0);
      SubtractCandidatesFrame(policy, geo, fitsFg, cols, j, hull, candidates[1..], sc1);
      SubtractCandidatesEvents(policy, geo, fitsFg, cols, j, hull, candidates[1..], sc1);
      var sc' := SubtractCandidates(policy, geo, fitsFg, cols, j, hull, candidates[1..], sc1);
      forall k | 0 <= k < cols && sc'.lines[k] != sc.lines[k]
        ensures Subtracts(sc'.log, |sc.log|, j, k)
      {
        if sc1.lines[k] != sc.lines[k] {
          var p :| |sc.log| <= p < |sc1.log| && sc1.log[p] == Subtracted(j, k);
          assert sc'.log[p] == sc1.log[p];
        } else {
          assert Subtracts(sc'.log, |sc1.log|, j, k);
        }
      }
    }
  }

  /** The log records that line j's reconciliation was followed by an attempt to subtract from line k. */
  predicate AttemptedBy(log: seq<Event>, j: nat, k: nat)
  {
    exists p :: 0 <= p < |log| && SubtractionEvent(log[p]) && log[p].line == j && log[p].other == k
  }

  predicate IsReconciled(log: seq<Event>, j: nat)
  {
    Reconciled(j) in log
  }

  /** Every reconciled line attempted a subtraction from every target of its new lines. */
  predicate SubtractionsComplete(fitsFg: seq<seq<real>>, verdicts: seq<Verdict>, log: seq<Event>)
  {
    forall j, k ::
      (0 <= j < |verdicts| && 0 <= k < |verdicts| && IsReconciled(log, j) && verdicts[j].Accepted? && k != j
       && Targets(fitsFg, verdicts[j].candidates, k)) ==> AttemptedBy(log, j, k)
  }

  /** What holds of the scope before line j is reconciled. */
  predicate SoundUpTo(init: seq<Line>, geo: Geometry, fitsFg: seq<seq<real>>, verdicts: seq<Verdict>, sc: Scope, j: nat)
  {
    && (forall p :: 0 <= p < |sc.log| ==>
          Justified(geo, fitsFg, verdicts, sc.log[p]) && sc.log[p].line < j && !sc.log[p].Abandoned?)
    && Framed(init, sc)
    && (forall i :: 0 <= i < j && i < |verdicts| && verdicts[i].Accepted? ==> IsReconciled(sc.log, i))
    && SubtractionsComplete(fitsFg, verdicts, sc.log)
  }

  /**
   * The shape of the log after line j was reconciled: the old log, then
   * `Reconciled(j)`, then only attempts to subtract line j's hull from the
   * targets of its new lines.
   */
  predicate ExtendsBy(fitsFg: seq<seq<real>>, verdicts: seq<Verdict>, log: seq<Event>, log': seq<Event>, j: nat)
  {
    && j < |verdicts| && verdicts[j].Accepted?
    && |log'| > |log| && log'[..|log|] == log && log'[|log|] == Reconciled(j)
    && (forall p :: |log| < p < |log'| ==>
          SubtractionEvent(log'[p]) && log'[p].line == j && log'[p].other < |verdicts|
          && log'[p].other != j && Targets(fitsFg, verdicts[j].candidates, log'[p].other))
  }

  lemma StepJustified(geo: Geometry, fitsFg: seq<seq<real>>, verdicts: seq<Verdict>, log: seq<Event>, log': seq<Event>, j: nat)
    requires ExtendsBy(fitsFg, verdicts, log, log', j)
    requires forall p :: 0 <= p < |log| ==> Justified(geo, fitsFg, verdicts, log[p]) && log[p].line < j && !log[p].Abandoned?
    ensures forall p :: 0 <= p < |log'| ==> Justified(geo, fitsFg, verdicts, log'[p]) && log'[p].line < j + 1 && !log'[p].Abandoned?
  {
    forall p | 0 <= p < |log'|
      ensures Justified(geo, fitsFg, verdicts, log'[p]) && log'[p].line < j + 1 && !log'[p].Abandoned?
    {
      if p < |log| {
        assert log'[p] == log[p];
      }
    }
  }

  lemma StepReconciled(verdicts: seq<Verdict>, fitsFg: seq<seq<real>>, log: seq<Event>, log': seq<Event>, j: nat)
    requires ExtendsBy(fitsFg, verdicts, log, log', j)
    requires forall i :: 0 <= i < j && i < |verdicts| && verdicts[i].Accepted? ==> IsReconciled(log, i)
    ensures forall i :: 0 <= i < j + 1 && i < |verdicts| && verdicts[i].Accepted? ==> IsReconciled(log', i)
  {
    forall i | 0 <= i < j + 1 && i < |verdicts| && verdicts[i].Accepted?
      ensures IsReconciled(log', i)
    {
      if i == j {
        assert log'[|log|] == Reconciled(j);
      } else {
        var p :| 0 <= p < |log| && log[p] == Reconciled(i);
        assert log'[p] == log[p];
      }
    }
  }

  lemma StepComplete(fitsFg: seq<seq<real>>, verdicts: seq<Verdict>, log: seq<Event>, log': seq<Event>, j: nat)
    requires ExtendsBy(fitsFg, verdicts, log, log', j)
    requires SubtractionsComplete(fitsFg, verdicts, log)
    requires forall k :: 0 <= k < |verdicts| && k != j && Targets(fitsFg, verdicts[j].candidates, k) ==>
               Attempted(log', |log| + 1, k)
    ensures SubtractionsComplete(fitsFg, verdicts, log')
  {
    StepReconciledOnly(fitsFg, verdicts, log, log', j);
    forall i, k | 0 <= i < |verdicts| && 0 <= k < |verdicts| && IsReconciled(log', i) && verdicts[i].Accepted? && k != i
                  && Targets(fitsFg, verdicts[i].candidates, k)
      ensures AttemptedBy(log', i, k)
    {
      if i == j {
        assert Attempted(log', |log| + 1, k);
        var q :| |log| + 1 <= q < |log'| && SubtractionEvent(log'[q]) && log'[q].other == k;
        assert log'[q].line == j;
      } else {
        assert IsReconciled(log, i);
        var q :| 0 <= q < |log| && SubtractionEvent(log[q]) && log[q].line == i && log[q].other == k;
        assert log'[q] == log[q];
      }
    }
  }

  lemma StepReconciledOnly(fitsFg: seq<seq<real>>, verdicts: seq<Verdict>, log: seq<Event>, log': seq<Event>, j: nat)
    requires ExtendsBy(fitsFg, verdicts, log, log', j)
    ensures forall i :: IsReconciled(log', i) ==> IsReconciled(log, i) || i == j
  {
    forall i | IsReconciled(log', i)
      ensures IsReconciled(log, i) || i == j
    {
      var p :| 0 <= p < |log'| && log'[p] == Reconciled(i);
      if p < |log| {
        assert log[p] == log'[p];
      }
    }
  }

  lemma StepFramed(init: seq<Line>, sc: Scope, lines1: seq<Line>, sc2: Scope, fitsFg: seq<seq<real>>, verdicts: seq<Verdict>, j: nat)
    requires ExtendsBy(fitsFg, verdicts, sc.log, sc2.log, j)
    requires Framed(init, sc) && |lines1| == |init| && |sc2.lines| == |init|
    requires forall k :: 0 <= k < |init| && k != j ==> lines1[k] == sc.lines[k]
    requires forall k :: 0 <= k < |init| && sc2.lines[k] != lines1[k] ==> Subtracts(sc2.log, |sc.log| + 1, j, k)
    requires forall k :: 0 <= k < |init| ==> sc2.lines[k].baseline == lines1[k].baseline
    ensures Framed(init, sc2)
  {
    forall k | 0 <= k < |init| && sc2.lines[k] != init[k]
      ensures exists p :: 0 <= p < |sc2.log| && Writes(sc2.log[p], k)
    {
      if sc2.lines[k] != lines1[k] {
        var p :| |sc.log| + 1 <= p < |sc2.log| && sc2.log[p] == Subtracted(j, k);
        assert Writes(sc2.log[p], k);
      } else if k == j {
        assert Writes(sc2.log[|sc.log|], k);
      } else {
        var p :| 0 <= p < |sc.log| && Writes(sc.log[p], k);
        assert sc2.log[p] == sc.log[p];
      }
    }
    forall k | 0 <= k < |init| && sc2.lines[k].baseline != init[k].baseline
      ensures Reconciled(k) in sc2.log
    {
      if k == j {
        assert sc2.log[|sc.log|] == Reconciled(j);
      } else {
        var p :| 0 <= p < |sc.log| && sc.log[p] == Reconciled(k);
        assert sc2.log[p] == sc.log[p];
      }
    }
  }

  /** Reconciling an accepted line whose hull could be placed keeps `SoundUpTo`. */
  lemma ReconcileStepSound(policy: Policy, geo: Geometry, fitsFg: seq<seq<real>>, cols: nat,
                           verdicts: seq<Verdict>, init: seq<Line>, j: nat, sc: Scope, r: Region)
    requires IsMatrix(fitsFg, |fitsFg|, cols) && ScopeShaped(sc, cols) && |verdicts| == cols && |init| == cols
    requires VerdictsFit(verdicts, |fitsFg|)
    requires j < cols && verdicts[j].Accepted? && geo.clip(j, geo.hull(verdicts[j].candidates)) == Some(r)
    requires SoundUpTo(init, geo, fitsFg, verdicts, sc, j)
    ensures var candidates := verdicts[j].candidates;
      var hull := geo.hull(candidates);
      var baseline := geo.baselineOf(candidates);
      var line := Line(r, if baseline.Some? then baseline else sc.lines[j].baseline);
      var sc1 := Scope(sc.work[j := hull], sc.lines[j := line], sc.log + [Reconciled(j)]);
      SoundUpTo(init, geo, fitsFg, verdicts, SubtractCandidates(policy, geo, fitsFg, cols, j, hull, candidates, sc1), j + 1)
  {
    var candidates := verdicts[j].candidates;
    var hull := geo.hull(candidates);
    var baseline := geo.baselineOf(candidates);
    var line := Line(r, if baseline.Some? then baseline else sc.lines[j].baseline);
    var sc1 := Scope(sc.work[j := hull], sc.lines[j := line], sc.log + [Reconciled(j)]);
    var sc2 := SubtractCandidates(policy, geo, fitsFg, cols, j, hull, candidates, sc1);
    SubtractCandidatesEvents(policy, geo, fitsFg, cols, j, hull, candidates, sc1);
    SubtractCandidatesReachTargets(policy, geo, fitsFg, cols, j, hull, candidates, sc1);
    SubtractCandidatesFrame(policy, geo, fitsFg, cols, j, hull, candidates, sc1);
    assert sc2.log[..|sc.log|] == sc.log by {
      assert sc2.log[..|sc1.log|] == sc1.log;
      assert sc1.log[..|sc.log|] == sc.log;
    }
    assert ExtendsBy(fitsFg, verdicts, sc.log, sc2.log, j);
    StepJustified(geo, fitsFg, verdicts, sc.log, sc2.log, j);
    StepReconciled(verdicts, fitsFg, sc.log, sc2.log, j);
    StepComplete(fitsFg, verdicts, sc.log, sc2.log, j);
    StepFramed(init, sc, sc1.lines, sc2, fitsFg, verdicts, j);
  }

  /** Whether the log ends with an abandonment at a line no later than j. */
  predicate AbandonedBy(log: seq<Event>, j: nat)
  {
    |log| > 0 && log[|log| - 1].Abandoned? && log[|log| - 1].line <= j
  }

  /** What the whole run promises, for either policy. */
  predicate Sound(init: seq<Line>, geo: Geometry, fitsFg: seq<seq<real>>, verdicts: seq<Verdict>, sc: Scope)
  {
    // every event concerns an accepted line and, for subtractions, a target of its new lines
    && (forall p :: 0 <= p < |sc.log| ==> Justified(geo, fitsFg, verdicts, sc.log[p]))
    // outlines change only where written, baselines only where reconciled
    && Framed(init, sc)
    // an abandonment ends the run, and everything before it concerned earlier lines
    && (forall p :: 0 <= p < |sc.log| && sc.log[p].Abandoned? ==>
          p == |sc.log| - 1 && forall q :: 0 <= q < p ==> sc.log[q].line < sc.log[p].line)
    // every accepted line is reconciled unless the run was abandoned at or before it
    && (forall j :: 0 <= j < |verdicts| && verdicts[j].Accepted? ==> IsReconciled(sc.log, j) || AbandonedBy(sc.log, j))
    // a failed subtraction does not stop the others: every target of a reconciled line is attempted
    && SubtractionsComplete(fitsFg, verdicts, sc.log)
  }

  /** A run that has passed every line without abandoning is sound. */
  lemma FinishedSound(init: seq<Line>, geo: Geometry, fitsFg: seq<seq<real>>, verdicts: seq<Verdict>, sc: Scope, j: nat)
    requires j >= |verdicts| && SoundUpTo(init, geo, fitsFg, verdicts, sc, j)
    ensures Sound(init, geo, fitsFg, verdicts, sc)
  {
  }

  /** Abandoning at an accepted line whose hull cannot be placed leaves a sound run. */
  lemma AbandonSound(init: seq<Line>, geo: Geometry, fitsFg: seq<seq<real>>, verdicts: seq<Verdict>, sc: Scope, j: nat)
    requires j < |verdicts| && verdicts[j].Accepted? && geo.clip(j, geo.hull(verdicts[j].candidates)).None?
    requires SoundUpTo(init, geo, fitsFg, verdicts, sc, j)
    ensures Sound(init, geo, fitsFg, verdicts, sc.(log := sc.log + [Abandoned(j)]))
  {
    var sc' := sc.(log := sc.log + [Abandoned(j)]);
    forall p | 0 <= p < |sc'.log|
      ensures Justified(geo, fitsFg, verdicts, sc'.log[p])
    {
      if p < |sc.log| {
        assert sc'.log[p] == sc.log[p];
      }
    }
    forall k | 0 <= k < |init| && sc'.lines[k] != init[k]
      ensures exists p :: 0 <= p < |sc'.log| && Writes(sc'.log[p], k)
    {
      var p :| 0 <= p < |sc.log| && Writes(sc.log[p], k);
      assert sc'.log[p] == sc.log[p];
    }
    forall k | 0 <= k < |init| && sc'.lines[k].baseline != init[k].baseline
      ensures Reconciled(k) in sc'.log
    {
      var p :| 0 <= p < |sc.log| && sc.log[p] == Reconciled(k);
      assert sc'.log[p] == sc.log[p];
    }
    assert forall q :: 0 <= q < |sc.log| ==> sc'.log[q] == sc.log[q];
    forall p | 0 <= p < |sc'.log| && sc'.log[p].Abandoned?
      ensures p == |sc'.log| - 1 && forall q :: 0 <= q < p ==> sc'.log[q].line < sc'.log[p].line
    {
    }
    forall i | 0 <= i < |verdicts| && verdicts[i].Accepted?
      ensures IsReconciled(sc'.log, i) || AbandonedBy(sc'.log, i)
    {
      if i < j {
        var p :| 0 <= p < |sc.log| && sc.log[p] == Reconciled(i);
        assert sc'.log[p] == sc.log[p];
      }
    }
    forall i, k | 0 <= i < |verdicts| && 0 <= k < |verdicts| && IsReconciled(sc'.log, i) && verdicts[i].Accepted? && k != i
                  && Targets(fitsFg, verdicts[i].candidates, k)
      ensures AttemptedBy(sc'.log, i, k)
    {
      var p :| 0 <= p < |sc'.log| && sc'.log[p] == Reconciled(i);
      assert p < |sc.log|;
      assert sc.log[p] == Reconciled(i);
      var q :| 0 <= q < |sc.log| && SubtractionEvent(sc.log[q]) && sc.log[q].line == i && sc.log[q].other == k;
      assert sc'.log[q] == sc.log[q];
    }
  }

  lemma {:induction false} ReconcileFromSound(policy: Policy, geo: Geometry, fitsFg: seq<seq<real>>, cols: nat,
                                              verdicts: seq<Verdict>, init: seq<Line>, j: nat, sc: Scope)
    requires IsMatrix(fitsFg, |fitsFg|, cols) && ScopeShaped(sc, cols) && |verdicts| == cols && |init| == cols
    requires VerdictsFit(verdicts, |fitsFg|)
    requires SoundUpTo(init, geo, fitsFg, verdicts, sc, j)
    ensures Sound(init, geo, fitsFg, verdicts, ReconcileFrom(policy, geo, fitsFg, cols, verdicts, j, sc))
    decreases cols - j
  {
    if j >= cols {
      FinishedSound(init, geo, fitsFg, verdicts, sc, j);
    } else if !verdicts[j].Accepted? {
      ReconcileFromSound(policy, geo, fitsFg, cols, verdicts, init, j + 1, sc);
    } else {
      var candidates := verdicts[j].candidates;
      var hull := geo.hull(candidates);
      match geo.clip(j, hull)
      case None =>
        AbandonSound(init, geo, fitsFg, verdicts, sc, j);
      case Some(r) =>
        var baseline := geo.baselineOf(candidates);
        var line := Line(r, if baseline.Some? then baseline else sc.lines[j].baseline);
        var sc1 := Scope(sc.work[j := hull], sc.lines[j := line], sc.log + [Reconciled(j)]);
        var sc2 := SubtractCandidates(policy, geo, fitsFg, cols, j, hull, candidates, sc1);
        ReconcileStepSound(policy, geo, fitsFg, cols, verdicts, init, j, sc, r);
        ReconcileFromSound(policy, geo, fitsFg, cols, verdicts, init, j + 1, sc2);
    }
  }

  /**
   * Under either policy: only accepted lines and the targets of their new
   * lines change, baselines only by reconciliation; a hull that cannot be
   * placed ends the run, a remainder that cannot be placed does not.
   */
  lemma ReconcileSound(policy: Policy, geo: Geometry, fitsFg: seq<seq<real>>, cols: nat,
                       verdicts: seq<Verdict>, work: seq<Region>, lines: seq<Line>)
    requires IsMatrix(fitsFg, |fitsFg|, cols) && |work| == cols && |lines| == cols && |verdicts| == cols
    requires VerdictsFit(verdicts, |fitsFg|)
    ensures Sound(lines, geo, fitsFg, verdicts, Reconcile(policy, geo, fitsFg, cols, verdicts, work, lines))
  {
    ReconcileFromSound(policy, geo, fitsFg, cols, verdicts, lines, 0, Scope(work, lines, []));
  }

  // ---------------------------------------------------------------------
  // Cumulative subtraction keeps lines apart

  /** The outline of line k was written at some point of the log. */
  predicate Written(log: seq<Event>, k: nat)
  {
    exists p :: 0 <= p < |log| && Writes(log[p], k)
  }

  /** Entry p records a subtraction whose target was not reconciled afterwards. */
  predicate StillSubtracted(log: seq<Event>, p: nat)
  {
    p < |log| && log[p].Subtracted? && forall q :: p < q < |log| ==> log[q] != Reconciled(log[p].other)
  }

  /** The hull of accepted line j's new lines. */
  function HullOf(geo: Geometry, verdicts: seq<Verdict>, j: nat): Region
    requires j < |verdicts| && verdicts[j].Accepted?
  {
    geo.hull(verdicts[j].candidates)
  }

  /**
   * What the cumulative policy maintains: a written outline lies inside its
   * line's working polygon moved to page coordinates; a reconciled line's working polygon lies inside
   * its hull; after a subtraction, the target's working polygon misses the
   * subtracted hull until the target is reconciled itself; and only
   * reconciled lines subtract.
   */
  predicate CumulativeInv(geo: Geometry, verdicts: seq<Verdict>, sc: Scope)
  {
    && |sc.work| == |sc.lines| == |verdicts|
    && (forall k :: 0 <= k < |sc.lines| && Written(sc.log, k) ==> sc.lines[k].coords <= OnPage(geo, sc.work[k]))
    && (forall i :: 0 <= i < |verdicts| && IsReconciled(sc.log, i) ==>
          verdicts[i].Accepted? && sc.work[i] <= HullOf(geo, verdicts, i))
    && (forall p :: 0 <= p < |sc.log| && StillSubtracted(sc.log, p) ==>
          sc.log[p].line < |verdicts| && verdicts[sc.log[p].line].Accepted? && sc.log[p].other < |verdicts|
          && sc.work[sc.log[p].other] * HullOf(geo, verdicts, sc.log[p].line) == {})
    && (forall p :: 0 <= p < |sc.log| && sc.log[p].Subtracted? ==>
          sc.log[p].line < |verdicts| && IsReconciled(sc.log, sc.log[p].line))
  }

  /** An event that neither writes an outline nor reconciles keeps the invariant. */
  lemma QuietStepCumulative(geo: Geometry, verdicts: seq<Verdict>, sc: Scope, e: Event)
    requires CumulativeInv(geo, verdicts, sc)
    requires e.EmptyDifference? || e.ClipFailed? || e.Abandoned?
    ensures CumulativeInv(geo, verdicts, sc.(log := sc.log + [e]))
  {
    var log' := sc.log + [e];
    assert forall q :: 0 <= q < |sc.log| ==> log'[q] == sc.log[q];
    forall k | 0 <= k < |sc.lines| && Written(log', k)
      ensures Written(sc.log, k)
    {
      var p :| 0 <= p < |log'| && Writes(log'[p], k);
    }
    forall p | 0 <= p < |log'| && StillSubtracted(log', p)
      ensures StillSubtracted(sc.log, p)
    {
    }
  }

  /** Subtracting line j's hull from line k and keeping the remainder as k's working polygon keeps the invariant. */
  lemma SubtractStepCumulative(geo: Geometry, verdicts: seq<Verdict>, sc: Scope, j: nat, k: nat, r: Region)
    requires CumulativeInv(geo, verdicts, sc)
    requires j < |verdicts| && verdicts[j].Accepted? && IsReconciled(sc.log, j) && k < |verdicts|
    requires r <= OnPage(geo, sc.work[k] - HullOf(geo, verdicts, j))
    ensures CumulativeInv(geo, verdicts, Scope(sc.work[k := sc.work[k] - HullOf(geo, verdicts, j)],
                                               sc.lines[k := sc.lines[k].(coords := r)],
                                               sc.log + [Subtracted(j, k)]))
  {
    var hull := HullOf(geo, verdicts, j);
    var sc' := Scope(sc.work[k := sc.work[k] - hull], sc.lines[k := sc.lines[k].(coords := r)], sc.log + [Subtracted(j, k)]);
    assert forall q :: 0 <= q < |sc.log| ==> sc'.log[q] == sc.log[q];
    forall m | 0 <= m < |sc'.lines| && Written(sc'.log, m)
      ensures sc'.lines[m].coords <= OnPage(geo, sc'.work[m])
    {
      if m != k {
        var p :| 0 <= p < |sc'.log| && Writes(sc'.log[p], m);
        assert Written(sc.log, m);
      }
    }
    forall p | 0 <= p < |sc'.log| && StillSubtracted(sc'.log, p)
      ensures sc'.log[p].line < |verdicts| && verdicts[sc'.log[p].line].Accepted? && sc'.log[p].other < |verdicts|
              && sc'.work[sc'.log[p].other] * HullOf(geo, verdicts, sc'.log[p].line) == {}
    {
      if p < |sc.log| {
        assert StillSubtracted(sc.log, p);
      }
    }
  }

  /** Reconciling line j (working polygon := hull, outline inside the hull) keeps the invariant. */
  lemma ReconcileStepCumulative(geo: Geometry, verdicts: seq<Verdict>, sc: Scope, j: nat, line: Line)
    requires CumulativeInv(geo, verdicts, sc)
    requires j < |verdicts| && verdicts[j].Accepted? && line.coords <= OnPage(geo, HullOf(geo, verdicts, j))
    ensures CumulativeInv(geo, verdicts, Scope(sc.work[j := HullOf(geo, verdicts, j)], sc.lines[j := line],
                                               sc.log + [Reconciled(j)]))
  {
    var hull := HullOf(geo, verdicts, j);
    var sc' := Scope(sc.work[j := hull], sc.lines[j := line], sc.log + [Reconciled(j)]);
    assert forall q :: 0 <= q < |sc.log| ==> sc'.log[q] == sc.log[q];
    forall m | 0 <= m < |sc'.lines| && Written(sc'.log, m)
      ensures sc'.lines[m].coords <= OnPage(geo, sc'.work[m])
    {
      if m != j {
        var p :| 0 <= p < |sc'.log| && Writes(sc'.log[p], m);
        assert Written(sc.log, m);
      }
    }
    forall i | 0 <= i < |verdicts| && IsReconciled(sc'.log, i)
      ensures verdicts[i].Accepted? && sc'.work[i] <= HullOf(geo, verdicts, i)
    {
      if i != j {
        var p :| 0 <= p < |sc'.log| && sc'.log[p] == Reconciled(i);
        assert IsReconciled(sc.log, i);
      }
    }
    forall p | 0 <= p < |sc'.log| && StillSubtracted(sc'.log, p)
      ensures sc'.log[p].line < |verdicts| && verdicts[sc'.log[p].line].Accepted? && sc'.log[p].other < |verdicts|
              && sc'.work[sc'.log[p].other] * HullOf(geo, verdicts, sc'.log[p].line) == {}
    {
      assert p < |sc.log|;
      assert StillSubtracted(sc.log, p);
      var k := sc.log[p].other;
      assert sc'.log[|sc.log|] == Reconciled(j);
      assert k != j;
      assert sc'.work[k] == sc.work[k];
    }
  }

  lemma SubtractOneCumulative(geo: Geometry, verdicts: seq<Verdict>, j: nat, sc: Scope, k: nat)
    requires ClipShrinks(geo) && CumulativeInv(geo, verdicts, sc) && k < |verdicts|
    requires j < |verdicts| && verdicts[j].Accepted? && IsReconciled(sc.log, j)
    ensures CumulativeInv(geo, verdicts, SubtractOne(Cumulative, geo, j, HullOf(geo, verdicts, j), sc, k))
    ensures IsReconciled(SubtractOne(Cumulative, geo, j, HullOf(geo, verdicts, j), sc, k).log, j)
  {
    var hull := HullOf(geo, verdicts, j);
    var diff := sc.work[k] - hull;
    if diff == {} {
      QuietStepCumulative(geo, verdicts, sc, EmptyDifference(j, k));
    } else {
      match geo.clip(k, diff)
      case None =>
        QuietStepCumulative(geo, verdicts, sc, ClipFailed(j, k));
      case Some(r) =>
        SubtractStepCumulative(geo, verdicts, sc, j, k, r);
    }
  }

  lemma {:induction false} SubtractRowCumulative(geo: Geometry, verdicts: seq<Verdict>, row: seq<real>, j: nat, sc: Scope, from: nat)
    requires ClipShrinks(geo) && CumulativeInv(geo, verdicts, sc) && |row| == |verdicts| && from <= |row|
    requires j < |verdicts| && verdicts[j].Accepted? && IsReconciled(sc.log, j)
    ensures var sc' := SubtractRow(Cumulative, geo, row, j, HullOf(geo, verdicts, j), sc, from);
      CumulativeInv(geo, verdicts, sc') && IsReconciled(sc'.log, j)
    decreases |row| - from
  {
    var hull := HullOf(geo, verdicts, j);
    if from == |row| {
    } else if !(row[from] > OverlapLimit) || from == j {
      SubtractRowCumulative(geo, verdicts, row, j, sc, from + 1);
    } else {
      SubtractOneCumulative(geo, verdicts, j, sc, from);
      SubtractRowCumulative(geo, verdicts, row, j, SubtractOne(Cumulative, geo, j, hull, sc, from), from + 1);
    }
  }

  lemma {:induction false} SubtractCandidatesCumulative(geo: Geometry, fitsFg: seq<seq<real>>, verdicts: seq<Verdict>, j: nat,
                                                        candidates: seq<nat>, sc: Scope)
    requires ClipShrinks(geo) && CumulativeInv(geo, verdicts, sc) && IsMatrix(fitsFg, |fitsFg|, |verdicts|)
    requires j < |verdicts| && verdicts[j].Accepted? && IsReconciled(sc.log, j)
    requires forall k :: 0 <= k < |candidates| ==> candidates[k] < |fitsFg|
    ensures CumulativeInv(geo, verdicts,
              SubtractCandidates(Cumulative, geo, fitsFg, |verdicts|, j, HullOf(geo, verdicts, j), candidates, sc))
    decreases |candidates|
  {
    if |candidates| > 0 {
      var hull := HullOf(geo, verdicts, j);
      SubtractRowCumulative(geo, verdicts, fitsFg[candidates[0]], j, sc, 0);
      SubtractCandidatesCumulative(geo, fitsFg, verdicts, j, candidates[1..],
                                   SubtractRow(Cumulative, geo, fitsFg[candidates[0]], j, hull, sc, 0));
    }
  }

  lemma {:induction false} ReconcileFromCumulative(geo: Geometry, fitsFg: seq<seq<real>>, verdicts: seq<Verdict>, j: nat, sc: Scope)
    requires ClipShrinks(geo) && CumulativeInv(geo, verdicts, sc)
    requires IsMatrix(fitsFg, |fitsFg|, |verdicts|) && VerdictsFit(verdicts, |fitsFg|)
    ensures CumulativeInv(geo, verdicts, ReconcileFrom(Cumulative, geo, fitsFg, |verdicts|, verdicts, j, sc))
    decreases |verdicts| - j
  {
    var cols := |verdicts|;
    if j >= cols {
    } else if !verdicts[j].Accepted? {
      ReconcileFromCumulative(geo, fitsFg, verdicts, j + 1, sc);
    } else {
      var candidates := verdicts[j].candidates;
      var hull := geo.hull(candidates);
      match geo.clip(j, hull)
      case None =>
        QuietStepCumulative(geo, verdicts, sc, Abandoned(j));
      case Some(r) =>
        var baseline := geo.baselineOf(candidates);
        var line := Line(r, if baseline.Some? then baseline else sc.lines[j].baseline);
        var sc1 := Scope(sc.work[j := hull], sc.lines[j := line], sc.log + [Reconciled(j)]);
        ReconcileStepCumulative(geo, verdicts, sc, j, line);
        assert IsReconciled(sc1.log, j);
        SubtractCandidatesCumulative(geo, fitsFg, verdicts, j, candidates, sc1);
        ReconcileFromCumulative(geo, fitsFg, verdicts, j + 1,
                                SubtractCandidates(Cumulative, geo, fitsFg, cols, j, hull, candidates, sc1));
    }
  }

  /**
   * With cumulative subtraction, once line j's hull has been subtracted
   * from line k, the outline of k misses that hull (on the page), and it
   * misses line j's final outline, unless k is reconciled later itself.
   */
  lemma ReconcileSeparates(geo: Geometry, fitsFg: seq<seq<real>>, verdicts: seq<Verdict>, work: seq<Region>, lines: seq<Line>)
    requires ClipShrinks(geo)
    requires IsMatrix(fitsFg, |fitsFg|, |verdicts|) && VerdictsFit(verdicts, |fitsFg|)
    requires |work| == |verdicts| && |lines| == |verdicts|
    ensures var sc := Reconcile(Cumulative, geo, fitsFg, |verdicts|, verdicts, work, lines);
      forall p :: 0 <= p < |sc.log| && StillSubtracted(sc.log, p) ==>
        var j, k := sc.log[p].line, sc.log[p].other;
        && j < |verdicts| && k < |verdicts| && verdicts[j].Accepted?
        && sc.lines[k].coords * OnPage(geo, HullOf(geo, verdicts, j)) == {}
        && sc.lines[k].coords * sc.lines[j].coords == {}
  {
    var sc0 := Scope(work, lines, []);
    ReconcileFromCumulative(geo, fitsFg, verdicts, 0, sc0);
    var sc := Reconcile(Cumulative, geo, fitsFg, |verdicts|, verdicts, work, lines);
    forall p | 0 <= p < |sc.log| && StillSubtracted(sc.log, p)
      ensures var j, k := sc.log[p].line, sc.log[p].other;
        && j < |verdicts| && k < |verdicts| && verdicts[j].Accepted?
        && sc.lines[k].coords * OnPage(geo, HullOf(geo, verdicts, j)) == {}
        && sc.lines[k].coords * sc.lines[j].coords == {}
    {
      var j, k := sc.log[p].line, sc.log[p].other;
      assert Writes(sc.log[p], k);
      assert IsReconciled(sc.log, j);
      var q :| 0 <= q < |sc.log| && sc.log[q] == Reconciled(j);
      assert Writes(sc.log[q], j);
      OnPageDisjoint(geo, sc.work[k], HullOf(geo, verdicts, j));
      OnPageMonotone(geo, sc.work[j], HullOf(geo, verdicts, j));
    }
  }

  // ---------------------------------------------------------------------
  // What every write stores

  /**
   * The working polygon of line k after the events of `log`, starting from
   * `work0[k]`: reconciling k replaces it by k's hull; under `Cumulative`, a
   * subtraction from k removes the subtracted hull; nothing else touches it.
   */
  function WorkOf(policy: Policy, geo: Geometry, verdicts: seq<Verdict>, work0: seq<Region>, log: seq<Event>, k: nat): Region
    requires k < |work0|
    decreases |log|
  {
    if |log| == 0 then work0[k]
    else
      var e, prev := log[|log| - 1], WorkOf(policy, geo, verdicts, work0, log[..|log| - 1], k);
      if e == Reconciled(k) && k < |verdicts| && verdicts[k].Accepted? then HullOf(geo, verdicts, k)
      else if policy == Cumulative && e.Subtracted? && e.other == k && e.line < |verdicts| && verdicts[e.line].Accepted?
      then prev - HullOf(geo, verdicts, e.line)
      else prev
  }

  /**
   * As written, subtractions never change a working polygon: it is the
   * line's hull once the line is reconciled, and its original polygon before.
   */
  lemma {:induction false} WorkOfAsWritten(geo: Geometry, verdicts: seq<Verdict>, work0: seq<Region>, log: seq<Event>, k: nat)
    requires k < |work0| && k < |verdicts|
    ensures WorkOf(AsWritten, geo, verdicts, work0, log, k)
         == if IsReconciled(log, k) && verdicts[k].Accepted? then HullOf(geo, verdicts, k) else work0[k]
    decreases |log|
  {
    if |log| > 0 {
      var prefix := log[..|log| - 1];
      WorkOfAsWritten(geo, verdicts, work0, prefix, k);
      assert log == prefix + [log[|log| - 1]];
      assert IsReconciled(log, k) <==> IsReconciled(prefix, k) || log[|log| - 1] == Reconciled(k);
    }
  }

  /** The baseline line k ends with: the joined one of its new lines if it was reconciled and they have one, else its own. */
  function BaselineAfter(geo: Geometry, verdicts: seq<Verdict>, lines0: seq<Line>, log: seq<Event>, k: nat): Option<Baseline>
    requires k < |lines0|
  {
    if IsReconciled(log, k) && k < |verdicts| && verdicts[k].Accepted? && geo.baselineOf(verdicts[k].candidates).Some?
    then geo.baselineOf(verdicts[k].candidates)
    else lines0[k].baseline
  }

  /** Entry p is the last one in `log` that writes the outline of line k. */
  predicate LastWriteAt(log: seq<Event>, p: nat, k: nat)
  {
    p < |log| && Writes(log[p], k) && forall q :: p < q < |log| ==> !Writes(log[q], k)
  }

  /**
   * The outline `coords` is what entry p writes into line k: the placed hull
   * for a reconciliation, the placed remainder of k's working polygon at that
   * moment minus the subtracted hull for a subtraction.
   */
  predicate StoresWrite(policy: Policy, geo: Geometry, verdicts: seq<Verdict>, work0: seq<Region>, log: seq<Event>,
                        p: nat, k: nat, coords: Region)
    requires p < |log| && k < |work0|
  {
    && log[p].line < |verdicts| && verdicts[log[p].line].Accepted?
    && (log[p].Reconciled? ==> log[p].line == k && geo.clip(k, HullOf(geo, verdicts, k)) == Some(coords))
    && (log[p].Subtracted? ==>
          && log[p].other == k
          && geo.clip(k, WorkOf(policy, geo, verdicts, work0, log[..p], k) - HullOf(geo, verdicts, log[p].line)) == Some(coords))
  }

  /** What the run maintains about the values it writes, relative to the scope `init` it started from. */
  predicate WriteInv(policy: Policy, geo: Geometry, verdicts: seq<Verdict>, init: Scope, sc: Scope)
  {
    && |sc.work| == |sc.lines| == |init.work| == |init.lines| == |verdicts|
    && (forall k :: 0 <= k < |verdicts| ==> sc.work[k] == WorkOf(policy, geo, verdicts, init.work, sc.log, k))
    && (forall k :: 0 <= k < |verdicts| ==> sc.lines[k].baseline == BaselineAfter(geo, verdicts, init.lines, sc.log, k))
    && (forall p, k :: 0 <= p < |sc.log| && 0 <= k < |verdicts| && LastWriteAt(sc.log, p, k) ==>
          StoresWrite(policy, geo, verdicts, init.work, sc.log, p, k, sc.lines[k].coords))
  }

  /** Appending an event keeps every earlier prefix of the log. */
  lemma PrefixesKept(log: seq<Event>, e: Event)
    ensures (log + [e])[..|log|] == log
    ensures forall p :: 0 <= p <= |log| ==> (log + [e])[..p] == log[..p]
  {
    forall p | 0 <= p <= |log|
      ensures (log + [e])[..p] == log[..p]
    {
      assert (log + [e])[..p] == log[..p];
    }
  }

  /** An event that writes no outline and touches no working polygon keeps the invariant. */
  lemma QuietStepWrites(policy: Policy, geo: Geometry, verdicts: seq<Verdict>, init: Scope, sc: Scope, e: Event)
    requires WriteInv(policy, geo, verdicts, init, sc)
    requires e.EmptyDifference? || e.ClipFailed? || e.Abandoned?
    ensures WriteInv(policy, geo, verdicts, init, sc.(log := sc.log + [e]))
  {
    var log' := sc.log + [e];
    PrefixesKept(sc.log, e);
    forall k | 0 <= k < |verdicts|
      ensures WorkOf(policy, geo, verdicts, init.work, log', k) == WorkOf(policy, geo, verdicts, init.work, sc.log, k)
      ensures IsReconciled(log', k) == IsReconciled(sc.log, k)
    {
    }
    forall p, k | 0 <= p < |log'| && 0 <= k < |verdicts| && LastWriteAt(log', p, k)
      ensures StoresWrite(policy, geo, verdicts, init.work, log', p, k, sc.lines[k].coords)
    {
      assert p < |sc.log| && log'[p] == sc.log[p];
      assert LastWriteAt(sc.log, p, k);
    }
  }

  /** A subtraction from line k whose remainder was placed as `r` keeps the invariant. */
  lemma SubtractStepWrites(policy: Policy, geo: Geometry, verdicts: seq<Verdict>, init: Scope, sc: Scope, j: nat, k: nat, r: Region)
    requires WriteInv(policy, geo, verdicts, init, sc)
    requires j < |verdicts| && verdicts[j].Accepted? && k < |verdicts|
    requires geo.clip(k, sc.work[k] - HullOf(geo, verdicts, j)) == Some(r)
    ensures var hull := HullOf(geo, verdicts, j);
      WriteInv(policy, geo, verdicts, init,
               Scope(if policy == Cumulative then sc.work[k := sc.work[k] - hull] else sc.work,
                     sc.lines[k := sc.lines[k].(coords := r)], sc.log + [Subtracted(j, k)]))
  {
    var hull := HullOf(geo, verdicts, j);
    var e := Subtracted(j, k);
    var log' := sc.log + [e];
    var sc' := Scope(if policy == Cumulative then sc.work[k := sc.work[k] - hull] else sc.work,
                     sc.lines[k := sc.lines[k].(coords := r)], log');
    PrefixesKept(sc.log, e);
    forall m | 0 <= m < |verdicts|
      ensures sc'.work[m] == WorkOf(policy, geo, verdicts, init.work, log', m)
      ensures IsReconciled(log', m) == IsReconciled(sc.log, m)
    {
    }
    forall p, m | 0 <= p < |log'| && 0 <= m < |verdicts| && LastWriteAt(log', p, m)
      ensures StoresWrite(policy, geo, verdicts, init.work, log', p, m, sc'.lines[m].coords)
    {
      if m == k {
        assert p == |sc.log|;
      } else {
        assert p < |sc.log| && log'[p] == sc.log[p];
        assert LastWriteAt(sc.log, p, m);
      }
    }
  }

  /** Reconciling line j, not reconciled before, with its hull placed as `r` keeps the invariant. */
  lemma ReconcileStepWrites(policy: Policy, geo: Geometry, verdicts: seq<Verdict>, init: Scope, sc: Scope, j: nat, r: Region)
    requires WriteInv(policy, geo, verdicts, init, sc)
    requires j < |verdicts| && verdicts[j].Accepted? && !IsReconciled(sc.log, j)
    requires geo.clip(j, HullOf(geo, verdicts, j)) == Some(r)
    ensures var b := geo.baselineOf(verdicts[j].candidates);
      WriteInv(policy, geo, verdicts, init,
               Scope(sc.work[j := HullOf(geo, verdicts, j)],
                     sc.lines[j := Line(r, if b.Some? then b else sc.lines[j].baseline)], sc.log + [Reconciled(j)]))
  {
    var b := geo.baselineOf(verdicts[j].candidates);
    var e := Reconciled(j);
    var log' := sc.log + [e];
    var sc' := Scope(sc.work[j := HullOf(geo, verdicts, j)],
                     sc.lines[j := Line(r, if b.Some? then b else sc.lines[j].baseline)], log');
    PrefixesKept(sc.log, e);
    forall m | 0 <= m < |verdicts|
      ensures sc'.work[m] == WorkOf(policy, geo, verdicts, init.work, log', m)
      ensures sc'.lines[m].baseline == BaselineAfter(geo, verdicts, init.lines, log', m)
    {
      assert IsReconciled(log', m) == (IsReconciled(sc.log, m) || m == j);
    }
    forall p, m | 0 <= p < |log'| && 0 <= m < |verdicts| && LastWriteAt(log', p, m)
      ensures StoresWrite(policy, geo, verdicts, init.work, log', p, m, sc'.lines[m].coords)
    {
      if m == j {
        assert p == |sc.log|;
      } else {
        assert p < |sc.log| && log'[p] == sc.log[p];
        assert LastWriteAt(sc.log, p, m);
      }
    }
  }

  lemma SubtractOneWrites(policy: Policy, geo: Geometry, verdicts: seq<Verdict>, init: Scope, sc: Scope, j: nat, k: nat)
    requires WriteInv(policy, geo, verdicts, init, sc) && k < |verdicts|
    requires j < |verdicts| && verdicts[j].Accepted?
    ensures var sc' := SubtractOne(policy, geo, j, HullOf(geo, verdicts, j), sc, k);
      && WriteInv(policy, geo, verdicts, init, sc')
      && forall i :: IsReconciled(sc'.log, i) <==> IsReconciled(sc.log, i)
  {
    var hull := HullOf(geo, verdicts, j);
    var diff := sc.work[k] - hull;
    if diff == {} {
      QuietStepWrites(policy, geo, verdicts, init, sc, EmptyDifference(j, k));
    } else {
      match geo.clip(k, diff)
      case None =>
        QuietStepWrites(policy, geo, verdicts, init, sc, ClipFailed(j, k));
      case Some(r) =>
        SubtractStepWrites(policy, geo, verdicts, init, sc, j, k, r);
    }
  }

  lemma {:induction false} SubtractRowWrites(policy: Policy, geo: Geometry, verdicts: seq<Verdict>, init: Scope, row: seq<real>,
                                             j: nat, sc: Scope, from: nat)
    requires WriteInv(policy, geo, verdicts, init, sc) && |row| == |verdicts| && from <= |row|
    requires j < |verdicts| && verdicts[j].Accepted?
    ensures var sc' := SubtractRow(policy, geo, row, j, HullOf(geo, verdicts, j), sc, from);
      && WriteInv(policy, geo, verdicts, init, sc')
      && forall i :: IsReconciled(sc'.log, i) <==> IsReconciled(sc.log, i)
    decreases |row| - from
  {
    var hull := HullOf(geo, verdicts, j);
    if from == |row| {
    } else if !(row[from] > OverlapLimit) || from == j {
      SubtractRowWrites(policy, geo, verdicts, init, row, j, sc, from + 1);
    } else {
      SubtractOneWrites(policy, geo, verdicts, init, sc, j, from);
      SubtractRowWrites(policy, geo, verdicts, init, row, j, SubtractOne(policy, geo, j, hull, sc, from), from + 1);
    }
  }

  lemma {:induction false} SubtractCandidatesWrites(policy: Policy, geo: Geometry, fitsFg: seq<seq<real>>, verdicts: seq<Verdict>,
                                                    init: Scope, j: nat, candidates: seq<nat>, sc: Scope)
    requires WriteInv(policy, geo, verdicts, init, sc) && IsMatrix(fitsFg, |fitsFg|, |verdicts|)
    requires j < |verdicts| && verdicts[j].Accepted?
    requires forall k :: 0 <= k < |candidates| ==> candidates[k] < |fitsFg|
    ensures var sc' := SubtractCandidates(policy, geo, fitsFg, |verdicts|, j, HullOf(geo, verdicts, j), candidates, sc);
      && WriteInv(policy, geo, verdicts, init, sc')
      && forall i :: IsReconciled(sc'.log, i) <==> IsReconciled(sc.log, i)
    decreases |candidates|
  {
    if |candidates| > 0 {
      var hull := HullOf(geo, verdicts, j);
      SubtractRowWrites(policy, geo, verdicts, init, fitsFg[candidates[0]], j, sc, 0);
      SubtractCandidatesWrites(policy, geo, fitsFg, verdicts, init, j, candidates[1..],
                               SubtractRow(policy, geo, fitsFg[candidates[0]], j, hull, sc, 0));
    }
  }

  lemma {:induction false} ReconcileFromWrites(policy: Policy, geo: Geometry, fitsFg: seq<seq<real>>, verdicts: seq<Verdict>,
                                               init: Scope, j: nat, sc: Scope)
    requires WriteInv(policy, geo, verdicts, init, sc)
    requires IsMatrix(fitsFg, |fitsFg|, |verdicts|) && VerdictsFit(verdicts, |fitsFg|)
    requires forall i: nat :: IsReconciled(sc.log, i) ==> i < j
    ensures WriteInv(policy, geo, verdicts, init, ReconcileFrom(policy, geo, fitsFg, |verdicts|, verdicts, j, sc))
    decreases |verdicts| - j
  {
    var cols := |verdicts|;
    if j >= cols {
    } else if !verdicts[j].Accepted? {
      ReconcileFromWrites(policy, geo, fitsFg, verdicts, init, j + 1, sc);
    } else {
      var candidates := verdicts[j].candidates;
      var hull := geo.hull(candidates);
      match geo.clip(j, hull)
      case None =>
        QuietStepWrites(policy, geo, verdicts, init, sc, Abandoned(j));
      case Some(r) =>
        var baseline := geo.baselineOf(candidates);
        var line := Line(r, if baseline.Some? then baseline else sc.lines[j].baseline);
        var sc1 := Scope(sc.work[j := hull], sc.lines[j := line], sc.log + [Reconciled(j)]);
        ReconcileStepWrites(policy, geo, verdicts, init, sc, j, r);
        forall i: nat | IsReconciled(sc1.log, i)
          ensures i < j + 1
        {
          assert Reconciled(i) in sc.log + [Reconciled(j)];
          if i != j {
            assert IsReconciled(sc.log, i);
          }
        }
        SubtractCandidatesWrites(policy, geo, fitsFg, verdicts, init, j, candidates, sc1);
        ReconcileFromWrites(policy, geo, fitsFg, verdicts, init, j + 1,
                            SubtractCandidates(policy, geo, fitsFg, cols, j, hull, candidates, sc1));
    }
  }

  /**
   * What the run writes, under either policy. A line whose last write was
   * its reconciliation holds its placed hull; a line whose last write was a
   * subtraction holds the placed remainder of its working polygon at that
   * moment minus the subtracted hull (as written, that working polygon is
   * its original polygon, or its hull once reconciled: see
   * `WorkOfAsWritten`). A reconciled line has the joined baseline of its
   * new lines when they have one; every other baseline is kept.
   */
  lemma ReconcileWrites(policy: Policy, geo: Geometry, fitsFg: seq<seq<real>>, verdicts: seq<Verdict>,
                        work: seq<Region>, lines: seq<Line>)
    requires IsMatrix(fitsFg, |fitsFg|, |verdicts|) && VerdictsFit(verdicts, |fitsFg|)
    requires |work| == |verdicts| && |lines| == |verdicts|
    ensures var sc := Reconcile(policy, geo, fitsFg, |verdicts|, verdicts, work, lines);
      && (forall k :: 0 <= k < |verdicts| ==> sc.lines[k].baseline == BaselineAfter(geo, verdicts, lines, sc.log, k))
      && (forall p, k :: 0 <= p < |sc.log| && 0 <= k < |verdicts| && LastWriteAt(sc.log, p, k) ==>
            StoresWrite(policy, geo, verdicts, work, sc.log, p, k, sc.lines[k].coords))
  {
    var init := Scope(work, lines, []);
    ReconcileFromWrites(policy, geo, fitsFg, verdicts, init, 0, init);
  }

  // ---------------------------------------------------------------------
  // Subtraction as written: the second subtraction undoes the first

  /**
   * Three existing lines on one row of points; new line 0 replaces line 0,
   * new line 1 replaces line 1, and each also has ink in line 2, which
   * covers all three points.
   */
  const P0 := Point(0, 0)
  const P1 := Point(1, 0)
  const P2 := Point(2, 0)

  const ExampleGeometry := Geometry(
    c => if 0 in c then {P0} else if 1 in c then {P1} else {},
    c => None,
    p => p,
    (k, r) => Some(r))

  const ExampleVerdicts := [Accepted([0]), Accepted([1]), NoCandidates]
  const ExampleFitsFg := [[0.8, 0.0, 0.3], [0.0, 0.8, 0.3]]
  const ExampleWork: seq<Region> := [{P0}, {P1}, {P0, P1, P2}]
  const ExampleLines := [Line({P0}, None), Line({P1}, None), Line({P0, P1, P2}, None)]

  /** The example scope before reconciliation, and after each of its four steps. */
  const ExampleStart := Scope(ExampleWork, ExampleLines, [])
  const ExampleAfterFirst := Scope(ExampleStart.work[0 := {P0}], ExampleStart.lines[0 := Line({P0}, ExampleStart.lines[0].baseline)],
                                   ExampleStart.log + [Reconciled(0)])

  function ExampleAfterSecond(policy: Policy): Scope
  {
    Scope(if policy == Cumulative then ExampleAfterFirst.work[2 := {P1, P2}] else ExampleAfterFirst.work,
          ExampleAfterFirst.lines[2 := Line({P1, P2}, None)],
          ExampleAfterFirst.log + [Subtracted(0, 2)])
  }

  function ExampleAfterThird(policy: Policy): Scope
  {
    var sc := ExampleAfterSecond(policy);
    Scope(sc.work[1 := {P1}], sc.lines[1 := Line({P1}, None)], sc.log + [Reconciled(1)])
  }

  /** The remainder of line 2 after the second subtraction. */
  function ExampleRemainder(policy: Policy): Region
  {
    if policy == Cumulative then {P2} else {P0, P2}
  }

  function ExampleAfterFourth(policy: Policy): Scope
  {
    var sc := ExampleAfterThird(policy);
    Scope(if policy == Cumulative then sc.work[2 := {P2}] else sc.work,
          sc.lines[2 := Line(ExampleRemainder(policy), None)],
          sc.log + [Subtracted(1, 2)])
  }

  lemma ExampleWellFormed()
    ensures IsMatrix(ExampleFitsFg, 2, 3) && VerdictsFit(ExampleVerdicts, 2)
  {
    assert IsMatrix(ExampleFitsFg, 2, 3);
    forall j | 0 <= j < 3 && ExampleVerdicts[j].Accepted?
      ensures forall k :: 0 <= k < |ExampleVerdicts[j].candidates| ==> ExampleVerdicts[j].candidates[k] < 2
    {
      assert j == 0 || j == 1;
    }
  }

  lemma ExampleReconcilesFirst(policy: Policy)
    requires IsMatrix(ExampleFitsFg, 2, 3) && VerdictsFit(ExampleVerdicts, 2)
    ensures ReconcileFrom(policy, ExampleGeometry, ExampleFitsFg, 3, ExampleVerdicts, 0, ExampleStart)
         == ReconcileFrom(policy, ExampleGeometry, ExampleFitsFg, 3, ExampleVerdicts, 1,
              SubtractCandidates(policy, ExampleGeometry, ExampleFitsFg, 3, 0, {P0}, [0], ExampleAfterFirst))
  {
    assert ExampleVerdicts[0] == Accepted([0]);
    assert ExampleGeometry.hull([0]) == {P0};
    assert ExampleGeometry.baselineOf([0]) == None;
    assert ExampleGeometry.clip(0, {P0}) == Some({P0});
  }

  lemma ExampleSubtractsFirst(policy: Policy)
    requires IsMatrix(ExampleFitsFg, 2, 3)
    ensures SubtractCandidates(policy, ExampleGeometry, ExampleFitsFg, 3, 0, {P0}, [0], ExampleAfterFirst)
         == ExampleAfterSecond(policy)
  {
    var geo, row, sc := ExampleGeometry, ExampleFitsFg[0], ExampleAfterFirst;
    assert {P0, P1, P2} - {P0} == {P1, P2};
    assert SubtractOne(policy, geo, 0, {P0}, sc, 2) == ExampleAfterSecond(policy);
    assert SubtractRow(policy, geo, row, 0, {P0}, sc, 0) == SubtractRow(policy, geo, row, 0, {P0}, sc, 2);
  }

  lemma ExampleReconcilesSecond(policy: Policy)
    requires IsMatrix(ExampleFitsFg, 2, 3)
    ensures ReconcileFrom(policy, ExampleGeometry, ExampleFitsFg, 3, ExampleVerdicts, 1, ExampleAfterSecond(policy))
         == ReconcileFrom(policy, ExampleGeometry, ExampleFitsFg, 3, ExampleVerdicts, 2,
              SubtractCandidates(policy, ExampleGeometry, ExampleFitsFg, 3, 1, {P1}, [1], ExampleAfterThird(policy)))
  {
    assert ExampleGeometry.hull([1]) == {P1};
  }

  lemma ExampleSubtractsSecond(policy: Policy)
    requires IsMatrix(ExampleFitsFg, 2, 3)
    ensures SubtractCandidates(policy, ExampleGeometry, ExampleFitsFg, 3, 1, {P1}, [1], ExampleAfterThird(policy))
         == ExampleAfterFourth(policy)
  {
    var geo, row, sc := ExampleGeometry, ExampleFitsFg[1], ExampleAfterThird(policy);
    if policy == Cumulative {
      assert sc.work[2] == {P1, P2};
      assert {P1, P2} - {P1} == {P2};
    } else {
      assert sc.work[2] == {P0, P1, P2};
      assert {P0, P1, P2} - {P1} == {P0, P2};
    }
    assert SubtractOne(policy, geo, 1, {P1}, sc, 2) == ExampleAfterFourth(policy);
    assert SubtractRow(policy, geo, row, 1, {P1}, sc, 0) == SubtractRow(policy, geo, row, 1, {P1}, sc, 2);
  }

  /** Both policies log the same four events on the example; they differ only in what line 2 keeps. */
  lemma ExampleRun(policy: Policy)
    ensures Reconcile(policy, ExampleGeometry, ExampleFitsFg, 3, ExampleVerdicts, ExampleWork, ExampleLines)
         == ExampleAfterFourth(policy)
  {
    ExampleWellFormed();
    ExampleReconcilesFirst(policy);
    ExampleSubtractsFirst(policy);
    ExampleReconcilesSecond(policy);
    ExampleSubtractsSecond(policy);
    assert ReconcileFrom(policy, ExampleGeometry, ExampleFitsFg, 3, ExampleVerdicts, 2, ExampleAfterFourth(policy))
        == ExampleAfterFourth(policy);
  }

  /**
   * As written, line 2 ends up overlapping line 0's new outline although
   * line 0's hull was subtracted from it and line 2 was not reconciled
   * afterwards: the subtraction of line 1's hull starts again from line 2's
   * original polygon. Line 2 was rejected (it has no new lines) and still
   * changed.
   */
  lemma AsWrittenSubtractionOverwrites()
    ensures var sc := Reconcile(AsWritten, ExampleGeometry, ExampleFitsFg, 3, ExampleVerdicts, ExampleWork, ExampleLines);
      && sc.log == [Reconciled(0), Subtracted(0, 2), Reconciled(1), Subtracted(1, 2)]
      && StillSubtracted(sc.log, 1)
      && sc.lines[2].coords * sc.lines[0].coords == {P0}
      && !ExampleVerdicts[2].Accepted? && sc.lines[2] != ExampleLines[2]
  {
    ExampleRun(AsWritten);
    var sc := ExampleAfterFourth(AsWritten);
    assert sc.lines[2].coords == {P0, P2} && sc.lines[0].coords == {P0};
    assert {P0, P2} * {P0} == {P0};
    assert P1 !in sc.lines[2].coords;
  }

  /** With cumulative subtraction the same scope leaves line 2 with the one point nobody else claims. */
  lemma CumulativeSubtractionAccumulates()
    ensures var sc := Reconcile(Cumulative, ExampleGeometry, ExampleFitsFg, 3, ExampleVerdicts, ExampleWork, ExampleLines);
      && sc.log == [Reconciled(0), Subtracted(0, 2), Reconciled(1), Subtracted(1, 2)]
      && sc.lines[2].coords == {P2}
  {
    ExampleRun(Cumulative);
  }
}
