/**
 * Overlap scoring between the lines a detector found ("new" lines, rows i)
 * and the lines already annotated ("existing" lines, columns j).
 *
 * For each pair the scorer records how much of the new line the overlap
 * fills (`fits`) and how much of the existing line it covers (`covers`),
 * once by polygon area (`bg`) and once by ink pixels (`fg`).
 */
module Overlap {
  import opened Options
  import opened Raster
  import opened Matrix

  /**
   * What the geometry library reports about one pair: whether the two
   * polygons intersect, and the area of their repaired intersection unless
   * that intersection came out empty.
   */
  datatype PairGeometry = PairGeometry(intersects: bool, interArea: Option<real>)

  /** The four ratios recorded for one pair. */
  datatype Ratios = Ratios(fitsBg: real, fitsFg: real, coversBg: real, coversFg: real)

  /** The entry a pair keeps when it is skipped. */
  const NoOverlap := Ratios(0.0, 0.0, 0.0, 0.0)

  /**
   * What the model assumes of the repaired intersection the geometry
   * library returns: when it is not empty, its area is positive and at most
   * either polygon's area. The repair step lies outside this model, so this
   * is a premise of the scoring, not a fact proved here.
   */
  predicate AreasConsistent(g: PairGeometry, newArea: real, oldArea: real)
  {
    g.interArea.Some? ==> 0.0 < g.interArea.value <= newArea && g.interArea.value <= oldArea
  }

  predicate InUnitRange(r: Ratios)
  {
    && 0.0 <= r.fitsBg <= 1.0
    && 0.0 <= r.fitsFg <= 1.0
    && 0.0 <= r.coversBg <= 1.0
    && 0.0 <= r.coversFg <= 1.0
  }

  /**
   * A pair is scored only when the polygons intersect with a non-empty
   * intersection and the overlap ink, the new line's ink and the existing
   * line's ink are all non-empty (pixel counts given).
   */
  predicate Overlapping(g: PairGeometry, interInk: nat, newInk: nat, oldInk: nat)
  {
    g.intersects && g.interArea.Some? && interInk > 0 && newInk > 0 && oldInk > 0
  }

  /** The share `part / whole` of a part in a positive whole: a value in [0, 1], positive for a positive part. */
  function Fraction(part: real, whole: real): (q: real)
    requires 0.0 <= part <= whole && 0.0 < whole
    ensures 0.0 <= q <= 1.0
    ensures q * whole == part
    ensures part > 0.0 ==> q > 0.0
  {
    part / whole
  }

  /**
   * The ratios of one pair, from the intersection's area and the ink pixel
   * counts of the overlap, the new line and the existing line. The overlap
   * ink lies in both lines' ink, so it never outnumbers either.
   */
  function PairRatios(g: PairGeometry, newArea: real, oldArea: real, interInk: nat, newInk: nat, oldInk: nat): (r: Ratios)
    requires AreasConsistent(g, newArea, oldArea)
    requires interInk <= newInk && interInk <= oldInk
    ensures InUnitRange(r)
    ensures r != NoOverlap <==> Overlapping(g, interInk, newInk, oldInk)
    ensures Overlapping(g, interInk, newInk, oldInk) ==>
      && r.fitsBg * newArea == g.interArea.value
      && r.coversBg * oldArea == g.interArea.value
      && r.fitsFg * (newInk as real) == interInk as real
      && r.coversFg * (oldInk as real) == interInk as real
  {
    if !g.intersects || g.interArea.None? then NoOverlap
    else if interInk == 0 || newInk == 0 || oldInk == 0 then NoOverlap
    else
      var area := g.interArea.value;
      Ratios(Fraction(area, newArea), Fraction(interInk as real, newInk as real),
             Fraction(area, oldArea), Fraction(interInk as real, oldInk as real))
  }

  /**
   * The two segmentations of one page or region: the binarized image, the
   * detector's label raster (new line i carries label i+1), one mask per
   * existing line, the polygon areas, and the pairwise geometry.
   */
  datatype Segmentations = Segmentations(
    binarized: Mask,
    newLabels: seq<int>,
    lineMasks: seq<Mask>,
    newAreas: seq<real>,
    oldAreas: seq<real>,
    geometry: seq<seq<PairGeometry>>)
  {
    function NewCount(): nat { |newAreas| }

    function OldCount(): nat { |lineMasks| }

    predicate Valid()
    {
      && |newLabels| == |binarized|
      && (forall j :: 0 <= j < |lineMasks| ==> |lineMasks[j]| == |binarized|)
      && |oldAreas| == |lineMasks|
      && |geometry| == |newAreas|
      && (forall i :: 0 <= i < |geometry| ==> |geometry[i]| == |lineMasks|)
      && (forall i, j :: 0 <= i < |geometry| && 0 <= j < |lineMasks| ==>
            AreasConsistent(geometry[i][j], newAreas[i], oldAreas[j]))
    }

    /** Ink of new line i: its label pixels that are foreground. */
    function NewInk(i: nat): (m: Mask)
      requires Valid()
      ensures |m| == |binarized|
    {
      And(LabelMask(newLabels, i + 1), binarized)
    }

    /** Ink of existing line j: its mask pixels that are foreground. */
    function OldInk(j: nat): (m: Mask)
      requires Valid() && j < OldCount()
      ensures |m| == |binarized|
    {
      And(lineMasks[j], binarized)
    }

    /** Ink of the overlap of new line i and existing line j. */
    function InterInk(i: nat, j: nat): (m: Mask)
      requires Valid() && j < OldCount()
      ensures |m| == |binarized|
    {
      And(NewInk(i), OldInk(j))
    }

    /** Pair (i, j) overlaps in the sense of `Overlapping`, stated on the masks. */
    predicate Overlaps(i: nat, j: nat)
      requires Valid() && i < NewCount() && j < OldCount()
    {
      Overlapping(geometry[i][j], Count(InterInk(i, j)), Count(NewInk(i)), Count(OldInk(j)))
    }

    function PairAt(i: nat, j: nat): Ratios
      requires Valid() && i < NewCount() && j < OldCount()
    {
      CountAndBound(NewInk(i), OldInk(j));
      PairRatios(geometry[i][j], newAreas[i], oldAreas[j],
                 Count(InterInk(i, j)), Count(NewInk(i)), Count(OldInk(j)))
    }
  }

  /** The four score matrices, rows indexed by new line, columns by existing line. */
  datatype ScoreMatrices = ScoreMatrices(
    fitsBg: seq<seq<real>>,
    fitsFg: seq<seq<real>>,
    coversBg: seq<seq<real>>,
    coversFg: seq<seq<real>>)
  {
    predicate Shaped(rows: nat, cols: nat)
    {
      IsMatrix(fitsBg, rows, cols) && IsMatrix(fitsFg, rows, cols)
      && IsMatrix(coversBg, rows, cols) && IsMatrix(coversFg, rows, cols)
    }

    function At(i: nat, j: nat): Ratios
      requires i < |fitsBg| && i < |fitsFg| && i < |coversBg| && i < |coversFg|
      requires j < |fitsBg[i]| && j < |fitsFg[i]| && j < |coversBg[i]| && j < |coversFg[i]|
    {
      Ratios(fitsBg[i][j], fitsFg[i][j], coversBg[i][j], coversFg[i][j])
    }
  }

  /**
   * The score matrices of two segmentations. Every entry is a ratio in
   * [0, 1], and an entry is non-zero exactly for overlapping pairs.
   */
  function Scores(s: Segmentations): (m: ScoreMatrices)
    requires s.Valid()
    ensures m.Shaped(s.NewCount(), s.OldCount())
    ensures forall i, j :: 0 <= i < s.NewCount() && 0 <= j < s.OldCount() ==>
      && m.At(i, j) == s.PairAt(i, j)
      && InUnitRange(m.At(i, j))
      && (m.At(i, j) != NoOverlap <==> s.Overlaps(i, j))
  {
    var rows := s.NewCount();
    var cols := s.OldCount();
    var cells := seq(rows, i requires 0 <= i < rows =>
                   seq(cols, j requires 0 <= j < cols => s.PairAt(i, j)));
    ScoreMatrices(
      seq(rows, i requires 0 <= i < rows => seq(cols, j requires 0 <= j < cols => cells[i][j].fitsBg)),
      seq(rows, i requires 0 <= i < rows => seq(cols, j requires 0 <= j < cols => cells[i][j].fitsFg)),
      seq(rows, i requires 0 <= i < rows => seq(cols, j requires 0 <= j < cols => cells[i][j].coversBg)),
      seq(rows, i requires 0 <= i < rows => seq(cols, j requires 0 <= j < cols => cells[i][j].coversFg)))
  }
}
