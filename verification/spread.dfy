/**
 * The label-spreading variant of re-segmentation: after seed labels have
 * been spread over the connected components (external raster algorithms),
 * each existing line is rewritten from its spread label only if the new
 * label differs from the old one and covers enough of the old line's area
 * and ink.
 */
module Spread {
  import opened Options
  import opened Raster
  import opened Shapes

  /** Fewest points a contour needs to become a polygon. */
  const MinContourPoints: nat := 4

  /** Why a line keeps its outline. */
  datatype Reason =
    | SameLabel       // the spread label is exactly the old one
    | ZeroArea        // the old line covers no pixel
    | LowBackground   // the new label covers too little of the old line's area
    | BinaryEmpty     // the old line covers no ink
    | LowForeground   // the new label covers too little of the old line's ink
    | NoContours      // the new label has no contour
    | Extant          // the new outline cannot be placed inside the parent

  datatype Decision = Keep(reason: Reason) | Rewrite(coords: Region)

  /** For a positive divisor, a quotient is below a bound exactly when the dividend is below bound times divisor. */
  lemma QuotientBelow(a: real, b: real, t: real)
    requires b > 0.0
    ensures a / b < t <==> a < t * b
  {
    assert a == (a / b) * b;
    if a / b < t {
      assert (a / b) * b < t * b;
    } else {
      assert (a / b) * b >= t * b;
    }
  }

  /** Whether `part / whole` (pixel counts, as a real quotient) falls short of `share`. */
  function ShortOf(part: nat, whole: nat, share: real): (b: bool)
    requires whole > 0
    ensures b <==> (part as real) < share * (whole as real)
  {
    QuotientBelow(part as real, whole as real, share);
    (part as real) / (whole as real) < share
  }

  /** The pixel counts the gates of one line look at. */
  datatype Counts = Counts(
    same: bool,      // the new label equals the old one pixel by pixel
    oldArea: nat,    // pixels of the old line
    newArea: nat,    // pixels of the new label
    oldInk: nat,     // ink pixels of the old line
    newInk: nat)     // ink pixels of the new label

  function CountsOf(newLabel: Mask, oldLabel: Mask, binarized: Mask): Counts
    requires |newLabel| == |oldLabel| == |binarized|
  {
    Counts(newLabel == oldLabel, Count(oldLabel), Count(newLabel),
           Count(And(oldLabel, binarized)), Count(And(newLabel, binarized)))
  }

  /**
   * The line passes every gate: its label changed, the old line is not
   * empty, the new label has at least threshold/3 of the old area and at
   * least `threshold` of the old ink (counted multiplicatively).
   */
  predicate Passes(c: Counts, threshold: real)
  {
    && !c.same
    && c.oldArea > 0
    && (c.newArea as real) >= threshold / 3.0 * (c.oldArea as real)
    && c.oldInk > 0
    && (c.newInk as real) >= threshold * (c.oldInk as real)
  }

  /**
   * The gates of one line, in order: `None` when the new label passes them
   * all, otherwise the first reason to keep the old outline.
   */
  function Gate(c: Counts, threshold: real): (g: Option<Reason>)
    ensures g == Some(SameLabel) <==> c.same
    ensures g == Some(ZeroArea) <==> !c.same && c.oldArea == 0
    ensures g == Some(LowBackground) <==>
              !c.same && c.oldArea > 0 && (c.newArea as real) < threshold / 3.0 * (c.oldArea as real)
    ensures g == Some(BinaryEmpty) <==>
              !c.same && c.oldArea > 0 && (c.newArea as real) >= threshold / 3.0 * (c.oldArea as real)
              && c.oldInk == 0
    ensures g == Some(LowForeground) <==>
              !c.same && c.oldArea > 0 && (c.newArea as real) >= threshold / 3.0 * (c.oldArea as real)
              && c.oldInk > 0 && (c.newInk as real) < threshold * (c.oldInk as real)
    ensures g.None? <==> Passes(c, threshold)
    ensures g != Some(NoContours) && g != Some(Extant)
  {
    if c.same then Some(SameLabel)
    else if c.oldArea == 0 then Some(ZeroArea)
    else if ShortOf(c.newArea, c.oldArea, threshold / 3.0) then Some(LowBackground)
    else if c.oldInk == 0 then Some(BinaryEmpty)
    else if ShortOf(c.newInk, c.oldInk, threshold) then Some(LowForeground)
    else None
  }

  /**
   * The polygon geometry the rewrite delegates: `join` makes one outline
   * from the usable contours (concave hull), `clip(i, r)` places it in page
   * coordinates inside line i's parent, or is None when nothing valid remains.
   */
  datatype ContourGeometry = ContourGeometry(
    join: seq<seq<Point>> -> Region,
    clip: (nat, Region) -> Option<Region>)

  /** The contours with at least `MinContourPoints` points, in their original order. */
  function LongContours(contours: seq<seq<Point>>): (r: seq<seq<Point>>)
    ensures forall c :: c in r <==> c in contours && |c| >= MinContourPoints
    ensures |r| <= |contours|
  {
    if |contours| == 0 then []
    else if |contours[0]| >= MinContourPoints then [contours[0]] + LongContours(contours[1..])
    else LongContours(contours[1..])
  }

  /** A single contour is kept exactly when it is long enough. */
  lemma LongContoursSingle(c: seq<Point>)
    ensures LongContours([c]) == if |c| >= MinContourPoints then [c] else []
  {
    assert [c][1..] == [];
  }

  /**
   * Filtering distributes over concatenation: with `LongContoursSingle`
   * this makes `LongContours` the order-preserving filter, so the contours
   * reach `join` in the order they were found.
   */
  lemma {:induction false} LongContoursAppend(a: seq<seq<Point>>, b: seq<seq<Point>>)
    ensures LongContours(a + b) == LongContours(a) + LongContours(b)
    decreases |a|
  {
    if |a| == 0 {
      assert a + b == b;
    } else {
      var ab := a + b;
      assert ab[1..] == a[1..] + b;
      assert ab[0] == a[0];
      LongContoursAppend(a[1..], b);
      if |a[0]| >= MinContourPoints {
        calc {
          LongContours(ab);
          [a[0]] + LongContours(a[1..] + b);
          [a[0]] + (LongContours(a[1..]) + LongContours(b));
          ([a[0]] + LongContours(a[1..])) + LongContours(b);
        }
      }
    }
  }

  /**
   * The decision for line i: its gates, then its contours (as found on the
   * new label), then the placement of their joined outline.
   */
  function SpreadLine(geo: ContourGeometry, i: nat, newLabels: seq<int>, oldLabel: Mask, binarized: Mask,
                      contours: seq<seq<Point>>, threshold: real): (d: Decision)
    requires |newLabels| == |oldLabel| == |binarized|
    ensures d.Rewrite? ==>
              Passes(CountsOf(LabelMask(newLabels, i + 1), oldLabel, binarized), threshold) && |contours| > 0
              && geo.clip(i, geo.join(LongContours(contours))) == Some(d.coords)
    ensures Passes(CountsOf(LabelMask(newLabels, i + 1), oldLabel, binarized), threshold) && |contours| > 0
            && geo.clip(i, geo.join(LongContours(contours))).Some? ==>
              d == Rewrite(geo.clip(i, geo.join(LongContours(contours))).value)
    ensures d.Keep? && d.reason != NoContours && d.reason != Extant ==>
              Gate(CountsOf(LabelMask(newLabels, i + 1), oldLabel, binarized), threshold) == Some(d.reason)
    ensures d.Keep? && d.reason == NoContours ==>
              Passes(CountsOf(LabelMask(newLabels, i + 1), oldLabel, binarized), threshold) && |contours| == 0
    ensures d.Keep? && d.reason == Extant ==>
              Passes(CountsOf(LabelMask(newLabels, i + 1), oldLabel, binarized), threshold) && |contours| > 0
              && geo.clip(i, geo.join(LongContours(contours))).None?
  {
    var gate := Gate(CountsOf(LabelMask(newLabels, i + 1), oldLabel, binarized), threshold);
    if gate.Some? then Keep(gate.value)
    else if |contours| == 0 then Keep(NoContours)
    else
      match geo.clip(i, geo.join(LongContours(contours)))
      case None => Keep(Extant)
      case Some(r) => Rewrite(r)
  }

  /**
   * The outlines after spreading: line i is rewritten from label i + 1 of
   * the spread labels, or keeps `lines[i]`.
   */
  function SpreadAll(geo: ContourGeometry, lines: seq<Region>, oldLabels: seq<Mask>, newLabels: seq<int>,
                     binarized: Mask, contours: seq<seq<seq<Point>>>, threshold: real): (r: seq<Region>)
    requires |oldLabels| == |lines| && |contours| == |lines|
    requires forall i :: 0 <= i < |oldLabels| ==> |oldLabels[i]| == |newLabels|
    requires |binarized| == |newLabels|
    ensures |r| == |lines|
    ensures forall i :: 0 <= i < |lines| && r[i] != lines[i] ==>
              && Passes(CountsOf(LabelMask(newLabels, i + 1), oldLabels[i], binarized), threshold)
              && |contours[i]| > 0
              && geo.clip(i, geo.join(LongContours(contours[i]))) == Some(r[i])
    ensures forall i :: 0 <= i < |lines| && LabelMask(newLabels, i + 1) == oldLabels[i] ==> r[i] == lines[i]
    ensures forall i :: 0 <= i < |lines| && SpreadLine(geo, i, newLabels, oldLabels[i], binarized, contours[i], threshold).Rewrite? ==>
              r[i] == SpreadLine(geo, i, newLabels, oldLabels[i], binarized, contours[i], threshold).coords
  {
    seq(|lines|, i requires 0 <= i < |lines| =>
      var d := SpreadLine(geo, i, newLabels, oldLabels[i], binarized, contours[i], threshold);
      if d.Rewrite? then d.coords else lines[i])
  }

  /** Lowering the threshold never turns a passing line into a kept one. */
  lemma PassesAntitone(c: Counts, threshold: real, lower: real)
    requires lower <= threshold
    requires Passes(c, threshold)
    ensures Passes(c, lower)
  {
    assert (threshold - lower) * (c.oldArea as real) >= 0.0;
    assert (threshold - lower) * (c.oldInk as real) >= 0.0;
  }
}
