# Line re-segmentation and deskew orientation, modelled in Dafny

This project models the decision logic of the OCR-D line re-segmenter
(`ocrd_cis/ocropy/resegment.py`) and the orientation arithmetic of the
deskewer (`ocrd_cis/ocropy/deskew.py`).

The re-segmenter works on one scope at a time: a page or a text region with
existing text lines. A line detector proposes new lines for the scope. The
re-segmenter then:

1. **Scores** every (new line *i*, existing line *j*) pair with four ratios
   (`Overlap`):
   - `fits`: how much of the new line the overlap fills;
   - `covers`: how much of the existing line the overlap covers;
   - each measured once by polygon area (`bg`) and once by ink pixels (`fg`).
2. **Aligns** greedily (`Alignment`):
   - repeatedly picks the kept new line and existing line with the largest
     `covers_fg * covers_bg`;
   - accepts the pair only if `fits_bg > 0.6` and `fits_fg > 0.7`;
   - otherwise zeroes the pair's covers and tries again;
   - runs at most one round per new line.
3. **Validates** every existing line with four gates (`Validation`).
4. **Reconciles** the accepted lines in order (`Reconcile`):
   - the line's outline becomes the joined hull of its new lines;
   - that hull is subtracted from every other line one of those new lines
     overlaps by more than 10% of its ink.
   `Resegment` composes the four steps.

The label-spreading variant (`Seeds`, `Spread`) builds seed labels in one of
two ways:
- from the lines' distance transforms ("ccomps");
- from bands along the baselines ("baseline").
An external algorithm spreads these labels over the ink. A line is then
rewritten from its spread label only if that label passes five pixel-count
gates.

`Deskew` maps the found skew angle to a clockwise orientation in (-180, 180].

## How the model abstracts

- **Rasters** are flattened `seq<bool>` masks and `seq<int>` label rasters.
  Pixel counts are `Raster.Count`.
- **Polygons** are sets of points (`Shapes.Region`):
  - intersection and difference are set operations;
  - polygon areas are given non-negative reals.
- **External geometry becomes function parameters**
  (`Reconcile.Geometry`, `Spread.ContourGeometry`):
  - the concave hull of several polygons;
  - the joined baselines;
  - the conversion from the parent's coordinates to page coordinates
    (`toPage`: the parent's offset and rotation);
  - that conversion together with clipping to the parent (`clip`).
  Clipping may fail (`None`). Working polygons stay in the parent's
  coordinates, and written outlines are in page coordinates. Where a theorem
  needs it (`Reconcile.ClipShrinks`), the conversion is assumed to keep
  distinct points distinct, and clipping is assumed to add nothing beyond
  the converted region. `Reconcile.ShiftedClipShrinks` shows that a parent
  offset from the page origin meets this assumption.
- **The detector's output** is a `Overlap.Segmentations` value. The
  detector failing is `None` (`Resegment.ResegmentScope`).
- **Ratios** are exact reals. NumPy's `argmax` returns the first maximum in
  row-major order; the model picks the lowest kept row, then the lowest
  column (`Alignment.Choose`).
- **The run's log** is kept as a sequence of events (`Reconcile.Event`), so
  the theorems can say what happened and in which order.
- **Validation** only reads the assignment and the covers matrices, and
  reconciliation never changes them. So the model computes all verdicts
  first (`Resegment.Plan`) and reconciles afterwards. The source
  interleaves the two per line; the result is the same.

### Where the code and its docstring differ

The docstring of `process` (`resegment.py:77-80`) says that in the end
every new and existing line has been used at most once. The model follows
the code, where that does not hold:

- **A line can be written several times.** A line is reconciled, and later
  accepted lines still subtract from it (`resegment.py:412-428`). A line
  that was not resegmented is shrunk the same way.
  `Reconcile.AsWrittenSubtractionOverwrites` shows a line that is changed
  twice although it was never accepted.

### Behaviours of the code worth knowing

- **A hull that cannot be placed abandons the scope.** Failing to place an
  accepted line's hull returns from the whole scope: later lines are
  neither reconciled nor subtracted from (`resegment.py:401-403`). The same
  failure during a subtraction only skips that subtraction
  (`resegment.py:425-427`). `Reconcile.ReconcileSound` states both
  behaviours.
- **A rejected pair uses up a round.** The alignment loop runs at most one
  round per new line, and a round that rejects a pair counts like one that
  assigns. So a new line can stay unassigned although it fits an existing
  line (`resegment.py:332-360`, `Alignment.RejectionsUseUpRounds`).

## Model

| member | source | states |
|---|---|---|
| Raster.CountPositive | ocrd_cis/ocropy/resegment.py:308-312 | a pixel count is non-zero exactly when some pixel of the mask is set, which is what the skip test relies on |
| Raster.CountAndBound | ocrd_cis/ocropy/resegment.py:306-308 | the ink of an intersection of masks has no more pixels than either mask |
| Overlap.PairRatios | ocrd_cis/ocropy/resegment.py:300-318 | a pair keeps all four ratios at 0 unless the polygons intersect, the intersection is non-empty and the overlap, new-line and old-line ink are all non-empty; otherwise each ratio is the share of the intersection in the new line (fits) or in the existing line (covers), by area and by ink, and lies in [0, 1] |
| Overlap.Scores | ocrd_cis/ocropy/resegment.py:290-318 | the four matrices have one row per new line and one column per existing line; every entry is the pair's ratio, lies in [0, 1], and a cell is non-zero exactly for overlapping pairs |
| Alignment.Choose | ocrd_cis/ocropy/resegment.py:333-347 | the chosen pair maximises `covers_fg * covers_bg` over kept rows and all columns, and is the first such pair in row-major order |
| Alignment.FirstMaxUnique | ocrd_cis/ocropy/resegment.py:340 | the row-major first maximum is unique, so the choice is determined |
| Alignment.AlignStep | ocrd_cis/ocropy/resegment.py:354-362 | a fitting pair (`fits_bg > 0.6`, `fits_fg > 0.7`) assigns its row and drops it from the kept rows; a failing pair has both covers zeroed, stays unassigned and kept; no other row or cell changes |
| Alignment.AlignmentSound | ocrd_cis/ocropy/resegment.py:323-363 | after the loop every new line is unassigned exactly when still kept, otherwise assigned to a valid existing line it fits; covers of assigned pairs are untouched and every zeroed covers entry belongs to a failing pair |
| Alignment.ForcedAlignment | ocrd_cis/ocropy/resegment.py:325-363 | the loop as written (at most one round per new line, leaving when the kept view is empty) computes exactly the functional alignment, so its assignments are in [-1, dim2) and only fitting pairs are assigned |
| Alignment.SeveralNewLinesPerExistingLine | ocrd_cis/ocropy/resegment.py:363 | existing lines are never dropped from the view: two new lines that both fit one existing line are both assigned to it |
| Alignment.RejectionsUseUpRounds | ocrd_cis/ocropy/resegment.py:332-360 | a rejected pair consumes a round, so a new line can remain unassigned although it fits an existing line |
| Validation.CandidatesOf | ocrd_cis/ocropy/resegment.py:366 | the candidates of line j are exactly the new lines assigned to it, in ascending order |
| Validation.ValidateLine | ocrd_cis/ocropy/resegment.py:365-385 | the gates in order: no candidate; covers_bg sum below threshold/3; covers_fg sum below threshold; an unassigned new line with covers_bg above 0.1; otherwise accepted with its candidates |
| Validation.AcceptedIffGatesPass | ocrd_cis/ocropy/resegment.py:365-385 | a line is accepted if and only if it has a candidate, both sums reach their thresholds and no unassigned new line covers more than 0.1 of it |
| Validation.AcceptedCandidatesDisjoint | ocrd_cis/ocropy/resegment.py:366 | two different accepted lines share no candidate |
| Reconcile.SubtractRowEvents | ocrd_cis/ocropy/resegment.py:413-427 | subtracting for one new line only logs attempts on other lines the new line overlaps by more than 0.1 of its ink |
| Reconcile.SubtractRowReachesTargets | ocrd_cis/ocropy/resegment.py:413-427 | every such target is attempted, whether its remainder is empty, cannot be placed, or is written |
| Reconcile.SubtractRowFrame | ocrd_cis/ocropy/resegment.py:418-428 | a subtraction changes only the outline of a line it reports as subtracted, and never a baseline |
| Reconcile.SubtractCandidatesEvents | ocrd_cis/ocropy/resegment.py:412-427 | the subtractions of one accepted line concern only targets of its new lines other than itself |
| Reconcile.SubtractCandidatesReachTargets | ocrd_cis/ocropy/resegment.py:412-427 | every line other than j that one of j's new lines overlaps by more than 0.1 is attempted |
| Reconcile.SubtractCandidatesFrame | ocrd_cis/ocropy/resegment.py:412-428 | the subtractions of one accepted line change only lines reported as subtracted, and no baseline |
| Reconcile.ReconcileStepWrites | ocrd_cis/ocropy/resegment.py:398-410 | reconciling one line stores the placed hull of its new lines as its outline, the hull as its working polygon, and the joined baseline when there is one; every other line's last write and stored value stay as they were |
| Reconcile.WorkOfAsWritten | ocrd_cis/ocropy/resegment.py:410-418 | as written, a subtraction never updates the working polygon, so a line's working polygon is its hull once reconciled and its original polygon before |
| Reconcile.ReconcileWrites | ocrd_cis/ocropy/resegment.py:393-428 | under either policy, each line's final outline is the value of the last event writing it: the placed hull for a reconciliation; for a subtraction, the placed remainder of the line's working polygon at that moment minus the reconciled line's hull. A reconciled line carries the joined baseline of its new lines when they have one, and every other baseline is kept |
| Reconcile.ReconcileStepSound | ocrd_cis/ocropy/resegment.py:393-428 | reconciling one accepted line whose hull can be placed keeps every event justified, every change logged and every target attempted |
| Reconcile.AbandonSound | ocrd_cis/ocropy/resegment.py:398-403 | a hull that cannot be placed ends the run as the last event, after events about earlier lines only |
| Reconcile.ReconcileSound | ocrd_cis/ocropy/resegment.py:390-428 | under either subtraction policy: events concern accepted lines and targets of their new lines; outlines change only where written and baselines only where reconciled; an abandonment is last; every accepted line is reconciled unless the run was abandoned at or before it; every target of a reconciled line is attempted |
| Reconcile.AsWrittenSubtractionOverwrites | ocrd_cis/ocropy/resegment.py:410-418 | as written, a second subtraction from the same line starts again from its original polygon: the line ends up overlapping the first reconciled line's outline, although it was rejected and not reconciled later |
| Reconcile.ReconcileSeparates | ocrd_cis/ocropy/resegment.py:411-428 | with cumulative subtraction, a line that lost area to a reconciled line and was not reconciled later misses that line's hull converted to page coordinates, and misses that line's final outline, for any parent transform that keeps points distinct |
| Reconcile.ShiftedClipShrinks | ocrd_cis/ocropy/resegment.py:398-400 | a parent offset from the page origin, whose conversion moves every point, meets the assumption of the separation theorems |
| Reconcile.CumulativeSubtractionAccumulates | ocrd_cis/ocropy/resegment.py:411-428 | on the same scope, cumulative subtraction leaves the shared line only the point no reconciled line claims |
| Resegment.ResegmentScope | ocrd_cis/ocropy/resegment.py:271-279 | when the line detector fails, the scope is left exactly as it was and no reconciliation event is recorded |
| Resegment.AcceptedMatched | ocrd_cis/ocropy/resegment.py:300-385 | on the detection's own scores, an accepted line has candidates that each fit it, whose covers reach the thresholds, and every unassigned new line either covers at most 0.1 of it or never fitted it |
| Resegment.PlanDisjoint | ocrd_cis/ocropy/resegment.py:359-366 | no new line serves two accepted lines |
| Resegment.SubtractionsGrounded | ocrd_cis/ocropy/resegment.py:413 | every subtraction from line k is due to a new line with more than 0.1 of its ink in k |
| Resegment.ResegmentSound | ocrd_cis/ocropy/resegment.py:290-428 | for the subtraction as written and for the corrected one: a re-segmented scope is sound, every reconciled line was matched, and every subtraction is grounded in ink. Only with the corrected subtraction do lines that lost area to a reconciled line no longer overlap its final outline, for any parent transform that keeps points distinct |
| Spread.ShortOf | ocrd_cis/ocropy/resegment.py:459-460 | a count quotient falls short of a share exactly when the count is below share times the whole |
| Spread.Gate | ocrd_cis/ocropy/resegment.py:450-472 | the gates in order, each reason stated on pixel counts: equal labels; empty old line; new area below threshold/3 of the old; old line without ink; new ink below threshold of the old; a line passes all gates exactly when none applies |
| Spread.LongContours | ocrd_cis/ocropy/resegment.py:483-485 | exactly the contours with at least four points are kept |
| Spread.LongContoursAppend | ocrd_cis/ocropy/resegment.py:483-485 | the filter distributes over concatenation, so contours keep the order in which they were found |
| Spread.SpreadLine | ocrd_cis/ocropy/resegment.py:450-493 | a line is rewritten exactly when it passes every gate, has contours, and its joined outline can be placed, and then takes that placed outline; a kept line reports the first gate that fails, or no contours, or an outline that cannot be placed, each only in its case |
| Spread.SpreadAll | ocrd_cis/ocropy/resegment.py:450-493 | a line whose outline changes passed every gate and took the placed outline of its label's contours; a line whose spread label equals its old label keeps its outline |
| Spread.PassesAntitone | ocrd_cis/ocropy/resegment.py:460-469 | a line that passes at some threshold also passes at every lower threshold |
| Seeds.BandWidth | ocrd_cis/ocropy/resegment.py:262-269 | a configured spread distance always sets the band width; without one, a positive glyph scale gives a band that is non-empty and narrower than a glyph; the band is non-empty exactly when the distance is positive, or 0 with a positive scale |
| Seeds.Flatten | ocrd_cis/ocropy/resegment.py:244-252 | every pixel gets the first layer holding the largest distance |
| Seeds.FlattenSeeds | ocrd_cis/ocropy/resegment.py:244-252 | a pixel gets label i + 1 only if line i's distance there is positive and beats the ignore layer's; ties with the ignore layer and pixels no layer reaches give 0 |
| Seeds.Owner | ocrd_cis/ocropy/resegment.py:256-267 | a pixel has no owner exactly when no line paints it; otherwise its owner is the last line whose footprint covers it |
| Seeds.PaintSeeds | ocrd_cis/ocropy/resegment.py:255-267 | painting in line order, with the old outline for lines without baseline, leaves each pixel its owner's label stored in the raster's width. On a wide raster, or with fewer than 255 lines, the result is 0 exactly on unpainted pixels and otherwise names the owner |
| Seeds.LabelsIdentifyOwners | ocrd_cis/ocropy/resegment.py:255-267 | owner labels below 255 lines or on a wide raster are 0 exactly on unpainted pixels and otherwise one more than the owner's index |
| Seeds.AsWrittenLabelWraps | ocrd_cis/ocropy/resegment.py:255-267 | on the unsigned 8-bit raster, a pixel painted only by the 256th line holds 0, the value of an unclaimed pixel |
| Seeds.BufferSign | ocrd_cis/ocropy/resegment.py:502-505 | the buffer sign is -1 exactly when the baseline's first x is smaller than its last x, and +1 otherwise |
| Seeds.BandAboveBaseline | ocrd_cis/ocropy/resegment.py:502-507 | for a baseline that is not vertical, the band lies towards smaller y, above the baseline on the page, whichever way the baseline runs |
| Seeds.ReversedBaselineSameSide | ocrd_cis/ocropy/resegment.py:502-507 | reversing a non-vertical baseline flips the sign and keeps the band on the same side |
| Deskew.PyMod | ocrd_cis/ocropy/deskew.py:133 | Python's float remainder by a positive modulus lies in [0, m) and differs from the dividend by a whole multiple of m |
| Deskew.Normalise | ocrd_cis/ocropy/deskew.py:133 | the normalised angle lies in (-180, 180] and differs from the input by a whole number of turns |
| Deskew.Orientation | ocrd_cis/ocropy/deskew.py:127-133 | the orientation lies in (-180, 180] and denotes the same direction as the negated sum of the new and the applied angle |
| Deskew.NormaliseIsRepresentative | ocrd_cis/ocropy/deskew.py:133 | the result is the only angle in (-180, 180] denoting the input's direction |
| Deskew.NormaliseFixes | ocrd_cis/ocropy/deskew.py:133 | angles already in (-180, 180] are returned unchanged |
| Deskew.NormaliseIdempotent | ocrd_cis/ocropy/deskew.py:133 | normalising twice equals normalising once |
| Deskew.NormaliseTurns | ocrd_cis/ocropy/deskew.py:133 | angles a whole number of turns apart normalise to the same value |

## Left out

- **Document plumbing**: PAGE and METS input and output, image retrieval,
  file IDs and logging. The log is modelled only as the sequence of
  decisions.
- **Geometry and raster algorithms**: Shapely (validity repair,
  intersection, concave hull, difference, one-sided buffer, polygon areas),
  scikit-image (`draw.polygon`, `watershed`), ocrolib (`label`,
  `dist_labels`, `propagate_labels`, `spread_labels`, `find_contours`),
  `compute_segmentation` and `masks2polygons`. Their code is not part of
  this model. Their results are inputs or function parameters.
- **Pair pre-checks**: the polygon intersection test, `make_intersection`
  and the areas enter scoring as given values (`Overlap.PairGeometry`).
- Overlap.PairRatios: assumes (`Overlap.AreasConsistent`) that the repaired
  intersection `make_intersection` returns has positive area, at most
  either polygon's area, whenever it is not empty. That helper is defined in
  `ocrd_cis/ocropy/segment.py`, which is not part of this model. If repair
  enlarged a polygon, the source's ratios could exceed 1; the model does not
  cover that case.
- **Seed computation details**:
  - the normalisation of ccomps distances to 0..255;
  - the glyph-scale estimate from component sizes;
  - the DPI conversion of the spread distance.
  All are floating-point steps; the normalised distances and the scale are
  inputs. `Seeds.BandWidth` takes the scale as given.
- **The `baseline_only` outline option**: the outline is built from a
  buffered baseline (`resegment.py:194-196`). It only changes how the input
  polygons are produced.
- **The parent sanity check** (`check_page`/`check_region`): it returns
  early, which has the same effect as a failed detector.
- **Deskew**: angle estimation and image rotation are external numerics.
  Only the orientation arithmetic is modelled.
- Seeds.PaintSeeds: the source's seed raster is unsigned 8-bit
  (`resegment.py:255`), so label i + 1 is stored modulo 256 by NumPy before
  2.0; NumPy 2 raises an error instead. The model states the wrapped labels
  (`Seeds.Uint8`); it does not model the NumPy 2 error. The labels identify
  their line only below 255 lines or on the wide raster (`Seeds.Wide`).
- Seeds.BandWidth: the model does not state that the spread distance is
  non-negative. It is computed from the `spread` parameter, whose range is
  not part of this model.
- **Floating point**: ratios, sums and angles are exact reals. The source's
  rounding is not modelled.
- Reconcile.ReconcileSeparates: the parent's coordinate transform is taken
  to keep distinct points distinct, as offsets and rotations do. The source
  rounds converted coordinates to integers, which can merge neighbouring
  points after a rotation. Separation under that rounding is not covered.
- **`ocrd_cis/postcorrect/cli.py`**: a wrapper around an external Java
  program. It is not part of this model.

## Findings

| source | as written | input that shows it | evidently intended | confidence | as-written member | corrected member |
|---|---|---|---|---|---|---|
| ocrd_cis/ocropy/resegment.py:410-418 | each subtraction computes the remainder from `line_polygons[otherj]`. After a subtraction that polygon is never updated (only `line_polygons[j]` is, at line 410). So a second subtraction from the same line starts again from its original polygon and discards the first | three existing lines on one row of points: line 2 covers points 0, 1 and 2. Lines 0 and 1 are accepted with hulls {0} and {1}, and each new line has 0.3 of its ink in line 2. Line 2 ends with {0, 2}, which overlaps line 0's new outline {0} | subtractions accumulate, so no area stays claimed by two lines, as the comment at line 411 says: the remainder is stored as the line's working polygon | medium; not executed | Reconcile.AsWrittenSubtractionOverwrites | Reconcile.ReconcileSeparates |
| ocrd_cis/ocropy/resegment.py:255-267 | the seed raster is allocated as unsigned 8-bit and line i is painted with label i + 1. With 256 lines or more, line 255's label 256 is stored as 0 and line 256's as 1, the label of line 0 | 256 lines without baseline on a one-pixel raster, where only line 255's outline covers the pixel: the pixel holds 0, so it reads as unclaimed and line 255 loses its seed | every line gets its own label, so a wider label type is needed | medium; not executed (NumPy 2 raises an error here instead of wrapping) | Seeds.AsWrittenLabelWraps | Seeds.PaintSeeds |

`Resegment.ResegmentScope` takes the subtraction policy as a parameter:
`Reconcile.AsWritten` is the source, and `Reconcile.Cumulative` is the
correction. `Reconcile.ReconcileSound`, `Reconcile.ReconcileWrites` and
`Resegment.ResegmentSound` hold for both. The separation property of
`Resegment.ResegmentSound` holds only for the correction. `Seeds.PaintSeeds`
takes the raster width as a parameter: `Seeds.Uint8` is the source, and
`Seeds.Wide` is the correction whose labels always identify their line.
