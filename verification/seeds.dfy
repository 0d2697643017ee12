/**
 * Seed labels for label spreading. Line i's seed carries label i + 1 and
 * label 0 marks pixels no line claims. Two methods exist: "ccomps" flattens
 * the distance transforms of the ignore area and of every line into one
 * label raster, "baseline" paints a band along each line's baseline.
 */
module Seeds {
  import opened Options
  import opened Raster
  import opened Shapes

  /**
   * Width of the baseline bands: the configured spread distance, or half
   * the glyph scale when that is 0. A configured distance always wins; a
   * band derived from a positive scale is non-empty and narrower than a
   * glyph.
   */
  function BandWidth(maxdist: real, scale: real): (w: real)
    ensures w == maxdist || maxdist == 0.0
    ensures maxdist == 0.0 && scale > 0.0 ==> 0.0 < w < scale
    ensures w > 0.0 <==> maxdist > 0.0 || (maxdist == 0.0 && scale > 0.0)
  {
    if maxdist != 0.0 then maxdist else scale / 2.0
  }

  // ---------------------------------------------------------------------
  // "ccomps": first maximum over the layers

  /**
   * Distance layers over `n` pixels: layer 0 is the ignore area, layer
   * i + 1 line i, each with one distance per pixel.
   */
  predicate Layered(layers: seq<seq<nat>>, n: nat)
  {
    |layers| > 0 && forall k :: 0 <= k < |layers| ==> |layers[k]| == n
  }

  /** `k` is the first layer holding the largest distance at pixel `px` among layers below `upto`. */
  predicate IsDeepestLayer(layers: seq<seq<nat>>, px: nat, upto: nat, k: nat)
    requires upto <= |layers| && forall m :: 0 <= m < |layers| ==> px < |layers[m]|
  {
    && k < upto
    && (forall m :: 0 <= m < upto ==> layers[m][px] <= layers[k][px])
    && (forall m :: 0 <= m < k ==> layers[m][px] < layers[k][px])
  }

  /** numpy's `argmax` along the layer axis at one pixel, over layers below `upto`. */
  function ArgMaxBelow(layers: seq<seq<nat>>, px: nat, upto: nat): (k: nat)
    requires 0 < upto <= |layers| && forall m :: 0 <= m < |layers| ==> px < |layers[m]|
    ensures IsDeepestLayer(layers, px, upto, k)
  {
    if upto == 1 then 0
    else
      var k := ArgMaxBelow(layers, px, upto - 1);
      if layers[upto - 1][px] > layers[k][px] then upto - 1 else k
  }

  /** The flattened seed raster: at every pixel, the first layer with the largest distance. */
  function Flatten(layers: seq<seq<nat>>, n: nat): (labels: seq<nat>)
    requires Layered(layers, n)
    ensures |labels| == n
    ensures forall px :: 0 <= px < n ==> IsDeepestLayer(layers, px, |layers|, labels[px])
  {
    seq(n, px requires 0 <= px < n => ArgMaxBelow(layers, px, |layers|))
  }

  /** The first maximum is unique, so `Flatten` is determined by this characterisation. */
  lemma DeepestLayerUnique(layers: seq<seq<nat>>, px: nat, k: nat, k': nat)
    requires forall m :: 0 <= m < |layers| ==> px < |layers[m]|
    requires IsDeepestLayer(layers, px, |layers|, k) && IsDeepestLayer(layers, px, |layers|, k')
    ensures k == k'
  {
    assert layers[k'][px] <= layers[k][px];
    assert layers[k][px] <= layers[k'][px];
  }

  /**
   * Seeds from the ccomps flattening: a pixel gets label i + 1 only if line
   * i's distance there is positive and strictly beats the ignore area's;
   * a tie with the ignore area, or a pixel no layer reaches, gives 0.
   */
  lemma FlattenSeeds(layers: seq<seq<nat>>, n: nat, px: nat)
    requires Layered(layers, n) && px < n
    ensures var l := Flatten(layers, n)[px];
      && (l > 0 ==> layers[l][px] > 0 && layers[l][px] > layers[0][px])
      && ((forall m :: 0 <= m < |layers| ==> layers[m][px] <= layers[0][px]) ==> l == 0)
      && ((forall m :: 0 <= m < |layers| ==> layers[m][px] == 0) ==> l == 0)
  {
    var l := Flatten(layers, n)[px];
    if forall m :: 0 <= m < |layers| ==> layers[m][px] <= layers[0][px] {
      assert IsDeepestLayer(layers, px, |layers|, 0);
      DeepestLayerUnique(layers, px, l, 0);
    }
  }

  // ---------------------------------------------------------------------
  // "baseline": bands painted in line order

  /**
   * The pixels line i paints: the band along its baseline when it has one,
   * otherwise its old outline.
   */
  function Footprint(bands: seq<Option<Mask>>, lineMasks: seq<Mask>, i: nat): Mask
    requires i < |bands| && i < |lineMasks|
  {
    if bands[i].Some? then bands[i].value else lineMasks[i]
  }

  predicate PaintShaped(bands: seq<Option<Mask>>, lineMasks: seq<Mask>, n: nat)
  {
    && |bands| == |lineMasks|
    && (forall i :: 0 <= i < |lineMasks| ==> |lineMasks[i]| == n)
    && (forall i :: 0 <= i < |bands| && bands[i].Some? ==> |bands[i].value| == n)
  }

  /**
   * Element type of the seed raster. The source allocates it as unsigned
   * 8-bit, so label i + 1 is stored modulo 256; `Wide` is the unbounded
   * raster the labelling evidently intends.
   */
  datatype LabelWidth = Uint8 | Wide

  /** The value that painting line i's label leaves in a raster of the given width. */
  function SeedLabel(width: LabelWidth, i: nat): nat
  {
    if width.Uint8? then (i + 1) % 256 else i + 1
  }

  /** The value a pixel holds once painting is done: 0 when no line paints it, else its owner's label. */
  function OwnerLabel(width: LabelWidth, owner: Option<nat>): nat
  {
    match owner
    case None => 0
    case Some(i) => SeedLabel(width, i)
  }

  /**
   * Below 255 lines, or on a wide raster, a painted pixel's value is its
   * owner's index plus one, never 0.
   */
  lemma OwnerLabelIdentifies(width: LabelWidth, owner: Option<nat>, lines: nat)
    requires width.Wide? || lines < 255
    requires owner.Some? ==> owner.value < lines
    ensures OwnerLabel(width, owner) == 0 <==> owner.None?
    ensures owner.Some? ==> OwnerLabel(width, owner) == owner.value + 1
  {
  }

  /** No line from `from` on (below `upto`) paints pixel px. */
  predicate UnpaintedFrom(bands: seq<Option<Mask>>, lineMasks: seq<Mask>, n: nat, px: nat, from: nat, upto: nat)
    requires PaintShaped(bands, lineMasks, n) && px < n && upto <= |bands|
  {
    forall m :: from <= m < upto ==> !Footprint(bands, lineMasks, m)[px]
  }

  /** The owner of pixel px among the lines below `upto`: the last one whose footprint covers it. */
  function Owner(bands: seq<Option<Mask>>, lineMasks: seq<Mask>, n: nat, px: nat, upto: nat): (o: Option<nat>)
    requires PaintShaped(bands, lineMasks, n) && px < n && upto <= |bands|
    ensures o.None? <==> UnpaintedFrom(bands, lineMasks, n, px, 0, upto)
    ensures o.Some? ==>
              && o.value < upto
              && Footprint(bands, lineMasks, o.value)[px]
              && UnpaintedFrom(bands, lineMasks, n, px, o.value + 1, upto)
    decreases upto
  {
    if upto == 0 then None
    else if Footprint(bands, lineMasks, upto - 1)[px] then Some(upto - 1)
    else Owner(bands, lineMasks, n, px, upto - 1)
  }

  /** Write `value` on every pixel of `mask`, keeping the rest. */
  function Repaint(labels: seq<nat>, mask: Mask, value: nat): (r: seq<nat>)
    requires |mask| == |labels|
  {
    seq(|labels|, px requires 0 <= px < |labels| => if mask[px] then value else labels[px])
  }

  /** Painting line i over the owner labels of the lines before it gives the owner labels of the lines up to i. */
  lemma PaintStep(width: LabelWidth, bands: seq<Option<Mask>>, lineMasks: seq<Mask>, n: nat, labels: seq<nat>, i: nat)
    requires PaintShaped(bands, lineMasks, n) && |labels| == n && i < |bands|
    requires forall px :: 0 <= px < n ==> labels[px] == OwnerLabel(width, Owner(bands, lineMasks, n, px, i))
    ensures var r := Repaint(labels, Footprint(bands, lineMasks, i), SeedLabel(width, i));
      |r| == n && forall px :: 0 <= px < n ==> r[px] == OwnerLabel(width, Owner(bands, lineMasks, n, px, i + 1))
  {
  }

  /**
   * A raster holding every pixel's owner label, below 255 lines or on a wide
   * raster, is 0 exactly on unpainted pixels and otherwise names the owner.
   */
  lemma LabelsIdentifyOwners(width: LabelWidth, bands: seq<Option<Mask>>, lineMasks: seq<Mask>, n: nat, labels: seq<nat>)
    requires PaintShaped(bands, lineMasks, n) && |labels| == n
    requires width.Wide? || |bands| < 255
    requires forall px :: 0 <= px < n ==> labels[px] == OwnerLabel(width, Owner(bands, lineMasks, n, px, |bands|))
    ensures forall px :: 0 <= px < n ==>
              (labels[px] == 0 <==> UnpaintedFrom(bands, lineMasks, n, px, 0, |bands|))
    ensures forall px :: 0 <= px < n && labels[px] > 0 ==>
              && labels[px] <= |bands|
              && Footprint(bands, lineMasks, labels[px] - 1)[px]
              && UnpaintedFrom(bands, lineMasks, n, px, labels[px], |bands|)
  {
    forall px | 0 <= px < n
      ensures labels[px] == 0 <==> UnpaintedFrom(bands, lineMasks, n, px, 0, |bands|)
      ensures labels[px] > 0 ==> Owner(bands, lineMasks, n, px, |bands|) == Some(labels[px] - 1)
    {
      OwnerLabelIdentifies(width, Owner(bands, lineMasks, n, px, |bands|), |bands|);
    }
  }

  /**
   * Paint every line's footprint with its label, in line order, over a
   * raster of zeros: the last line whose footprint covers a pixel owns it.
   * With fewer than 255 lines, or on a wide raster, the label tells
   * unpainted pixels (0) from painted ones and names the owner.
   */
  method PaintSeeds(width: LabelWidth, bands: seq<Option<Mask>>, lineMasks: seq<Mask>, n: nat)
    returns (labels: seq<nat>)
    requires PaintShaped(bands, lineMasks, n)
    ensures |labels| == n
    ensures forall px :: 0 <= px < n ==> labels[px] == OwnerLabel(width, Owner(bands, lineMasks, n, px, |bands|))
    ensures width.Wide? || |bands| < 255 ==>
              forall px :: 0 <= px < n ==>
                (labels[px] == 0 <==> UnpaintedFrom(bands, lineMasks, n, px, 0, |bands|))
    ensures width.Wide? || |bands| < 255 ==>
              forall px :: 0 <= px < n && labels[px] > 0 ==>
                && labels[px] <= |bands|
                && Footprint(bands, lineMasks, labels[px] - 1)[px]
                && UnpaintedFrom(bands, lineMasks, n, px, labels[px], |bands|)
  {
    labels := seq(n, _ => 0);
    var i := 0;
    while i < |bands|
      invariant 0 <= i <= |bands| && |labels| == n
      invariant forall px :: 0 <= px < n ==> labels[px] == OwnerLabel(width, Owner(bands, lineMasks, n, px, i))
    {
      PaintStep(width, bands, lineMasks, n, labels, i);
      labels := Repaint(labels, Footprint(bands, lineMasks, i), SeedLabel(width, i));
      i := i + 1;
    }
    if width.Wide? || |bands| < 255 {
      LabelsIdentifyOwners(width, bands, lineMasks, n, labels);
    }
  }

  /** 256 lines without baseline over a one-pixel raster; only the last one's outline covers the pixel. */
  const WrapBands: seq<Option<Mask>> := seq(256, _ => None)
  const WrapMasks: seq<Mask> := seq(256, i => [i == 255])

  /**
   * On the unsigned 8-bit raster the 256th line paints label 256, which is
   * stored as 0: its pixel reads as claimed by no line, and its seed is lost.
   */
  lemma AsWrittenLabelWraps()
    ensures PaintShaped(WrapBands, WrapMasks, 1)
    ensures !UnpaintedFrom(WrapBands, WrapMasks, 1, 0, 0, 256)
    ensures OwnerLabel(Uint8, Owner(WrapBands, WrapMasks, 1, 0, 256)) == 0
    ensures OwnerLabel(Wide, Owner(WrapBands, WrapMasks, 1, 0, 256)) == 256
  {
    assert Footprint(WrapBands, WrapMasks, 255) == [true];
    assert Owner(WrapBands, WrapMasks, 1, 0, 256) == Some(255);
  }

  // ---------------------------------------------------------------------
  // Which side of the baseline the band lies on

  /**
   * The sign of the one-sided buffer distance: -1 when the baseline runs
   * left to right (its first x is smaller than its last), +1 otherwise.
   */
  function BufferSign(first: Point, last: Point): (s: int)
    ensures s == -1 <==> first.x < last.x
    ensures s == 1 || s == -1
  {
    if first.x < last.x then -1 else 1
  }

  /**
   * The direction, from the baseline, of a one-sided buffer with signed
   * distance `sign`: positive distances extend to the left of the direction
   * of travel (x right, y up), negative ones to the right.
   */
  function BandSide(first: Point, last: Point): Point
  {
    var dx, dy := last.x - first.x, last.y - first.y;
    var s := BufferSign(first, last);
    Point(s * -dy, s * dx)
  }

  /**
   * Whichever way a baseline that is not vertical runs, its band extends
   * towards smaller y: above the baseline on a page whose y axis points down.
   */
  lemma BandAboveBaseline(first: Point, last: Point)
    requires first.x != last.x
    ensures BandSide(first, last).y < 0
  {
    if first.x < last.x {
      assert BandSide(first, last).y == -(last.x - first.x);
    } else {
      assert BandSide(first, last).y == last.x - first.x;
    }
  }

  /** Reversing a baseline that is not vertical flips the sign, so the band stays on the same side. */
  lemma ReversedBaselineSameSide(first: Point, last: Point)
    requires first.x != last.x
    ensures BufferSign(last, first) == -BufferSign(first, last)
    ensures BandSide(last, first) == BandSide(first, last)
  {
  }
}
