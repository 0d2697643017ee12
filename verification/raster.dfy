/**
 * Binary masks and label rasters. A raster is flattened in row-major order;
 * only pixel-wise operations and pixel counts are needed, so the 2-d shape
 * is not represented.
 */
module Raster {

  /** One boolean per pixel; `true` marks a set pixel. */
  type Mask = seq<bool>

  /** Number of set pixels (numpy's `count_nonzero`). */
  function Count(m: Mask): (n: nat)
    ensures n <= |m|
  {
    if |m| == 0 then 0 else (if m[0] then 1 else 0) + Count(m[1..])
  }

  /** Pixel-wise conjunction of two masks of the same extent (numpy's `&`). */
  function And(a: Mask, b: Mask): (r: Mask)
    requires |a| == |b|
    ensures |r| == |a|
    ensures forall k :: 0 <= k < |r| ==> r[k] == (a[k] && b[k])
  {
    seq(|a|, k requires 0 <= k < |a| => a[k] && b[k])
  }

  /** The pixels of a label raster that carry label `v` (numpy's `labels == v`). */
  function LabelMask(labels: seq<int>, v: int): (r: Mask)
    ensures |r| == |labels|
    ensures forall k :: 0 <= k < |r| ==> r[k] == (labels[k] == v)
  {
    seq(|labels|, k requires 0 <= k < |labels| => labels[k] == v)
  }

  /** Every pixel set in `a` is set in `b`. */
  predicate Within(a: Mask, b: Mask)
    requires |a| == |b|
  {
    forall k :: 0 <= k < |a| && a[k] ==> b[k]
  }

  /** A mask has a positive count exactly when some pixel is set. */
  lemma {:induction false} CountPositive(m: Mask)
    ensures Count(m) > 0 <==> exists k :: 0 <= k < |m| && m[k]
  {
    if |m| > 0 {
      CountPositive(m[1..]);
      if Count(m[1..]) > 0 {
        var k :| 0 <= k < |m[1..]| && m[1..][k];
        assert m[k + 1];
      }
      if m[0] {
        assert Count(m) > 0;
      } else if exists k :: 0 <= k < |m| && m[k] {
        var k :| 0 <= k < |m| && m[k];
        assert m[1..][k - 1];
      }
    }
  }

  /** Counting is monotone: a sub-mask never has more set pixels. */
  lemma {:induction false} CountMonotone(a: Mask, b: Mask)
    requires |a| == |b|
    requires Within(a, b)
    ensures Count(a) <= Count(b)
  {
    if |a| > 0 {
      CountMonotone(a[1..], b[1..]);
    }
  }

  /** The intersection of two masks has no more set pixels than either of them. */
  lemma CountAndBound(a: Mask, b: Mask)
    requires |a| == |b|
    ensures Count(And(a, b)) <= Count(a)
    ensures Count(And(a, b)) <= Count(b)
  {
    CountMonotone(And(a, b), a);
    CountMonotone(And(a, b), b);
  }
}
