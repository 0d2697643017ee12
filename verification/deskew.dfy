/**
 * Orientation of a deskewed segment. The skew angle is found in the
 * mathematical direction (counter-clockwise), on an image that was already
 * rotated by the segment's inherited angle; the annotated orientation is
 * clockwise and lies in (-180, 180].
 */
module Deskew {

  /** Python's `%` on floats: the remainder takes the sign of the divisor, so it lies in [0, m) for m > 0. */
  function PyMod(x: real, m: real): (r: real)
    requires m > 0.0
    ensures 0.0 <= r < m
    ensures ((x - r) / m).Floor as real == (x - r) / m
  {
    var q := (x / m).Floor as real;
    FloorBounds(x, m, q);
    assert (x - (x - m * q)) / m == q;
    x - m * q
  }

  /** For a positive divisor m and q the floor of x / m: m * q <= x < m * q + m. */
  lemma FloorBounds(x: real, m: real, q: real)
    requires m > 0.0 && q <= x / m < q + 1.0
    ensures m * q <= x < m * q + m
  {
    var y := x / m;
    assert m * y == x;
    assert m * q <= m * y;
    calc {
      x;
    ==
      m * y;
    <
      m * (q + 1.0);
    ==
      m * q + m;
    }
  }

  /** The only representative of an angle in (-180, 180] (degrees). */
  predicate InHalfOpenRange(o: real)
  {
    -180.0 < o <= 180.0
  }

  /** `k` whole turns, in degrees. */
  function Turns(k: int): real
  {
    360.0 * (k as real)
  }

  /** Two angles that differ by a whole number of turns. */
  ghost predicate SameDirection(a: real, b: real)
  {
    exists k: int :: a - b == Turns(k)
  }

  /** Map an angle onto (-180, 180] without changing the direction it denotes. */
  function Normalise(o: real): (r: real)
    ensures InHalfOpenRange(r)
    ensures r - o == Turns(((180.0 - o) / 360.0).Floor)
  {
    180.0 - PyMod(180.0 - o, 360.0)
  }

  /** Orientation of a segment, clockwise, from the new angle and the angle applied before, both counter-clockwise. */
  function Orientation(angle: real, angle0: real): (o: real)
    ensures InHalfOpenRange(o)
    ensures SameDirection(o, -(angle + angle0))
  {
    var raw := -(angle + angle0);
    var r := Normalise(raw);
    assert r - raw == Turns(((180.0 - raw) / 360.0).Floor);
    r
  }

  /** Two angles in (-180, 180] that denote the same direction are equal. */
  lemma RepresentativeUnique(a: real, b: real, k: int)
    requires InHalfOpenRange(a) && InHalfOpenRange(b)
    requires a - b == Turns(k)
    ensures a == b
  {
    assert -1.0 < k as real < 1.0;
  }

  /** `Normalise` returns the unique angle in (-180, 180] denoting the same direction. */
  lemma NormaliseIsRepresentative(o: real, r: real)
    requires InHalfOpenRange(r) && SameDirection(r, o)
    ensures Normalise(o) == r
  {
    var k: int :| r - o == Turns(k);
    var f := ((180.0 - o) / 360.0).Floor;
    assert Normalise(o) - r == Turns(f - k);
    RepresentativeUnique(Normalise(o), r, f - k);
  }

  /** Angles already in (-180, 180] are left as they are. */
  lemma NormaliseFixes(o: real)
    requires InHalfOpenRange(o)
    ensures Normalise(o) == o
  {
    assert o - o == Turns(0);
    NormaliseIsRepresentative(o, o);
  }

  /** Normalising twice is normalising once. */
  lemma NormaliseIdempotent(o: real)
    ensures Normalise(Normalise(o)) == Normalise(o)
  {
    NormaliseFixes(Normalise(o));
  }

  /** Angles a whole number of turns apart normalise to the same value. */
  lemma NormaliseTurns(o: real, k: int)
    ensures Normalise(o + Turns(k)) == Normalise(o)
  {
    var r := Normalise(o);
    var f := ((180.0 - o) / 360.0).Floor;
    assert r - (o + Turns(k)) == Turns(f - k);
    NormaliseIsRepresentative(o + Turns(k), r);
  }
}
