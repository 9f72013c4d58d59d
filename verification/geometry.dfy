/**
 Points, squared distances and the projection from normalised camera
 coordinates into view space (main.js, `get3DCoords` and the distance
 helpers). Distances are compared squared, so no square root is needed;
 `SquareLess` is the bridge back to the source's Euclidean distances.
 */
module Geometry {

  /** A 3D point: a normalised hand landmark or a view-space position. */
  datatype Vec3 = Vec3(x: real, y: real, z: real)

  /** Squared 3D Euclidean distance, the square of `Math.hypot(dx, dy, dz)`. */
  function SqDist3(a: Vec3, b: Vec3): (d: real)
    ensures d >= 0.0
    ensures a == b ==> d == 0.0
  {
    var dx, dy, dz := a.x - b.x, a.y - b.y, a.z - b.z;
    SquareNonNegative(dx); SquareNonNegative(dy); SquareNonNegative(dz);
    dx * dx + dy * dy + dz * dz
  }

  /** A square is never negative. */
  lemma SquareNonNegative(v: real)
    ensures v * v >= 0.0
  {
    if v < 0.0 {
      assert v * v == (-v) * (-v);
    }
  }

  /** Squared 2D distance that ignores depth, the square of `Math.hypot(dx, dy)`. */
  function SqDist2(a: Vec3, b: Vec3): (d: real)
    ensures d == SqDist3(Vec3(a.x, a.y, 0.0), Vec3(b.x, b.y, 0.0))
    ensures d <= SqDist3(a, b)
  {
    var dx, dy := a.x - b.x, a.y - b.y;
    SquareNonNegative(a.z - b.z);
    assert (0.0 - 0.0) * (0.0 - 0.0) == 0.0;
    dx * dx + dy * dy
  }

  /** `d` is the Euclidean length whose square is `sq`, as `Math.hypot` returns it. */
  predicate IsRoot(d: real, sq: real)
  {
    d >= 0.0 && d * d == sq
  }

  /** For non-negative distances, comparing squares decides the same
      question as comparing the distances themselves. */
  lemma SquareLess(d: real, t: real)
    requires d >= 0.0 && t >= 0.0
    ensures d < t <==> d * d < t * t
  {
    if d < t {
      MulMono(d, t, d);
      MulStrict(d, t, t);
      calc {
        d * d;
      <= t * d;
      == d * t;
      <  t * t;
      }
    } else {
      MulMono(t, d, d);
      MulMono(t, d, t);
      calc {
        t * t;
      <= d * t;
      == t * d;
      <= d * d;
      }
    }
  }

  /** `SquareLess` for two lengths given with their squares. */
  lemma RootLess(d: real, sd: real, t: real, st: real)
    requires IsRoot(d, sd) && IsRoot(t, st)
    ensures d < t <==> sd < st
  {
    SquareLess(d, t);
  }

  lemma MulMono(a: real, b: real, c: real)
    requires a <= b && c >= 0.0
    ensures a * c <= b * c
  {
    assert b * c - a * c == (b - a) * c;
  }

  lemma MulStrict(a: real, b: real, c: real)
    requires a < b && c > 0.0
    ensures a * c < b * c
  {
    assert b * c - a * c == (b - a) * c;
  }

  /** Width, in view units, of the unit square of normalised coordinates. */
  const VIEW_SCALE: real := 10.0

  /** Inverse of `ToView` on the z = 0 plane. */
  function FromView(v: Vec3): (real, real)
  {
    (v.x / VIEW_SCALE + 0.5, 0.5 - v.y / VIEW_SCALE)
  }

  /** `get3DCoords`: normalised (x, y), with y pointing down, becomes a
      view-space point on the z = 0 plane with y pointing up. */
  function ToView(nx: real, ny: real): (v: Vec3)
    ensures v.z == 0.0
    ensures FromView(v) == (nx, ny)
    ensures (nx < 0.5 <==> v.x < 0.0) && (ny < 0.5 <==> v.y > 0.0)
  {
    Vec3((nx - 0.5) * VIEW_SCALE, (0.5 - ny) * VIEW_SCALE, 0.0)
  }

  /** Every point of the z = 0 plane is the projection of exactly one
      normalised pair, so `ToView` and `FromView` are mutually inverse there. */
  lemma ViewRoundTrip(v: Vec3)
    requires v.z == 0.0
    ensures ToView(FromView(v).0, FromView(v).1) == v
  {
  }

  /** The projection is affine: the projection of the midpoint of two
      normalised points is the midpoint of their projections. */
  lemma ToViewMidpoint(aX: real, aY: real, bX: real, bY: real)
    ensures ToView((aX + bX) / 2.0, (aY + bY) / 2.0)
         == Vec3((ToView(aX, aY).x + ToView(bX, bY).x) / 2.0,
                 (ToView(aX, aY).y + ToView(bX, bY).y) / 2.0, 0.0)
  {
  }
}
