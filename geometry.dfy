/** Points, vectors and rays of the scene, over `real` (the source's `double`
    without IEEE-754 rounding). The square root is not defined here: the
    library's `Math.sqrt` enters as a parameter that callers assume lawful. */
module Geometry {

  datatype Vector3d = Vector3d(x: real, y: real, z: real) {

    function Dot(other: Vector3d): real {
      x * other.x + y * other.y + z * other.z
    }

    function Subtract(other: Vector3d): Vector3d {
      Vector3d(x - other.x, y - other.y, z - other.z)
    }

    function Add(other: Vector3d): Vector3d {
      Vector3d(x + other.x, y + other.y, z + other.z)
    }

    function Scale(k: real): Vector3d {
      Vector3d(k * x, k * y, k * z)
    }

    /** Squared length; the length itself is `sqrt(SquaredLength())`. */
    function SquaredLength(): real {
      Dot(this)
    }
  }

  datatype Point3d = Point3d(x: real, y: real, z: real) {

    function ToVector(): Vector3d {
      Vector3d(x, y, z)
    }

    /** The point reached from this one by moving along `v`. */
    function Translate(v: Vector3d): Point3d {
      Point3d(x + v.x, y + v.y, z + v.z)
    }
  }

  /** The vector from `from` to `to` (the two-point vector constructor). */
  function Between(from: Point3d, to: Point3d): Vector3d {
    to.ToVector().Subtract(from.ToVector())
  }

  datatype Ray = Ray(origin: Point3d, direction: Vector3d) {

    /** The point `origin + t * direction`. */
    function At(t: real): Point3d {
      origin.Translate(direction.Scale(t))
    }
  }

  // Non-negativity is written `!(x < 0.0)` in the arithmetic below: the
  // solver then needs no literal bookkeeping in goals about products.

  /** `s` is the non-negative square root of `x`. */
  predicate IsSqrt(s: real, x: real) {
    !(s < 0.0) && s * s == x
  }

  /** What the model assumes of `Math.sqrt`: on every non-negative argument
      it returns the non-negative root. */
  ghost predicate SqrtLaw(sqrt: real -> real) {
    forall x :: !(x < 0.0) ==> IsSqrt(sqrt(x), x)
  }

  lemma MulPos(a: real, b: real)
    requires a > 0.0 && b > 0.0
    ensures a * b > 0.0
  {
  }

  /** A product of two non-zero reals is non-zero. */
  lemma ProductNonzero(a: real, b: real)
    requires (a < 0.0 || a > 0.0) && (b < 0.0 || b > 0.0)
    ensures a * b < 0.0 || a * b > 0.0
  {
    if a > 0.0 && b > 0.0 {
      MulPos(a, b);
    } else if a > 0.0 {
      MulPos(a, -b);
    } else if b > 0.0 {
      MulPos(-a, b);
    } else {
      MulPos(-a, -b);
    }
  }

  /** A non-zero real has a positive square. */
  lemma SquarePos(x: real)
    requires x < 0.0 || x > 0.0
    ensures x * x > 0.0
  {
    ProductNonzero(x, x);
    if x < 0.0 {
      MulPos(-x, -x);
    }
  }

  lemma SquareNonNegative(x: real)
    ensures !(x * x < 0.0)
  {
    if x < 0.0 || x > 0.0 {
      SquarePos(x);
    }
  }

  /** Squaring is strictly monotone on the non-negative reals. */
  lemma SquareStrict(l: real, r: real)
    requires !(l < 0.0) && l < r
    ensures l * l < r * r
  {
    MulPos(r - l, r + l);
  }

  /** Squaring is monotone on the non-negative reals. */
  lemma SquareMonotone(l: real, r: real)
    requires !(l < 0.0) && l <= r
    ensures l * l <= r * r
  {
    if l < r {
      SquareStrict(l, r);
    }
  }

  /** A non-negative `s` whose square exceeds `b^2` exceeds both `b` and `-b`. */
  lemma RootExceeds(b: real, s: real)
    requires !(s < 0.0) && s * s > b * b
    ensures s > b && s > -b
  {
    if s <= b {
      SquareMonotone(s, b);
    }
    if s <= -b {
      SquareMonotone(s, -b);
    }
  }

  /** The non-negative root is unique. */
  lemma SqrtUnique(s: real, t: real, x: real)
    requires IsSqrt(s, x) && IsSqrt(t, x)
    ensures s == t
  {
    if s < t {
      SquareStrict(s, t);
    } else if t < s {
      SquareStrict(t, s);
    }
  }

  lemma SquaredLengthNonNegative(v: Vector3d)
    ensures !(v.SquaredLength() < 0.0)
  {
  }

  /** One coordinate of `(w + t d)^2`, expanded. */
  lemma SquareAlong(w: real, d: real, t: real)
    ensures (w + t * d) * (w + t * d) == t * t * (d * d) + t * (2.0 * (d * w)) + w * w
  {
  }

  /** Length squared of `w + t d`, expanded as a quadratic in `t`. */
  lemma SquaredLengthAlong(w: Vector3d, d: Vector3d, t: real)
    ensures w.Add(d.Scale(t)).SquaredLength()
         == t * t * d.Dot(d) + t * (2.0 * d.Dot(w)) + w.Dot(w)
  {
    SquareAlong(w.x, d.x, t);
    SquareAlong(w.y, d.y, t);
    SquareAlong(w.z, d.z, t);
    assert t * t * d.Dot(d) == t * t * (d.x * d.x) + t * t * (d.y * d.y) + t * t * (d.z * d.z);
    assert t * (2.0 * d.Dot(w)) == t * (2.0 * (d.x * w.x)) + t * (2.0 * (d.y * w.y)) + t * (2.0 * (d.z * w.z));
  }

  /** Moving from the origin along the ray and then measuring from `p` is
      measuring `(origin - p) + t * direction`. */
  lemma BetweenAt(ray: Ray, p: Point3d, t: real)
    ensures Between(p, ray.At(t))
         == ray.origin.ToVector().Subtract(p.ToVector()).Add(ray.direction.Scale(t))
  {
  }

  /** Translating a point by `v` and measuring from the old point gives `v`. */
  lemma BetweenTranslate(p: Point3d, v: Vector3d)
    ensures Between(p, p.Translate(v)) == v
  {
  }

  lemma DotScale(u: Vector3d, v: Vector3d, k: real)
    ensures u.Dot(v.Scale(k)) == k * u.Dot(v)
  {
  }

  lemma DotAdd(u: Vector3d, v: Vector3d, w: Vector3d)
    ensures u.Dot(v.Add(w)) == u.Dot(v) + u.Dot(w)
  {
  }
}
