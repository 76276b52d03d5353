/** A sphere shape: ray intersection by the closed-form quadratic and point
    containment. The position belongs to the shape base class, which is
    represented here by the `position` field. */
module SphereShape {
  import opened Geometry
  import opened Wrappers

  /** The coefficients of `a t^2 + b t + c`, whose roots are the times at
      which a ray meets the sphere's surface. */
  datatype Quadratic = Quadratic(a: real, b: real, c: real) {

    function Discriminant(): real {
      b * b - 4.0 * a * c
    }

    function Value(t: real): real {
      a * t * t + b * t + c
    }
  }

  /** The quadratic in `t` whose roots are where `ray` meets the surface of
      the sphere with centre p and radius r: a = d.d, b = 2 d.(o - p),
      c = (o - p).(o - p) - r^2, for direction d and origin o. */
  function QuadraticFor(center: Point3d, radius: real, ray: Ray): Quadratic {
    var d := ray.direction;
    var w := ray.origin.ToVector().Subtract(center.ToVector());
    Quadratic(d.Dot(d), 2.0 * d.Dot(w), w.Dot(w) - radius * radius)
  }

  /** The result of a successful test: which ray, which shape, and when. */
  datatype Intersection = Intersection(ray: Ray, shape: Sphere, time: real)

  /** The hit time exactly as the source groups it: the quotient by 2 is
      multiplied by `a`, not divided by it. */
  function AsWrittenTime(q: Quadratic, root: real): real {
    ((-q.b - root) / 2.0) * q.a
  }

  /** The textbook smaller root `(-b - sqrt(disc)) / (2 a)`. */
  function TextbookTime(q: Quadratic, root: real): real
    requires q.a < 0.0 || q.a > 0.0
  {
    (-q.b - root) / (2.0 * q.a)
  }

  class Sphere {
    var position: Point3d
    var radius: real

    /** A sphere of radius 1 at `position`. */
    constructor (position: Point3d)
      ensures this.position == position && radius == 1.0
    {
      this.position := position;
      radius := 1.0;
    }

    constructor WithRadius(position: Point3d, radius: real)
      ensures this.position == position && this.radius == radius
    {
      this.position := position;
      this.radius := radius;
    }

    function GetRadius(): real
      reads this
    {
      radius
    }

    method SetRadius(radius: real)
      modifies this
      ensures GetRadius() == radius
      ensures position == old(position)
    {
      this.radius := radius;
    }

    /** The quadratic of this sphere's surface along `ray`. */
    function Coefficients(ray: Ray): Quadratic
      reads this
    {
      QuadraticFor(position, radius, ray)
    }

    /** No intersection when the discriminant is negative; otherwise an
        intersection of `ray` with this sphere at the source's time, with no
        filtering of negative times. */
    function GetIntersection(ray: Ray, sqrt: real -> real): (r: Option<Intersection>)
      reads this
      ensures r.None? <==> Coefficients(ray).Discriminant() < 0.0
      ensures r.Some? ==> r.value.ray == ray && r.value.shape == this
      ensures r.Some? ==> r.value.time
                          == AsWrittenTime(Coefficients(ray), sqrt(Coefficients(ray).Discriminant()))
    {
      var q := Coefficients(ray);
      var discriminant := q.Discriminant();
      if discriminant < 0.0 then None
      else Some(Intersection(ray, this, AsWrittenTime(q, sqrt(discriminant))))
    }

    /** The repaired intersection test: the textbook root, and no
        intersection when a = |d|^2 is not positive (a zero direction), where
        that root is undefined. */
    function GetIntersectionCorrected(ray: Ray, sqrt: real -> real): (r: Option<Intersection>)
      reads this
      ensures r.None? <==> Coefficients(ray).Discriminant() < 0.0 || !(Coefficients(ray).a > 0.0)
      ensures r.Some? ==> r.value.ray == ray && r.value.shape == this
    {
      var q := Coefficients(ray);
      var discriminant := q.Discriminant();
      if discriminant < 0.0 || !(q.a > 0.0) then None
      else Some(Intersection(ray, this, TextbookTime(q, sqrt(discriminant))))
    }

    /** The distance from the centre to `point`, measured with `sqrt`, is
        below the radius. */
    function Contains(point: Point3d, sqrt: real -> real): bool
      reads this
    {
      sqrt(Between(position, point).SquaredLength()) < radius
    }
  }


  // ---------------------------------------------------------------------
  // Algebra of the quadratic

  /** Completing the square: with `s^2` the discriminant, `4 a` times the
      polynomial is a product of two linear factors in `t`. */
  lemma Factored(q: Quadratic, s: real, t: real)
    requires s * s == q.Discriminant()
    ensures 4.0 * q.a * q.Value(t) == (2.0 * q.a * t + q.b - s) * (2.0 * q.a * t + q.b + s)
  {
  }

  /** With a = 1 the roots are exactly `(-b - s) / 2` and `(-b + s) / 2`,
      and the first is the smaller. */
  lemma UnitRoots(q: Quadratic, s: real, t: real)
    requires q.a == 1.0 && IsSqrt(s, q.Discriminant())
    ensures q.Value(t) == 0.0 <==> t == (-q.b - s) / 2.0 || t == (-q.b + s) / 2.0
    ensures (-q.b - s) / 2.0 <= (-q.b + s) / 2.0
  {
    Factored(q, s, t);
    var u, v := 2.0 * t + q.b - s, 2.0 * t + q.b + s;
    if (u < 0.0 || u > 0.0) && (v < 0.0 || v > 0.0) {
      ProductNonzero(u, v);
    }
  }

  /** For a > 0 the textbook root solves the quadratic. */
  lemma TextbookRoot(q: Quadratic, s: real)
    requires q.a > 0.0 && IsSqrt(s, q.Discriminant())
    ensures q.Value(TextbookTime(q, s)) == 0.0
  {
    var t := TextbookTime(q, s);
    assert 2.0 * q.a * t == -q.b - s;
    Factored(q, s, t);
    var v := q.Value(t);
    if v < 0.0 || v > 0.0 {
      ProductNonzero(4.0 * q.a, v);
    }
  }

  /** A quadratic with a real root has a non-negative discriminant. */
  lemma RootDiscriminant(q: Quadratic, t: real)
    requires q.Value(t) == 0.0
    ensures !(q.Discriminant() < 0.0)
  {
    var u := 2.0 * q.a * t + q.b;
    assert 4.0 * q.a * q.Value(t) == u * u - q.Discriminant();
    SquareNonNegative(u);
  }

  // ---------------------------------------------------------------------
  // The quadratic and the geometry

  /** At every time the polynomial measures how far the squared distance of
      the ray's point from the centre exceeds the squared radius. */
  lemma SurfaceValue(sphere: Sphere, ray: Ray, t: real)
    ensures sphere.Coefficients(ray).Value(t) + sphere.radius * sphere.radius
            == Between(sphere.position, ray.At(t)).SquaredLength()
  {
    var w := ray.origin.ToVector().Subtract(sphere.position.ToVector());
    BetweenAt(ray, sphere.position, t);
    SquaredLengthAlong(w, ray.direction, t);
  }

  // ---------------------------------------------------------------------
  // The intersection test as written

  /** Along a unit direction the returned time is the root `(-b - s) / 2`,
      and the point it names lies on the surface. */
  lemma UnitRayHitOnSurface(sphere: Sphere, ray: Ray, sqrt: real -> real)
    requires SqrtLaw(sqrt)
    requires ray.direction.SquaredLength() == 1.0
    requires sphere.GetIntersection(ray, sqrt).Some?
    ensures var q := sphere.Coefficients(ray);
            var t := sphere.GetIntersection(ray, sqrt).value.time;
            && t == (-q.b - sqrt(q.Discriminant())) / 2.0
            && Between(sphere.position, ray.At(t)).SquaredLength() == sphere.radius * sphere.radius
  {
    var q := sphere.Coefficients(ray);
    var s := sqrt(q.Discriminant());
    assert IsSqrt(s, q.Discriminant());
    var t := sphere.GetIntersection(ray, sqrt).value.time;
    assert t == (-q.b - s) / 2.0;
    UnitRoots(q, s, t);
    SurfaceValue(sphere, ray, t);
  }

  /** Along a unit direction, if the ray is on the surface at any time,
      the test reports a hit, and at a time no later than that one. */
  lemma UnitRayEarliestOnLine(sphere: Sphere, ray: Ray, sqrt: real -> real, t': real)
    requires SqrtLaw(sqrt)
    requires ray.direction.SquaredLength() == 1.0
    requires Between(sphere.position, ray.At(t')).SquaredLength() == sphere.radius * sphere.radius
    ensures sphere.GetIntersection(ray, sqrt).Some?
    ensures sphere.GetIntersection(ray, sqrt).value.time <= t'
  {
    var q := sphere.Coefficients(ray);
    SurfaceValue(sphere, ray, t');
    RootDiscriminant(q, t');
    var s := sqrt(q.Discriminant());
    assert IsSqrt(s, q.Discriminant());
    UnitRoots(q, s, t');
  }

  /** A tangent ray (discriminant 0) is reported as a hit, and along a unit
      direction the returned time is the only time on the surface. */
  lemma TangentRayUniqueTime(sphere: Sphere, ray: Ray, sqrt: real -> real, t': real)
    requires SqrtLaw(sqrt)
    requires ray.direction.SquaredLength() == 1.0
    requires sphere.Coefficients(ray).Discriminant() == 0.0
    ensures sphere.GetIntersection(ray, sqrt).Some?
    ensures Between(sphere.position, ray.At(t')).SquaredLength() == sphere.radius * sphere.radius
            <==> t' == sphere.GetIntersection(ray, sqrt).value.time
  {
    var q := sphere.Coefficients(ray);
    var s := sqrt(0.0);
    assert IsSqrt(s, 0.0);
    SqrtUnique(s, 0.0, 0.0);
    UnitRoots(q, s, t');
    SurfaceValue(sphere, ray, t');
  }

  /** From an origin with c < 0 (strictly inside, as `ContainedOriginHasNegativeC`
      shows) along a unit direction, the hit is reported at a negative time:
      nothing filters hits behind the origin. */
  lemma InsideOriginNegativeTime(sphere: Sphere, ray: Ray, sqrt: real -> real)
    requires SqrtLaw(sqrt)
    requires ray.direction.SquaredLength() == 1.0
    requires sphere.Coefficients(ray).c < 0.0
    ensures sphere.GetIntersection(ray, sqrt).Some?
    ensures sphere.GetIntersection(ray, sqrt).value.time < 0.0
  {
    var q := sphere.Coefficients(ray);
    var s := sqrt(q.Discriminant());
    assert q.Discriminant() > q.b * q.b;
    assert IsSqrt(s, q.Discriminant());
    RootExceeds(q.b, s);
  }

  /** A direction pointing away from the centre (b > 0) still gets every
      hit the discriminant allows, at a negative time. The direction is
      also required to be non-zero, which b > 0 already implies (a zero
      direction gives b = 0); it is stated so that `a > 0` is at hand. */
  lemma AwayRayNegativeTime(sphere: Sphere, ray: Ray, sqrt: real -> real)
    requires SqrtLaw(sqrt)
    requires ray.direction.SquaredLength() > 0.0
    requires sphere.Coefficients(ray).b > 0.0
    requires sphere.GetIntersection(ray, sqrt).Some?
    ensures sphere.GetIntersection(ray, sqrt).value.time < 0.0
  {
    var q := sphere.Coefficients(ray);
    var s := sqrt(q.Discriminant());
    assert IsSqrt(s, q.Discriminant());
    MulPos((q.b + s) / 2.0, q.a);
  }

  /** A unit ray aimed at the centre from distance `k` is reported at time
      `k - r`. (The head-on case of a unit sphere at the origin, from
      (0,0,-5) along +z, is the instance k = 5, time 4.) */
  lemma HeadOnHit(sphere: Sphere, ray: Ray, sqrt: real -> real, k: real)
    requires SqrtLaw(sqrt)
    requires ray.direction.SquaredLength() == 1.0
    requires !(sphere.radius < 0.0)
    requires ray.origin == sphere.position.Translate(ray.direction.Scale(-k))
    ensures sphere.GetIntersection(ray, sqrt) == Some(Intersection(ray, sphere, k - sphere.radius))
  {
    var d := ray.direction;
    var r := sphere.radius;
    var w := d.Scale(-k);
    BetweenTranslate(sphere.position, w);
    assert ray.origin.ToVector().Subtract(sphere.position.ToVector()) == w;
    DotScale(d, d, -k);
    DotScale(w, d, -k);
    assert w.Dot(d) == d.Dot(w);
    var q := sphere.Coefficients(ray);
    assert q == Quadratic(1.0, -2.0 * k, k * k - r * r);
    assert q.Discriminant() == (2.0 * r) * (2.0 * r);
    var s := sqrt(q.Discriminant());
    assert IsSqrt(s, q.Discriminant());
    SqrtUnique(s, 2.0 * r, q.Discriminant());
  }

  /** A unit ray whose line passes the centre at offset `e`, perpendicular
      to the direction and longer than the radius, is a miss. (The case of a
      unit sphere at the origin and a ray from (2,0,-5) along +z is the
      instance e = (2,0,0), k = 5.) */
  lemma SideMiss(sphere: Sphere, ray: Ray, sqrt: real -> real, e: Vector3d, k: real)
    requires ray.direction.SquaredLength() == 1.0
    requires ray.direction.Dot(e) == 0.0
    requires e.SquaredLength() > sphere.radius * sphere.radius
    requires ray.origin == sphere.position.Translate(e.Add(ray.direction.Scale(-k)))
    ensures sphere.GetIntersection(ray, sqrt) == None
  {
    var d := ray.direction;
    var r := sphere.radius;
    var w := e.Add(d.Scale(-k));
    BetweenTranslate(sphere.position, w);
    assert ray.origin.ToVector().Subtract(sphere.position.ToVector()) == w;
    DotAdd(d, e, d.Scale(-k));
    DotScale(d, d, -k);
    DotAdd(w, e, d.Scale(-k));
    DotScale(w, d, -k);
    assert w.Dot(e) == e.Dot(w);
    assert w.Dot(d) == d.Dot(w);
    DotAdd(e, e, d.Scale(-k));
    DotScale(e, d, -k);
    assert e.Dot(d) == d.Dot(e);
    var q := sphere.Coefficients(ray);
    assert q == Quadratic(1.0, -2.0 * k, e.SquaredLength() + k * k - r * r);
  }

  /** A worked case: a unit sphere centred at (2,3,4), hit head-on along
      the unit direction (1/3,2/3,2/3) from 5 units before the centre, at
      time 4 and at the point one unit before the centre. */
  lemma HeadOnExample(sphere: Sphere, sqrt: real -> real)
    requires SqrtLaw(sqrt)
    requires sphere.position == Point3d(2.0, 3.0, 4.0) && sphere.radius == 1.0
    ensures var ray := Ray(Point3d(1.0 / 3.0, -1.0 / 3.0, 2.0 / 3.0), Vector3d(1.0 / 3.0, 2.0 / 3.0, 2.0 / 3.0));
            && sphere.GetIntersection(ray, sqrt) == Some(Intersection(ray, sphere, 4.0))
            && ray.At(4.0) == Point3d(5.0 / 3.0, 7.0 / 3.0, 10.0 / 3.0)
  {
    var ray := Ray(Point3d(1.0 / 3.0, -1.0 / 3.0, 2.0 / 3.0), Vector3d(1.0 / 3.0, 2.0 / 3.0, 2.0 / 3.0));
    assert sphere.Coefficients(ray) == Quadratic(1.0, -10.0, 24.0);
    assert IsSqrt(sqrt(4.0), 4.0);
    SqrtUnique(sqrt(4.0), 2.0, 4.0);
  }

  /** A ray whose quadratic is `t^2 - 10 t + 24` is reported at time 4, the
      smaller of its roots 4 and 6. */
  lemma HitAtFour(sphere: Sphere, ray: Ray, sqrt: real -> real)
    requires SqrtLaw(sqrt)
    requires sphere.Coefficients(ray) == Quadratic(1.0, -10.0, 24.0)
    ensures sphere.GetIntersection(ray, sqrt) == Some(Intersection(ray, sphere, 4.0))
  {
    assert IsSqrt(sqrt(4.0), 4.0);
    SqrtUnique(sqrt(4.0), 2.0, 4.0);
  }

  /** For the unit sphere at the origin, a ray along +z from (e, 0, z)
      has the quadratic `t^2 + 2z t + (e^2 + z^2 - 1)`. */
  lemma AxisRayCoefficients(sphere: Sphere, e: real, z: real)
    requires sphere.position == Point3d(0.0, 0.0, 0.0) && sphere.radius == 1.0
    ensures sphere.Coefficients(Ray(Point3d(e, 0.0, z), Vector3d(0.0, 0.0, 1.0)))
         == Quadratic(1.0, 2.0 * z, e * e + z * z - 1.0)
  {
  }

  /** The worked case of a unit sphere at the origin: the ray from
      (0,0,-5) along +z is reported at time 4. */
  lemma OriginHeadOnExample(sphere: Sphere, ray: Ray, sqrt: real -> real)
    requires SqrtLaw(sqrt)
    requires sphere.position == Point3d(0.0, 0.0, 0.0) && sphere.radius == 1.0
    requires ray == Ray(Point3d(0.0, 0.0, -5.0), Vector3d(0.0, 0.0, 1.0))
    ensures sphere.GetIntersection(ray, sqrt) == Some(Intersection(ray, sphere, 4.0))
  {
    AxisRayCoefficients(sphere, ray.origin.x, ray.origin.z);
    HitAtFour(sphere, ray, sqrt);
  }

  /** The worked case of a unit sphere at the origin: the ray from
      (2,0,-5) along +z misses (its discriminant is -12). */
  lemma OriginSideMissExample(sphere: Sphere, ray: Ray, sqrt: real -> real)
    requires sphere.position == Point3d(0.0, 0.0, 0.0) && sphere.radius == 1.0
    requires ray == Ray(Point3d(2.0, 0.0, -5.0), Vector3d(0.0, 0.0, 1.0))
    ensures sphere.GetIntersection(ray, sqrt) == None
  {
    AxisRayCoefficients(sphere, ray.origin.x, ray.origin.z);
    MissAtTwentyEight(sphere, ray, sqrt);
  }

  /** A ray whose quadratic is `t^2 - 10t + 28` (discriminant -12) misses. */
  lemma MissAtTwentyEight(sphere: Sphere, ray: Ray, sqrt: real -> real)
    requires sphere.Coefficients(ray) == Quadratic(1.0, -10.0, 28.0)
    ensures sphere.GetIntersection(ray, sqrt) == None
  {
  }

  /** A worked case: the ray of `HeadOnExample` moved sideways by (2,2,-3),
      which is perpendicular to its direction and longer than the radius,
      misses. */
  lemma OffsetMissExample(sphere: Sphere, sqrt: real -> real)
    requires sphere.position == Point3d(2.0, 3.0, 4.0) && sphere.radius == 1.0
    ensures sphere.GetIntersection(Ray(Point3d(7.0 / 3.0, 5.0 / 3.0, -7.0 / 3.0),
                                       Vector3d(1.0 / 3.0, 2.0 / 3.0, 2.0 / 3.0)), sqrt) == None
  {
    assert sphere.Coefficients(Ray(Point3d(7.0 / 3.0, 5.0 / 3.0, -7.0 / 3.0),
                                   Vector3d(1.0 / 3.0, 2.0 / 3.0, 2.0 / 3.0)))
        == Quadratic(1.0, -10.0, 41.0);
  }

  // ---------------------------------------------------------------------
  // Containment

  /** With a non-negative radius, containment is squared distance below
      squared radius; with a negative radius nothing is contained. */
  lemma ContainsBySquares(sphere: Sphere, point: Point3d, sqrt: real -> real)
    requires SqrtLaw(sqrt)
    ensures !(sphere.radius < 0.0) ==>
              (sphere.Contains(point, sqrt)
               <==> Between(sphere.position, point).SquaredLength() < sphere.radius * sphere.radius)
    ensures sphere.radius < 0.0 ==> !sphere.Contains(point, sqrt)
  {
    var d2 := Between(sphere.position, point).SquaredLength();
    SquaredLengthNonNegative(Between(sphere.position, point));
    var l := sqrt(d2);
    var r := sphere.radius;
    assert IsSqrt(l, d2);
    if !(r < 0.0) {
      if l < r {
        SquareStrict(l, r);
      } else {
        SquareMonotone(r, l);
      }
    }
  }

  /** A ray whose origin the sphere contains has c < 0. */
  lemma ContainedOriginHasNegativeC(sphere: Sphere, ray: Ray, sqrt: real -> real)
    requires SqrtLaw(sqrt)
    requires sphere.Contains(ray.origin, sqrt)
    ensures sphere.Coefficients(ray).c < 0.0
  {
    ContainsBySquares(sphere, ray.origin, sqrt);
    assert ray.At(0.0) == ray.origin;
    SurfaceValue(sphere, ray, 0.0);
  }

  // ---------------------------------------------------------------------
  // The grouping of the hit time, and its repair

  /** As written, the head-on ray of `HeadOnExample` with its direction doubled
      gets time 32, 59 units beyond the centre and so off the surface; the
      repaired test gives time 2, on the surface. */
  lemma AsWrittenTimeOffSurface(sphere: Sphere, sqrt: real -> real)
    requires SqrtLaw(sqrt)
    requires sphere.position == Point3d(2.0, 3.0, 4.0) && sphere.radius == 1.0
    ensures var ray := Ray(Point3d(1.0 / 3.0, -1.0 / 3.0, 2.0 / 3.0), Vector3d(2.0 / 3.0, 4.0 / 3.0, 4.0 / 3.0));
            && sphere.GetIntersection(ray, sqrt) == Some(Intersection(ray, sphere, 32.0))
            && Between(sphere.position, ray.At(32.0)).SquaredLength() == 3481.0
            && sphere.GetIntersectionCorrected(ray, sqrt) == Some(Intersection(ray, sphere, 2.0))
            && Between(sphere.position, ray.At(2.0)).SquaredLength() == 1.0
  {
    var ray := Ray(Point3d(1.0 / 3.0, -1.0 / 3.0, 2.0 / 3.0), Vector3d(2.0 / 3.0, 4.0 / 3.0, 4.0 / 3.0));
    assert sphere.Coefficients(ray) == Quadratic(4.0, -20.0, 24.0);
    assert IsSqrt(sqrt(16.0), 16.0);
    SqrtUnique(sqrt(16.0), 4.0, 16.0);
    assert ray.At(32.0) == Point3d(65.0 / 3.0, 127.0 / 3.0, 130.0 / 3.0);
    assert ray.At(2.0) == Point3d(5.0 / 3.0, 7.0 / 3.0, 10.0 / 3.0);
  }

  /** The repaired test reports, for every ray, only times at which the ray
      is on the surface. */
  lemma CorrectedHitOnSurface(sphere: Sphere, ray: Ray, sqrt: real -> real)
    requires SqrtLaw(sqrt)
    requires sphere.GetIntersectionCorrected(ray, sqrt).Some?
    ensures var t := sphere.GetIntersectionCorrected(ray, sqrt).value.time;
            Between(sphere.position, ray.At(t)).SquaredLength() == sphere.radius * sphere.radius
  {
    var q := sphere.Coefficients(ray);
    var s := sqrt(q.Discriminant());
    assert IsSqrt(s, q.Discriminant());
    TextbookRoot(q, s);
    SurfaceValue(sphere, ray, TextbookTime(q, s));
  }

  /** On unit directions the repaired test and the source agree. */
  lemma CorrectedAgreesOnUnitRays(sphere: Sphere, ray: Ray, sqrt: real -> real)
    requires ray.direction.SquaredLength() == 1.0
    ensures sphere.GetIntersectionCorrected(ray, sqrt) == sphere.GetIntersection(ray, sqrt)
  {
  }

}
