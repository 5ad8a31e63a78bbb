/**
  `Sphered`: a sphere with a `double` centre and radius.

  `containsPoint` compares `r*r <= d` with `d` the squared distance from the
  centre, so it answers true on and outside the sphere and false inside it
  (see `ContainsPointIntended` for the reading of the interface's wording).
  Every `intersects*` method is a stub that answers false, and
  `intersectsLineSegment` answers 0 without touching its result vector.
  `translate` writes only the centre of its destination.
 */
module Sphered {
  import opened Ieee
  import opened Geometry

  datatype Sphere = Sphere(x: Dbl, y: Dbl, z: Dbl, r: Dbl)

  predicate Finite(s: Sphere)
  {
    s.x.Fin? && s.y.Fin? && s.z.Fin? && s.r.Fin?
  }

  /** The product `r * r` the point test compares with: exact, or NaN with the radius. */
  function RadiusSquared(s: Sphere): (q: Dbl)
    ensures s.r.Fin? ==> q == Fin(Sq(s.r.v))
    ensures s.r.NaN? ==> q.NaN?
  {
    assert s.r.Fin? ==> Mul(s.r, s.r) == Fin(s.r.v * Copy(s.r.v));
    Mul(s.r, s.r)
  }

  /** `x*x + y*y + z*z` of the differences `this - p`, computed in `double`. */
  function SquaredDistance(s: Sphere, px: Dbl, py: Dbl, pz: Dbl): Dbl
  {
    var dx := Sub(s.x, px);
    var dy := Sub(s.y, py);
    var dz := Sub(s.z, pz);
    Add(Add(Mul(dx, dx), Mul(dy, dy)), Mul(dz, dz))
  }

  /**
    Without NaN the squared distance of the containment test is exact;
    otherwise it is NaN.
   */
  lemma DistanceExact(s: Sphere, px: Dbl, py: Dbl, pz: Dbl)
    ensures Finite(s) && px.Fin? && py.Fin? && pz.Fin? ==>
              SquaredDistance(s, px, py, pz) == Fin(SqDist(s.x.v, s.y.v, s.z.v, px.v, py.v, pz.v))
    ensures !(s.x.Fin? && s.y.Fin? && s.z.Fin? && px.Fin? && py.Fin? && pz.Fin?) ==>
              SquaredDistance(s, px, py, pz).NaN?
  {
  }

  /**
    `containsPoint(double x, double y, double z)`: true exactly when nothing
    is NaN and the point is at least `r` away from the centre.
   */
  function ContainsPoint(s: Sphere, px: Dbl, py: Dbl, pz: Dbl): (res: bool)
    ensures res <==> Finite(s) && px.Fin? && py.Fin? && pz.Fin? &&
                     Sq(s.r.v) <= SqDist(s.x.v, s.y.v, s.z.v, px.v, py.v, pz.v)
  {
    DistanceExact(s, px, py, pz);
    Le(RadiusSquared(s), SquaredDistance(s, px, py, pz))
  }

  /** `containsPoint(float x, float y, float z)`: the same test on the widened point. */
  function ContainsPointF(s: Sphere, px: Flt, py: Flt, pz: Flt): (res: bool)
    ensures res == ContainsPoint(s, Widen(px), Widen(py), Widen(pz))
  {
    var dx := Sub(s.x, Widen(px));
    var dy := Sub(s.y, Widen(py));
    var dz := Sub(s.z, Widen(pz));
    Le(RadiusSquared(s), Add(Add(Mul(dx, dx), Mul(dy, dy)), Mul(dz, dz)))
  }

  /** `containsPoint(Vector3dc point)` */
  function ContainsPointV(s: Sphere, p: Point3<Dbl>): (res: bool)
    ensures res == ContainsPoint(s, p.x, p.y, p.z)
  {
    var dx := Sub(s.x, p.x);
    var dy := Sub(s.y, p.y);
    var dz := Sub(s.z, p.z);
    Le(RadiusSquared(s), Add(Add(Mul(dx, dx), Mul(dy, dy)), Mul(dz, dz)))
  }

  /** `containsPoint(Vector3fc point)` */
  function ContainsPointVF(s: Sphere, p: Point3<Flt>): (res: bool)
    ensures res == ContainsPoint(s, Widen(p.x), Widen(p.y), Widen(p.z))
  {
    var dx := Sub(s.x, Widen(p.x));
    var dy := Sub(s.y, Widen(p.y));
    var dz := Sub(s.z, Widen(p.z));
    Le(RadiusSquared(s), Add(Add(Mul(dx, dx), Mul(dy, dy)), Mul(dz, dz)))
  }

  /** For a non-zero radius the centre itself is reported as not contained. */
  lemma CentreNotContained(s: Sphere)
    requires Finite(s) && s.r.v != 0.0
    ensures !ContainsPoint(s, s.x, s.y, s.z)
  {
    SqSign(s.r.v);
  }

  /** Every point on or outside the surface is reported as contained. */
  lemma OutsideContained(s: Sphere, px: Dbl, py: Dbl, pz: Dbl)
    requires Finite(s) && px.Fin? && py.Fin? && pz.Fin?
    requires Sq(s.r.v) <= SqDist(s.x.v, s.y.v, s.z.v, px.v, py.v, pz.v)
    ensures ContainsPoint(s, px, py, pz)
  {
  }

  /**
    The test the interface describes ("the point lies inside"): squared
    distance at most `r*r`, the closed ball.
   */
  function ContainsPointIntended(s: Sphere, px: Dbl, py: Dbl, pz: Dbl): (res: bool)
    ensures res <==> Finite(s) && px.Fin? && py.Fin? && pz.Fin? &&
                     SqDist(s.x.v, s.y.v, s.z.v, px.v, py.v, pz.v) <= Sq(s.r.v)
  {
    DistanceExact(s, px, py, pz);
    Le(SquaredDistance(s, px, py, pz), RadiusSquared(s))
  }

  /** The intended test contains the centre, whatever the radius. */
  lemma IntendedContainsCentre(s: Sphere)
    requires Finite(s)
    ensures ContainsPointIntended(s, s.x, s.y, s.z)
  {
    SqSign(s.r.v);
  }

  /** Off the surface the intended test and the code give opposite answers. */
  lemma IntendedDisagreesOffSurface(s: Sphere, px: Dbl, py: Dbl, pz: Dbl)
    requires Finite(s) && px.Fin? && py.Fin? && pz.Fin?
    requires SqDist(s.x.v, s.y.v, s.z.v, px.v, py.v, pz.v) != Sq(s.r.v)
    ensures ContainsPointIntended(s, px, py, pz) != ContainsPoint(s, px, py, pz)
  {
  }

  // ---- translation ----

  /**
    `translate(x, y, z, dest)`: `dest`'s centre becomes this centre moved by
    `(x, y, z)`; `dest.r` is not written.
   */
  function Translate(s: Sphere, x: Dbl, y: Dbl, z: Dbl, dest: Sphere): (t: Sphere)
    ensures t.r == dest.r
    ensures s.x.Fin? && x.Fin? ==> Sub(t.x, s.x) == x
    ensures s.y.Fin? && y.Fin? ==> Sub(t.y, s.y) == y
    ensures s.z.Fin? && z.Fin? ==> Sub(t.z, s.z) == z
  {
    Sphere(Add(s.x, x), Add(s.y, y), Add(s.z, z), dest.r)
  }

  /** `translate(Vector3dc xyz, dest)` */
  function TranslateV(s: Sphere, v: Point3<Dbl>, dest: Sphere): (t: Sphere)
    ensures t == Translate(s, v.x, v.y, v.z, dest)
  {
    Sphere(Add(s.x, v.x), Add(s.y, v.y), Add(s.z, v.z), dest.r)
  }

  /** `translate(Vector3fc xyz, dest)`: the float offset is widened. */
  function TranslateVF(s: Sphere, v: Point3<Flt>, dest: Sphere): (t: Sphere)
    ensures t == Translate(s, Widen(v.x), Widen(v.y), Widen(v.z), dest)
  {
    Sphere(Add(s.x, Widen(v.x)), Add(s.y, Widen(v.y)), Add(s.z, Widen(v.z)), dest.r)
  }

  /**
    The in-place `translate(x, y, z)` keeps the radius, and moving the point
    along with the sphere keeps the answer of `containsPoint`.
   */
  lemma TranslateInPlace(s: Sphere, x: Dbl, y: Dbl, z: Dbl, px: Dbl, py: Dbl, pz: Dbl)
    requires x.Fin? && y.Fin? && z.Fin?
    ensures Translate(s, x, y, z, s).r == s.r
    ensures ContainsPoint(Translate(s, x, y, z, s), Add(px, x), Add(py, y), Add(pz, z)) == ContainsPoint(s, px, py, pz)
  {
  }

  /**
    The centre written does not depend on the destination: translating in
    place and into a separate `dest` give the same centre, NaN included,
    and differ at most in the radius.
   */
  lemma TranslateCentreIgnoresDest(s: Sphere, x: Dbl, y: Dbl, z: Dbl, dest: Sphere)
    ensures Translate(s, x, y, z, dest) == Translate(s, x, y, z, s).(r := dest.r)
  {
  }

  // ---- stubs ----

  /** All four `intersectsPlane` overloads (float arguments are widened). */
  function IntersectsPlane(s: Sphere, p: Plane<Dbl>): (res: bool)
    ensures !res
  {
    false
  }

  /** `intersectsAABB(AABBdc)` and `intersectsAABB(AABBfc)` */
  function IntersectsAABB(s: Sphere, b: Box<Dbl>): (res: bool)
    ensures !res
  {
    false
  }

  /** All four `intersectsSphere` overloads. */
  function IntersectsSphere(s: Sphere, c: Point3<Dbl>, radiusSquared: Dbl): (res: bool)
    ensures !res
  {
    false
  }

  /** The four boolean `intersectsRay` overloads. */
  function IntersectsRay(s: Sphere, ray: Ray<Dbl>): (res: bool)
    ensures !res
  {
    false
  }

  /** The four `intersectsRay` overloads with a `result` vector: false, and `result` is left as it was. */
  function IntersectRay(s: Sphere, ray: Ray<Dbl>, result: Vec2<Dbl>): (res: (bool, Vec2<Dbl>))
    ensures !res.0 && res.1 == result
  {
    (false, result)
  }

  /** The three `intersectsLineSegment` overloads: 0, and `result` is left as it was. */
  function IntersectsLineSegment(s: Sphere, p0: Point3<Dbl>, p1: Point3<Dbl>, result: Vec2<Dbl>): (res: (int, Vec2<Dbl>))
    ensures res.0 == 0 && res.1 == result
  {
    (0, result)
  }

  /** A ray starting at the centre of a unit sphere is reported as not intersecting it. */
  lemma RayFromInsideNotReported()
    ensures var s := Sphere(Fin(0.0), Fin(0.0), Fin(0.0), Fin(1.0));
            var ray := Ray(Fin(0.0), Fin(0.0), Fin(0.0), Fin(1.0), Fin(0.0), Fin(0.0));
            ContainsPointIntended(s, ray.oX, ray.oY, ray.oZ) && !IntersectsRay(s, ray)
  {
  }
}
