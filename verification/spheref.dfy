/**
  `Spheref`: a sphere with a `float` centre and radius.

  `containsPoint` squares and sums the differences in `float` and compares
  `r*r <= d`, the same inverted test as `Sphered`. The double-argument
  overloads narrow each difference to `float` first. `translate` writes only
  the centre of its destination. Every intersection test forwards to a kernel
  routine of `Intersectionf` or `Intersectiond`: the plane test gets the
  radius `r`, all the others the squared radius `r*r`.
 */
module Spheref {
  import opened Ieee
  import opened Geometry
  import Sphered

  datatype Sphere = Sphere(x: Flt, y: Flt, z: Flt, r: Flt)

  predicate Finite(s: Sphere)
  {
    s.x.Single? && s.y.Single? && s.z.Single? && s.r.Single?
  }

  function Centre(s: Sphere): Point3<Flt>
  {
    Point3(s.x, s.y, s.z)
  }

  /** The centre as the `double` kernels receive it. */
  function WideCentre(s: Sphere): Point3<Dbl>
  {
    Point3(Widen(s.x), Widen(s.y), Widen(s.z))
  }

  // ---- containment ----

  /** The `float` product `r * r` the tests square the radius with: exact, or NaN with the radius. */
  function RadiusSquared(s: Sphere): (q: Flt)
    ensures s.r.Single? ==> q == Single(Sq(s.r.v))
    ensures s.r.SingleNaN? ==> q.SingleNaN?
  {
    FMul(s.r, s.r)
  }

  /** `dx*dx + dy*dy + dz*dz` of the `float` differences. */
  function SquaredDistance(dx: Flt, dy: Flt, dz: Flt): Flt
  {
    FAdd(FAdd(FMul(dx, dx), FMul(dy, dy)), FMul(dz, dz))
  }

  /**
    Without NaN the squared distance of the containment test is exact;
    otherwise it is NaN.
   */
  lemma DistanceExact(s: Sphere, px: Flt, py: Flt, pz: Flt)
    ensures Finite(s) && px.Single? && py.Single? && pz.Single? ==>
              SquaredDistance(FSub(s.x, px), FSub(s.y, py), FSub(s.z, pz))
              == Single(SqDist(s.x.v, s.y.v, s.z.v, px.v, py.v, pz.v))
    ensures !(s.x.Single? && s.y.Single? && s.z.Single? && px.Single? && py.Single? && pz.Single?) ==>
              SquaredDistance(FSub(s.x, px), FSub(s.y, py), FSub(s.z, pz)).SingleNaN?
  {
  }

  /**
    `containsPoint(float x, float y, float z)`: true exactly when nothing is
    NaN and the point is at least `r` away from the centre.
   */
  function ContainsPoint(s: Sphere, px: Flt, py: Flt, pz: Flt): (res: bool)
    ensures res <==> Finite(s) && px.Single? && py.Single? && pz.Single? &&
                     Sq(s.r.v) <= SqDist(s.x.v, s.y.v, s.z.v, px.v, py.v, pz.v)
  {
    DistanceExact(s, px, py, pz);
    FLe(RadiusSquared(s), SquaredDistance(FSub(s.x, px), FSub(s.y, py), FSub(s.z, pz)))
  }

  /**
    `containsPoint(double x, double y, double z)`: each difference is taken
    in `double` and narrowed to `float`; the rest is the `float` test.
   */
  function ContainsPointD(s: Sphere, px: Dbl, py: Dbl, pz: Dbl): (res: bool)
    ensures res <==> Finite(s) && px.Fin? && py.Fin? && pz.Fin? &&
                     Sq(s.r.v) <= SqDist(s.x.v, s.y.v, s.z.v, px.v, py.v, pz.v)
  {
    var dx := Narrow(Sub(Widen(s.x), px));
    var dy := Narrow(Sub(Widen(s.y), py));
    var dz := Narrow(Sub(Widen(s.z), pz));
    assert s.x.Single? && s.y.Single? && s.z.Single? && px.Fin? && py.Fin? && pz.Fin? ==>
             SquaredDistance(dx, dy, dz) == Single(SqDist(s.x.v, s.y.v, s.z.v, px.v, py.v, pz.v));
    FLe(RadiusSquared(s), SquaredDistance(dx, dy, dz))
  }

  /** `containsPoint(Vector3dc point)` */
  function ContainsPointV(s: Sphere, p: Point3<Dbl>): (res: bool)
    ensures res == ContainsPointD(s, p.x, p.y, p.z)
  {
    var dx := Narrow(Sub(Widen(s.x), p.x));
    var dy := Narrow(Sub(Widen(s.y), p.y));
    var dz := Narrow(Sub(Widen(s.z), p.z));
    FLe(RadiusSquared(s), SquaredDistance(dx, dy, dz))
  }

  /** `containsPoint(Vector3fc point)` */
  function ContainsPointVF(s: Sphere, p: Point3<Flt>): (res: bool)
    ensures res == ContainsPoint(s, p.x, p.y, p.z)
  {
    FLe(RadiusSquared(s), SquaredDistance(FSub(s.x, p.x), FSub(s.y, p.y), FSub(s.z, p.z)))
  }

  /** On a widened `float` point the double-argument overload agrees with the `float` one. */
  lemma ContainsPointWidened(s: Sphere, px: Flt, py: Flt, pz: Flt)
    ensures ContainsPointD(s, Widen(px), Widen(py), Widen(pz)) == ContainsPoint(s, px, py, pz)
  {
  }

  /** For a non-zero radius the centre itself is reported as not contained. */
  lemma CentreNotContained(s: Sphere)
    requires Finite(s) && s.r.v != 0.0
    ensures !ContainsPoint(s, s.x, s.y, s.z)
  {
    SqSign(s.r.v);
  }

  /** Every point on or outside the surface is reported as contained. */
  lemma OutsideContained(s: Sphere, px: Flt, py: Flt, pz: Flt)
    requires Finite(s) && px.Single? && py.Single? && pz.Single?
    requires Sq(s.r.v) <= SqDist(s.x.v, s.y.v, s.z.v, px.v, py.v, pz.v)
    ensures ContainsPoint(s, px, py, pz)
  {
  }

  /**
    The test the interface describes ("the point lies inside"): squared
    distance at most `r*r`, the closed ball.
   */
  function ContainsPointIntended(s: Sphere, px: Flt, py: Flt, pz: Flt): (res: bool)
    ensures res <==> Finite(s) && px.Single? && py.Single? && pz.Single? &&
                     SqDist(s.x.v, s.y.v, s.z.v, px.v, py.v, pz.v) <= Sq(s.r.v)
  {
    DistanceExact(s, px, py, pz);
    FLe(SquaredDistance(FSub(s.x, px), FSub(s.y, py), FSub(s.z, pz)), RadiusSquared(s))
  }

  /** The intended test contains the centre, whatever the radius. */
  lemma IntendedContainsCentre(s: Sphere)
    requires Finite(s)
    ensures ContainsPointIntended(s, s.x, s.y, s.z)
  {
    SqSign(s.r.v);
  }

  /** Off the surface the intended test and the code give opposite answers. */
  lemma IntendedDisagreesOffSurface(s: Sphere, px: Flt, py: Flt, pz: Flt)
    requires Finite(s) && px.Single? && py.Single? && pz.Single?
    requires SqDist(s.x.v, s.y.v, s.z.v, px.v, py.v, pz.v) != Sq(s.r.v)
    ensures ContainsPointIntended(s, px, py, pz) != ContainsPoint(s, px, py, pz)
  {
  }

  // ---- translation ----

  /**
    `translate(x, y, z, dest)`: `dest`'s centre becomes this centre moved by
    `(x, y, z)`; `dest.r` is not written.
   */
  function Translate(s: Sphere, x: Flt, y: Flt, z: Flt, dest: Sphere): (t: Sphere)
    ensures t.r == dest.r
    ensures s.x.Single? && x.Single? ==> FSub(t.x, s.x) == x
    ensures s.y.Single? && y.Single? ==> FSub(t.y, s.y) == y
    ensures s.z.Single? && z.Single? ==> FSub(t.z, s.z) == z
  {
    Sphere(FAdd(s.x, x), FAdd(s.y, y), FAdd(s.z, z), dest.r)
  }

  /** `translate(Vector3fc xyz, dest)` */
  function TranslateV(s: Sphere, v: Point3<Flt>, dest: Sphere): (t: Sphere)
    ensures t == Translate(s, v.x, v.y, v.z, dest)
  {
    Sphere(FAdd(s.x, v.x), FAdd(s.y, v.y), FAdd(s.z, v.z), dest.r)
  }

  /**
    The in-place `translate(x, y, z)` keeps the radius, and moving the point
    along with the sphere keeps the answer of `containsPoint`.
   */
  lemma TranslateInPlace(s: Sphere, x: Flt, y: Flt, z: Flt, px: Flt, py: Flt, pz: Flt)
    requires x.Single? && y.Single? && z.Single?
    ensures Translate(s, x, y, z, s).r == s.r
    ensures ContainsPoint(Translate(s, x, y, z, s), FAdd(px, x), FAdd(py, y), FAdd(pz, z)) == ContainsPoint(s, px, py, pz)
  {
  }

  // ---- forwarding to the kernels ----

  /** `intersectsPlane(float a, .., float d)` and `intersectsPlane(Planef)`: the radius itself. */
  function IntersectsPlaneF(s: Sphere, k: Kernel<Flt>, p: Plane<Flt>): (res: bool)
    ensures res == k.testPlaneSphere(p, Centre(s), s.r)
  {
    k.testPlaneSphere(p, Point3(s.x, s.y, s.z), s.r)
  }

  /** `intersectsPlane(double a, .., double d)` and `intersectsPlane(Planed)`: the widened radius. */
  function IntersectsPlaneD(s: Sphere, k: Kernel<Dbl>, p: Plane<Dbl>): (res: bool)
    ensures res == k.testPlaneSphere(p, WideCentre(s), Widen(s.r))
  {
    k.testPlaneSphere(p, Point3(Widen(s.x), Widen(s.y), Widen(s.z)), Widen(s.r))
  }

  /** `intersectsAABB(AABBfc)`: the squared radius. */
  function IntersectsAABBF(s: Sphere, k: Kernel<Flt>, b: Box<Flt>): (res: bool)
    ensures s.r.Single? ==> res == k.testAabSphere(b, Centre(s), Single(Sq(s.r.v)))
    ensures s.r.SingleNaN? ==> res == k.testAabSphere(b, Centre(s), SingleNaN)
  {
    k.testAabSphere(b, Point3(s.x, s.y, s.z), RadiusSquared(s))
  }

  /** `intersectsAABB(AABBdc)` and `intersectsAABB(AABBd)`: the squared radius, widened. */
  function IntersectsAABBD(s: Sphere, k: Kernel<Dbl>, b: Box<Dbl>): (res: bool)
    ensures s.r.Single? ==> res == k.testAabSphere(b, WideCentre(s), Fin(Sq(s.r.v)))
    ensures s.r.SingleNaN? ==> res == k.testAabSphere(b, WideCentre(s), NaN)
  {
    k.testAabSphere(b, Point3(Widen(s.x), Widen(s.y), Widen(s.z)), Widen(RadiusSquared(s)))
  }

  /** `intersectsSphere(float centerX, .., float radiusSquared)` */
  function IntersectsSphereF(s: Sphere, k: Kernel<Flt>, c: Point3<Flt>, radiusSquared: Flt): (res: bool)
    ensures s.r.Single? ==> res == k.testSphereSphere(Centre(s), Single(Sq(s.r.v)), c, radiusSquared)
    ensures s.r.SingleNaN? ==> res == k.testSphereSphere(Centre(s), SingleNaN, c, radiusSquared)
  {
    k.testSphereSphere(Point3(s.x, s.y, s.z), RadiusSquared(s), c, radiusSquared)
  }

  /** `intersectsSphere(double centerX, .., double radiusSquared)` */
  function IntersectsSphereD(s: Sphere, k: Kernel<Dbl>, c: Point3<Dbl>, radiusSquared: Dbl): (res: bool)
    ensures s.r.Single? ==> res == k.testSphereSphere(WideCentre(s), Fin(Sq(s.r.v)), c, radiusSquared)
    ensures s.r.SingleNaN? ==> res == k.testSphereSphere(WideCentre(s), NaN, c, radiusSquared)
  {
    k.testSphereSphere(Point3(Widen(s.x), Widen(s.y), Widen(s.z)), Widen(RadiusSquared(s)), c, radiusSquared)
  }

  /** `intersectsSphere(Spheref)`: both squared radii, in `float`. */
  function IntersectsSphereS(s: Sphere, k: Kernel<Flt>, o: Sphere): (res: bool)
    ensures res == IntersectsSphereF(s, k, Centre(o), RadiusSquared(o))
  {
    k.testSphereSphere(Point3(s.x, s.y, s.z), RadiusSquared(s), Point3(o.x, o.y, o.z), RadiusSquared(o))
  }

  /** `intersectsSphere(Sphered)`: this sphere widened, the other's squared radius in `double`. */
  function IntersectsSphereSd(s: Sphere, k: Kernel<Dbl>, o: Sphered.Sphere): (res: bool)
    ensures res == IntersectsSphereD(s, k, Point3(o.x, o.y, o.z), Sphered.RadiusSquared(o))
  {
    k.testSphereSphere(Point3(Widen(s.x), Widen(s.y), Widen(s.z)), Widen(RadiusSquared(s)), Point3(o.x, o.y, o.z), Sphered.RadiusSquared(o))
  }

  /** `intersectsRay(float origin.., float dir..)` and `intersectsRay(Rayf)` */
  function IntersectsRayF(s: Sphere, k: Kernel<Flt>, ray: Ray<Flt>): (res: bool)
    ensures s.r.Single? ==> res == k.testRaySphere(ray, Centre(s), Single(Sq(s.r.v)))
    ensures s.r.SingleNaN? ==> res == k.testRaySphere(ray, Centre(s), SingleNaN)
  {
    k.testRaySphere(ray, Point3(s.x, s.y, s.z), RadiusSquared(s))
  }

  /** `intersectsRay(double origin.., double dir..)` and `intersectsRay(Rayd)` */
  function IntersectsRayD(s: Sphere, k: Kernel<Dbl>, ray: Ray<Dbl>): (res: bool)
    ensures s.r.Single? ==> res == k.testRaySphere(ray, WideCentre(s), Fin(Sq(s.r.v)))
    ensures s.r.SingleNaN? ==> res == k.testRaySphere(ray, WideCentre(s), NaN)
  {
    k.testRaySphere(ray, Point3(Widen(s.x), Widen(s.y), Widen(s.z)), Widen(RadiusSquared(s)))
  }

  /** `intersectsRay(.., Vector2f result)` and `intersectsRay(Rayf, Vector2f)`: the answer and the new `result`. */
  function IntersectRayF(s: Sphere, k: Kernel<Flt>, ray: Ray<Flt>, result: Vec2<Flt>): (res: (bool, Vec2<Flt>))
    ensures s.r.Single? ==> res == k.intersectRaySphere(ray, Centre(s), Single(Sq(s.r.v)), result)
    ensures s.r.SingleNaN? ==> res == k.intersectRaySphere(ray, Centre(s), SingleNaN, result)
  {
    k.intersectRaySphere(ray, Point3(s.x, s.y, s.z), RadiusSquared(s), result)
  }

  /** `intersectsRay(.., Vector2d result)` and `intersectsRay(Rayd, Vector2d)` */
  function IntersectRayD(s: Sphere, k: Kernel<Dbl>, ray: Ray<Dbl>, result: Vec2<Dbl>): (res: (bool, Vec2<Dbl>))
    ensures s.r.Single? ==> res == k.intersectRaySphere(ray, WideCentre(s), Fin(Sq(s.r.v)), result)
    ensures s.r.SingleNaN? ==> res == k.intersectRaySphere(ray, WideCentre(s), NaN, result)
  {
    k.intersectRaySphere(ray, Point3(Widen(s.x), Widen(s.y), Widen(s.z)), Widen(RadiusSquared(s)), result)
  }

  // ---- what the forwarding implies ----

  lemma SqNeg(x: real)
    ensures Sq(-x) == Sq(x)
  {
    assert (-x) * (-x) == x * x;
  }

  /**
    Every test that receives `r*r` gives the same answer for the radius `-r`,
    whatever the kernel routines compute.
   */
  lemma RadiusSignIrrelevant(s: Sphere, kf: Kernel<Flt>, kd: Kernel<Dbl>, bf: Box<Flt>, bd: Box<Dbl>,
                             c: Point3<Flt>, rs: Flt, cd: Point3<Dbl>, rsd: Dbl, o: Sphere, od: Sphered.Sphere,
                             rayF: Ray<Flt>, rayD: Ray<Dbl>, result: Vec2<Flt>, resultD: Vec2<Dbl>)
    ensures var m := s.(r := FNeg(s.r));
            && IntersectsAABBF(m, kf, bf) == IntersectsAABBF(s, kf, bf)
            && IntersectsAABBD(m, kd, bd) == IntersectsAABBD(s, kd, bd)
    ensures var m := s.(r := FNeg(s.r));
            && IntersectsSphereF(m, kf, c, rs) == IntersectsSphereF(s, kf, c, rs)
            && IntersectsSphereD(m, kd, cd, rsd) == IntersectsSphereD(s, kd, cd, rsd)
            && IntersectsSphereS(m, kf, o) == IntersectsSphereS(s, kf, o)
            && IntersectsSphereSd(m, kd, od) == IntersectsSphereSd(s, kd, od)
    ensures var m := s.(r := FNeg(s.r));
            && IntersectsRayF(m, kf, rayF) == IntersectsRayF(s, kf, rayF)
            && IntersectsRayD(m, kd, rayD) == IntersectsRayD(s, kd, rayD)
            && IntersectRayF(m, kf, rayF, result) == IntersectRayF(s, kf, rayF, result)
            && IntersectRayD(m, kd, rayD, resultD) == IntersectRayD(s, kd, rayD, resultD)
  {
    if s.r.Single? {
      SqNeg(s.r.v);
    }
  }

  /** A `float` plane kernel that reports only spheres of positive radius. */
  function PositiveRadiusKernel(): Kernel<Flt>
  {
    Kernel(
      (p: Plane<Flt>, c: Point3<Flt>, r: Flt) => r.Single? && r.v > 0.0,
      (b: Box<Flt>, c: Point3<Flt>, rs: Flt) => false,
      (c1: Point3<Flt>, rs1: Flt, c2: Point3<Flt>, rs2: Flt) => false,
      (ray: Ray<Flt>, c: Point3<Flt>, rs: Flt) => false,
      (ray: Ray<Flt>, c: Point3<Flt>, rs: Flt, result: Vec2<Flt>) => (false, result))
  }

  /** The same kernel in `double`. */
  function PositiveRadiusKernelD(): Kernel<Dbl>
  {
    Kernel(
      (p: Plane<Dbl>, c: Point3<Dbl>, r: Dbl) => r.Fin? && r.v > 0.0,
      (b: Box<Dbl>, c: Point3<Dbl>, rs: Dbl) => false,
      (c1: Point3<Dbl>, rs1: Dbl, c2: Point3<Dbl>, rs2: Dbl) => false,
      (ray: Ray<Dbl>, c: Point3<Dbl>, rs: Dbl) => false,
      (ray: Ray<Dbl>, c: Point3<Dbl>, rs: Dbl, result: Vec2<Dbl>) => (false, result))
  }

  /**
    Both plane overloads, `float` and `double`, hand the kernel the radius
    itself, so unlike the other tests their answer can depend on the
    radius's sign.
   */
  lemma PlaneSeesRadiusSign()
    ensures var k := PositiveRadiusKernel();
            var s := Sphere(Single(0.0), Single(0.0), Single(0.0), Single(1.0));
            var p := Plane(Single(0.0), Single(0.0), Single(1.0), Single(0.0));
            IntersectsPlaneF(s, k, p) && !IntersectsPlaneF(s.(r := FNeg(s.r)), k, p)
    ensures var k := PositiveRadiusKernelD();
            var s := Sphere(Single(0.0), Single(0.0), Single(0.0), Single(1.0));
            var p := Plane(Fin(0.0), Fin(0.0), Fin(1.0), Fin(0.0));
            IntersectsPlaneD(s, k, p) && !IntersectsPlaneD(s.(r := FNeg(s.r)), k, p)
  {
  }

  /** With a symmetric sphere-sphere kernel, `intersectsSphere(Spheref)` is symmetric. */
  lemma IntersectsSphereSymmetric(a: Sphere, b: Sphere, k: Kernel<Flt>)
    requires forall c1, rs1, c2, rs2 :: k.testSphereSphere(c1, rs1, c2, rs2) == k.testSphereSphere(c2, rs2, c1, rs1)
    ensures IntersectsSphereS(a, k, b) == IntersectsSphereS(b, k, a)
  {
  }
}
