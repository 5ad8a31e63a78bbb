/**
  The 3D values the spheres exchange with the intersection routines of
  `Intersectionf` and `Intersectiond`, generic in the scalar type (`Flt` or
  `Dbl`), and the routines themselves as a record of functions: their
  bodies are not part of this model, so a caller supplies them.
 */
module Geometry {

  datatype Point3<T> = Point3(x: T, y: T, z: T)

  datatype Vec2<T> = Vec2(x: T, y: T)

  /** The plane `a*x + b*y + c*z + d = 0` (`Planef`/`Planed`). */
  datatype Plane<T> = Plane(a: T, b: T, c: T, d: T)

  /** An axis-aligned box operand (`AABBfc`/`AABBdc`). */
  datatype Box<T> = Box(minX: T, minY: T, minZ: T, maxX: T, maxY: T, maxZ: T)

  /** A ray operand (`Rayf`/`Rayd`): origin and direction. */
  datatype Ray<T> = Ray(oX: T, oY: T, oZ: T, dX: T, dY: T, dZ: T)

  /**
    The kernel routines a sphere calls, in one precision. The plane test
    takes the sphere's radius; the others take its squared radius.
   */
  datatype Kernel<!T> = Kernel(
    /** `testPlaneSphere(a, b, c, d, centerX, centerY, centerZ, radius)` */
    testPlaneSphere: (Plane<T>, Point3<T>, T) -> bool,
    /** `testAabSphere(minX, .., maxZ, centerX, centerY, centerZ, radiusSquared)` */
    testAabSphere: (Box<T>, Point3<T>, T) -> bool,
    /** `testSphereSphere(x1, y1, z1, radiusSquared1, x2, y2, z2, radiusSquared2)` */
    testSphereSphere: (Point3<T>, T, Point3<T>, T) -> bool,
    /** `testRaySphere(origin.., dir.., centerX, centerY, centerZ, radiusSquared)` */
    testRaySphere: (Ray<T>, Point3<T>, T) -> bool,
    /** `intersectRaySphere(.., radiusSquared, result)`: the answer and the new `result`. */
    intersectRaySphere: (Ray<T>, Point3<T>, T, Vec2<T>) -> (bool, Vec2<T>))

  /**
    The square of `x`. It is written as the product of `x` and an equal
    term so that the solver keeps treating it as a product of two factors.
   */
  function Sq(x: real): real
  {
    x * Copy(x)
  }

  /** The identity on reals; `Sq` uses it to keep the solver from rewriting the product with its squaring rules. */
  function Copy(x: real): (y: real)
    ensures y == x
  {
    x
  }

  lemma SqSign(x: real)
    ensures Sq(x) >= 0.0
    ensures x != 0.0 ==> Sq(x) > 0.0
  {
    if x > 0.0 {
      assert x * x > 0.0 * x;
    } else if x < 0.0 {
      assert (-x) * (-x) > 0.0 * (-x);
      assert x * x == (-x) * (-x);
    }
  }

  /** Squared Euclidean distance between two points, exactly. */
  function SqDist(px: real, py: real, pz: real, qx: real, qy: real, qz: real): (d: real)
    ensures d >= 0.0
    ensures px == qx && py == qy && pz == qz ==> d == 0.0
  {
    SqSign(px - qx);
    SqSign(py - qy);
    SqSign(pz - qz);
    Sq(px - qx) + Sq(py - qy) + Sq(pz - qz)
  }
}
