/**
  The integer axis-aligned box as promised by the `AABBic` interface: a
  reference model of its documented contracts over 32-bit ints.

  The component accessors reject an index outside `[0..2]` with an
  `IllegalArgumentException`, modelled as an error value. `intersection`
  signals "no intersection" with minima `Integer.MAX_VALUE` and maxima
  `Integer.MIN_VALUE`, an intersection being present when it is strictly
  valid on all three axes.
 */
module AABBi {
  import opened Int32

  datatype Box = Box(minX: int32, minY: int32, minZ: int32, maxX: int32, maxY: int32, maxZ: int32)

  /** A component read: the coordinate, or the exception an out-of-range index raises. */
  datatype Component = Value(v: int32) | IllegalArgumentException

  /** The value of `extent(Vector3d dest)`; halving an `int` difference is exact in `double`. */
  datatype Vec3r = Vec3r(x: real, y: real, z: real)

  /** The box `intersection` stores when the operands do not intersect. */
  const Empty: Box := Box(MAX_VALUE, MAX_VALUE, MAX_VALUE, MIN_VALUE, MIN_VALUE, MIN_VALUE)

  predicate IsValid(b: Box)
  {
    b.minX < b.maxX && b.minY < b.maxY && b.minZ < b.maxZ
  }

  /** `b` contains `o`, bounds included. */
  predicate ContainsAABB(b: Box, o: Box)
  {
    && b.minX <= o.minX && o.maxX <= b.maxX
    && b.minY <= o.minY && o.maxY <= b.maxY
    && b.minZ <= o.minZ && o.maxZ <= b.maxZ
  }

  /** The open interiors of `a` and `b` overlap. */
  predicate IntersectsAABB(a: Box, b: Box)
  {
    && a.minX < b.maxX && b.minX < a.maxX
    && a.minY < b.maxY && b.minY < a.maxY
    && a.minZ < b.maxZ && b.minZ < a.maxZ
  }

  // ---- component access ----

  /** `getMax(component)` */
  function GetMax(b: Box, component: int): (r: Component)
    ensures r.Value? <==> 0 <= component <= 2
    ensures r.Value? ==> r.v == [b.maxX, b.maxY, b.maxZ][component]
  {
    if component == 0 then Value(b.maxX)
    else if component == 1 then Value(b.maxY)
    else if component == 2 then Value(b.maxZ)
    else IllegalArgumentException
  }

  /** `getMin(component)` */
  function GetMin(b: Box, component: int): (r: Component)
    ensures r.Value? <==> 0 <= component <= 2
    ensures r.Value? ==> r.v == [b.minX, b.minY, b.minZ][component]
  {
    if component == 0 then Value(b.minX)
    else if component == 1 then Value(b.minY)
    else if component == 2 then Value(b.minZ)
    else IllegalArgumentException
  }

  /** A box is valid exactly when every component's minimum lies below its maximum. */
  lemma ValidByComponents(b: Box)
    ensures IsValid(b) <==> forall c :: 0 <= c <= 2 ==> GetMin(b, c).v < GetMax(b, c).v
  {
    if forall c :: 0 <= c <= 2 ==> GetMin(b, c).v < GetMax(b, c).v {
      assert GetMin(b, 0).v < GetMax(b, 0).v;
      assert GetMin(b, 1).v < GetMax(b, 1).v;
      assert GetMin(b, 2).v < GetMax(b, 2).v;
    }
  }

  // ---- intersection ----

  /**
    `intersection(other, dest)`: the largest box inside both operands, or the
    `Empty` sentinel when they do not intersect.
   */
  function Intersection(a: Box, b: Box): (r: Box)
    ensures r == Empty || (IsValid(r) && ContainsAABB(a, r) && ContainsAABB(b, r))
    ensures IsValid(a) && IsValid(b) ==> (r == Empty <==> !IntersectsAABB(a, b))
  {
    var m := Box(Max(a.minX, b.minX), Max(a.minY, b.minY), Max(a.minZ, b.minZ),
                 Min(a.maxX, b.maxX), Min(a.maxY, b.maxY), Min(a.maxZ, b.maxZ));
    if IsValid(m) then m else Empty
  }

  /** The intersection contains every valid box that lies in both operands. */
  lemma IntersectionIsGreatest(a: Box, b: Box, c: Box)
    requires IsValid(c) && ContainsAABB(a, c) && ContainsAABB(b, c)
    ensures Intersection(a, b) != Empty
    ensures ContainsAABB(Intersection(a, b), c)
  {
    var m := Box(Max(a.minX, b.minX), Max(a.minY, b.minY), Max(a.minZ, b.minZ),
                 Min(a.maxX, b.maxX), Min(a.maxY, b.maxY), Min(a.maxZ, b.maxZ));
    assert m.minX <= c.minX < c.maxX <= m.maxX;
    assert m.minY <= c.minY < c.maxY <= m.maxY;
    assert m.minZ <= c.minZ < c.maxZ <= m.maxZ;
    assert Intersection(a, b) == m;
  }

  /** The sentinel absorbs intersection and lies in every box. */
  lemma EmptyChains(b: Box)
    ensures Intersection(Empty, b) == Empty && Intersection(b, Empty) == Empty
    ensures ContainsAABB(b, Empty)
  {
  }

  lemma IntersectionCommutes(a: Box, b: Box)
    ensures Intersection(a, b) == Intersection(b, a)
  {
  }

  // ---- extent and translation ----

  predicate HasExtent(b: Box)
  {
    InRange(b.maxX - b.minX) && InRange(b.maxY - b.minY) && InRange(b.maxZ - b.minZ)
  }

  /** `extent(Vector3d dest)`: half the length of each axis. */
  function Extent(b: Box): (e: Vec3r)
    requires HasExtent(b)
    ensures b.minX as real + 2.0 * e.x == b.maxX as real
    ensures b.minY as real + 2.0 * e.y == b.maxY as real
    ensures b.minZ as real + 2.0 * e.z == b.maxZ as real
    ensures IsValid(b) <==> e.x > 0.0 && e.y > 0.0 && e.z > 0.0
  {
    Vec3r((b.maxX - b.minX) as real / 2.0, (b.maxY - b.minY) as real / 2.0, (b.maxZ - b.minZ) as real / 2.0)
  }

  predicate CanTranslate(b: Box, x: int, y: int, z: int)
  {
    && InRange(b.minX + x) && InRange(b.maxX + x)
    && InRange(b.minY + y) && InRange(b.maxY + y)
    && InRange(b.minZ + z) && InRange(b.maxZ + z)
  }

  /** `translate(x, y, z, dest)` */
  function Translate(b: Box, x: int32, y: int32, z: int32): (t: Box)
    requires CanTranslate(b, x, y, z)
    ensures forall c :: 0 <= c <= 2 ==> GetMin(t, c).v == GetMin(b, c).v + [x, y, z][c]
    ensures forall c :: 0 <= c <= 2 ==> GetMax(t, c).v == GetMax(b, c).v + [x, y, z][c]
    ensures HasExtent(t) <==> HasExtent(b)
    ensures HasExtent(b) ==> Extent(t) == Extent(b)
  {
    Box(b.minX + x, b.minY + y, b.minZ + z, b.maxX + x, b.maxY + y, b.maxZ + z)
  }

  /** Translation keeps containment in both directions. */
  lemma TranslateKeepsContainment(a: Box, b: Box, x: int32, y: int32, z: int32)
    requires CanTranslate(a, x, y, z) && CanTranslate(b, x, y, z)
    ensures ContainsAABB(Translate(a, x, y, z), Translate(b, x, y, z)) <==> ContainsAABB(a, b)
  {
  }
}
