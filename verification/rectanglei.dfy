/**
  The integer rectangle as promised by the `Rectangleic` interface: a
  reference model of its documented contracts over 32-bit ints.

  `intersection` signals "no intersection" with the sentinel whose minima
  are `Integer.MAX_VALUE` and whose maxima are `Integer.MIN_VALUE`. An
  intersection counts as present when it is strictly valid (`min < max` on
  both axes), the rule the double rectangle applies in its `validate`.
  Operations whose arithmetic could leave the `int` range require that it
  does not.
 */
module Rectanglei {
  import opened Int32

  datatype Rect = Rect(minX: int32, minY: int32, maxX: int32, maxY: int32)

  datatype Vec2i = Vec2i(x: int32, y: int32)

  /** The rectangle `intersection` stores when the operands do not intersect. */
  const Empty: Rect := Rect(MAX_VALUE, MAX_VALUE, MIN_VALUE, MIN_VALUE)

  predicate IsValid(r: Rect)
  {
    r.minX < r.maxX && r.minY < r.maxY
  }

  /** `r` contains `o`, bounds included. */
  predicate ContainsRectangle(r: Rect, o: Rect)
  {
    r.minX <= o.minX && o.maxX <= r.maxX && r.minY <= o.minY && o.maxY <= r.maxY
  }

  /** The open interiors of `a` and `b` overlap. */
  predicate IntersectsRectangle(a: Rect, b: Rect)
  {
    a.minX < b.maxX && b.minX < a.maxX && a.minY < b.maxY && b.minY < a.maxY
  }

  /**
    `intersection(other, dest)`: the largest rectangle inside both operands,
    or the `Empty` sentinel when they do not intersect.
   */
  function Intersection(a: Rect, b: Rect): (r: Rect)
    ensures r == Empty || (IsValid(r) && ContainsRectangle(a, r) && ContainsRectangle(b, r))
    ensures IsValid(a) && IsValid(b) ==> (r == Empty <==> !IntersectsRectangle(a, b))
  {
    var m := Rect(Max(a.minX, b.minX), Max(a.minY, b.minY), Min(a.maxX, b.maxX), Min(a.maxY, b.maxY));
    if IsValid(m) then m else Empty
  }

  /** `union(other, dest)`: the smallest rectangle containing both operands. */
  function Union(a: Rect, b: Rect): (r: Rect)
    ensures ContainsRectangle(r, a) && ContainsRectangle(r, b)
  {
    Rect(Min(a.minX, b.minX), Min(a.minY, b.minY), Max(a.maxX, b.maxX), Max(a.maxY, b.maxY))
  }

  // ---- lengths and area ----

  predicate HasLengths(r: Rect)
  {
    InRange(r.maxX - r.minX) && InRange(r.maxY - r.minY)
  }

  /** `lengthX()` */
  function LengthX(r: Rect): (l: int32)
    requires InRange(r.maxX - r.minX)
    ensures r.minX + l == r.maxX
  {
    r.maxX - r.minX
  }

  /** `lengthY()` */
  function LengthY(r: Rect): (l: int32)
    requires InRange(r.maxY - r.minY)
    ensures r.minY + l == r.maxY
  {
    r.maxY - r.minY
  }

  /** `lengths(dest)`: stores `(lengthX(), lengthY())`. */
  function Lengths(r: Rect): (v: Vec2i)
    requires HasLengths(r)
    ensures v == Vec2i(LengthX(r), LengthY(r))
    ensures IsValid(r) <==> v.x > 0 && v.y > 0
  {
    Vec2i(r.maxX - r.minX, r.maxY - r.minY)
  }

  /** `area()`: the product of the two lengths. */
  function Area(r: Rect): (a: int32)
    requires HasLengths(r) && InRange(LengthX(r) * LengthY(r))
    ensures a == Lengths(r).x * Lengths(r).y
    ensures IsValid(r) ==> a > 0
  {
    LengthX(r) * LengthY(r)
  }

  // ---- translation ----

  predicate CanTranslate(r: Rect, x: int, y: int)
  {
    InRange(r.minX + x) && InRange(r.maxX + x) && InRange(r.minY + y) && InRange(r.maxY + y)
  }

  /** `translate(x, y, dest)`: both X corners move by `x`, both Y corners by `y`. */
  function Translate(r: Rect, x: int32, y: int32): (t: Rect)
    requires CanTranslate(r, x, y)
    ensures t.minX - r.minX == x && t.maxX - r.maxX == x
    ensures t.minY - r.minY == y && t.maxY - r.maxY == y
    ensures HasLengths(t) <==> HasLengths(r)
    ensures HasLengths(r) ==> Lengths(t) == Lengths(r)
    ensures IsValid(t) <==> IsValid(r)
  {
    Rect(r.minX + x, r.minY + y, r.maxX + x, r.maxY + y)
  }

  // ---- scaling ----

  /** One corner coordinate `c` scaled by `s` about `a` stays in range throughout. */
  predicate CornerFits(c: int, s: int, a: int)
  {
    InRange(c - a) && InRange((c - a) * s) && InRange((c - a) * s + a)
  }

  predicate CanScale(r: Rect, sx: int, sy: int, ax: int, ay: int)
  {
    && CornerFits(r.minX, sx, ax) && CornerFits(r.maxX, sx, ax)
    && CornerFits(r.minY, sy, ay) && CornerFits(r.maxY, sy, ay)
  }

  /** `scale(sx, sy, ax, ay, dest)`: each corner `c` becomes `(c - a) * s + a`. */
  function Scale(r: Rect, sx: int32, sy: int32, ax: int32, ay: int32): (t: Rect)
    requires CanScale(r, sx, sy, ax, ay)
    ensures HasLengths(r) && HasLengths(t) ==> LengthX(t) == LengthX(r) * sx && LengthY(t) == LengthY(r) * sy
    ensures sx > 0 && sy > 0 ==> (IsValid(t) <==> IsValid(r))
    ensures IsValid(r) && (sx <= 0 || sy <= 0) ==> !IsValid(t)
  {
    ScaleSign(r.minX, r.maxX, sx, ax);
    ScaleSign(r.minY, r.maxY, sy, ay);
    Rect(Corner(r.minX, sx, ax), Corner(r.minY, sy, ay), Corner(r.maxX, sx, ax), Corner(r.maxY, sy, ay))
  }

  /** A corner coordinate `c` scaled by `s` about the anchor coordinate `a`. */
  function Corner(c: int32, s: int32, a: int32): int32
    requires CornerFits(c, s, a)
  {
    (c - a) * s + a
  }

  /** Scaling two coordinates by a positive factor keeps their order; by a non-positive one it cannot keep a strict order. */
  lemma ScaleSign(lo: int, hi: int, s: int, a: int)
    ensures ((hi - a) * s + a) - ((lo - a) * s + a) == (hi - lo) * s
    ensures s > 0 ==> (lo < hi <==> (lo - a) * s + a < (hi - a) * s + a)
    ensures s <= 0 && lo < hi ==> (lo - a) * s + a >= (hi - a) * s + a
  {
    var d := hi - lo;
    assert (hi - a) * s == (lo - a) * s + d * s;
    if s > 0 {
      if d > 0 { assert d * s > 0; }
      else { assert d * s <= 0; }
    } else if d > 0 {
      assert d * s <= 0;
    }
  }

  /** `scale(sx, sy, dest)`: scaling about the origin multiplies each corner. */
  function ScaleOrigin(r: Rect, sx: int32, sy: int32): (t: Rect)
    requires CanScale(r, sx, sy, 0, 0)
    ensures t == Scale(r, sx, sy, 0, 0)
    ensures HasLengths(r) && HasLengths(t) ==> LengthX(t) == LengthX(r) * sx && LengthY(t) == LengthY(r) * sy
  {
    Rect(r.minX * sx, r.minY * sy, r.maxX * sx, r.maxY * sy)
  }

  /** `scale(sf, ax, ay, dest)`: one factor for both axes. */
  function ScaleUniform(r: Rect, sf: int32, ax: int32, ay: int32): (t: Rect)
    requires CanScale(r, sf, sf, ax, ay)
    ensures t == Scale(r, sf, sf, ax, ay)
  {
    Rect(Corner(r.minX, sf, ax), Corner(r.minY, sf, ay), Corner(r.maxX, sf, ax), Corner(r.maxY, sf, ay))
  }

  /** `scale(sf, dest)`: one factor for both axes, about the origin. */
  function ScaleUniformOrigin(r: Rect, sf: int32): (t: Rect)
    requires CanScale(r, sf, sf, 0, 0)
    ensures t == ScaleOrigin(r, sf, sf)
    ensures t == ScaleUniform(r, sf, 0, 0)
    ensures HasLengths(r) && HasLengths(t) ==> LengthX(t) == LengthX(r) * sf && LengthY(t) == LengthY(r) * sf
  {
    Rect(r.minX * sf, r.minY * sf, r.maxX * sf, r.maxY * sf)
  }

  // ---- the sentinel and the lattice of rectangles ----

  /** The intersection contains every valid rectangle that lies in both operands. */
  lemma IntersectionIsGreatest(a: Rect, b: Rect, c: Rect)
    requires IsValid(c) && ContainsRectangle(a, c) && ContainsRectangle(b, c)
    ensures Intersection(a, b) != Empty
    ensures ContainsRectangle(Intersection(a, b), c)
  {
    var m := Rect(Max(a.minX, b.minX), Max(a.minY, b.minY), Min(a.maxX, b.maxX), Min(a.maxY, b.maxY));
    assert m.minX <= c.minX < c.maxX <= m.maxX;
    assert m.minY <= c.minY < c.maxY <= m.maxY;
    assert Intersection(a, b) == m;
  }

  /** The union lies in every rectangle that contains both operands. */
  lemma UnionIsLeast(a: Rect, b: Rect, c: Rect)
    requires ContainsRectangle(c, a) && ContainsRectangle(c, b)
    ensures ContainsRectangle(c, Union(a, b))
  {
  }

  /** The sentinel is contained in every rectangle: it stands for the empty set. */
  lemma EmptyIsBottom(r: Rect)
    ensures ContainsRectangle(r, Empty)
    ensures !IsValid(Empty)
  {
  }

  /**
    Chaining on the sentinel: it is the neutral element of `union` and
    absorbs `intersection`, so no special case is needed downstream.
   */
  lemma EmptyChains(r: Rect)
    ensures Union(Empty, r) == r && Union(r, Empty) == r
    ensures Intersection(Empty, r) == Empty && Intersection(r, Empty) == Empty
  {
  }

  lemma IntersectionCommutes(a: Rect, b: Rect)
    ensures Intersection(a, b) == Intersection(b, a)
  {
  }

  lemma UnionCommutes(a: Rect, b: Rect)
    ensures Union(a, b) == Union(b, a)
  {
  }

  // ---- translation and scaling ----

  /** Translating back by the negated offset restores the rectangle. */
  lemma TranslateRoundTrip(r: Rect, x: int32, y: int32)
    requires CanTranslate(r, x, y) && x > MIN_VALUE && y > MIN_VALUE
    ensures CanTranslate(Translate(r, x, y), -x, -y)
    ensures Translate(Translate(r, x, y), -x, -y) == r
  {
  }

  /** Translation keeps containment in both directions. */
  lemma TranslateKeepsContainment(a: Rect, b: Rect, x: int32, y: int32)
    requires CanTranslate(a, x, y) && CanTranslate(b, x, y)
    ensures ContainsRectangle(Translate(a, x, y), Translate(b, x, y)) <==> ContainsRectangle(a, b)
  {
  }

  /** Translation keeps the area. */
  lemma TranslateKeepsArea(r: Rect, x: int32, y: int32)
    requires CanTranslate(r, x, y) && HasLengths(r) && InRange(LengthX(r) * LengthY(r))
    ensures HasLengths(Translate(r, x, y))
    ensures InRange(LengthX(Translate(r, x, y)) * LengthY(Translate(r, x, y)))
    ensures Area(Translate(r, x, y)) == Area(r)
  {
  }

  /**
    Scaling about the anchor `(ax, ay)` is `translate(-ax, -ay)`, then
    `scale(sx, sy)` about the origin, then `translate(ax, ay)`.
   */
  lemma ScaleIsTranslateScaleTranslate(r: Rect, sx: int32, sy: int32, ax: int32, ay: int32)
    requires CanScale(r, sx, sy, ax, ay) && ax > MIN_VALUE && ay > MIN_VALUE
    ensures CanTranslate(r, -ax, -ay)
    ensures CanScale(Translate(r, -ax, -ay), sx, sy, 0, 0)
    ensures CanTranslate(ScaleOrigin(Translate(r, -ax, -ay), sx, sy), ax, ay)
    ensures Translate(ScaleOrigin(Translate(r, -ax, -ay), sx, sy), ax, ay) == Scale(r, sx, sy, ax, ay)
  {
  }
}
