/**
  Properties relating the `Rectangled` operations to one another: the
  lattice that containment, intersection and union form, the NaN
  rectangle's behaviour in it, and the geometric meaning of translation and
  scaling.
 */
module RectangledLemmas {
  import opened Ieee
  import opened Rectangled

  // ---- validity and the NaN rectangle ----

  lemma ValidateIdempotent(r: Rect)
    ensures Validate(Validate(r)) == Validate(r)
  {
  }

  /**
    The NaN rectangle is invalid, contains no point and has NaN area. As
    `other` it absorbs intersection under either reading of `max`/`min`;
    as `this` it does so for an invalid `other`.
   */
  lemma NaNRectIsEmpty(b: Rect, x: Dbl, y: Dbl)
    ensures !IsValid(NaNRect)
    ensures !ContainsPoint(NaNRect, x, y)
    ensures Area(NaNRect).NaN?
    ensures Intersection(b, NaNRect) == NaNRect && TernaryIntersection(b, NaNRect) == NaNRect
    ensures !IsValid(b) ==> Intersection(NaNRect, b) == NaNRect && TernaryIntersection(NaNRect, b) == NaNRect
  {
  }

  /**
    With the NaN rectangle as `this` and a valid `other`, the answer depends
    on the reading of `max`/`min`: NaN when they propagate NaN, `other` when
    they are conditionals. Only the second reading makes the operand order
    matter.
   */
  lemma NaNThisDependsOnReading(b: Rect)
    requires IsValid(b)
    ensures Intersection(NaNRect, b) == NaNRect
    ensures TernaryIntersection(NaNRect, b) == b
    ensures TernaryIntersection(NaNRect, b) != TernaryIntersection(b, NaNRect)
  {
  }

  // ---- containment ----

  /** Closed containment is reflexive exactly on the NaN-free rectangles, valid or not. */
  lemma ContainsRectangleReflexive(r: Rect)
    ensures ContainsRectangle(r, r) <==> NaNFree(r)
  {
  }

  lemma ContainsRectangleTransitive(a: Rect, b: Rect, c: Rect)
    requires ContainsRectangle(a, b) && ContainsRectangle(b, c)
    ensures ContainsRectangle(a, c)
  {
  }

  /** A point strictly inside a rectangle is strictly inside every rectangle containing it. */
  lemma ContainsPointMonotone(a: Rect, b: Rect, x: Dbl, y: Dbl)
    requires ContainsRectangle(b, a) && ContainsPoint(a, x, y)
    ensures ContainsPoint(b, x, y)
  {
  }

  // ---- intersection ----

  /**
    Intersection commutes on NaN-free operands under either reading; with
    NaN allowed it commutes only under the propagating one.
   */
  lemma IntersectionCommutes(a: Rect, b: Rect)
    ensures NaNFree(a) && NaNFree(b) ==> TernaryIntersection(a, b) == TernaryIntersection(b, a)
    ensures Intersection(a, b) == Intersection(b, a)
  {
  }

  lemma IntersectsRectangleSymmetric(a: Rect, b: Rect)
    ensures IntersectsRectangle(a, b) <==> IntersectsRectangle(b, a)
  {
  }

  /** The intersection contains every valid rectangle that lies in both operands. */
  lemma IntersectionIsGreatest(a: Rect, b: Rect, c: Rect)
    requires IsValid(c) && ContainsRectangle(a, c) && ContainsRectangle(b, c)
    ensures Intersection(a, b) != NaNRect
    ensures ContainsRectangle(Intersection(a, b), c)
  {
    var m := Meet(a, b);
    assert Le(m.minX, c.minX) && Lt(c.minX, c.maxX) && Le(c.maxX, m.maxX);
    assert Le(m.minY, c.minY) && Lt(c.minY, c.maxY) && Le(c.maxY, m.maxY);
    assert IsValid(m);
  }

  /**
    A point strictly inside both operands is strictly inside the
    intersection, and a point inside the intersection is inside `other`,
    under either reading; it is inside `this` as well when `this` is NaN-free.
   */
  lemma ContainsPointIntersection(a: Rect, b: Rect, x: Dbl, y: Dbl)
    ensures ContainsPoint(a, x, y) && ContainsPoint(b, x, y) ==>
              ContainsPoint(Intersection(a, b), x, y) && ContainsPoint(TernaryIntersection(a, b), x, y)
    ensures ContainsPoint(Intersection(a, b), x, y) ==> ContainsPoint(b, x, y)
    ensures ContainsPoint(TernaryIntersection(a, b), x, y) ==> ContainsPoint(b, x, y)
    ensures NaNFree(a) ==>
              (ContainsPoint(Intersection(a, b), x, y) <==> ContainsPoint(a, x, y) && ContainsPoint(b, x, y))
  {
    var m := Meet(a, b);
    if ContainsPoint(a, x, y) && ContainsPoint(b, x, y) {
      assert Lt(m.minX, x) && Lt(x, m.maxX);
      assert Lt(m.minY, y) && Lt(y, m.maxY);
      assert IsValid(m);
    }
  }

  /** Two valid rectangles overlap strictly exactly when some point lies strictly inside both. */
  lemma IntersectsIffCommonPoint(a: Rect, b: Rect)
    requires IsValid(a) && IsValid(b)
    ensures IntersectsRectangle(a, b) <==> exists x: Dbl, y: Dbl :: ContainsPoint(a, x, y) && ContainsPoint(b, x, y)
  {
    if IntersectsRectangle(a, b) {
      var m := Meet(a, b);
      var x := Fin((m.minX.v + m.maxX.v) / 2.0);
      var y := Fin((m.minY.v + m.maxY.v) / 2.0);
      assert ContainsPoint(a, x, y) && ContainsPoint(b, x, y);
    }
  }

  /** Rectangles that share only an edge do not intersect: the result is the NaN rectangle. */
  lemma SharedEdgeIsNoIntersection(a: Rect, b: Rect)
    requires IsValid(a) && IsValid(b) && a.maxX == b.minX
    ensures !IntersectsRectangle(a, b)
    ensures Intersection(a, b) == NaNRect
  {
  }

  // ---- union ----

  /** The union lies in every rectangle that contains both operands. */
  lemma UnionIsLeast(a: Rect, b: Rect, c: Rect)
    requires ContainsRectangle(c, a) && ContainsRectangle(c, b)
    ensures ContainsRectangle(c, Union(a, b))
  {
  }

  lemma UnionCommutes(a: Rect, b: Rect)
    requires NaNFree(a) && NaNFree(b)
    ensures Union(a, b) == Union(b, a)
  {
  }

  /** With NaN the union is not commutative: the NaN rectangle is a left identity and a right zero. */
  lemma UnionWithNaNRect(b: Rect)
    requires NaNFree(b)
    ensures Union(NaNRect, b) == b
    ensures Union(b, NaNRect) == NaNRect
    ensures Union(NaNRect, b) != Union(b, NaNRect)
  {
  }

  /** The union with a point lies in every rectangle that contains the original and the point. */
  lemma UnionPointIsLeast(r: Rect, x: Dbl, y: Dbl, c: Rect)
    requires ContainsRectangle(c, r)
    requires Le(c.minX, x) && Le(x, c.maxX) && Le(c.minY, y) && Le(y, c.maxY)
    ensures ContainsRectangle(c, UnionPoint(r, x, y))
  {
  }

  // ---- translation ----

  /** Translating back by the negated offset restores a NaN-free rectangle. */
  lemma TranslateRoundTrip(r: Rect, x: Dbl, y: Dbl)
    requires NaNFree(r) && x.Fin? && y.Fin?
    ensures Translate(Translate(r, x, y), Neg(x), Neg(y)) == r
  {
  }

  /** Moving the rectangle and the point by the same finite offset keeps the answer of `containsPoint`. */
  lemma TranslateKeepsContainsPoint(r: Rect, x: Dbl, y: Dbl, px: Dbl, py: Dbl)
    requires x.Fin? && y.Fin?
    ensures ContainsPoint(Translate(r, x, y), Add(px, x), Add(py, y)) == ContainsPoint(r, px, py)
  {
  }

  lemma TranslateKeepsArea(r: Rect, x: Dbl, y: Dbl)
    requires x.Fin? && y.Fin?
    ensures Area(Translate(r, x, y)) == Area(r)
  {
  }

  // ---- scaling ----

  /**
    Scaling about `(ax, ay)` is `translate(-ax, -ay)`, then `scale(sx, sy)`
    about the origin, then `translate(ax, ay)`, for every input.
   */
  lemma ScaleIsTranslateScaleTranslate(r: Rect, sx: Dbl, sy: Dbl, ax: Dbl, ay: Dbl)
    ensures Scale(r, sx, sy, ax, ay) == Translate(ScaleOrigin(Translate(r, Neg(ax), Neg(ay)), sx, sy), ax, ay)
  {
  }

  /** Scaling by positive factors about a common anchor keeps containment. */
  lemma ScaleKeepsContainment(a: Rect, b: Rect, sx: Dbl, sy: Dbl, ax: Dbl, ay: Dbl)
    requires Gt(sx, Fin(0.0)) && Gt(sy, Fin(0.0)) && ax.Fin? && ay.Fin?
    requires ContainsRectangle(a, b)
    ensures ContainsRectangle(Scale(a, sx, sy, ax, ay), Scale(b, sx, sy, ax, ay))
  {
    CornerMonotone(a.minX.v, b.minX.v, sx.v, ax.v);
    CornerMonotone(b.maxX.v, a.maxX.v, sx.v, ax.v);
    CornerMonotone(a.minY.v, b.minY.v, sy.v, ay.v);
    CornerMonotone(b.maxY.v, a.maxY.v, sy.v, ay.v);
  }

  lemma CornerMonotone(lo: real, hi: real, s: real, a: real)
    requires lo <= hi && s > 0.0
    ensures (lo - a) * s + a <= (hi - a) * s + a
  {
    assert (hi - a) * s - (lo - a) * s == (hi - lo) * s;
    assert (hi - lo) * s >= 0.0;
  }

  // ---- circles ----

  /** `intersectsCircle` answers false even for a circle centred inside the rectangle. */
  lemma IntersectsCircleIgnoresGeometry()
    ensures var r := Rect(Fin(0.0), Fin(0.0), Fin(2.0), Fin(2.0));
            var c := Circle(Fin(1.0), Fin(1.0), Fin(1.0));
            ContainsPoint(r, c.x, c.y) && !IntersectsCircle(r, c)
  {
  }
}
