/**
  `Rectangled`: an axis-aligned rectangle with `double` corners.

  Comparisons are exact in IEEE arithmetic, so validity, containment and
  union follow the class's own comparisons, NaN included; infinite corners
  are not represented. `intersection` goes through `org.joml.Math.max`/`min`,
  whose NaN behaviour is not part of this model: `Intersection` uses the
  NaN-propagating reading and `TernaryIntersection` the conditional one, and
  the contracts say which facts hold under both. `intersection` replaces a
  result that is not strictly valid by the all-NaN rectangle. Translation
  and scaling are modelled over the reals (see the `Ieee` module).

  Each operation is a function returning the value the Java method stores in
  its destination. The `...At` functions at the end replay the Java
  statements one field write at a time on a heap of rectangles, so that the
  in-place forms (`dest` being `this` or the other operand) are covered too.
 */
module Rectangled {
  import opened Ieee
  import Rectanglei
  import Geometry

  datatype Rect = Rect(minX: Dbl, minY: Dbl, maxX: Dbl, maxY: Dbl)

  /** A `Rectanglef` operand: `float` corners. */
  datatype RectF = RectF(minX: Flt, minY: Flt, maxX: Flt, maxY: Flt)

  /** A `Circled` operand, or a `Circlef` one with its components widened. */
  datatype Circle = Circle(x: Dbl, y: Dbl, r: Dbl)

  /** What `validate` stores when the rectangle is not valid. */
  const NaNRect: Rect := Rect(NaN, NaN, NaN, NaN)

  predicate NaNFree(r: Rect)
  {
    r.minX.Fin? && r.minY.Fin? && r.maxX.Fin? && r.maxY.Fin?
  }

  /** Java's implicit widening of a `Rectanglef` operand's fields. */
  function WidenF(o: RectF): Rect
  {
    Rect(Widen(o.minX), Widen(o.minY), Widen(o.maxX), Widen(o.maxY))
  }

  /** Java's implicit widening of a `Rectanglei` operand's fields. */
  function WidenI(o: Rectanglei.Rect): Rect
  {
    Rect(OfInt(o.minX), OfInt(o.minY), OfInt(o.maxX), OfInt(o.maxY))
  }

  // ---- validity ----

  /** `isValid()`: strictly positive extent on both axes; false for any NaN. */
  function IsValid(r: Rect): (v: bool)
    ensures v ==> NaNFree(r)
    ensures v <==> Gt(Sub(r.maxX, r.minX), Fin(0.0)) && Gt(Sub(r.maxY, r.minY), Fin(0.0))
  {
    Lt(r.minX, r.maxX) && Lt(r.minY, r.maxY)
  }

  /** `validate()`: a rectangle that is not valid becomes the NaN rectangle. */
  function Validate(r: Rect): (v: Rect)
    ensures IsValid(v) || v == NaNRect
    ensures IsValid(r) ==> v == r
    ensures !IsValid(r) ==> v == NaNRect
  {
    if IsValid(r) then r else NaNRect
  }

  // ---- containment and intersection tests ----

  /**
    `containsRectangle(Rectangledc)`: closed bounds, so every NaN-free
    rectangle contains itself; false for any NaN.
   */
  function ContainsRectangle(r: Rect, o: Rect): (c: bool)
    ensures c ==> NaNFree(r) && NaNFree(o)
    ensures r == o ==> (c <==> NaNFree(r))
    ensures c && IsValid(o) ==> IsValid(r)
    ensures c ==> forall x: Dbl, y: Dbl :: ContainsPoint(o, x, y) ==> ContainsPoint(r, x, y)
  {
    Ge(o.minX, r.minX) && Le(o.maxX, r.maxX) && Ge(o.minY, r.minY) && Le(o.maxY, r.maxY)
  }

  /** `containsRectangle(Rectanglefc)`: compares the widened float corners. */
  function ContainsRectangleF(r: Rect, o: RectF): (res: bool)
    ensures res == ContainsRectangle(r, WidenF(o))
  {
    Ge(Widen(o.minX), r.minX) && Le(Widen(o.maxX), r.maxX) && Ge(Widen(o.minY), r.minY) && Le(Widen(o.maxY), r.maxY)
  }

  /** `containsRectangle(Rectangleic)`: compares the widened int corners. */
  function ContainsRectangleI(r: Rect, o: Rectanglei.Rect): (res: bool)
    ensures res == ContainsRectangle(r, WidenI(o))
  {
    Ge(OfInt(o.minX), r.minX) && Le(OfInt(o.maxX), r.maxX) && Ge(OfInt(o.minY), r.minY) && Le(OfInt(o.maxY), r.maxY)
  }

  /**
    `intersectsRectangle(Rectangledc)`: strict, so rectangles sharing only an
    edge do not intersect. For valid rectangles it holds exactly when the
    componentwise meet `intersection` computes is itself valid.
   */
  function IntersectsRectangle(r: Rect, o: Rect): (res: bool)
    ensures res ==> NaNFree(r) && NaNFree(o)
    ensures IsValid(r) && IsValid(o) ==> (res <==> IsValid(Meet(r, o)))
  {
    Lt(r.minX, o.maxX) && Gt(r.maxX, o.minX) && Gt(r.maxY, o.minY) && Lt(r.minY, o.maxY)
  }

  /** `intersectsRectangle(Rectanglefc)` */
  function IntersectsRectangleF(r: Rect, o: RectF): (res: bool)
    ensures res == IntersectsRectangle(r, WidenF(o))
  {
    Lt(r.minX, Widen(o.maxX)) && Gt(r.maxX, Widen(o.minX)) && Gt(r.maxY, Widen(o.minY)) && Lt(r.minY, Widen(o.maxY))
  }

  /** `intersectsRectangle(Rectangleic)` */
  function IntersectsRectangleI(r: Rect, o: Rectanglei.Rect): (res: bool)
    ensures res == IntersectsRectangle(r, WidenI(o))
  {
    Lt(r.minX, OfInt(o.maxX)) && Gt(r.maxX, OfInt(o.minX)) && Gt(r.maxY, OfInt(o.minY)) && Lt(r.minY, OfInt(o.maxY))
  }

  /** `intersectsCircle(Circlefc)` and `intersectsCircle(Circledc)`: not implemented, always false. */
  function IntersectsCircle(r: Rect, c: Circle): (res: bool)
    ensures !res
  {
    false
  }

  /** `containsPoint(double, double)`: open bounds, so the boundary is excluded. */
  function ContainsPoint(r: Rect, x: Dbl, y: Dbl): (res: bool)
    ensures res ==> IsValid(r)
    ensures res ==> x.Fin? && y.Fin? && x != r.minX && x != r.maxX && y != r.minY && y != r.maxY
  {
    Gt(x, r.minX) && Gt(y, r.minY) && Lt(x, r.maxX) && Lt(y, r.maxY)
  }

  /** `containsPoint(float, float)`: compares the widened point. */
  function ContainsPointF(r: Rect, x: Flt, y: Flt): (res: bool)
    ensures res == ContainsPoint(r, Widen(x), Widen(y))
  {
    Gt(Widen(x), r.minX) && Gt(Widen(y), r.minY) && Lt(Widen(x), r.maxX) && Lt(Widen(y), r.maxY)
  }

  // ---- intersection ----

  /** Componentwise max of the minima and min of the maxima, before validation. */
  function Meet(a: Rect, b: Rect): Rect
  {
    Rect(Max(a.minX, b.minX), Max(a.minY, b.minY), Min(a.maxX, b.maxX), Min(a.maxY, b.maxY))
  }

  /**
    `intersection(Rectangled other, dest)`: the largest valid rectangle inside
    both operands, or the NaN rectangle when there is none. The clauses hold
    under either reading of `org.joml.Math` (see `TernaryIntersection`):
    a valid result always lies in `other`; it lies in `this`, and the
    operands intersect, whenever `this` is NaN-free.
   */
  function Intersection(a: Rect, b: Rect): (r: Rect)
    ensures r == NaNRect || (IsValid(r) && ContainsRectangle(b, r))
    ensures NaNFree(a) ==> r == NaNRect || ContainsRectangle(a, r)
    ensures NaNFree(a) && r != NaNRect ==> IntersectsRectangle(a, b)
    ensures IsValid(a) && IsValid(b) ==> (r == NaNRect <==> !IntersectsRectangle(a, b))
  {
    Validate(Meet(a, b))
  }

  /**
    `intersection` with `org.joml.Math.max`/`min` read as conditionals. It
    agrees with `Intersection` whenever `this` is NaN-free; a NaN corner of
    `this` is replaced by `other`'s, so the NaN rectangle on the left yields
    `other` validated.
   */
  function TernaryIntersection(a: Rect, b: Rect): (r: Rect)
    ensures r == NaNRect || (IsValid(r) && ContainsRectangle(b, r))
    ensures NaNFree(a) ==> r == Intersection(a, b)
    ensures a == NaNRect ==> r == Validate(b)
  {
    Validate(Rect(TernaryMax(a.minX, b.minX), TernaryMax(a.minY, b.minY),
                  TernaryMin(a.maxX, b.maxX), TernaryMin(a.maxY, b.maxY)))
  }

  /** `intersection(Rectanglef other, dest)` */
  function IntersectionF(a: Rect, b: RectF): (r: Rect)
    ensures r == Intersection(a, WidenF(b))
  {
    Validate(Rect(Max(a.minX, Widen(b.minX)), Max(a.minY, Widen(b.minY)),
                  Min(a.maxX, Widen(b.maxX)), Min(a.maxY, Widen(b.maxY))))
  }

  /** `intersection(Rectanglei other, dest)` */
  function IntersectionI(a: Rect, b: Rectanglei.Rect): (r: Rect)
    ensures r == Intersection(a, WidenI(b))
  {
    Validate(Rect(Max(a.minX, OfInt(b.minX)), Max(a.minY, OfInt(b.minY)),
                  Min(a.maxX, OfInt(b.maxX)), Min(a.maxY, OfInt(b.maxY))))
  }

  // ---- union ----

  /**
    `union(x, y, dest)`: grows the rectangle to take in the point. Every
    comparison against NaN fails, so a NaN corner is replaced by the point.
   */
  function UnionPoint(r: Rect, x: Dbl, y: Dbl): (u: Rect)
    ensures x.Fin? && y.Fin? ==> Le(u.minX, x) && Le(x, u.maxX) && Le(u.minY, y) && Le(y, u.maxY)
    ensures NaNFree(r) && x.Fin? && y.Fin? ==> ContainsRectangle(u, r)
    ensures r == NaNRect ==> u == Rect(x, y, x, y)
  {
    Rect(if Lt(r.minX, x) then r.minX else x,
         if Lt(r.minY, y) then r.minY else y,
         if Gt(r.maxX, x) then r.maxX else x,
         if Gt(r.maxY, y) then r.maxY else y)
  }

  /**
    `union(Rectangledc other, dest)`: the smallest rectangle containing both.
    A NaN corner of `a` is replaced by `b`'s; a NaN corner of `b` wins.
   */
  function Union(a: Rect, b: Rect): (u: Rect)
    ensures NaNFree(a) && NaNFree(b) ==> ContainsRectangle(u, a) && ContainsRectangle(u, b)
    ensures a == NaNRect ==> u == b
    ensures b == NaNRect ==> u == NaNRect
  {
    Rect(if Lt(a.minX, b.minX) then a.minX else b.minX,
         if Lt(a.minY, b.minY) then a.minY else b.minY,
         if Gt(a.maxX, b.maxX) then a.maxX else b.maxX,
         if Gt(a.maxY, b.maxY) then a.maxY else b.maxY)
  }

  // ---- lengths and area ----

  /** `lengthX()` */
  function LengthX(r: Rect): (l: Dbl)
    ensures l.Fin? <==> r.minX.Fin? && r.maxX.Fin?
    ensures l.Fin? ==> Add(r.minX, l) == r.maxX
  {
    Sub(r.maxX, r.minX)
  }

  /** `lengthY()` */
  function LengthY(r: Rect): (l: Dbl)
    ensures l.Fin? <==> r.minY.Fin? && r.maxY.Fin?
    ensures l.Fin? ==> Add(r.minY, l) == r.maxY
  {
    Sub(r.maxY, r.minY)
  }

  /** `lengths(Vector2d dest)` */
  function Lengths(r: Rect): (v: Geometry.Vec2<Dbl>)
    ensures v == Geometry.Vec2(LengthX(r), LengthY(r))
    ensures IsValid(r) <==> Gt(v.x, Fin(0.0)) && Gt(v.y, Fin(0.0))
  {
    Geometry.Vec2(Sub(r.maxX, r.minX), Sub(r.maxY, r.minY))
  }

  /** `area()`: the product of the two lengths. */
  function Area(r: Rect): (a: Dbl)
    ensures a == Mul(Lengths(r).x, Lengths(r).y)
    ensures a.NaN? <==> !NaNFree(r)
    ensures IsValid(r) ==> Gt(a, Fin(0.0))
  {
    var lx := LengthX(r);
    var ly := LengthY(r);
    if IsValid(r) then
      assert lx.v * ly.v > 0.0 by { PositiveProduct(lx.v, ly.v); }
      Mul(lx, ly)
    else
      Mul(lx, ly)
  }

  lemma PositiveProduct(a: real, b: real)
    requires a > 0.0 && b > 0.0
    ensures a * b > 0.0
  {
  }

  // ---- translation ----

  /** `translate(x, y, dest)`: both X corners move by `x`, both Y corners by `y`. */
  function Translate(r: Rect, x: Dbl, y: Dbl): (t: Rect)
    ensures NaNFree(r) && x.Fin? && y.Fin? ==>
              && Sub(t.minX, r.minX) == x && Sub(t.maxX, r.maxX) == x
              && Sub(t.minY, r.minY) == y && Sub(t.maxY, r.maxY) == y
    ensures x.Fin? && y.Fin? ==> LengthX(t) == LengthX(r) && LengthY(t) == LengthY(r)
    ensures x.Fin? && y.Fin? ==> (IsValid(t) <==> IsValid(r))
    ensures x.NaN? || y.NaN? ==> !IsValid(t)
  {
    Rect(Add(r.minX, x), Add(r.minY, y), Add(r.maxX, x), Add(r.maxY, y))
  }

  // ---- scaling ----

  /** One corner coordinate `c` scaled by `s` about the anchor coordinate `a`. */
  function Corner(c: Dbl, s: Dbl, a: Dbl): Dbl
  {
    Add(Mul(Sub(c, a), s), a)
  }

  /**
    `scale(sx, sy, ax, ay, dest)`: every corner `c` becomes `(c - a) * s + a`.
    Minima and maxima are not reordered, so a negative factor turns a valid
    rectangle into an invalid one.
   */
  function Scale(r: Rect, sx: Dbl, sy: Dbl, ax: Dbl, ay: Dbl): (t: Rect)
    ensures NaNFree(r) && sx.Fin? && sy.Fin? && ax.Fin? && ay.Fin? ==>
              LengthX(t) == Mul(LengthX(r), sx) && LengthY(t) == Mul(LengthY(r), sy)
    ensures Gt(sx, Fin(0.0)) && Gt(sy, Fin(0.0)) && ax.Fin? && ay.Fin? ==> (IsValid(t) <==> IsValid(r))
    ensures IsValid(r) && ax.Fin? && ay.Fin? && (Le(sx, Fin(0.0)) || Le(sy, Fin(0.0))) ==> !IsValid(t)
  {
    var t := Rect(Corner(r.minX, sx, ax), Corner(r.minY, sy, ay), Corner(r.maxX, sx, ax), Corner(r.maxY, sy, ay));
    if NaNFree(r) && sx.Fin? && sy.Fin? && ax.Fin? && ay.Fin? then
      ScaleLength(r.minX.v, r.maxX.v, sx.v, ax.v);
      ScaleLength(r.minY.v, r.maxY.v, sy.v, ay.v);
      t
    else
      t
  }

  /** Scaling about an anchor multiplies the distance between two coordinates by the factor. */
  lemma ScaleLength(lo: real, hi: real, s: real, a: real)
    ensures ((hi - a) * s + a) - ((lo - a) * s + a) == (hi - lo) * s
    ensures s > 0.0 ==> (lo < hi <==> (lo - a) * s + a < (hi - a) * s + a)
    ensures s <= 0.0 && lo < hi ==> (hi - a) * s + a <= (lo - a) * s + a
  {
    assert (hi - a) * s == (lo - a) * s + (hi - lo) * s;
    if s > 0.0 {
      if hi - lo > 0.0 { assert (hi - lo) * s > 0.0; } else { assert (hi - lo) * s <= 0.0; }
    } else if hi - lo > 0.0 {
      assert (hi - lo) * s <= 0.0;
    }
  }

  /** `scale(sx, sy, dest)` and `scale(sx, sy)`: about the origin, so each corner is multiplied. */
  function ScaleOrigin(r: Rect, sx: Dbl, sy: Dbl): (t: Rect)
    ensures t == Rect(Mul(r.minX, sx), Mul(r.minY, sy), Mul(r.maxX, sx), Mul(r.maxY, sy))
  {
    Scale(r, sx, sy, Fin(0.0), Fin(0.0))
  }

  /** `scale(sf, ax, ay, dest)` and `scale(sf, ax, ay)`: one factor, so the aspect ratio is kept. */
  function ScaleUniform(r: Rect, sf: Dbl, ax: Dbl, ay: Dbl): (t: Rect)
    ensures NaNFree(r) && sf.Fin? && ax.Fin? && ay.Fin? ==>
              LengthX(t) == Mul(LengthX(r), sf) && LengthY(t) == Mul(LengthY(r), sf)
  {
    Scale(r, sf, sf, ax, ay)
  }

  /** `scale(sf, dest)` and `scale(sf)`: one factor about the origin. */
  function ScaleUniformOrigin(r: Rect, sf: Dbl): (t: Rect)
    ensures t == ScaleOrigin(r, sf, sf)
    ensures t == ScaleUniform(r, sf, Fin(0.0), Fin(0.0))
  {
    Scale(r, sf, sf, Fin(0.0), Fin(0.0))
  }

  // ---- the Java methods statement by statement, on a heap ----

  type Ref = nat

  /** The rectangles reachable by the caller, by reference; two equal references alias. */
  type Heap = map<Ref, Rect>

  datatype Field = MinX | MinY | MaxX | MaxY

  function Get(r: Rect, f: Field): Dbl
  {
    match f
    case MinX => r.minX
    case MinY => r.minY
    case MaxX => r.maxX
    case MaxY => r.maxY
  }

  function Put(r: Rect, f: Field, v: Dbl): Rect
  {
    match f
    case MinX => r.(minX := v)
    case MinY => r.(minY := v)
    case MaxX => r.(maxX := v)
    case MaxY => r.(maxY := v)
  }

  function Read(h: Heap, o: Ref, f: Field): Dbl
    requires o in h
  {
    Get(h[o], f)
  }

  function Write(h: Heap, o: Ref, f: Field, v: Dbl): Heap
    requires o in h
  {
    h[o := Put(h[o], f, v)]
  }

  /** `dest.validate()` */
  function ValidateAt(h: Heap, d: Ref): (h': Heap)
    requires d in h
    ensures h'.Keys == h.Keys
    ensures h'[d] == Validate(h[d])
    ensures forall o :: o in h && o != d ==> h'[o] == h[o]
  {
    if IsValid(h[d]) then h
    else Write(Write(Write(Write(h, d, MinX, NaN), d, MinY, NaN), d, MaxX, NaN), d, MaxY, NaN)
  }

  /**
    `self.intersection(other, dest)`. With `dest == self` it is the in-place
    `intersection(other)`; the result does not depend on the aliasing.
   */
  function IntersectionAt(h: Heap, self: Ref, other: Ref, dest: Ref): (h': Heap)
    requires self in h && other in h && dest in h
    ensures h'.Keys == h.Keys
    ensures h'[dest] == Intersection(h[self], h[other])
    ensures forall o :: o in h && o != dest ==> h'[o] == h[o]
  {
    var h1 := Write(h, dest, MinX, Max(Read(h, self, MinX), Read(h, other, MinX)));
    var h2 := Write(h1, dest, MinY, Max(Read(h1, self, MinY), Read(h1, other, MinY)));
    var h3 := Write(h2, dest, MaxX, Min(Read(h2, self, MaxX), Read(h2, other, MaxX)));
    var h4 := Write(h3, dest, MaxY, Min(Read(h3, self, MaxY), Read(h3, other, MaxY)));
    ValidateAt(h4, dest)
  }

  /** `self.union(x, y, dest)`; with `dest == self` it is the in-place `union(x, y)`. */
  function UnionPointAt(h: Heap, self: Ref, x: Dbl, y: Dbl, dest: Ref): (h': Heap)
    requires self in h && dest in h
    ensures h'.Keys == h.Keys
    ensures h'[dest] == UnionPoint(h[self], x, y)
    ensures forall o :: o in h && o != dest ==> h'[o] == h[o]
  {
    var h1 := Write(h, dest, MinX, if Lt(Read(h, self, MinX), x) then Read(h, self, MinX) else x);
    var h2 := Write(h1, dest, MinY, if Lt(Read(h1, self, MinY), y) then Read(h1, self, MinY) else y);
    var h3 := Write(h2, dest, MaxX, if Gt(Read(h2, self, MaxX), x) then Read(h2, self, MaxX) else x);
    Write(h3, dest, MaxY, if Gt(Read(h3, self, MaxY), y) then Read(h3, self, MaxY) else y)
  }

  /** `self.union(other, dest)`; with `dest == self` it is the in-place `union(other)`. */
  function UnionAt(h: Heap, self: Ref, other: Ref, dest: Ref): (h': Heap)
    requires self in h && other in h && dest in h
    ensures h'.Keys == h.Keys
    ensures h'[dest] == Union(h[self], h[other])
    ensures forall o :: o in h && o != dest ==> h'[o] == h[o]
  {
    var h1 := Write(h, dest, MinX, if Lt(Read(h, self, MinX), Read(h, other, MinX)) then Read(h, self, MinX) else Read(h, other, MinX));
    var h2 := Write(h1, dest, MinY, if Lt(Read(h1, self, MinY), Read(h1, other, MinY)) then Read(h1, self, MinY) else Read(h1, other, MinY));
    var h3 := Write(h2, dest, MaxX, if Gt(Read(h2, self, MaxX), Read(h2, other, MaxX)) then Read(h2, self, MaxX) else Read(h2, other, MaxX));
    Write(h3, dest, MaxY, if Gt(Read(h3, self, MaxY), Read(h3, other, MaxY)) then Read(h3, self, MaxY) else Read(h3, other, MaxY))
  }

  /** `self.translate(x, y, dest)`; with `dest == self` it is the in-place `translate(x, y)`. */
  function TranslateAt(h: Heap, self: Ref, x: Dbl, y: Dbl, dest: Ref): (h': Heap)
    requires self in h && dest in h
    ensures h'.Keys == h.Keys
    ensures h'[dest] == Translate(h[self], x, y)
    ensures forall o :: o in h && o != dest ==> h'[o] == h[o]
  {
    var h1 := Write(h, dest, MinX, Add(Read(h, self, MinX), x));
    var h2 := Write(h1, dest, MinY, Add(Read(h1, self, MinY), y));
    var h3 := Write(h2, dest, MaxX, Add(Read(h2, self, MaxX), x));
    Write(h3, dest, MaxY, Add(Read(h3, self, MaxY), y))
  }

  /** `self.scale(sx, sy, ax, ay, dest)` */
  function ScaleAt(h: Heap, self: Ref, sx: Dbl, sy: Dbl, ax: Dbl, ay: Dbl, dest: Ref): (h': Heap)
    requires self in h && dest in h
    ensures h'.Keys == h.Keys
    ensures h'[dest] == Scale(h[self], sx, sy, ax, ay)
    ensures forall o :: o in h && o != dest ==> h'[o] == h[o]
  {
    var h1 := Write(h, dest, MinX, Add(Mul(Sub(Read(h, self, MinX), ax), sx), ax));
    var h2 := Write(h1, dest, MinY, Add(Mul(Sub(Read(h1, self, MinY), ay), sy), ay));
    var h3 := Write(h2, dest, MaxX, Add(Mul(Sub(Read(h2, self, MaxX), ax), sx), ax));
    Write(h3, dest, MaxY, Add(Mul(Sub(Read(h3, self, MaxY), ay), sy), ay))
  }

  /** The in-place `self.scale(sx, sy, ax, ay)`, written separately in the class: the same values land in `self`. */
  function ScaleInPlaceAt(h: Heap, self: Ref, sx: Dbl, sy: Dbl, ax: Dbl, ay: Dbl): (h': Heap)
    requires self in h
    ensures h' == ScaleAt(h, self, sx, sy, ax, ay, self)
    ensures h'[self] == Scale(h[self], sx, sy, ax, ay)
  {
    var h1 := Write(h, self, MinX, Add(Mul(Sub(Read(h, self, MinX), ax), sx), ax));
    var h2 := Write(h1, self, MinY, Add(Mul(Sub(Read(h1, self, MinY), ay), sy), ay));
    var h3 := Write(h2, self, MaxX, Add(Mul(Sub(Read(h2, self, MaxX), ax), sx), ax));
    Write(h3, self, MaxY, Add(Mul(Sub(Read(h3, self, MaxY), ay), sy), ay))
  }
}
