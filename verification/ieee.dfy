/**
  Java `double` and `float` values as far as the primitives need them.

  A value is either a finite number or NaN; infinities are not represented.
  Every ordered comparison that involves NaN is false and arithmetic
  propagates NaN. Finite arithmetic is idealised over the reals: rounding,
  overflow to infinity and the sign of zero are not modelled.

  The rectangles call `org.joml.Math.max`/`min`, whose bodies are not part
  of this model. Two readings are given: `Max`/`Min` propagate NaN, as
  `java.lang.Math` does; `TernaryMax`/`TernaryMin` are the plain
  conditional expressions. They differ only when the first operand is NaN.

  A `float` operation is defined the way IEEE 754 defines it: compute on the
  widened operands and round the exact result to single precision. `Narrow`
  is that rounding step and is idealised as exact.
 */
module Ieee {

  /** A Java `double`. */
  datatype Dbl = Fin(v: real) | NaN

  /** A Java `float`. */
  datatype Flt = Single(v: real) | SingleNaN

  // ---- comparisons: false whenever an operand is NaN ----

  predicate Lt(a: Dbl, b: Dbl) { a.Fin? && b.Fin? && a.v < b.v }
  predicate Le(a: Dbl, b: Dbl) { a.Fin? && b.Fin? && a.v <= b.v }
  predicate Gt(a: Dbl, b: Dbl) { Lt(b, a) }
  predicate Ge(a: Dbl, b: Dbl) { Le(b, a) }

  /** `org.joml.Math.max(double, double)`, read as propagating NaN. */
  function Max(a: Dbl, b: Dbl): (r: Dbl)
    ensures r.NaN? <==> a.NaN? || b.NaN?
    ensures r.Fin? ==> Ge(r, a) && Ge(r, b) && (r == a || r == b)
  {
    if a.NaN? || b.NaN? then NaN
    else if a.v >= b.v then a else b
  }

  /** `org.joml.Math.min(double, double)`, read as propagating NaN. */
  function Min(a: Dbl, b: Dbl): (r: Dbl)
    ensures r.NaN? <==> a.NaN? || b.NaN?
    ensures r.Fin? ==> Le(r, a) && Le(r, b) && (r == a || r == b)
  {
    if a.NaN? || b.NaN? then NaN
    else if a.v <= b.v then a else b
  }

  /**
    `org.joml.Math.max` read as `a > b ? a : b`: the propagating reading
    unless `a` is NaN, when the conditional falls through to `b`.
   */
  function TernaryMax(a: Dbl, b: Dbl): (r: Dbl)
    ensures a.Fin? ==> r == Max(a, b)
    ensures a.NaN? ==> r == b
  {
    if Gt(a, b) then a else b
  }

  /**
    `org.joml.Math.min` read as `a < b ? a : b`: the propagating reading
    unless `a` is NaN, when the conditional falls through to `b`.
   */
  function TernaryMin(a: Dbl, b: Dbl): (r: Dbl)
    ensures a.Fin? ==> r == Min(a, b)
    ensures a.NaN? ==> r == b
  {
    if Lt(a, b) then a else b
  }

  // ---- double arithmetic ----

  function Add(a: Dbl, b: Dbl): Dbl
  {
    if a.Fin? && b.Fin? then Fin(a.v + b.v) else NaN
  }

  function Sub(a: Dbl, b: Dbl): Dbl
  {
    if a.Fin? && b.Fin? then Fin(a.v - b.v) else NaN
  }

  function Mul(a: Dbl, b: Dbl): Dbl
  {
    if a.Fin? && b.Fin? then Fin(a.v * b.v) else NaN
  }

  function Neg(a: Dbl): Dbl
  {
    if a.Fin? then Fin(-a.v) else NaN
  }

  // ---- precision crossing ----

  /** Widening `float` to `double` is exact. */
  function Widen(f: Flt): (d: Dbl)
    ensures d.NaN? <==> f.SingleNaN?
  {
    match f
    case Single(v) => Fin(v)
    case SingleNaN => NaN
  }

  /** The `(float)` cast; rounding to single precision is idealised as exact. */
  function Narrow(d: Dbl): (f: Flt)
    ensures f.SingleNaN? <==> d.NaN?
  {
    match d
    case Fin(v) => Single(v)
    case NaN => SingleNaN
  }

  /** Widening a Java `int` to `double` is exact. */
  function OfInt(i: int): Dbl
  {
    Fin(i as real)
  }

  // ---- float arithmetic and comparison, through the widened operands ----

  function FAdd(a: Flt, b: Flt): Flt { Narrow(Add(Widen(a), Widen(b))) }
  function FSub(a: Flt, b: Flt): Flt { Narrow(Sub(Widen(a), Widen(b))) }
  function FMul(a: Flt, b: Flt): Flt { Narrow(Mul(Widen(a), Widen(b))) }
  function FNeg(a: Flt): Flt { Narrow(Neg(Widen(a))) }
  predicate FLe(a: Flt, b: Flt) { Le(Widen(a), Widen(b)) }
}
