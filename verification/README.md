# joml-primitives: rectangles, spheres and integer boxes in Dafny

This project models the core of the joml-primitives geometry classes. It
covers:

- `Rectangled`, an axis-aligned rectangle with `double` corners;
- `Spheref` and `Sphered`, spheres with `float` and `double` centre and radius;
- the documented contracts of the integer interfaces `Rectangleic` and `AABBic`.

Java `double` and `float` values are modelled as a finite real or NaN (module
`Ieee`); infinities are not represented. Every ordered comparison involving
NaN is false. Arithmetic is exact over the reals, and rounding to `float` is
idealised as exact. Comparisons are exact in IEEE 754, so validity,
containment, union and the NaN sentinel follow the class's own comparisons
on every finite or NaN corner.

`intersection` calls `org.joml.Math.max`/`min`, whose bodies are not part of
this model. Two readings are modelled: `Ieee.Max`/`Ieee.Min` propagate NaN
(as `java.lang.Math` does), `Ieee.TernaryMax`/`Ieee.TernaryMin` are the
conditionals `a > b ? a : b` and `a < b ? a : b`. They differ only when the
first operand is NaN. `Rectangled.Intersection` uses the first reading and
`Rectangled.TernaryIntersection` the second; the intersection contracts
state what holds under both, and say where the reading matters.

Java methods that write into a `dest` object become functions returning the
value stored. For `Rectangled`, the `...At` functions also replay the field
writes one at a time on a heap of rectangles. They show that the result is the
same when `dest` is `this` or the other operand.

Modules and files:

| file | module | models |
|---|---|---|
| ieee.dfy | `Ieee` | `double`/`float` values, comparisons, `Math.max`/`Math.min`, `+ - *`, widening and narrowing |
| int32.dfy | `Int32` | Java `int` range and `Math.max`/`Math.min` on it |
| geometry.dfy | `Geometry` | points, planes, boxes and rays handed to `Intersectionf`/`Intersectiond`; those routines as a `Kernel` record; exact squared distance |
| rectangled.dfy | `Rectangled` | `Rectangled` operations, and their statement-by-statement heap forms |
| rectangled_lemmas.dfy | `RectangledLemmas` | lattice, NaN, translation and scaling laws relating the `Rectangled` operations |
| sphered.dfy | `Sphered` | `Sphered`: point test, translation, the constant intersection stubs |
| spheref.dfy | `Spheref` | `Spheref`: point test in `float`, translation, forwarding to the kernels |
| rectanglei.dfy | `Rectanglei` | reference model of the `Rectangleic` contracts over 32-bit ints |
| aabbi.dfy | `AABBi` | reference model of the `AABBic` contracts over 32-bit ints |

## Model

| member | source | states |
|---|---|---|
| Ieee.Max | src/org/joml/primitives/Rectangled.java:302-308 | the NaN-propagating reading of the `org.joml.Math.max` called here: NaN exactly when an operand is NaN, otherwise one of the operands and at least both |
| Ieee.Min | src/org/joml/primitives/Rectangled.java:302-308 | the NaN-propagating reading of the `org.joml.Math.min` called here: NaN exactly when an operand is NaN, otherwise one of the operands and at most both |
| Ieee.TernaryMax | src/org/joml/primitives/Rectangled.java:302-308 | the conditional reading `a > b ? a : b` agrees with `Max` when the first operand is a number, and yields the second operand when the first is NaN |
| Ieee.TernaryMin | src/org/joml/primitives/Rectangled.java:302-308 | the conditional reading `a < b ? a : b` agrees with `Min` when the first operand is a number, and yields the second operand when the first is NaN |
| Rectangled.IsValid | src/org/joml/primitives/Rectangled.java:283-285 | a valid rectangle has no NaN corner; it is valid exactly when both lengths are positive |
| Rectangled.ContainsRectangle | src/org/joml/primitives/Rectangled.java:345-348 | closed containment: a NaN-free rectangle contains itself; containment needs both NaN-free, carries validity from the inner to the outer rectangle, and every point inside the inner one is inside the outer one |
| Rectangled.IntersectsRectangle | src/org/joml/primitives/Rectangled.java:430-433 | strict overlap: true only for NaN-free operands; for valid operands, true exactly when the componentwise meet is valid |
| Rectangled.Validate | src/org/joml/primitives/Rectangled.java:268-276 | a valid rectangle is kept; any other rectangle becomes the all-NaN rectangle; the result is always valid or all-NaN |
| Rectangled.Intersection | src/org/joml/primitives/Rectangled.java:302-308 | under either reading of `max`/`min`: the result is the NaN rectangle or a valid rectangle inside `other`; when `this` is NaN-free a non-NaN result also lies inside `this` and the operands intersect; for valid operands it is NaN exactly when they do not intersect |
| Rectangled.TernaryIntersection | src/org/joml/primitives/Rectangled.java:302-308 | with `max`/`min` as conditionals: the NaN rectangle or a valid rectangle inside `other`; equal to `Intersection` whenever `this` is NaN-free; the NaN rectangle as `this` yields `other` validated |
| Rectangled.IntersectionF | src/org/joml/primitives/Rectangled.java:310-316 | the `Rectanglef` overload equals the double overload on the widened operand |
| Rectangled.IntersectionI | src/org/joml/primitives/Rectangled.java:318-324 | the `Rectanglei` overload equals the double overload on the widened operand |
| Rectangled.IntersectionAt | src/org/joml/primitives/Rectangled.java:297-308 | replaying the four field writes and `validate` stores exactly the functional intersection in `dest`, whether `dest` is `this`, `other` or a third rectangle, and changes no other rectangle |
| Rectangled.ValidateAt | src/org/joml/primitives/Rectangled.java:268-276 | the NaN writes of `validate` on the heap agree with `Validate` and touch only `dest` |
| Rectangled.ContainsRectangleF | src/org/joml/primitives/Rectangled.java:357-360 | the `Rectanglefc` overload is the closed containment test on the widened corners |
| Rectangled.ContainsRectangleI | src/org/joml/primitives/Rectangled.java:369-372 | the `Rectangleic` overload is the closed containment test on the widened corners |
| Rectangled.IntersectsRectangleF | src/org/joml/primitives/Rectangled.java:435-438 | the `Rectanglefc` overload is the strict overlap test on the widened corners |
| Rectangled.IntersectsRectangleI | src/org/joml/primitives/Rectangled.java:440-443 | the `Rectangleic` overload is the strict overlap test on the widened corners |
| Rectangled.IntersectsCircle | src/org/joml/primitives/Rectangled.java:445-451 | both `intersectsCircle` overloads answer false |
| Rectangled.ContainsPoint | src/org/joml/primitives/Rectangled.java:457-459 | a contained point implies a valid rectangle and a finite point that lies on no edge |
| Rectangled.ContainsPointF | src/org/joml/primitives/Rectangled.java:461-463 | the `float` overload equals the double overload on the widened point |
| Rectangled.UnionPoint | src/org/joml/primitives/Rectangled.java:398-404 | the result's closed bounds contain a finite point; a NaN-free rectangle is contained in the result; the NaN rectangle becomes the degenerate rectangle `(x, y, x, y)` |
| Rectangled.UnionPointAt | src/org/joml/primitives/Rectangled.java:383-404 | the field writes store `UnionPoint` in `dest` for any aliasing, the in-place `union(x, y)` included |
| Rectangled.Union | src/org/joml/primitives/Rectangled.java:417-428 | on NaN-free operands the union contains both; the NaN rectangle on the left yields the right operand, on the right yields the NaN rectangle |
| Rectangled.UnionAt | src/org/joml/primitives/Rectangled.java:417-428 | the field writes store `Union` in `dest` for any aliasing, the in-place `union(other)` included |
| Rectangled.LengthX | src/org/joml/primitives/Rectangled.java:245-247 | finite exactly when both X corners are, and then `minX + lengthX == maxX` |
| Rectangled.LengthY | src/org/joml/primitives/Rectangled.java:255-257 | finite exactly when both Y corners are, and then `minY + lengthY == maxY` |
| Rectangled.Lengths | src/org/joml/primitives/Rectangled.java:333-335 | stores `(lengthX, lengthY)`; both are positive exactly when the rectangle is valid |
| Rectangled.Area | src/org/joml/primitives/Rectangled.java:264-266 | the product of the lengths; NaN exactly when a corner is NaN; positive for a valid rectangle |
| Rectangled.Translate | src/org/joml/primitives/Rectangled.java:510-516 | on a NaN-free rectangle a finite offset moves both X corners by `x` and both Y corners by `y`; a finite offset keeps both lengths and validity; a NaN offset leaves an invalid rectangle |
| Rectangled.TranslateAt | src/org/joml/primitives/Rectangled.java:472-516 | the field writes store `Translate` in `dest` for any aliasing, the in-place and vector forms included |
| Rectangled.Scale | src/org/joml/primitives/Rectangled.java:656-662 | lengths are multiplied by the factors; positive factors keep validity both ways; a non-positive factor makes a valid rectangle invalid |
| Rectangled.ScaleAt | src/org/joml/primitives/Rectangled.java:656-662 | the field writes store `Scale` in `dest` for any aliasing |
| Rectangled.ScaleInPlaceAt | src/org/joml/primitives/Rectangled.java:631-637 | the separately written in-place `scale(sx, sy, ax, ay)` stores the same values as the `dest` form with `dest == this` |
| Rectangled.ScaleOrigin | src/org/joml/primitives/Rectangled.java:597-614 | `scale(sx, sy)` about `(0, 0)` multiplies every corner by its factor, NaN corners and factors included |
| Rectangled.ScaleUniform | src/org/joml/primitives/Rectangled.java:546-567 | `scale(sf, ax, ay)` multiplies both lengths by `sf` |
| Rectangled.ScaleUniformOrigin | src/org/joml/primitives/Rectangled.java:525-531 | `scale(sf)` is both `scale(sf, sf)` and `scale(sf, 0, 0)` |
| RectangledLemmas.ValidateIdempotent | src/org/joml/primitives/Rectangled.java:268-276 | validating twice is validating once |
| RectangledLemmas.NaNRectIsEmpty | src/org/joml/primitives/Rectangled.java:268-285 | the NaN rectangle is invalid, contains no point and has NaN area; under either reading it absorbs intersection as `other`, and as `this` when `other` is invalid |
| RectangledLemmas.NaNThisDependsOnReading | src/org/joml/primitives/Rectangled.java:302-308 | with the NaN rectangle as `this` and a valid `other`, the propagating reading yields the NaN rectangle and the conditional reading yields `other`, so only the latter depends on operand order |
| RectangledLemmas.ContainsRectangleReflexive | src/org/joml/primitives/Rectangled.java:345-348 | closed containment holds of a rectangle and itself exactly when it is NaN-free |
| RectangledLemmas.ContainsRectangleTransitive | src/org/joml/primitives/Rectangled.java:345-348 | containment is transitive |
| RectangledLemmas.ContainsPointMonotone | src/org/joml/primitives/Rectangled.java:457-459 | a point inside a rectangle is inside every rectangle containing it |
| RectangledLemmas.IntersectionCommutes | src/org/joml/primitives/Rectangled.java:302-308 | intersection commutes on NaN-free operands under either reading; under the propagating reading it commutes for every input, NaN included |
| RectangledLemmas.IntersectsRectangleSymmetric | src/org/joml/primitives/Rectangled.java:430-433 | the overlap test is symmetric |
| RectangledLemmas.IntersectionIsGreatest | src/org/joml/primitives/Rectangled.java:302-308 | the intersection is not NaN and contains every valid rectangle lying in both operands |
| RectangledLemmas.ContainsPointIntersection | src/org/joml/primitives/Rectangled.java:302-308 | under either reading a point inside both operands is inside the intersection and a point inside the intersection is inside `other`; for a NaN-free `this` a point is inside the intersection exactly when it is inside both |
| RectangledLemmas.IntersectsIffCommonPoint | src/org/joml/primitives/Rectangled.java:430-433 | two valid rectangles overlap strictly exactly when some point lies strictly inside both |
| RectangledLemmas.SharedEdgeIsNoIntersection | src/org/joml/primitives/Rectangled.java:302-308 | valid rectangles sharing only an edge do not intersect and their intersection is the NaN rectangle |
| RectangledLemmas.UnionIsLeast | src/org/joml/primitives/Rectangled.java:422-428 | the union lies in every rectangle containing both operands |
| RectangledLemmas.UnionCommutes | src/org/joml/primitives/Rectangled.java:422-428 | union is commutative on NaN-free operands |
| RectangledLemmas.UnionWithNaNRect | src/org/joml/primitives/Rectangled.java:422-428 | with the NaN rectangle, union is not commutative: left identity, right zero |
| RectangledLemmas.UnionPointIsLeast | src/org/joml/primitives/Rectangled.java:398-404 | the union with a point lies in every rectangle containing the original and the point |
| RectangledLemmas.TranslateRoundTrip | src/org/joml/primitives/Rectangled.java:510-516 | translating by `(x, y)` then by `(-x, -y)` restores a NaN-free rectangle |
| RectangledLemmas.TranslateKeepsContainsPoint | src/org/joml/primitives/Rectangled.java:510-516 | moving rectangle and point by the same offset keeps the answer of `containsPoint` |
| RectangledLemmas.TranslateKeepsArea | src/org/joml/primitives/Rectangled.java:510-516 | translation keeps the area |
| RectangledLemmas.ScaleIsTranslateScaleTranslate | src/org/joml/primitives/Rectangled.java:656-662 | scaling about an anchor equals translate by minus the anchor, scale about the origin, translate back, for every input |
| RectangledLemmas.ScaleKeepsContainment | src/org/joml/primitives/Rectangled.java:656-662 | positive factors about a common anchor keep containment |
| RectangledLemmas.IntersectsCircleIgnoresGeometry | src/org/joml/primitives/Rectangled.java:445-451 | a circle centred inside a rectangle is still reported as not intersecting |
| Sphered.ContainsPoint | src/org/joml/primitives/Sphered.java:202-208 | true exactly when nothing is NaN and the squared radius is at most the squared distance from the centre |
| Sphered.ContainsPointF | src/org/joml/primitives/Sphered.java:210-216 | the `float` overload is the double test on the widened point |
| Sphered.ContainsPointV | src/org/joml/primitives/Sphered.java:218-224 | the `Vector3dc` overload is the coordinate test |
| Sphered.ContainsPointVF | src/org/joml/primitives/Sphered.java:226-232 | the `Vector3fc` overload is the double test on the widened point |
| Sphered.CentreNotContained | src/org/joml/primitives/Sphered.java:202-208 | for a non-zero radius the centre is reported as not contained |
| Sphered.OutsideContained | src/org/joml/primitives/Sphered.java:202-208 | every finite point on or outside the surface is reported as contained |
| Sphered.ContainsPointIntended | src/org/joml/primitives/Shape3D.java:10-21 | the documented test: squared distance at most the squared radius |
| Sphered.IntendedContainsCentre | src/org/joml/primitives/Shape3D.java:10-21 | the documented test contains the centre for every radius |
| Sphered.IntendedDisagreesOffSurface | src/org/joml/primitives/Sphered.java:202-208 | off the surface the code and the documented test give opposite answers |
| Sphered.Translate | src/org/joml/primitives/Sphered.java:195-200 | the centre moves by exactly the offset; the radius is the destination's own |
| Sphered.TranslateV | src/org/joml/primitives/Sphered.java:155-162 | the `Vector3dc` overload delegates with the vector's components |
| Sphered.TranslateVF | src/org/joml/primitives/Sphered.java:171-178 | the `Vector3fc` overload delegates with the widened components |
| Sphered.TranslateInPlace | src/org/joml/primitives/Sphered.java:191-200 | the in-place form keeps the radius, and moving sphere and point together keeps `containsPoint` |
| Sphered.TranslateCentreIgnoresDest | src/org/joml/primitives/Sphered.java:191-200 | the centre written is the same whether `dest` is this sphere (the in-place `translate(x, y, z)`) or a separate one, NaN included; only the radius differs |
| Sphered.IntersectsPlane | src/org/joml/primitives/Sphered.java:234-248 | every `intersectsPlane` overload answers false |
| Sphered.IntersectsAABB | src/org/joml/primitives/Sphered.java:250-256 | every `intersectsAABB` overload answers false |
| Sphered.IntersectsSphere | src/org/joml/primitives/Sphered.java:258-272 | every `intersectsSphere` overload answers false |
| Sphered.IntersectsRay | src/org/joml/primitives/Sphered.java:274-288 | every boolean `intersectsRay` overload answers false |
| Sphered.IntersectRay | src/org/joml/primitives/Sphered.java:290-304 | the `result` overloads answer false and leave `result` as it was |
| Sphered.IntersectsLineSegment | src/org/joml/primitives/Sphered.java:306-316 | every `intersectsLineSegment` overload answers 0 and leaves `result` as it was |
| Sphered.RayFromInsideNotReported | src/org/joml/primitives/Shape3D.java:190-193 | a ray starting at the centre of a unit sphere is reported as not intersecting it, although its origin lies inside |
| Spheref.ContainsPoint | src/org/joml/primitives/Spheref.java:193-199 | true exactly when nothing is NaN and the squared radius is at most the squared distance |
| Spheref.ContainsPointD | src/org/joml/primitives/Spheref.java:185-191 | the double overload, with its differences narrowed to `float`, is the same test on the double point |
| Spheref.ContainsPointV | src/org/joml/primitives/Spheref.java:201-207 | the `Vector3dc` overload is the double-coordinate overload |
| Spheref.ContainsPointVF | src/org/joml/primitives/Spheref.java:209-215 | the `Vector3fc` overload is the `float` overload |
| Spheref.ContainsPointWidened | src/org/joml/primitives/Spheref.java:185-199 | on a widened `float` point the double and `float` overloads agree |
| Spheref.CentreNotContained | src/org/joml/primitives/Spheref.java:193-199 | for a non-zero radius the centre is reported as not contained |
| Spheref.OutsideContained | src/org/joml/primitives/Spheref.java:193-199 | every finite point on or outside the surface is reported as contained |
| Spheref.ContainsPointIntended | src/org/joml/primitives/Shape3D.java:23-34 | the documented test: squared distance at most the squared radius |
| Spheref.IntendedContainsCentre | src/org/joml/primitives/Shape3D.java:23-34 | the documented test contains the centre for every radius |
| Spheref.IntendedDisagreesOffSurface | src/org/joml/primitives/Spheref.java:193-199 | off the surface the code and the documented test give opposite answers |
| Spheref.Translate | src/org/joml/primitives/Spheref.java:177-182 | the centre moves by exactly the offset; the radius is the destination's own |
| Spheref.TranslateV | src/org/joml/primitives/Spheref.java:152-160 | the vector overloads delegate with the vector's components |
| Spheref.TranslateInPlace | src/org/joml/primitives/Spheref.java:173-182 | the in-place form keeps the radius, and moving sphere and point together keeps `containsPoint` |
| Spheref.RadiusSquared | src/org/joml/primitives/Spheref.java:233-291 | the `r * r` passed to the AABB, sphere and ray kernels is the exact squared radius, or NaN with the radius |
| Spheref.IntersectsAABBF | src/org/joml/primitives/Spheref.java:237-239 | the `float` box kernel receives the centre and the exact squared radius |
| Spheref.IntersectsAABBD | src/org/joml/primitives/Spheref.java:233-243 | the double box kernel receives the widened centre and the exact squared radius |
| Spheref.IntersectsSphereF | src/org/joml/primitives/Spheref.java:249-251 | the `float` sphere kernel receives this centre with the exact squared radius, then the caller's centre and squared radius |
| Spheref.IntersectsSphereD | src/org/joml/primitives/Spheref.java:245-247 | the double sphere kernel receives the widened centre with the exact squared radius, then the caller's values |
| Spheref.IntersectsSphereS | src/org/joml/primitives/Spheref.java:253-255 | `intersectsSphere(Spheref)` is the scalar overload with the other sphere's centre and `r * r` |
| Spheref.IntersectsSphereSd | src/org/joml/primitives/Spheref.java:257-259 | `intersectsSphere(Sphered)` is the double scalar overload with the other sphere's centre and its double `r * r` |
| Spheref.IntersectsRayF | src/org/joml/primitives/Spheref.java:261-275 | the `float` ray kernel receives the centre and the exact squared radius |
| Spheref.IntersectsRayD | src/org/joml/primitives/Spheref.java:265-271 | the double ray kernel receives the widened centre and the exact squared radius |
| Spheref.IntersectRayF | src/org/joml/primitives/Spheref.java:281-287 | the `float` ray kernel with `result` receives the exact squared radius; its answer and `result` are returned |
| Spheref.IntersectRayD | src/org/joml/primitives/Spheref.java:277-291 | the double ray kernel with `result` receives the widened centre and the exact squared radius |
| Spheref.RadiusSignIrrelevant | src/org/joml/primitives/Spheref.java:233-291 | for any kernel, every forwarder of `r*r` answers the same for radius `r` and `-r`: the float and double `intersectsAABB` overloads, the four `intersectsSphere` overloads (float and double values, `Spheref` and `Sphered` arguments), and the boolean and `result` ray overloads in both precisions |
| Spheref.PlaneSeesRadiusSign | src/org/joml/primitives/Spheref.java:217-231 | the `float` and `double` plane overloads (`Spheref.IntersectsPlaneF`, `Spheref.IntersectsPlaneD`, which only forward) pass the radius itself, so some kernel answers differently for `r` and `-r` in each precision |
| Spheref.IntersectsSphereSymmetric | src/org/joml/primitives/Spheref.java:253-255 | with a symmetric kernel, `intersectsSphere(Spheref)` is symmetric in the two spheres |
| Rectanglei.Intersection | src/org/joml/primitives/Rectangleic.java:77-91 | the sentinel `(MAX, MAX, MIN, MIN)`, or a valid rectangle inside both operands; for valid operands the sentinel exactly when they do not intersect |
| Rectanglei.Union | src/org/joml/primitives/Rectangleic.java:59-68 | the union contains both operands |
| Rectanglei.LengthX | src/org/joml/primitives/Rectangleic.java:14-19 | `minX + lengthX == maxX` |
| Rectanglei.LengthY | src/org/joml/primitives/Rectangleic.java:21-26 | `minY + lengthY == maxY` |
| Rectanglei.Lengths | src/org/joml/primitives/Rectangleic.java:93-100 | stores `(lengthX(), lengthY())`; both positive exactly when valid |
| Rectanglei.Area | src/org/joml/primitives/Rectangleic.java:28-33 | the product of the lengths, positive for a valid rectangle |
| Rectanglei.Translate | src/org/joml/primitives/Rectangleic.java:178-189 | every X corner moves by `x` and every Y corner by `y`; the lengths and validity are kept |
| Rectanglei.Scale | src/org/joml/primitives/Rectangleic.java:257-279 | lengths are multiplied by the factors; positive factors keep validity both ways; a non-positive factor makes a valid rectangle invalid |
| Rectanglei.ScaleOrigin | src/org/joml/primitives/Rectangleic.java:244-255 | `scale(sx, sy, dest)` is scaling about the origin, and multiplies the lengths by `sx` and `sy` |
| Rectanglei.ScaleUniform | src/org/joml/primitives/Rectangleic.java:202-222 | `scale(sf, ax, ay, dest)` is the `sx = sy = sf` case |
| Rectanglei.ScaleUniformOrigin | src/org/joml/primitives/Rectangleic.java:191-200 | `scale(sf, dest)` is both the uniform and the origin case, and multiplies both lengths by `sf` |
| Rectanglei.IntersectionIsGreatest | src/org/joml/primitives/Rectangleic.java:77-91 | the intersection is not the sentinel and contains every valid rectangle in both operands |
| Rectanglei.UnionIsLeast | src/org/joml/primitives/Rectangleic.java:59-68 | the union lies in every rectangle containing both operands |
| Rectanglei.EmptyIsBottom | src/org/joml/primitives/Rectangleic.java:77-91 | the sentinel is invalid and contained in every rectangle |
| Rectanglei.EmptyChains | src/org/joml/primitives/Rectangleic.java:59-91 | the sentinel is neutral for union and absorbing for intersection |
| Rectanglei.IntersectionCommutes | src/org/joml/primitives/Rectangleic.java:77-91 | intersection is commutative |
| Rectanglei.UnionCommutes | src/org/joml/primitives/Rectangleic.java:59-68 | union is commutative |
| Rectanglei.TranslateRoundTrip | src/org/joml/primitives/Rectangleic.java:178-189 | translating by `(x, y)` then `(-x, -y)` restores the rectangle |
| Rectanglei.TranslateKeepsContainment | src/org/joml/primitives/Rectangleic.java:178-189 | translation keeps containment both ways |
| Rectanglei.TranslateKeepsArea | src/org/joml/primitives/Rectangleic.java:178-189 | translation keeps the area |
| Rectanglei.ScaleIsTranslateScaleTranslate | src/org/joml/primitives/Rectangleic.java:257-279 | scaling about `(ax, ay)` equals translate by `(-ax, -ay)`, scale about the origin, translate by `(ax, ay)` |
| AABBi.GetMax | src/org/joml/primitives/AABBic.java:76-84 | defined exactly for components 0 to 2, giving `maxX`, `maxY`, `maxZ`; any other index is an `IllegalArgumentException` |
| AABBi.GetMin | src/org/joml/primitives/AABBic.java:87-95 | defined exactly for components 0 to 2, giving `minX`, `minY`, `minZ`; any other index is an `IllegalArgumentException` |
| AABBi.ValidByComponents | src/org/joml/primitives/AABBic.java:69-95 | a box is valid exactly when every component's minimum lies below its maximum |
| AABBi.Intersection | src/org/joml/primitives/AABBic.java:189-202 | the sentinel `(MAX, MAX, MAX, MIN, MIN, MIN)`, or a valid box inside both operands; for valid operands the sentinel exactly when they do not intersect |
| AABBi.IntersectionIsGreatest | src/org/joml/primitives/AABBic.java:189-202 | the intersection is not the sentinel and contains every valid box in both operands |
| AABBi.EmptyChains | src/org/joml/primitives/AABBic.java:189-202 | the sentinel absorbs intersection and lies in every box |
| AABBi.IntersectionCommutes | src/org/joml/primitives/AABBic.java:189-202 | intersection is commutative |
| AABBi.Extent | src/org/joml/primitives/AABBic.java:116-122 | `min + 2 * extent == max` on every axis; all extents are positive exactly when the box is valid |
| AABBi.Translate | src/org/joml/primitives/AABBic.java:173-186 | every component's minimum and maximum move by the offset; the extent is unchanged |
| AABBi.TranslateKeepsContainment | src/org/joml/primitives/AABBic.java:173-186 | translation keeps containment both ways |

## Left out

- `Intersectionf` and `Intersectiond` are not part of this model. The plane, box, sphere and ray kernels are supplied as the parameter `Kernel<T>`, and the forwarding is stated for every kernel.
- Ieee.Max: `org.joml.Math.max` is not part of this model. Its NaN propagation is assumed, and `Ieee.TernaryMax` gives the conditional alternative. The intersection contracts that would depend on the choice (a NaN corner in `this`) are stated for both readings or only for a NaN-free `this`.
- Ieee.Min: `org.joml.Math.min` is not part of this model; as for `Ieee.Max`, with `Ieee.TernaryMin` as the alternative.
- Infinite values are not represented at all: `Dbl` is a finite real or NaN, so rectangles with infinite corners, such as the unbounded `(-inf, -inf, inf, inf)`, are outside the model.
- Floating point is idealised. There is no rounding, no overflow to infinity, no signed zero and only one NaN. Properties that hold only up to rounding (round trips of translation and scaling) are stated over this exact model.
- Spheref.ContainsPointD: narrowing each double difference to `float` is modelled as exact, so the model cannot show where the double overloads differ from the `float` ones by rounding.
- Rectangled.Union: containment of both operands is stated only for NaN-free operands; with NaN the union follows the comparisons (stated separately for the NaN rectangle).
- Rectangled.ContainsPoint: stated as implications from a positive answer; the converse is the body's four comparisons and is used through `RectangledLemmas.ContainsPointIntersection`.
- Rectanglei and AABBi: the classes implementing `Rectangleic` and `AABBic` are not part of this model, so these are reference models of the documented contracts. Non-intersection is read as "the meet is not strictly valid", the rule `Rectangled.validate` applies.
- Rectanglei and AABBi: Java `int` wrap-around is not modelled; operations whose arithmetic would leave the `int` range require that it does not (`CanTranslate`, `CanScale`, `HasLengths`, `HasExtent`).
- Rectanglei.Union is modelled because `intersection`'s sentinel is only meaningful next to it. The point `union` overloads, `containsPoint` and `containsRectangle` over other precisions are not modelled for the integer interfaces.
- AABBi: `union`, `containsAABB` over other precisions, `center` and `transform(Matrix4fc)` are not modelled; `transform` needs matrix arithmetic and `center` adds nothing beyond `Extent`.
- AABBi.Extent: only the double `extent(Vector3d)` is modelled; the `float` form's rounding is not.
- The scale overloads of `Rectangleic` taking a `Vector2ic anchor` document `translate(anchor.negate())` for both outer steps; the model follows the scalar overloads' `translate(ax, ay)`, which is the evident meaning.
- The `AABBic.intersection` documentation says the sentinel is stored in `this`, while the method stores its result in `dest` and returns it; the model follows `@return dest`.
- `hashCode`, `equals`, `toString` and `writeExternal`/`readExternal` are bit-level, formatting and serialization concerns and are not modelled; neither are constructors, setters and `getSize`/`center` of `Rectangled`.
- Vector overloads that only unpack their argument (`containsPoint(Vector2dc)`, `translate(Vector2dc)`, `union(Vector2dc)`, `scale(.., Vector2dc anchor)`, the `Planef`/`Rayf` overloads of `Spheref`) are covered by the scalar members they delegate to.
- Sphered intersection stubs: the documented ray behaviour (true for a ray whose origin is inside) is not implemented by the code; the model follows the code and exhibits the difference in `Sphered.RayFromInsideNotReported`.

## Findings

| source | as written | input that shows it | evidently intended | confidence | as-written member | corrected member |
|---|---|---|---|---|---|---|
| src/org/joml/primitives/Sphered.java:202-208 | `containsPoint` returns `r * r <= d`, true on and outside the surface | the centre of a sphere of radius 1: `d = 0`, answer false | `d <= r * r`, the point lies inside (src/org/joml/primitives/Shape3D.java:10-21) | not executed | Sphered.CentreNotContained | Sphered.IntendedContainsCentre |
| src/org/joml/primitives/Spheref.java:193-199 | `containsPoint` returns `r * r <= d` in `float` | the centre of a sphere of radius 1: `d = 0`, answer false | `d <= r * r`, the point lies inside (src/org/joml/primitives/Shape3D.java:23-34) | not executed | Spheref.CentreNotContained | Spheref.IntendedContainsCentre |
