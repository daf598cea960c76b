# emath geometry core, modelled in Dafny

This project models the logic core of emath, a small C++ library of 2D and 3D
geometry helpers, and proves what that code promises. It covers:

- the 2D ray tracers of `trace.cpp`. A `trace::info` record keeps the closest
  hit so far (`t`), a lower bound (`min_t`), entering/leaving flags and a hit
  normal. `ray_circle`, `ray_capsule`, `rayAABB` and `ray_circleCCD` each
  either narrow `t` and set the normal, or leave the record as it was.
- the segment and line helpers of `capsule.cpp` and `line_seg.hpp`: `ray_ray`
  by Cramer's rule, the side-of-line tests, the segment crossing tests, and
  the closest point on a line or segment.
- `Capsule`, `CapsuleBaked` and the capsule-capsule and capsule-box overlap
  tests.
- `AABB` (containment, clamping, distance, overlap, `include`, and the
  `nothing()`/`everything()` sentinels), the half-open integer `RangeI` with
  chunk division, scaling, shifting and clamping, and `RangeFloat`.
- frustum culling: plane extraction from a matrix, point, plane, sphere and
  box tests, frustum-frustum separation, plus `box_outside_plane` and
  `circle_circle` of `intersect.cpp`.
- the integer helpers of `int.hpp` on `size_t`/`unsigned`/`int` widths, and the
  scalar helpers of `math.hpp`.
- the strided matrix view of `matrix.hpp` over a shared buffer, updated in
  place row by row.

Floats are Dafny `real`, with rounding ignored. `std::sqrt` is a function
parameter `sqrt` that must behave as the square root (`Numeric.IsSqrt`).
Infinite sentinels are modelled by `Numeric.ExtReal`. A NaN or otherwise
non-finite outcome is an explicit `None`/`NotFinite` result.

Where the source updates state in place, the model does too:
- `TraceRecord.TraceInfo`, `Boxes.Aabb`, `Ranges.RangeI`,
  `Ranges.RangeFloat` and `Frustums.Frustum` are classes;
- the matrix buffer is an `array<real>` that `Matrices` methods update row by row.

Each such method is proved equal to a pure function:
- the tracers' decisions in module `Trace`;
- `Ranges.Included`;
- `Matrices.Applied`, a row-by-row rewrite of the buffer.

The properties are proved about those functions.

## Model

| member | source | states |
|---|---|---|
| Numeric.ExtClamp | emath/math.hpp:70-74 | clamp on floats that may be infinite: the result lies in [lo, hi] when lo <= hi, is x when x is already inside, and is always one of x, lo, hi |
| Numeric.ExtMin | emath/math.hpp:242-246 | min on possibly infinite floats is a lower bound of both arguments and one of them |
| Numeric.ExtMax | emath/math.hpp:248-252 | max on possibly infinite floats is an upper bound of both arguments and one of them |
| Numeric.Trunc | emath/math.hpp:49 | C++ `int(f)` truncates toward zero: for f >= 0 the result is the floor, for f < 0 the ceiling |
| Numeric.TruncDiv | emath/int.hpp:51 | C++ signed `/` truncates toward zero and pairs with `%`: a == q*b + a%b |
| Numeric.TruncMod | emath/int.hpp:51 | C++ signed `%` takes the sign of the dividend and is smaller than the divisor in magnitude |
| Numeric.Clamp | emath/math.hpp:70-74 | clamp(x, min, max) lies in [min, max] when min <= max, returns x when x is inside, and is one of x, min, max |
| Numeric.ClampIdempotent | emath/math.hpp:70-74 | clamping an already clamped value changes nothing |
| Numeric.Saturate | emath/math.hpp:76-80 | saturate(x) is in [0, 1]; it is x inside [0, 1], 0 below and 1 above |
| Numeric.Lerp | emath/math.hpp:82-86 | lerp(a, b, 0) == a and lerp(a, b, 1) == b |
| Numeric.LerpBetween | emath/math.hpp:82-86 | for t in [0, 1], lerp(a, b, t) lies between min(a, b) and max(a, b) |
| Numeric.Min | emath/math.hpp:242-246 | min(a, b) is at most both arguments and is one of them |
| Numeric.Max | emath/math.hpp:248-252 | max(a, b) is at least both arguments and is one of them |
| Numeric.MinLeMax | emath/math.hpp:242-252 | min(a, b) <= max(a, b), and together they are the two arguments (min + max == a + b) |
| Numeric.Min3 | emath/math.hpp:128-132 | min3 is at most all three arguments and is one of them |
| Numeric.Max3 | emath/math.hpp:134-138 | max3 is at least all three arguments and is one of them |
| Numeric.Abs | emath/math.hpp:192-196 | abs(f) is non-negative and is f or -f |
| Numeric.Sign | emath/math.hpp:199-203 | sign(v) is -1 iff v < 0, 0 iff v == 0 and +1 iff v > 0 |
| Numeric.SignTimesAbs | emath/math.hpp:192-203 | sign(v) * abs(v) == v |
| Numeric.Sort | emath/math.hpp:231-235 | after sort(a, b), a <= b, the pair is the same multiset, and an ordered pair is left as it was |
| Numeric.IsZeroWindow | emath/math.hpp:237-240 | is_zero(v, eps) holds iff -eps <= v <= eps |
| Numeric.EqualsWindow | emath/math.hpp:254-270 | equals(a, b, eps) holds iff b lies strictly within eps of a, and it is symmetric |
| Numeric.RoundToInt | emath/math.hpp:43-50 | round_to_int(f) is within 0.5 of f, an exact half rounds away from zero, and the sign of the result agrees with the sign of f |
| Numeric.RoundToIntExamples | emath/math.hpp:51-56 | ±0.4 round to 0, and ±0.5 and ±0.6 round to ±1 |
| Numeric.RoundToUint | emath/math.hpp:58-63 | round_to_uint(f) fits 32 bits, is within 0.5 of f (halves round up) for f >= -0.5, and is 0 for f < 0.5 |
| Numeric.RoundToUintExamples | emath/math.hpp:64-66 | 0.4 rounds to 0, and 0.5 and 0.6 round to 1 |
| IntBits.IsPowerOfTwo | emath/int.hpp:22-25 | a non-zero k passes is_power_of_two iff next_power_of_two leaves it unchanged: smearing k - 1 and adding one gives k back |
| IntBits.ZeroCountsAsPowerOfTwo | emath/int.hpp:22-25 | is_power_of_two(0) holds, as the bit test is written |
| IntBits.PowerOfTwoBits | emath/int.hpp:22-25 | a single set bit passes is_power_of_two, and two distinct set bits do not |
| IntBits.Smear | emath/int.hpp:15-18 | the loop of shifts and ors computes the smeared value SmearSteps(k) |
| IntBits.SmearOnes | emath/int.hpp:15-18 | the smeared value is a block of low one-bits |
| IntBits.SmearBounds | emath/int.hpp:15-18 | the smeared value is at least k, 0 for k == 0, and reaches no higher than k's top bit |
| IntBits.SmearTop | emath/int.hpp:15-18 | with the top bit set, smearing gives all ones |
| IntBits.SmearStepsSmears | emath/int.hpp:15-18 | the smeared value meets every defining fact of a smear of k |
| IntBits.NextFromSmear | emath/int.hpp:15-19 | one more than the smear of m is the least power of two above m, or 0 once m >= 2^63 |
| IntBits.NextPowerOfTwo | emath/int.hpp:9-20 | next_power_of_two(0) == 1; otherwise the result is a power of two >= k whose half is < k, and it wraps to 0 for k > 2^63 |
| IntBits.NextMultipleOfN | emath/int.hpp:27-31 | next_multiple_of_n is 0 for v == 0 and, like the size_t arithmetic, is below 2^64 |
| IntBits.NextMultipleOfNIsLeast | emath/int.hpp:27-31 | without wrap-around, next_multiple_of_n(v, N) is a multiple of N in [v, v+N), and it equals v iff N divides v |
| IntBits.PrevMultipleOfN | emath/int.hpp:33-37 | prev_multiple_of_n(v, N) is a multiple of N in (v-N, v] |
| IntBits.IsMultipleOfN | emath/int.hpp:39-42 | is_multiple_of_n(v, N) holds iff v % N == 0 |
| IntBits.PositiveModulo | emath/int.hpp:49-52 | for n > 0 the result is in [0, n), and for n < 0 it is in (n, 0] |
| IntBits.PositiveModuloCongruent | emath/int.hpp:49-52 | for n > 0, positive_modulo(i, n) is the mathematical residue i mod n, so it is congruent to i |
| Lines.SegPointIsLerp | emath/capsule.cpp:256 | p0 + t*(p1-p0) is lerp(p0, p1, t) |
| Lines.IsPointLeftOf | emath/capsule.cpp:85-90 | is_point_left_of holds iff cross(p1-p0, point-p0) > 0, strictly |
| Lines.RayRay | emath/capsule.cpp:92-133 | ray_ray fails iff the determinant cross(d0, d1) is 0; on success p0 + t0*d0 == p1 + t1*d1 |
| Lines.CramerSolves | emath/capsule.cpp:111-130 | Cramer's rule solves the 2x2 system t0*A + t1*B = E, t0*C + t1*D = F when det != 0 |
| Lines.RayRayUnique | emath/capsule.cpp:92-133 | for non-parallel lines the parameters ray_ray finds are the only ones |
| Lines.SegmentsCross | emath/capsule.cpp:147-176 | two segments that pass the boolean crossing test meet: their lines are not parallel and both parameters lie in [0, 1] |
| Lines.SegmentIntersectParams | emath/capsule.cpp:178-194 | the parametric test succeeds iff the boolean test does; then t0 and t1 are in [0, 1] and name the same point on both segments |
| Lines.SegmentIntersectPoint | emath/capsule.cpp:196-206 | the test writing a point succeeds iff the boolean test does, and the point lies on both segments |
| Lines.SegmentRayIntersect | emath/capsule.cpp:208-218 | on success minT <= t1 < old t, and the ray point at t1 is on the segment at some t0 in [0, 1); on failure no such pair exists for a non-parallel ray |
| Lines.ClosestPointOnLine | emath/capsule.cpp:222-240 | closest_point_on_line returns 0 when the axis has zero length, and otherwise t with t*\|axis\|^2 == dot(v-p0, axis) |
| Lines.ClosestPointOnLinePerpendicular | emath/capsule.cpp:227-230 | v minus the foot of the perpendicular is orthogonal to the axis |
| Lines.ClosestPoint | emath/capsule.cpp:242-258 | t is clamped to [0, 1]: p0 with t = 0 when the line parameter is <= 0, p1 with t = 1 when it is >= 1, and the point at t otherwise |
| Lines.ClosestParamCases | emath/capsule.cpp:247-257 | the clamped parameter is 0 where the axis points away from v, 1 where v lies beyond p1, or the foot of the perpendicular |
| Lines.ClosestPointIsClosest | emath/capsule.cpp:242-269 | the closest point is no farther from v than any other point of the segment |
| Lines.MinimiserCompare | emath/capsule.cpp:242-258 | a parameter in one of the three clamping cases gives the smallest squared distance over [0, 1] |
| Lines.DistSqDifference | emath/capsule.cpp:227-230 | the difference of two squared distances along the segment, factored through the line parameter |
| Lines.ClosestPointDegenerate | emath/capsule.cpp:235-251 | for p0 == p1, closest_point returns p0 with t = 0 |
| LineSegs.At | emath/line_seg.hpp:25-26 | at(0) == p0, at(1) == p1, and at(t) is the point p0 + t*(p1-p0) |
| LineSegs.ClosestPoint | emath/capsule.cpp:274-277 | closest_point(pos) is a point of the segment, at(t) for some t in [0, 1] |
| LineSegs.ClosestT | emath/capsule.cpp:279-284 | closestT(pos) is in [0, 1], and at(closestT(pos)) == closest_point(pos) |
| LineSegs.DistanceSqTo | emath/line_seg.hpp:33-36 | distance_sq_to(pos) is non-negative |
| LineSegs.DistanceSqToIsLeast | emath/line_seg.hpp:33-36 | distance_sq_to(pos) is at most the squared distance from pos to any point of the segment |
| LineSegs.IsPointOnTheLeftCross | emath/line_seg.hpp:43-49 | is_point_on_the_left(point) holds iff cross(p1-p0, point-p0) > 0 |
| LineSegs.FromLeftToRightNormal | emath/line_seg.hpp:51-60 | from_left_to_right(dir) holds iff dot(rot90CW(p1-p0), dir) > 0, the commented-out form, and iff cross(p1-p0, dir) < 0 |
| LineSegs.SideAlongRay | emath/line_seg.hpp:43-49 | the side value of the ray point changes linearly with t, at the rate cross(p1-p0, d) |
| LineSegs.ApproachMovesTowardLine | emath/line_seg.hpp:62-66 | is_approached_by(ray) means the ray moves toward the line: from the left its side value decreases, from the right it does not; a non-approaching ray moves the other way |
| Capsules.IsCircle | emath/capsule.hpp:38-39 | is_circle() holds iff the two end circles circle_0() and circle_1() coincide |
| Capsules.Circle0 | emath/capsule.hpp:53-56 | circle_0() is the circle of radius rad around the start of the axis, at(0) |
| Capsules.Circle1 | emath/capsule.hpp:58-61 | circle_1() is the circle of radius rad around the end of the axis, at(1) |
| Capsules.AsCircle | emath/capsule.hpp:38-61 | circle() of a circle capsule is both circle_0() and circle_1() |
| Capsules.EndCirclesInside | emath/capsule.hpp:52-61 | every point of either end circle is within rad of the axis |
| Capsules.EndCircleInside | emath/capsule.hpp:52-61 | a point within rad of the axis end at t = 0 or t = 1 is within rad of the axis |
| Capsules.Enlarged | emath/capsule.hpp:78-83 | enlarged(d) keeps p0 and p1, and its rad is rad + d |
| Capsules.EnlargedCompose | emath/capsule.hpp:78-83 | enlarging by d and then e is enlarging by d + e, and enlarging by 0 changes nothing |
| Capsules.DistanceIsLeast | emath/capsule.hpp:100-104 | distance(cap, p) is at most distance(q, p) - rad for every axis point q |
| Capsules.Distance | emath/capsule.hpp:100-104 | distance(cap, p) is never below -rad, and for rad >= 0 it is negative iff p is strictly within rad of the axis |
| Capsules.DistanceEnlarged | emath/capsule.hpp:78-104 | enlarging by d lowers every distance by d |
| Capsules.DistanceToCircleEnlarged | emath/capsule.hpp:106-109 | distance(cap, circ) == distance(cap, circ.p) - circ.rad, which is the distance from the centre to the capsule enlarged by circ.rad |
| Capsules.Equal | emath/capsule.hpp:111-114 | operator== holds iff the two capsules are the same value |
| Capsules.Normalize | emath/vec2.hpp:90-99 | normalize(v) returns \|v\| >= 0; for a non-zero vector, \|v\| times the rescaled vector is v, and a zero vector is left as it is |
| Capsules.NormalizeUnit | emath/capsule.hpp:129-130 | a vector normalized with a non-zero length has unit length |
| Capsules.Bake | emath/capsule.hpp:127-132 | the CapsuleBaked constructor keeps the capsule, sets length = \|p1-p0\| >= 0, and N = rot90CW(A) is perpendicular to A and on its right |
| Capsules.BakedAxis | emath/capsule.hpp:127-132 | length == 0 iff the capsule is a circle; otherwise A and N are unit vectors and p0 + length*A == p1 |
| Capsules.BakedEnlarged | emath/capsule.hpp:134-139 | CapsuleBaked::enlarged(d) changes only the capsule's rad |
| Capsules.BakeEnlargedCommute | emath/capsule.hpp:127-139 | baking and enlarging commute |
| Capsules.Intersects | emath/capsule.cpp:289-313 | the loop with its early returns answers exactly the overlap rule: circle shortcut, axis crossing, then the four end-point tests |
| Capsules.OverlapSymmetric | emath/capsule.cpp:289-313 | the overlap test does not depend on the order of the two capsules |
| Capsules.CircleCircleSymmetric | emath/capsule.cpp:291-297 | for two circles, both shortcut forms agree |
| Capsules.CircleDistance | emath/capsule.hpp:100-104 | the distance to a circle capsule is the distance to its centre minus rad |
| Capsules.CrossingAxesOverlap | emath/capsule.cpp:299-301 | two capsules whose axes cross intersect, whatever their radii |
| Capsules.OverlapSound | emath/capsule.cpp:289-313 | a positive answer is never wrong: some point of a's axis and some point of b's axis coincide or are closer than a.rad + b.rad |
| Capsules.CentreInsideIntersectsBox | emath/capsule.cpp:317-321 | a box whose centre lies strictly inside the capsule passes intersects(cap, rect) |
| Capsules.IntersectsBoxConservative | emath/capsule.cpp:317-321 | intersects(cap, rect) is conservative: when some point of the box lies strictly within rad of some point of the axis, the test answers true |
| Capsules.SpanConservative | emath/capsule.cpp:317-321 | the same on the box corners: a point q of [lo, hi] strictly within rad of an axis point puts the centre (lo + hi) / 2 within rad + \|hi - lo\| / 2 of the axis |
| Trace.MatchesFlags | emath/trace.hpp:28-34 | matches(true) holds iff the COLLIDE_ENTERING bit is set (entering()), and matches(false) iff the COLLIDE_LEAVING bit is set (leaving()) |
| Trace.FlagValues | emath/trace.hpp:12-15 | COLLIDE_ENTERING is entering and not leaving, COLLIDE_LEAVING is leaving and not entering, and both bits together are both, so they fail sanity_check |
| Trace.CircleQuadOf | emath/trace.cpp:22-38 | incl is dot(d, o - center), and a is incl / \|d\|^2 |
| Trace.CircleQuadratic | emath/trace.cpp:33-38 | the monic quadratic is the circle equation divided by \|d\|^2: the point at s is outside, on or inside the circle as (s + a)^2 - under is positive, zero or negative |
| Trace.CircleHitAsWritten | emath/trace.cpp:14-68 | ray_circle with the squared pre-checks accepts nothing the exact window tests reject, and any hit it does accept is the corrected one |
| Trace.CircleHit | emath/trace.cpp:27-66 | a hit lies in (min_t, t] and is the chosen root -a ∓ sqrt(under); an entering ray with dot(d, o - c) > 0 misses; a discriminant <= 0 misses; and every other ray whose chosen root lies in (min_t, t] hits |
| Trace.CircleHitOnCircle | emath/trace.cpp:51-64 | the accepted hit point lies on the circle |
| Trace.CircleRootOnCircle | emath/trace.cpp:51 | with a positive discriminant, both roots are ray parameters on the circle |
| Trace.CircleHitNormal | emath/trace.cpp:65-66 | normal_dir is the radius through the hit point, outward when entering and inward when leaving, and dot(normal_dir, d) < 0 |
| Trace.CircleRootAgainstRay | emath/trace.cpp:65-66 | the normal at either root of a crossing ray faces against the ray |
| Trace.CircleNormalShape | emath/trace.cpp:65 | -sign * (d*x + R) is hit point minus center when entering, and center minus hit point when leaving |
| Trace.CircleHitIsExtreme | emath/trace.cpp:43-51 | the accepted hit is the first contact (entering) or the last (leaving): every ray point before (after) it is strictly outside the circle |
| Trace.CircleMissNeverInside | emath/trace.cpp:40-41 | rejecting under <= 0 loses nothing: such a ray never gets strictly inside the circle |
| Trace.EnteringEarlyOutSound | emath/trace.cpp:27-28 | the early out for a receding entering ray loses nothing: its entering root is below min_t >= 0 |
| Trace.CircleHitAsWrittenMissesThrough | emath/trace.cpp:45-46 | for an entering ray whose window reaches past the exit root, the corrected tracer hits and the as-written one misses |
| Trace.PassThroughQuad | emath/trace.cpp:22-38 | for o = (-5, 0), d = (1, 0) and the unit circle at the origin: incl = -5, a = -5, b = 24, under = 1 |
| Trace.PassThroughRoots | emath/trace.cpp:45-51 | with that quadratic the roots are 4 and 6, and t = 10 lies beyond the exit root |
| Trace.SolveLinear | emath/trace.cpp:237-241 | solve_X_C(a, b) = -b/a is the root of a*x + b = 0 |
| Trace.PickRoot | emath/trace.cpp:365 | sign * max(sign*x0, sign*x1) is the smaller root for sign = -1 and the larger for sign = +1 |
| Trace.MonicCompleted | emath/trace.cpp:259-260 | x^2 + b*x + c = (x + b/2)^2 - ((b/2)^2 - c) |
| Trace.SolveMonic | emath/trace.cpp:250-277 | every finite answer of solve_X2_X_C(b, c, rp) is a root of x^2 + b*x + c |
| Trace.MonicRoots | emath/trace.cpp:252-276 | the candidates solve_X2_X_C passes to rp are roots: 0 and -b when c == 0, -b/2 for a zero discriminant, and -b/2 ∓ s otherwise |
| Trace.SolveMonicExtreme | emath/trace.cpp:250-277 | the answer is the smallest root when sign = -1 and the largest when sign = +1 (c == 0 gives rp(0, -b), a zero discriminant the double root -b/2) |
| Trace.MonicExtremeNoConstant | emath/trace.cpp:252-257 | with c == 0, rp(0, -b) picks the extreme of the roots 0 and -b |
| Trace.MonicExtremeDouble | emath/trace.cpp:266-270 | with a zero discriminant, -b/2 is the only root |
| Trace.MonicExtremeTwo | emath/trace.cpp:270-275 | with a positive discriminant, rp(-b/2 - s, -b/2 + s) picks the extreme root |
| Trace.SolveMonicNone | emath/trace.cpp:261-265 | when the solver answers NaN (negative discriminant), x^2 + b*x + c has no real root |
| Trace.QuadraticMonic | emath/trace.cpp:290 | for a != 0, a*x^2 + b*x + c = a * (x^2 + (b/a)*x + c/a) |
| Trace.SolveQuadratic | emath/trace.cpp:284-292 | every finite answer of solve_X2_X_C(a, b, c, rp) is a root of a*x^2 + b*x + c, including the linear case a == 0 |
| Trace.SolveQuadraticExtreme | emath/trace.cpp:284-292 | the answer is the smallest root (sign = -1) or the largest (sign = +1) |
| Trace.CcdQuadratic | emath/trace.cpp:302-358 | the derivation holds: \|C(t) - P(t)\|^2 - R(t)^2 equals a*t^2 + b*t + c with a = \|D\|^2 - rd^2, b = 2(D.V - r0*rd), c = \|V\|^2 - r0^2 |
| Trace.MovingOffset | emath/trace.cpp:319-322 | C(t) - P(t) = V + t*D |
| Trace.CcdPolynomial | emath/trace.cpp:323-337 | \|V + t*D\|^2 - (r0 + t*rd)^2 expands to the quadratic's coefficients |
| Trace.CcdHit | emath/trace.cpp:360-378 | an accepted swept hit lies strictly inside (min_t, t), and its normal satisfies dot(normal, d) <= 0 |
| Trace.CcdHitOnCircle | emath/trace.cpp:360-369 | the accepted time puts the ray point on the moving circle, and it is the first such time when entering and the last when leaving |
| Trace.AxisNormal | emath/trace.cpp:199-200 | the axis normal has component ±1 on axis a and 0 on the other axis |
| Trace.PlaneTestStep | emath/trace.cpp:188-220 | one plane test either keeps the record or takes its crossing, accepted against the current t, and never raises t |
| Trace.PlaneTestTakes | emath/trace.cpp:188-220 | a crossing in (min_t, t), within the box on the other axis and matching the flags, is taken |
| Trace.BoxAxisStep | emath/trace.cpp:180-221 | one axis keeps the record or ends on one of its two accepted crossings, and never raises t |
| Trace.BoxAxisClosest | emath/trace.cpp:180-221 | an accepted crossing of the axis is never passed over: the axis ends at or before it |
| Trace.AcceptedNarrower | emath/trace.cpp:189-206 | acceptance against a larger limit carries over to a smaller one that the crossing still lies below |
| Trace.BoxTraceHit | emath/trace.cpp:171-224 | rayAABB leaves the record as it was or ends on one accepted plane crossing: min_t < t_new < t_old, with a normal that is ±1 on one axis and 0 on the other |
| Trace.BoxTraceClosest | emath/trace.cpp:171-224 | rayAABB keeps the closest crossing: no accepted crossing lies before the t it ends with |
| Trace.AcceptedCrossing | emath/trace.cpp:185-193 | an accepted crossing has d[a] != 0, lies on the plane side*hs[a], and lies within hs on the other axis |
| Trace.AcceptedFace | emath/trace.cpp:189-219 | an accepted crossing lies on its face; its axis normal faces against the ray for COLLIDE_ENTERING and along it for COLLIDE_LEAVING |
| Trace.AcceptedOnBox | emath/trace.cpp:171-219 | in world coordinates an accepted crossing is the ray point on the box's min face (side -1) or max face (side +1) of axis a, within the box on the other axis |
| Trace.LocalOnBox | emath/trace.cpp:174-193 | a local point on plane side*hs[a] within hs on the other axis is a point of the box's face in world coordinates |
| Trace.FaceOnBox | emath/trace.cpp:174-186 | a local point on plane side*hs[a] is, in world coordinates, on the min or max face |
| Trace.OtherOnBox | emath/trace.cpp:174-193 | a local coordinate within hs[b] of the center is, in world coordinates, within the box on axis b |
| Trace.LocalAt | emath/trace.cpp:174-176 | the world point is the local point plus the center, and hs is half of hi - lo |
| Trace.CapsuleHit | emath/trace.cpp:112-167 | a capsule hit lies in [min_t, t] |
| Trace.CapsuleCross | emath/trace.cpp:130-157 | the non-parallel branch's hit lies in [min_t, t] |
| Trace.CapsuleParallel | emath/trace.cpp:158-166 | the parallel branch's hit lies in (min_t, t] |
| Trace.CapsuleHitCircle | emath/trace.cpp:116-117 | a degenerate capsule (p0 == p1) is traced exactly as ray_circle on its circle |
| Trace.CapsuleHitParallel | emath/trace.cpp:158-166 | a ray parallel to the axis hits iff one of the end circles is hit, and it keeps the nearer of the two hits |
| Trace.CapsuleHitAgainstRay | emath/trace.cpp:140-153 | every capsule hit faces against the ray: dot(normal_dir, d) < 0 |
| Trace.CapsuleHitBody | emath/trace.cpp:146-157 | between the end circles the answer is the body hit at t_test when min_t <= t_test < t, with normal N if d.y < 0 and -N otherwise, and a miss otherwise |
| Trace.CapsuleHitCross | emath/trace.cpp:130 | when the ray is not parallel to the axis, the capsule takes the crossing branch, and d.y is non-zero there |
| Trace.CapsuleCrossBody | emath/trace.cpp:137-157 | with s in [0, length] the crossing branch answers the body hit at t_test when it lies in [min_t, t) |
| Trace.BodyHitOnSide | emath/trace.cpp:146-151 | a body hit lies rad away from the axis line along its normal and between p0 and p1 along the axis |
| Trace.BodyLine | emath/trace.cpp:132-137 | the first border line the local ray meets is y = -rad when it moves up and y = +rad when it moves down |
| TraceRecord.TraceInfo.constructor | emath/trace.hpp:17-25 | info(r, max_t, f) sets t = max_t, min_t = 0 and flags = f |
| TraceRecord.TraceInfo.Default | emath/trace.hpp:20-25 | info(r, max_t) uses the default flag COLLIDE_ENTERING |
| TraceRecord.TraceInfo.RayCircle | emath/trace.cpp:12-68 | ray_circle changes only t and normal_dir, returns whether the corrected decision hits, and then holds its t and normal |
| TraceRecord.TraceInfo.RayCapsule | emath/trace.cpp:112-167 | ray_capsule changes only t and normal_dir and applies exactly the CapsuleHit decision |
| TraceRecord.TraceInfo.RayAabb | emath/trace.cpp:171-224 | rayAABB's loop over both axes ends in the state BoxTrace computes from the record's initial state |
| TraceRecord.TraceInfo.CrossPlane | emath/trace.cpp:188-220 | one plane test of the loop changes the record exactly as PlaneTest |
| TraceRecord.TraceInfo.RayCircleCcd | emath/trace.cpp:294-379 | ray_circleCCD changes only t and normal_dir and applies exactly the CcdHit decision |
| Boxes.Aabb.FromMinMax | emath/aabb.hpp:167-171 | from_min_max(min, max) stores the two corners as given |
| Boxes.Aabb.FromMinSize | emath/aabb.hpp:173-177 | from_min_size(min, size) is the box [min, min + size] |
| Boxes.Aabb.FromCenterSize | emath/aabb.hpp:179-184 | from_center_size(c, s) is the box [c - s/2, c + s/2] |
| Boxes.Aabb.Everything | emath/aabb.hpp:186-190 | everything() has corners [-INF, -INF] and [+INF, +INF] |
| Boxes.Aabb.Nothing | emath/aabb.hpp:192-196 | nothing() has corners [+INF, +INF] and [-INF, -INF] |
| Boxes.Aabb.Clamp | emath/aabb.hpp:52-55 | in a valid box clamp(v) lies inside the box; a point the box contains is returned unchanged; a finite box gives a finite point |
| Boxes.Aabb.DistanceTo | emath/aabb.hpp:73-92 | distance_to(v) <= 0 iff the box contains v; inside it is minus the distance to the nearest face, outside it is the distance to clamp(v) |
| Boxes.Aabb.Include | emath/aabb.hpp:113-119 | include(v) takes the componentwise min and max with v; afterwards the box contains v, min never increases and max never decreases |
| Boxes.Aabb.IncludeBox | emath/aabb.hpp:121-127 | include(b) takes the componentwise min and max with b's corners, and afterwards the box contains b |
| Boxes.Aabb.Contains | emath/aabb.hpp:57-65 | contains(v) holds iff min[d] <= v[d] <= max[d] on both axes |
| Boxes.EverythingAndNothing | emath/aabb.hpp:186-196 | everything() contains every point, and nothing() contains none |
| Boxes.NothingThenInclude | emath/aabb.hpp:192-196 | nothing() followed by include(v) gives the box [v, v] |
| Boxes.CenterSizeRoundTrip | emath/aabb.hpp:179-184 | from_center_size(c, s) has center() == c and size() == s |
| Boxes.MinSizeRoundTrip | emath/aabb.hpp:173-177 | from_min_size(m, s) has min() == m and size() == s |
| Boxes.IntersectsSymmetric | emath/aabb.hpp:103-111 | intersects(a, b) == intersects(b, a) |
| Boxes.TouchingDoNotIntersect | emath/aabb.hpp:103-111 | boxes that only touch along an edge do not intersect |
| Boxes.Intersects | emath/aabb.hpp:103-111 | two boxes of positive extent intersect iff some point lies strictly inside both |
| Boxes.MinAll | emath/aabb.hpp:156-165 | the least coordinates of a non-empty list are at most every listed point's and are attained |
| Boxes.MaxAll | emath/aabb.hpp:156-165 | the greatest coordinates of a non-empty list are at least every listed point's and are attained |
| Boxes.AllStep | emath/aabb.hpp:161-163 | one more include() extends the running min and max by one point |
| Boxes.FromPoints | emath/aabb.hpp:155-165 | from_points(list) is a new box with corners the least and greatest coordinates of the list |
| Boxes.FromPointsContains | emath/aabb.hpp:155-165 | the box of from_points contains every listed point |
| Ranges.IntMin | emath/range.hpp:19 | min(begin, val) is at most both arguments and is one of them |
| Ranges.IntMax | emath/range.hpp:20 | max(end, val + 1) is at least both arguments and is one of them |
| Ranges.IntClamp | emath/range.hpp:69-70 | clamp<int>(x, 0, size) lies in [0, size] and returns x unchanged when it already does |
| Ranges.SizeCountsElements | emath/range.hpp:16 | for begin <= end, size() == end - begin is the number of integers in [begin, end) |
| Ranges.IncludedHull | emath/range.hpp:18-21 | after include(val) the range holds val and all it held; from a non-empty range it is the smallest range that does |
| Ranges.DefaultThenInclude | emath/range.hpp:11-21 | the default [-1, -2) followed by include(v), v >= -1, is [-1, v + 1), which holds -1 as well as v |
| Ranges.ChunksCover | emath/range.hpp:23-42 | for begin >= 0 and n > 0, range / n holds the chunk of every element, and each chunk it holds overlaps the range |
| Ranges.ChunkOfElement | emath/range.hpp:38-42 | for begin >= 0 the chunk i / n of every element i lies in range / n |
| Ranges.ChunkTouches | emath/range.hpp:38-42 | for begin >= 0 every chunk c of range / n overlaps [begin, end) |
| Ranges.ChunksMissNegative | emath/range.hpp:38-42 | with truncating division [-5, -4) / 3 is [-1, 0), which misses chunk -2 that holds -5 |
| Ranges.Chunks | emath/range.hpp:38-42 | range / n with truncating division agrees with the flooring chunk range on ranges with non-negative ends |
| Ranges.FloorChunks | emath/range.hpp:23-42 | the flooring chunk range has ends that, times n, enclose the range: begin rounded down and end rounded up |
| Ranges.FloorChunksCover | emath/range.hpp:23-42 | with flooring division the chunk range covers the range for every begin: the chunk of each element is in it and each of its chunks overlaps the range |
| Ranges.ScaledChunks | emath/range.hpp:44-49 | operator* reverses operator/: (range / n) * n holds every element of a range with begin >= 0 |
| Ranges.ShiftMovesElements | emath/range.hpp:51-62 | operator+ and operator- move every element by n, keep size(), and undo each other |
| Ranges.ClampedElements | emath/range.hpp:64-72 | clamped(size) lies in [0, size] and holds exactly the elements of the range in [0, size) |
| Ranges.RangeI.Default | emath/range.hpp:11 | RangeI() is [-1, -2) |
| Ranges.RangeI.constructor | emath/range.hpp:12 | RangeI(begin, end) stores both ends |
| Ranges.RangeI.Size | emath/range.hpp:16 | size() of a non-reversed range is its number of elements |
| Ranges.RangeI.Include | emath/range.hpp:18-21 | include(val) leaves the hull of the range and val: it then holds val, begin never increases and end never decreases |
| Ranges.RangeI.Div | emath/range.hpp:38-42 | operator/ returns a new range of the chunks, with C++ truncating division |
| Ranges.RangeI.Mul | emath/range.hpp:45-49 | operator* returns a new range with both ends times n |
| Ranges.RangeI.Plus | emath/range.hpp:52-56 | operator+ returns a new range with both ends plus n |
| Ranges.RangeI.Minus | emath/range.hpp:58-62 | operator- returns a new range with both ends minus n |
| Ranges.RangeI.ClampedTo | emath/range.hpp:66-72 | clamped(size) returns a new range with both ends clamped to [0, size] |
| Ranges.FloorInt | emath/math.hpp:31-35 | floor_to_int(f) is the integer r with r <= f < r + 1 |
| Ranges.CeilInt | emath/math.hpp:37-41 | ceil_to_int(f) is the integer r with r - 1 < f <= r |
| Ranges.SizePositiveIffLess | emath/range.hpp:111-118 | is_valid(), size() > 0 with infinities, holds exactly when min < max |
| Ranges.AlignedSpan | emath/range.hpp:125-129 | to_aligned_range() on finite bounds is an integer range whose ends enclose [min, max] |
| Ranges.AlignedSpanSmallest | emath/range.hpp:125-129 | every integer range whose ends enclose [min, max] contains to_aligned_range() |
| Ranges.RangeFloat.Empty | emath/range.hpp:100-104 | RangeFloat() and Empty() are (+INF, -INF) |
| Ranges.RangeFloat.constructor | emath/range.hpp:101 | RangeFloat(begin, end) stores both bounds |
| Ranges.RangeFloat.FromRangeI | emath/range.hpp:102 | RangeFloat(RangeI) takes begin and end as the bounds |
| Ranges.RangeFloat.Everything | emath/range.hpp:105 | Everything() is (-INF, +INF) |
| Ranges.RangeFloat.Include | emath/range.hpp:120-123 | include(val) takes min and max with val; afterwards min <= val <= max, min never increases and max never decreases |
| Ranges.RangeFloat.ToAlignedRange | emath/range.hpp:125-129 | to_aligned_range() returns the new RangeI [floor(min), ceil(max)) |
| Ranges.EmptyAndEverything | emath/range.hpp:100-123 | the default range is not valid and Everything() is; including v into the default gives [v, v], which is still not valid |
| Planes.SignedDistance | emath/plane.hpp:49-52 | distance(p) = dot(p, normal) + dist is the plane vector (normal, dist) applied to the homogeneous point (p, 1) |
| Planes.Normalize | emath/plane.cpp:83-88 | normalize() leaves a plane with a unit normal |
| Planes.NormalizeScales | emath/plane.cpp:83-88 | Plane(Vec4) scales normal and dist by 1 / \|normal\|, so every signed distance of the normalized plane is the un-normalized value divided by the positive length |
| Planes.NormalizeKeepsSign | emath/plane.cpp:83-88 | normalizing keeps the sign of every distance: > 0 and < 0 are the same before and after |
| Planes.DistanceAffine | emath/plane.hpp:49-52 | distance(p) = dot(p, normal) + dist is affine along a segment: at a + t(b - a) it is the lerp of the two end distances |
| Planes.SegmentInFront | emath/plane.hpp:49-52 | if both ends of a segment are strictly in front of a plane, so is every point between them |
| Planes.ClosestCornerIsNearest | emath/frustum.cpp:72-76 | the corner picked by the sign of each normal component has the least distance of all points of the box |
| Frustums.ExtractedPlanes | emath/frustum.cpp:170-180 | Frustum(const Mat4&) builds exactly six planes |
| Frustums.ClipPlaneValue | emath/frustum.cpp:173-180 | each plane vector +-col(k) - col(3) applied to (p, 1) is +-X, +-Y or +-Z minus W of p's clip coordinates |
| Frustums.ExtractedPlanesBoundClipVolume | emath/frustum.cpp:170-180 | a point is on or behind all six planes of a matrix exactly when its clip coordinates satisfy -W <= X, Y, Z <= W |
| Frustums.ExtractedPlanesHom | emath/frustum.cpp:175-180 | the normalized planes have a point in front exactly when some un-normalized plane vector is positive at (p, 1) |
| Frustums.HomInsideClipVolume | emath/frustum.cpp:175-180 | no plane vector is positive at (p, 1) exactly when -W <= X, Y, Z <= W |
| Frustums.SphereClass | emath/frustum.cpp:40-61 | an Inside answer means every plane is at least r in front of the center, except that a sphere exactly touching a plane from outside is also called Inside |
| Frustums.CountBeyondAll | emath/frustum.cpp:83-112 | an out counter is at most the number of points counted, and it equals that number exactly when every point is beyond the box face |
| Frustums.CulledByPlane | emath/frustum.cpp:63-80 | a box whose nearest corner is on or in front of a plane has no point strictly behind that plane, so culling it loses no point inside the frustum |
| Frustums.SeparatedApart | emath/frustum.cpp:212-227 | when a plane of one frustum has all corners of the other in front of it, no point between two of those corners lies inside the first frustum |
| Frustums.Frustum.FromMatrix | emath/frustum.cpp:170-192 | from_matrix stores the six extracted planes and the eight given corners |
| Frustums.Frustum.ContainsPoint | emath/frustum.cpp:17-25 | contains_point(p) is true iff no plane has p strictly in front of it |
| Frustums.Frustum.PlaneIntersection | emath/frustum.cpp:27-38 | plane_intersection is Infront when all corners are strictly in front, Behind when all are strictly behind, and Intersect otherwise |
| Frustums.Frustum.TestSphere | emath/frustum.cpp:40-61 | test_sphere is Outside when the center is more than r in front of some plane, else Intersects when it is within r of some plane, else Inside |
| Frustums.Frustum.CountOut | emath/frustum.cpp:84-86 | one out loop counts the corners beyond one box face |
| Frustums.Frustum.CullBox | emath/frustum.cpp:63-115 | cull_box is true iff some plane has the box's nearest corner on or in front of it, or all eight corners lie beyond one box face |
| Frustums.FrustaIntersect | emath/frustum.cpp:212-227 | intersects(lhs, rhs) is false iff a plane of either frustum has all corners of the other strictly in front of it |
| Intersect.BoxOutsidePlane | emath/intersect.cpp:10-22 | for a non-negative extent, box_outside_plane(p, c, e) holds iff the corner of the box nearest the back of the plane is strictly in front of it |
| Intersect.ClosestIsCorner | emath/intersect.cpp:10-22 | the box corner nearest the back of a plane is one of the eight corners c - (+-e.x, +-e.y, +-e.z) that box_outside_plane tests |
| Intersect.BoxOutsidePlaneWholeBox | emath/intersect.cpp:10-22 | box_outside_plane(p, c, e) is true iff every point of the box c +- e lies strictly in front of the plane: when true no point of the box is on or behind it, when false some point is |
| Intersect.CornersInBox | emath/intersect.cpp:13-20 | when some checked corner is on or behind the plane, a point of the box is |
| Intersect.ChordHalf | emath/intersect.cpp:49 | h = sqrt(ra^2 - k^2) is non-negative and h^2 = ra^2 - k^2 |
| Intersect.CircleCircleNone | emath/intersect.cpp:29-37 | circle_circle returns false exactly when the centers are farther apart than ra + rb or closer than \|ra - rb\| |
| Intersect.CircleCircleSymmetric | emath/intersect.cpp:52-59 | the two solutions are mirror images through p2: s0 + s1 = 2 * p2 |
| Intersect.CircleCircleFinite | emath/intersect.cpp:29-49 | for non-negative radii and distinct centers that pass both early outs the square root's argument is non-negative, so finite solutions are returned |
| Intersect.ChordWithinRadius | emath/intersect.cpp:43-49 | for ra, rb >= 0 and \|ra - rb\| <= d <= ra + rb, d > 0, the chord offset k satisfies k^2 <= ra^2 |
| Intersect.CircleCircleTaken | emath/intersect.cpp:29-49 | solutions are returned only past both early outs, with a non-zero center distance and k^2 <= ra^2 |
| Intersect.CircleCircle | emath/intersect.cpp:24-61 | each returned solution lies on both circles: at distance a.rad from a.p and b.rad from b.p |
| Intersect.CircleCircleShape | emath/intersect.cpp:43-59 | the solutions are p2 +- (h/d) * rot90(delta), with d, k and h meeting the chord geometry d^2 = \|delta\|^2, 2dk = ra^2 - rb^2 + d^2, h^2 = ra^2 - k^2 |
| Matrices.IndexInBuffer | emath/matrix.hpp:61-65 | pointer_to(x, y) = ptr + stride*y + x of every cell of a valid view lies inside the buffer |
| Matrices.IndexInjective | emath/matrix.hpp:61-65 | with width <= stride, distinct cells of a view are distinct buffer positions |
| Matrices.RowCells | emath/matrix.hpp:55-65 | the cells of row y are the width positions from row_ptr(y) on |
| Matrices.AppliedCells | emath/matrix.hpp:123-124 | after the row loop has rewritten rows 0 .. rows - 1, each of their cells holds the rule applied to its old value and every other position is unchanged |
| Matrices.AppliedView | emath/matrix.hpp:123-124 | a finished row loop rewrites every cell of the view by the rule and nothing outside the view |
| Matrices.MemSet | emath/matrix.hpp:124 | MemSet(ptr, n, v) sets the n positions from ptr to v and keeps every other position |
| Matrices.Fill | emath/matrix.hpp:121-125 | fill(v) makes every cell of the view v and leaves the rest of the buffer untouched |
| Matrices.FillRow | emath/matrix.hpp:124 | one pass of fill's loop rewrites exactly row ri |
| Matrices.MulZero | emath/matrix.hpp:146-149 | comp_mul_with's cell rule is zero iff either operand is zero |
| Matrices.MulZeroIsProduct | emath/matrix.hpp:134-149 | on reals the zero test never changes the product |
| Matrices.DivThenMul | emath/matrix.hpp:146-166 | dividing a cell by a non-zero cell and then multiplying it back by comp_mul_with's rule gives the original cell |
| Matrices.MulSpan | emath/matrix.hpp:145-150 | the inner loop of comp_mul_with sets each of the n cells to the rule of its value and the operand's cell, and keeps every other position |
| Matrices.CompMulWith | emath/matrix.hpp:136-152 | comp_mul_with(mat) sets each cell to zero when either it or mat's matching cell is zero and to their product otherwise; nothing outside the view changes |
| Matrices.MulRow | emath/matrix.hpp:142-150 | one row of comp_mul_with rewrites exactly that row |
| Matrices.DivSpan | emath/matrix.hpp:165-166 | the inner loop of comp_div_with divides each of the n cells by the operand's cell and keeps every other position |
| Matrices.CompDivWith | emath/matrix.hpp:156-168 | comp_div_with(mat) divides each cell by mat's matching cell; nothing outside the view changes |
| Matrices.DivRow | emath/matrix.hpp:162-166 | one row of comp_div_with rewrites exactly that row |
| Matrices.DivThenMulRestores | emath/matrix.hpp:136-168 | comp_div_with followed by comp_mul_with by the same zero-free operand restores the buffer |
| Matrices.ScaleSpan | emath/matrix.hpp:310-311 | the inner loop of operator*= multiplies each of the n cells by rhs and keeps every other position |
| Matrices.ScaleBy | emath/matrix.hpp:305-314 | operator*=(lhs, rhs) multiplies every cell of the view by rhs and leaves the rest of the buffer untouched |
| Matrices.ScaleRow | emath/matrix.hpp:308-311 | one row of operator*= rewrites exactly that row |
| Matrices.Allocate | emath/matrix.hpp:20-27 | allocate(w, h) is a new buffer of w*h cells viewed with stride w, width w and height h |
| Matrices.AllocateFilled | emath/matrix.hpp:30-34 | allocate(w, h, val) is a new w x h matrix whose every cell is val |
| Matrices.Slice2D | emath/matrix.hpp:79-84 | slice2D is an empty matrix when w*h == 0; otherwise it shares the buffer and its cell (i, j) is m's cell (x + i, y + j) |
| Matrices.SliceValid | emath/matrix.hpp:79-84 | a slice of a valid matrix is valid and reads the matching cells of m |
| Matrices.SliceInView | emath/matrix.hpp:79-84 | a slice covers exactly the cells of m inside its rectangle |
| Matrices.DiagDAsWritten | emath/matrix.hpp:97-101 | diagD() as written is an s x s view of the same buffer, s = min(width, height), whose cell (x, y) is m's cell (x + y, y): only its first column is the diagonal |
| Matrices.DiagDAsWrittenOverruns | emath/matrix.hpp:97-101 | on an n x n matrix (n >= 2) that fills its buffer, the matrix is valid but the view diagD returns is not: its cell (n - 1, n - 1) lies past the end of the buffer, and its cell (1, 0) is m's off-diagonal cell (1, 0) |
| Matrices.DiagD | emath/matrix.hpp:96-101 | the corrected diagD is a one-column view of the same buffer with min(width, height) cells, whose cell k is m's cell (k, k) |
| Matrices.DiagDIsDiagonal | emath/matrix.hpp:96-101 | the corrected diagD, a one-column view of min(width, height) cells with stride + 1, is valid and its cell k is m's cell (k, k) |
| Matrices.Transposed | emath/matrix.hpp:353-360 | transposed(mat) is a new matrix with width and height swapped and ret(r, c) == mat(c, r) |
| Matrices.Outer | emath/matrix.hpp:369-378 | outer(colV, rowV) is a new rowV.size() x colV.size() matrix with m(x, y) == colV(y) * rowV(x) |
| Matrices.OuterCells | emath/matrix.hpp:374-376 | after outer's row loop every cell holds colV(y) * rowV(x) |
| Matrices.OuterRow | emath/matrix.hpp:375-376 | one row of outer's loop rewrites exactly that row |
| Matrices.SliceMul | emath/matrix.hpp:397-399 | comp_mul_with on a column slice of m changes exactly the cells in those columns, by the rule against the matching slice of s |
| Matrices.SoftWidth | emath/matrix.hpp:392 | soft_w = min(4, width/2*2) is even, at most 4 and at most width, and at least 2 once width >= 2 |
| Matrices.SoftBandsApart | emath/matrix.hpp:392-399 | for width >= 3 the left and right bands hold one or two columns each and do not overlap |
| Matrices.SoftMiddleKept | emath/matrix.hpp:396-399 | columns between the two bands keep their value, and with both sides off no cell changes |
| Matrices.SoftOnesKeep | emath/matrix.hpp:393-399 | a window of ones leaves every cell as it was |
| Matrices.Ones | emath/matrix.hpp:393 | VecR::allocate(n, 1.0f) holds n ones |
| Matrices.OuterOnes | emath/matrix.hpp:393 | outer(ones(height), window) has cell (x, y) equal to window[x] |
| Matrices.SoftenBand | emath/matrix.hpp:397 | one band multiplies the w columns from x0 on by the matching columns of the window, by comp_mul_with's rule, and changes nothing else |
| Matrices.SoftenCells | emath/matrix.hpp:396-399 | the left band followed by the right band leave each cell at its soft value and change nothing outside the view |
| Matrices.SoftenLeftRight | emath/matrix.hpp:388-400 | soften_left_right changes nothing when width < 3; otherwise the first and last soft_w/2 columns are multiplied by the two halves of the window and every other cell keeps its value |

## Left out

- `noise`, `easing`, `quaternion`, `mat3`/`mat4`, `direction`, `angle_tester`, `random` and `hash` hold float and trig algebra, random number generation and hashing, outside the logic core.
- `closest_lineseg_lineseg` in `capsule.cpp` is an unused float-tuned template with `SMALL_NUM` thresholds.
- `wrap_angle`'s float loops are not modelled.
- Float rounding, NaN propagation through arithmetic, and the `double` casts in `ray_ray` are not modelled: arithmetic is exact on `real`.
- `vec2.hpp`, `vec3.hpp`, `vec4.hpp`, `ray.hpp`, `circle.hpp` and `vector.hpp` are not part of this model beyond the small datatypes and operations of module `Vectors`.
- `Plane` is a normal and a distance. `Plane::plane_intersection`, `from_point_normal` and `from_points` are not modelled.
- `Frustums.Frustum.FromMatrix` takes the eight frustum corners as a parameter, because the source computes them with `Plane::plane_intersection`, a 3x3 solve.
- `Planes.Normalize`: requires a non-zero normal. The source divides by its length unguarded and builds a plane that is not finite.
- `LineSeg::length` and `LineSeg::distance_to` (square roots of modelled quantities) have no members of their own.
- `Capsules.Normalize` models `normalize(v)` of `vec2.hpp` (emath/vec2.hpp:92), which `CapsuleBaked` calls (emath/capsule.hpp:129-130); the rest of `vec2.hpp` is not part of this model.
- `TraceRecord.TraceInfo.constructor`: the source leaves `normal_dir` unset, and the model starts it at zero.
- `TraceRecord.TraceInfo.RayCircle`: requires a non-zero ray direction. With a zero direction the source computes `1 / 0` and works on infinite and NaN values.
- `TraceRecord.TraceInfo.RayCapsule`: requires a non-zero ray direction, for the same reason.
- `TraceRecord.TraceInfo.RayCapsule` and the capsule end caps call the corrected `ray_circle` (see Findings).
- `TraceRecord.TraceInfo.RayAabb`: requires a finite box.
- `TraceRecord.TraceInfo.RayAabb`: skips an axis the ray runs parallel to (`d[a] == 0`). There the source's quotients are infinite or NaN, and all of its comparisons on them come out false.
- `TraceRecord.TraceInfo.RayCircleCcd`: requires `t <= 1`, which the source asserts.
- `Trace.CapsuleHitBody`: the source asserts `ti.entering()` in the non-parallel branch; the model computes that branch for either flag, as the code does with assertions off, and does not restrict it to entering rays.
- `Trace.BoxTraceHit`: a leaving `rayAABB` hit gets the outward face normal, so `dot(normal_dir, d) > 0`, as the code computes it; the comment at trace.hpp:23 promises `dot(normal_dir, d) <= 0` even for leaving rays, and the model does not claim that.
- `Frustums.SphereClass`: `test_sphere`'s strict `|distance| < r` counts a sphere exactly touching a plane from outside as `Inside`; the model states this as the code computes it.
- `circle_circle` writes its two solutions into an output array. The model returns them in an `Intersect.CircleSolutions` value instead.
- `Ranges.RangeI.Default`: the default `RangeI()` is `[-1, -2)`, which is not an empty sentinel; `Ranges.DefaultThenInclude` states what including into it gives.
- `RangeI_iterator`, and `RangeFloat`'s plain accessors (`begin`, `end`, `size`, `center`), have no members of their own.
- `Ranges.RangeFloat.ToAlignedRange`: requires finite bounds. The source's `int` cast of an infinite bound is undefined.
- `IntBits.NextMultipleOfNIsLeast`: stated only where `v - 1 + n` does not overflow `size_t`. The function itself models the wrap-around modulo 2^64.
- `IntBits.PositiveModulo`: requires the intermediate `i % n + n` to fit an `int`. The source's overflow there is undefined behaviour.
- `Numeric.RoundToUint`: requires the truncated value to fit an `unsigned`. The source's conversion is undefined outside that range.
- `DataPtr` reference counting and `start_ptr` are not modelled. A view holds the buffer array directly.
- `MemSet` is modelled as a loop over the array. `MemCpy` (used only by `assign`) is not modelled.
- `Matrix::assign`, `clone`, `slice1D`, the `RangeI` and `Vec2i` overloads of `slice2D` and `allocate`, `max_elem`, and the element-wise `operator-` / `operator-=` are not modelled.
- `make_soft_window(w)` lives in `vector.hpp`, which is not part of this model. `Matrices.SoftenLeftRight` takes its window as a parameter.
- `make_soft_window(w, h)` and `soften_top_bottom` are not modelled; the latter is `soften_left_right` with rows and columns swapped.
- `Matrices.Allocate`: the source leaves the new cells uninitialised, and the model sets them to zero.
- `Matrices.Slice2D`: the null matrix of an empty slice is modelled as a 0x0 view of the same buffer.
- `Matrices.CompMulWith`: requires the operand to live in a different buffer from the matrix it updates. The source also accepts an aliasing operand.
- `Matrices.CompDivWith`: requires the operand to live in a different buffer, and to have no zero cell; a zero divisor gives infinite or NaN cells in the source.
- `Boxes.Aabb.DistanceTo`: requires a finite box, so the `everything()` and `nothing()` sentinels with infinite bounds are excluded. On `everything()` the source's inside branch returns minus infinity (emath/aabb.hpp:74-88), which `real` cannot hold.
- `Capsules.IntersectsBox`: requires a finite box, for the same reason. The source's half diagonal of a sentinel box is infinite or NaN (emath/capsule.cpp:317-321).
- `Ranges.RangeI.Include`: does not model the 32-bit `int` width; `val + 1` (emath/range.hpp:18-21) overflows for `val == INT_MAX`, so `RangeI(0, 1).include(INT_MAX)` is undefined in the source and gives `[0, INT_MAX + 1)` in the model.
- `Ranges.RangeI.Div`: does not model the 32-bit `int` width; `end + n - 1` (emath/range.hpp:38-42) can overflow near `INT_MAX`, and the model's integers are unbounded.
- `Ranges.RangeI.Mul`: does not model the 32-bit `int` width; `begin * n` and `end * n` (emath/range.hpp:45-49) overflow for large operands in the source.
- `Ranges.RangeI.Plus`: does not model the 32-bit `int` width; the shifted ends (emath/range.hpp:52-56) can overflow in the source.
- `Ranges.RangeI.Minus`: does not model the 32-bit `int` width; the shifted ends (emath/range.hpp:58-62) can overflow in the source.
- `Numeric.RoundToInt`: does not model the 32-bit `int` width; the source's `int(...)` cast (emath/math.hpp:45-50) is undefined for values outside the `int` range, and the model returns the unbounded integer.
- `CHECK_F` size checks are preconditions of the model's methods rather than run-time aborts.

## Findings

| source | as written | input that shows it | evidently intended | confidence | as-written member | corrected member |
|---|---|---|---|---|---|---|
| emath/trace.cpp:45-48 | the "too far away" pre-check compares `sign * (a + t)^2` with `sign * under_sq`; squaring loses the sign of `a + t`, so an entering ray is rejected whenever `t` lies beyond the far side of the circle | ray o = (-5, 0), d = (1, 0), unit circle at the origin, entering, min_t = 0, t = 10: `(a + t)^2 = 25 > under_sq = 1` returns false, although the entering root x = 4 lies in (0, 10] | accept the root `x = -a + sign * sqrt(under_sq)` exactly when `min_t < x <= t`, the exact tests of trace.cpp:57-60 | high; not executed | Trace.CircleHitAsWrittenMissesThrough, Trace.CircleHitAsWritten | Trace.CircleHit |
| emath/range.hpp:38-42 | `range / n` uses C++'s truncating division, so a range with a negative begin gets a first chunk rounded toward zero | `RangeI(-5, -4) / 3` is `[-1, 0)`, while -5 lies in chunk -2 (-6 .. -4), which the result misses | the chunks covering the range, with flooring division for the begin and the rounded-up end | medium; not executed | Ranges.ChunksMissNegative, Ranges.RangeI.Div | Ranges.FloorChunks, Ranges.FloorChunksCover |
| emath/matrix.hpp:97-101 | `diagD()` returns an s x s view with stride + 1, s = min(width, height), so its rows run past the diagonal | an allocated 2 x 2 matrix: cell (1, 1) of the view is at 3 * 1 + 1 = 4, past the 4-cell buffer, and its cell (1, 0) is the off-diagonal (1, 0) | a one-column view of s cells with stride + 1, whose cell k is the diagonal cell (k, k) | high; not executed | Matrices.DiagDAsWrittenOverruns, Matrices.DiagDAsWritten | Matrices.DiagD, Matrices.DiagDIsDiagonal |
