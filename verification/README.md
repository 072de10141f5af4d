# pbrtrs exact-arithmetic geometry layer, in Dafny

This project models the geometry primitives of the pbrtrs ray tracer over exact integers. It covers four parts:

- **`Numeric`** (`numeric.dfy`): the scalar capability set at its integer instantiations, `i32` and `i64`. The parts modelled are the `m_max_value`/`m_min_value` sentinels, `m_abs`, `m_signum`, `m_max`/`m_min`, `m_div_euclid`/`m_rem_euclid`, and Rust's truncating integer `/` and `%`.
- **`Vectors`** (`vectors.dfy`): `Vector<T, N>` and `Point<T, N>`, which are the same type. The parts modelled are:
  - the constructors `new`, `default`, `elements` and `From<tuple>`, plus the `x/y/z/w` accessors;
  - componentwise `+ - * / neg` and the compound assignments `+= -= *= /=`;
  - `dot`, `abs_dot`, `mag2`, `square_distance_to`, `abs` and `face_towards_same_hemisphere`;
  - `min_component`/`max_component`, where the first index wins ties;
  - `cross` on 3-D vectors;
  - `Point::from_min_components`/`from_max_components`.
- **`Aabb`** (`aabb.rs` → `aabb.dfy`): `Bounds<T, N>`. The parts modelled are the normalising `new`, `from_single`, `union_with_point`, `union`, `intersect`, and the deliberately invalid `default` box, which is the identity of `union`.
- **`Rays`** (`rays.dfy`): `Ray<T>`, with `new`, `default` and `at`.

A scalar is a mathematical `int`. A `Width` (`I32` or `I64`) chooses the sentinel values and the set of values the type can hold (`Numeric.InRange`). A vector is a `seq<int>`, and its length is the compile-time dimension `N`. Every binary operation requires both operands to have the same length. Bounds and rays are immutable datatypes. The compound-assignment operators are methods that update a copy component by component, left to right, as the source's loops do.

Points where the integer instantiation behaves in ways worth stating:

- For `i32`/`i64`, the source's `abs`, `/`, `%`, `div_euclid` and `rem_euclid` can panic. `/`, `%`, `div_euclid` and `rem_euclid` panic on a zero divisor and on `MIN` divided by `-1`, and `abs` overflows on `MIN`. In the model, a zero divisor is excluded by `requires`. Lemmas state when `abs`, `div_euclid` and `rem_euclid` stay inside the type, and they exclude the `MIN`, `-1` case.
- Integer `/` on vectors truncates toward zero, as Rust's integer `/` does.
- `Bounds::default()` is the identity of `union` for every box the program can hold, because every `i32`/`i64` coordinate lies between `MIN` and `MAX`. The model's scalars are unbounded, so `Aabb.DefaultIsUnionIdentity` states that range as a precondition. The precondition reflects the model's scalar type, not a restriction in the code.
- `Bounds::default()` is vacuously valid when `N == 0`, so `Aabb.Default` states invalidity for `N > 0` only.

## Model

| member | source | states |
|---|---|---|
| `Numeric.MaxValue` | crates/pbrtrs-lib/src/geometry/numeric.rs:78-80 | `m_max_value` is a value of the type and no value of the type exceeds it |
| `Numeric.MinValue` | crates/pbrtrs-lib/src/geometry/numeric.rs:81-83 | `m_min_value` is a value of the type and every value of the type is at least it |
| `Numeric.Abs` | crates/pbrtrs-lib/src/geometry/numeric.rs:84-86 | `m_abs(a)` is non-negative and equals `a` or `-a` |
| `Numeric.AbsInRange` | crates/pbrtrs-lib/src/geometry/numeric.rs:84-86 | for `a` above the minimum value, `m_abs(a)` is again a value of the type |
| `Numeric.Signum` | crates/pbrtrs-lib/src/geometry/numeric.rs:93-95 | `m_signum(a)` is 1, 0 or -1 exactly when `a` is positive, zero or negative |
| `Numeric.SignumTimesAbs` | crates/pbrtrs-lib/src/geometry/numeric.rs:84-95 | sign times magnitude gives back the value, and sign times the value is its magnitude |
| `Numeric.Max` | crates/pbrtrs-lib/src/geometry/numeric.rs:96-98 | `m_max(a, b)` is at least both arguments and is one of them |
| `Numeric.Min` | crates/pbrtrs-lib/src/geometry/numeric.rs:99-101 | `m_min(a, b)` is at most both arguments and is one of them |
| `Numeric.Quot` | src/geometry/mod.rs:217-230 | integer `/` rounds toward zero: `|a|` lies in `[|q|·|b|, (|q| + 1)·|b|)`, and a non-zero quotient is positive exactly when the operands' signs agree |
| `Numeric.Rem` | crates/pbrtrs-lib/src/geometry/numeric.rs:87-92 | integer `%` completes `a == (a / b) * b + a % b`, is smaller than `|b|` in magnitude, and carries the dividend's sign |
| `Numeric.RemEuclid` | crates/pbrtrs-lib/src/geometry/numeric.rs:90-92 | for `b != 0`, `m_rem_euclid(a, b)` lies in `[0, |b|)` |
| `Numeric.DivEuclid` | crates/pbrtrs-lib/src/geometry/numeric.rs:87-89 | for `b != 0`, `a == m_div_euclid(a, b) * b + m_rem_euclid(a, b)` |
| `Numeric.EuclidIsUnique` | crates/pbrtrs-lib/src/geometry/numeric.rs:87-92 | the std correction of the truncated quotient and remainder gives the unique Euclidean pair (Dafny's `/` and `%`) |
| `Numeric.RemEuclidInRange` | crates/pbrtrs-lib/src/geometry/numeric.rs:90-92 | the Euclidean remainder of two values of the type is a value of the type, except for `MIN.rem_euclid(-1)` |
| `Numeric.DivEuclidInRange` | crates/pbrtrs-lib/src/geometry/numeric.rs:87-89 | the Euclidean quotient of two values of the type is a value of the type, except for `MIN.div_euclid(-1)` |
| `Vectors.New` | src/geometry/mod.rs:20-22 | `new(x)` has dimension N and every component equal to `x` |
| `Vectors.Default` | src/geometry/mod.rs:128-137 | `default()` has dimension N and every component equal to the scalar default 0 |
| `Vectors.Add` | src/geometry/mod.rs:139-152 | `a + b` adds componentwise |
| `Vectors.Sub` | src/geometry/mod.rs:165-178 | `a - b` subtracts componentwise |
| `Vectors.Scale` | src/geometry/mod.rs:191-204 | `a * k` multiplies every component by `k` |
| `Vectors.DivScalar` | src/geometry/mod.rs:217-230 | `a / k` divides every component with truncation: each quotient times `|k|` is at most the component's magnitude, and the truncating remainder completes it |
| `Vectors.Neg` | src/geometry/mod.rs:243-255 | `-a` negates every component |
| `Vectors.Abs` | src/geometry/mod.rs:74-80 | every component of `abs(a)` is non-negative and is `a[i]` or `-a[i]` |
| `Vectors.AddSubCancel` | src/geometry/mod.rs:139-178 | `(a + b) - b == a` |
| `Vectors.NegNeg` | src/geometry/mod.rs:243-255 | `-(-a) == a` |
| `Vectors.AddCommutesWithIdentity` | src/geometry/mod.rs:128-152 | `a + b == b + a`, and `a + default() == a` |
| `Vectors.SubIsAddNeg` | src/geometry/mod.rs:165-178 | `a - b == a + (-b)`, and `b - a == -(a - b)` |
| `Vectors.ScaleDistributes` | src/geometry/mod.rs:191-204 | `a * (s + t) == a * s + a * t` |
| `Vectors.ScaleAssociates` | src/geometry/mod.rs:191-204 | `a * (t * s) == (a * s) * t` |
| `Vectors.DivScalarUndoesScale` | src/geometry/mod.rs:191-230 | for `k != 0`, `(a * k) / k == a` |
| `Vectors.AddAssign` | src/geometry/mod.rs:154-163 | after `v += u`, v equals `v + u` |
| `Vectors.SubAssign` | src/geometry/mod.rs:180-189 | after `v -= u`, v equals `v - u` |
| `Vectors.MulAssign` | src/geometry/mod.rs:206-215 | after `v *= k`, v equals `v * k` |
| `Vectors.DivAssign` | src/geometry/mod.rs:232-241 | after `v /= k`, v equals `v / k` |
| `Vectors.DotIsSumOfProducts` | src/geometry/mod.rs:24-30 | the left-to-right accumulation in `dot` equals the sum of componentwise products taken from the first component |
| `Vectors.DotSymmetric` | src/geometry/mod.rs:24-30 | `a.dot(b) == b.dot(a)` |
| `Vectors.DotNegLeft` | src/geometry/mod.rs:24-30 | `(-a).dot(b) == -(a.dot(b))` |
| `Vectors.DotSelfNonNegative` | src/geometry/mod.rs:24-30 | `a.dot(a) >= 0` |
| `Vectors.DotSelfZero` | src/geometry/mod.rs:24-30 | `a.dot(a) == 0` exactly when every component is 0 |
| `Vectors.AbsDot` | src/geometry/mod.rs:32-34 | `abs_dot` is non-negative and equals `dot` or `-dot` |
| `Vectors.AbsDotSymmetric` | src/geometry/mod.rs:32-34 | `a.abs_dot(b) == b.abs_dot(a)` |
| `Vectors.Mag2` | src/geometry/mod.rs:36-38 | `mag2` is non-negative and is 0 exactly for the zero vector |
| `Vectors.SquareDistanceTo` | src/geometry/mod.rs:70-72 | the squared distance is non-negative and is 0 exactly when the points are equal |
| `Vectors.SquareDistanceSymmetric` | src/geometry/mod.rs:70-72 | `a.square_distance_to(b) == b.square_distance_to(a)` |
| `Vectors.FaceTowardsSameHemisphere` | src/geometry/mod.rs:62-68 | the result is `-a` when `a.dot(b) < 0` and `a` otherwise, so its dot product with `b` is `|a.dot(b)| >= 0` |
| `Vectors.MinComponent` | src/geometry/mod.rs:40-49 | for N >= 1, returns `(i, data[i])` where `data[i]` is at most every component and every lower index holds a strictly larger value; for N == 0, returns `(0, m_max_value)` |
| `Vectors.MaxComponent` | src/geometry/mod.rs:51-60 | for N >= 1, returns `(i, data[i])` where `data[i]` is at least every component and every lower index holds a strictly smaller value; for N == 0, returns `(0, m_min_value)` |
| `Vectors.FromMinComponents` | crates/pbrtrs-lib/src/geometry/aabb.rs:16-21 | every component is at most both inputs' components and equals one of them |
| `Vectors.FromMaxComponents` | crates/pbrtrs-lib/src/geometry/aabb.rs:16-21 | every component is at least both inputs' components and equals one of them |
| `Vectors.Elements2` | src/geometry/mod.rs:274-282 | `Vec2::elements(x, y)` reads back `x` and `y` through `x()` and `y()` |
| `Vectors.Elements3` | src/geometry/mod.rs:302-313 | `Vec3::elements(x, y, z)` reads back through `x()`, `y()` and `z()` |
| `Vectors.Elements4` | src/geometry/mod.rs:367-381 | `Vec4::elements(x, y, z, w)` reads back through `x()`, `y()`, `z()` and `w()` |
| `Vectors.FromPair` | src/geometry/mod.rs:259-268 | `From<(x, y)>` builds the same vector as `elements(x, y)` |
| `Vectors.FromTriple` | src/geometry/mod.rs:287-296 | `From<(x, y, z)>` builds the same vector as `elements(x, y, z)` |
| `Vectors.FromQuad` | src/geometry/mod.rs:352-361 | `From<(x, y, z, w)>` builds the same vector as `elements(x, y, z, w)` |
| `Vectors.ElementsFromAccessors` | src/geometry/mod.rs:270-382 | rebuilding a Vec2, Vec3 or Vec4 from its accessors gives back the same vector |
| `Vectors.Cross` | src/geometry/mod.rs:316-327 | the cross product is 3-D and has zero dot product with both operands |
| `Vectors.CrossAnticommutative` | src/geometry/mod.rs:320-326 | `a.cross(b) == -(b.cross(a))` |
| `Vectors.CrossOfBasis` | src/geometry/mod.rs:320-326 | `x × y == z`, `y × z == x` and `z × x == y` for the standard basis |
| `Aabb.New` | crates/pbrtrs-lib/src/geometry/aabb.rs:16-21 | `new(a, b)` is a valid box that contains both points, with corners the componentwise min and max |
| `Aabb.NewSymmetric` | crates/pbrtrs-lib/src/geometry/aabb.rs:16-21 | `new(a, b) == new(b, a)` |
| `Aabb.NewKeepsOrderedCorners` | crates/pbrtrs-lib/src/geometry/aabb.rs:16-21 | corners that already form a valid box are kept unchanged |
| `Aabb.FromSingle` | crates/pbrtrs-lib/src/geometry/aabb.rs:23-25 | `from_single(p)` is valid and contains `p` and no other point |
| `Aabb.FromSingleIsNew` | crates/pbrtrs-lib/src/geometry/aabb.rs:16-25 | `from_single(p) == new(p, p)` |
| `Aabb.Default` | crates/pbrtrs-lib/src/geometry/aabb.rs:51-61 | the default box has `p_min` all `m_max_value` and `p_max` all `m_min_value`, and is invalid for N >= 1 |
| `Aabb.UnionWithPoint` | crates/pbrtrs-lib/src/geometry/aabb.rs:27-34 | the result contains `p`, encloses the old box, and is valid whenever the old box was |
| `Aabb.DefaultUnionWithPoint` | crates/pbrtrs-lib/src/geometry/aabb.rs:27-34 | for every in-range `p`, `default().union_with_point(p) == from_single(p)` |
| `Aabb.UnionWithPointIsUnion` | crates/pbrtrs-lib/src/geometry/aabb.rs:27-41 | `b.union_with_point(p) == b.union(from_single(p))` |
| `Aabb.Union` | crates/pbrtrs-lib/src/geometry/aabb.rs:36-41 | `union` encloses both boxes, is the smallest box that does, and is valid if either input is |
| `Aabb.UnionCommutativeIdempotent` | crates/pbrtrs-lib/src/geometry/aabb.rs:36-41 | `a.union(b) == b.union(a)` and `a.union(a) == a` |
| `Aabb.UnionAssociative` | crates/pbrtrs-lib/src/geometry/aabb.rs:36-41 | `(a ∪ b) ∪ c == a ∪ (b ∪ c)` |
| `Aabb.DefaultIsUnionIdentity` | crates/pbrtrs-lib/src/geometry/aabb.rs:36-61 | the default box is a left and right identity of `union` for boxes with in-range corners |
| `Aabb.Intersect` | crates/pbrtrs-lib/src/geometry/aabb.rs:43-48 | `intersect` lies inside both boxes, is the largest box that does, and contains a point exactly when both boxes do |
| `Aabb.IntersectCommutative` | crates/pbrtrs-lib/src/geometry/aabb.rs:43-48 | `a.intersect(b) == b.intersect(a)` |
| `Aabb.IntersectOfDisjointIsInvalid` | crates/pbrtrs-lib/src/geometry/aabb.rs:43-48 | if `a.p_max[i] < b.p_min[i]`, the intersection has `p_min[i] > p_max[i]`, so it is invalid |
| `Rays.Default` | crates/pbrtrs-lib/src/geometry/ray.rs:33-44 | the default ray has zero origin and direction, `t_max == m_max_value` and `time == 0` |
| `Rays.New` | crates/pbrtrs-lib/src/geometry/ray.rs:20-26 | `new(o, d)` keeps `o` and `d` unchanged and takes `t_max == m_max_value` and `time == 0` from `Default` |
| `Rays.At` | crates/pbrtrs-lib/src/geometry/ray.rs:28-30 | `at(t) - origin == dir * t` |
| `Rays.AtZero` | crates/pbrtrs-lib/src/geometry/ray.rs:28-30 | `at(0) == origin` |
| `Rays.AtIsAffine` | crates/pbrtrs-lib/src/geometry/ray.rs:28-30 | `at(t1 + t2) - origin == (at(t1) - origin) + (at(t2) - origin)`, and `at(k * t) - origin == (at(t) - origin) * k` |
| `Rays.AtIgnoresExtentAndTime` | crates/pbrtrs-lib/src/geometry/ray.rs:28-30 | `at(t)` depends on neither `t_max` nor `time`, and `t` is not checked against `t_max` |

## Left out

- `NumericFloat` and the float instantiations of `Numeric` (f32, f64) are not modelled. They are thin wrappers over IEEE-754 transcendental, rounding and classification functions, and exact integers cannot express them.
- The float-only vector methods are not modelled: `mag`, `cos_theta`, `theta`, `normalized`, `distance_to`, `lerp`, `floor`, `ceil`, `sin_theta` and `spanning_set`. They rely on square roots, arc-cosines and float rounding.
- NaN and infinity propagation, and the float `min`/`max` conventions, are not modelled. They are floating-point semantics.
- Integer overflow is not modelled. `+`, `-`, `*` and `neg` act on unbounded integers, while Rust's `i32`/`i64` panic in debug builds or wrap in release builds. Integer `/` and `%` panic in every build profile on a zero divisor and on `MIN / -1`; see the `Numeric.DivEuclid` and `Vectors.DivScalar` lines. Range lemmas cover `abs` and the Euclidean operations only.
- Numeric.Abs: does not model the panic on `MIN.abs()`. `Numeric.AbsInRange` states the range result for arguments above the minimum.
- Numeric.DivEuclid: does not model the panic on `MIN.div_euclid(-1)`. `Numeric.DivEuclidInRange` excludes that case. A zero divisor, which panics in the source, is excluded by `requires`.
- Numeric.RemEuclid: does not model the panic on `MIN.rem_euclid(-1)`, which std raises while computing `self % rhs`. The model returns 0 there. `Numeric.RemEuclidInRange` excludes that case.
- Vectors.DivScalar: a zero divisor panics in the source. The model excludes it by `requires`, and `MIN / -1` overflow is not modelled.
- Vectors.MinComponent and Vectors.MaxComponent require every component to be a value of the scalar type. Only then does the seed `m_max_value` (or `m_min_value`) bound the scan.
- `Point::from_min_components` and `from_max_components` come from the `vector` module that `aabb.rs` imports. That module is not part of this model. Here they are the componentwise `m_min`/`m_max` their names and use describe.
- The `Point2/3/4` aliases of `point.rs` need no separate model: `Point` is `Vector`.
- The unimplemented "Medium" field of `Ray` is not modelled. `Ray` is modelled over the exact integer scalar rather than `NumericFloat`, so only its structural and affine laws are stated.
- The `Debug`/`Copy`/`PartialEq` derives and the in-file test harness are left out. Datatype equality in Dafny is structural.
