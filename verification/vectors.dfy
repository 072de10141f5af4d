/**
 The fixed-size vector `Vector<T, N>` over an integer scalar.

 A vector is the sequence of its N components; every binary operation takes two
 vectors of the same dimension. `Point<T, N>` is the same type, used for
 locations rather than displacements.
 */
module Vectors {
  import Numeric

  type Vector = seq<int>

  /** A location; shares the representation and every operation with `Vector`. */
  type Point = Vector

  /** Every component is a value of the scalar type of width `w`. */
  predicate InRangeVec(w: Numeric.Width, v: Vector)
  {
    forall i :: 0 <= i < |v| ==> Numeric.InRange(w, v[i])
  }

  // ---------------------------------------------------------------------------
  // Construction

  /** `Vector::new(v)`: the vector of dimension `n` with every component `x`. */
  function New(n: nat, x: int): (v: Vector)
    ensures |v| == n
    ensures forall i :: 0 <= i < n ==> v[i] == x
  {
    seq(n, _ => x)
  }

  /** `Default for Vector`: every component is the scalar default. */
  function Default(n: nat): (v: Vector)
    ensures |v| == n
    ensures forall i :: 0 <= i < n ==> v[i] == Numeric.Zero
  {
    seq(n, _ => Numeric.Zero)
  }

  // ---------------------------------------------------------------------------
  // Componentwise arithmetic

  /** `a + b`. */
  function Add(a: Vector, b: Vector): (r: Vector)
    requires |a| == |b|
    ensures |r| == |a|
    ensures forall i :: 0 <= i < |r| ==> r[i] == a[i] + b[i]
  {
    seq(|a|, i requires 0 <= i < |a| => a[i] + b[i])
  }

  /** `a - b`. */
  function Sub(a: Vector, b: Vector): (r: Vector)
    requires |a| == |b|
    ensures |r| == |a|
    ensures forall i :: 0 <= i < |r| ==> r[i] == a[i] - b[i]
  {
    seq(|a|, i requires 0 <= i < |a| => a[i] - b[i])
  }

  /** `a * k`, the scalar product. */
  function Scale(a: Vector, k: int): (r: Vector)
    ensures |r| == |a|
    ensures forall i :: 0 <= i < |r| ==> r[i] == a[i] * k
  {
    seq(|a|, i requires 0 <= i < |a| => a[i] * k)
  }

  /** `a / k`: every component divided by `k` with the scalar's truncating `/`. */
  function DivScalar(a: Vector, k: int): (r: Vector)
    requires k != 0
    ensures |r| == |a|
    ensures forall i :: 0 <= i < |r| ==> Numeric.Abs(r[i]) * Numeric.Abs(k) <= Numeric.Abs(a[i])
    ensures forall i :: 0 <= i < |r| ==> a[i] == r[i] * k + Numeric.Rem(a[i], k)
  {
    seq(|a|, i requires 0 <= i < |a| => Numeric.Quot(a[i], k))
  }

  /** `-a`. */
  function Neg(a: Vector): (r: Vector)
    ensures |r| == |a|
    ensures forall i :: 0 <= i < |r| ==> r[i] == -a[i]
  {
    seq(|a|, i requires 0 <= i < |a| => -a[i])
  }

  /** `abs`: the scalar `m_abs` applied to every component. */
  function Abs(a: Vector): (r: Vector)
    ensures |r| == |a|
    ensures forall i :: 0 <= i < |r| ==> r[i] >= 0 && (r[i] == a[i] || r[i] == -a[i])
  {
    seq(|a|, i requires 0 <= i < |a| => Numeric.Abs(a[i]))
  }

  /** Subtraction undoes addition. */
  lemma AddSubCancel(a: Vector, b: Vector)
    requires |a| == |b|
    ensures Sub(Add(a, b), b) == a
  {
  }

  /** Negation is an involution. */
  lemma NegNeg(a: Vector)
    ensures Neg(Neg(a)) == a
  {
  }

  /** Addition is commutative and has the default vector as identity. */
  lemma AddCommutesWithIdentity(a: Vector, b: Vector)
    requires |a| == |b|
    ensures Add(a, b) == Add(b, a)
    ensures Add(a, Default(|a|)) == a
  {
  }

  /** Subtraction is addition of the negation, and swapping its operands negates it. */
  lemma SubIsAddNeg(a: Vector, b: Vector)
    requires |a| == |b|
    ensures Sub(a, b) == Add(a, Neg(b))
    ensures Sub(b, a) == Neg(Sub(a, b))
  {
  }

  /** Scaling distributes over a sum of scalars. */
  lemma ScaleDistributes(a: Vector, s: int, t: int)
    ensures Scale(a, s + t) == Add(Scale(a, s), Scale(a, t))
  {
    forall i | 0 <= i < |a|
      ensures a[i] * (s + t) == a[i] * s + a[i] * t
    {
    }
  }

  /** Scaling twice is scaling by the product. */
  lemma ScaleAssociates(a: Vector, s: int, t: int)
    ensures Scale(a, t * s) == Scale(Scale(a, s), t)
  {
    forall i | 0 <= i < |a|
      ensures a[i] * (t * s) == (a[i] * s) * t
    {
    }
  }

  /** Dividing by a non-zero scalar undoes scaling by it. */
  lemma DivScalarUndoesScale(a: Vector, k: int)
    requires k != 0
    ensures DivScalar(Scale(a, k), k) == a
  {
    forall i | 0 <= i < |a|
      ensures DivScalar(Scale(a, k), k)[i] == a[i]
    {
      QuotOfMultiple(a[i], k);
    }
  }

  lemma QuotOfMultiple(x: int, k: int)
    requires k != 0
    ensures Numeric.Quot(x * k, k) == x
  {
    Numeric.QuotOfExact(x * k, k, x);
  }

  // ---------------------------------------------------------------------------
  // Compound assignment: each updates the components in place, left to right.

  /** `v += u`. */
  method AddAssign(v: Vector, u: Vector) returns (v': Vector)
    requires |v| == |u|
    ensures v' == Add(v, u)
  {
    v' := v;
    for i := 0 to |v|
      invariant |v'| == |v|
      invariant forall j :: 0 <= j < i ==> v'[j] == v[j] + u[j]
      invariant forall j :: i <= j < |v| ==> v'[j] == v[j]
    {
      v' := v'[i := v'[i] + u[i]];
    }
  }

  /** `v -= u`. */
  method SubAssign(v: Vector, u: Vector) returns (v': Vector)
    requires |v| == |u|
    ensures v' == Sub(v, u)
  {
    v' := v;
    for i := 0 to |v|
      invariant |v'| == |v|
      invariant forall j :: 0 <= j < i ==> v'[j] == v[j] - u[j]
      invariant forall j :: i <= j < |v| ==> v'[j] == v[j]
    {
      v' := v'[i := v'[i] - u[i]];
    }
  }

  /** `v *= k`. */
  method MulAssign(v: Vector, k: int) returns (v': Vector)
    ensures v' == Scale(v, k)
  {
    v' := v;
    for i := 0 to |v|
      invariant |v'| == |v|
      invariant forall j :: 0 <= j < i ==> v'[j] == v[j] * k
      invariant forall j :: i <= j < |v| ==> v'[j] == v[j]
    {
      v' := v'[i := v'[i] * k];
    }
  }

  /** `v /= k`. */
  method DivAssign(v: Vector, k: int) returns (v': Vector)
    requires k != 0
    ensures v' == DivScalar(v, k)
  {
    v' := v;
    for i := 0 to |v|
      invariant |v'| == |v|
      invariant forall j :: 0 <= j < i ==> v'[j] == Numeric.Quot(v[j], k)
      invariant forall j :: i <= j < |v| ==> v'[j] == v[j]
    {
      v' := v'[i := Numeric.Quot(v'[i], k)];
    }
  }

  // ---------------------------------------------------------------------------
  // Products and lengths

  /** `dot`: the sum of componentwise products, accumulated left to right from zero. */
  function Dot(a: Vector, b: Vector): int
    requires |a| == |b|
    decreases |a|
  {
    if |a| == 0 then Numeric.Zero
    else Dot(a[..|a| - 1], b[..|b| - 1]) + a[|a| - 1] * b[|b| - 1]
  }

  /** The textbook sum of products, taken from the first component onward. */
  function SumOfProducts(a: Vector, b: Vector): int
    requires |a| == |b|
    decreases |a|
  {
    if |a| == 0 then 0 else a[0] * b[0] + SumOfProducts(a[1..], b[1..])
  }

  /** The left-to-right accumulation computes the sum of products. */
  lemma {:induction false} DotIsSumOfProducts(a: Vector, b: Vector)
    requires |a| == |b|
    ensures Dot(a, b) == SumOfProducts(a, b)
    decreases |a|
  {
    var n := |a|;
    if n > 1 {
      var pa, pb := a[..n - 1], b[..n - 1];
      assert pa[1..] == a[1..][..n - 2] && pb[1..] == b[1..][..n - 2];
      DotIsSumOfProducts(pa, pb);
      DotIsSumOfProducts(a[1..], b[1..]);
      DotIsSumOfProducts(pa[1..], pb[1..]);
      assert Dot(a[1..], b[1..]) == Dot(pa[1..], pb[1..]) + a[n - 1] * b[n - 1];
      assert SumOfProducts(pa, pb) == a[0] * b[0] + SumOfProducts(pa[1..], pb[1..]);
    } else if n == 1 {
      assert a[..0] == [] && b[..0] == [];
    }
  }

  /** The dot product is symmetric. */
  lemma {:induction false} DotSymmetric(a: Vector, b: Vector)
    requires |a| == |b|
    ensures Dot(a, b) == Dot(b, a)
    decreases |a|
  {
    if |a| > 0 {
      DotSymmetric(a[..|a| - 1], b[..|b| - 1]);
    }
  }

  /** Negating one operand negates the dot product. */
  lemma {:induction false} DotNegLeft(a: Vector, b: Vector)
    requires |a| == |b|
    ensures Dot(Neg(a), b) == -Dot(a, b)
    decreases |a|
  {
    if |a| > 0 {
      var n := |a|;
      var na, pa, pb := Neg(a), a[..n - 1], b[..n - 1];
      var x, y := a[n - 1], b[n - 1];
      assert na[..n - 1] == Neg(pa);
      assert na[n - 1] == -x;
      DotNegLeft(pa, pb);
      assert (-x) * y == -(x * y) by { Numeric.NegProduct(x, y); }
      assert Dot(a, b) == Dot(pa, pb) + x * y;
      assert Dot(na, b) == Dot(Neg(pa), pb) + (-x) * y;
    }
  }

  /** The dot product of a vector with itself is a sum of squares, so never negative. */
  lemma {:induction false} DotSelfNonNegative(a: Vector)
    ensures Dot(a, a) >= 0
    decreases |a|
  {
    if |a| > 0 {
      var p, x := a[..|a| - 1], a[|a| - 1];
      DotSelfNonNegative(p);
      SquareNonNegative(x);
      assert Dot(a, a) == Dot(p, p) + x * x;
    }
  }

  /** A sum of squares vanishes exactly when every component does. */
  lemma {:induction false} DotSelfZero(a: Vector)
    ensures Dot(a, a) == 0 <==> forall i :: 0 <= i < |a| ==> a[i] == 0
    decreases |a|
  {
    if |a| > 0 {
      var p, x := a[..|a| - 1], a[|a| - 1];
      DotSelfZero(p);
      DotSelfNonNegative(p);
      SquareNonNegative(x);
      assert Dot(a, a) == Dot(p, p) + x * x;
      assert forall i :: 0 <= i < |p| ==> p[i] == a[i];
      if Dot(a, a) == 0 {
        SquareZero(x);
      }
    }
  }

  lemma SquareNonNegative(x: int)
    ensures x * x >= 0
  {
    if x < 0 { Numeric.NegBoth(x, x); }
  }

  lemma SquareZero(x: int)
    requires x * x == 0
    ensures x == 0
  {
    if x != 0 {
      Numeric.AbsOfProduct(x, x);
      Numeric.MulMonotone(Numeric.Abs(x), 1, Numeric.Abs(x));
    }
  }

  /** `abs_dot`: the magnitude of the dot product. */
  function AbsDot(a: Vector, b: Vector): (r: int)
    requires |a| == |b|
    ensures r >= 0
    ensures r == Dot(a, b) || r == -Dot(a, b)
  {
    Numeric.Abs(Dot(a, b))
  }

  /** `abs_dot` is symmetric, like the dot product. */
  lemma AbsDotSymmetric(a: Vector, b: Vector)
    requires |a| == |b|
    ensures AbsDot(a, b) == AbsDot(b, a)
  {
    DotSymmetric(a, b);
  }

  /** `mag2`: the squared magnitude, zero exactly for the zero vector. */
  function Mag2(a: Vector): (r: int)
    ensures r >= 0
    ensures r == 0 <==> a == Default(|a|)
  {
    DotSelfNonNegative(a);
    DotSelfZero(a);
    Dot(a, a)
  }

  /** `square_distance_to`: the squared magnitude of the difference `other - self`. */
  function SquareDistanceTo(a: Point, b: Point): (r: int)
    requires |a| == |b|
    ensures r >= 0
    ensures r == 0 <==> a == b
  {
    var d := Sub(b, a);
    assert d == Default(|a|) <==> a == b;
    Mag2(d)
  }

  /** The squared distance does not depend on the direction it is measured in. */
  lemma SquareDistanceSymmetric(a: Point, b: Point)
    requires |a| == |b|
    ensures SquareDistanceTo(a, b) == SquareDistanceTo(b, a)
  {
    var d := Sub(b, a);
    SubIsAddNeg(b, a);
    DotNegLeft(d, Neg(d));
    DotSymmetric(d, Neg(d));
    DotNegLeft(d, d);
    NegNeg(d);
  }

  /** `face_towards_same_hemisphere`: `a` or `-a`, whichever makes a non-negative dot product with `b`. */
  function FaceTowardsSameHemisphere(a: Vector, b: Vector): (r: Vector)
    requires |a| == |b|
    ensures |r| == |a|
    ensures Dot(a, b) < 0 ==> r == Neg(a)
    ensures Dot(a, b) >= 0 ==> r == a
    ensures Dot(r, b) >= 0 && Dot(r, b) == AbsDot(a, b)
  {
    DotNegLeft(a, b);
    if Dot(a, b) < Numeric.Zero then Neg(a) else a
  }

  // ---------------------------------------------------------------------------
  // Component reduction

  /**
   `min_component`: scans the components in increasing index order from the seed
   `(0, m_max_value)`, moving on a strict decrease only, so the lowest index
   holding the minimum wins.
   */
  method MinComponent(w: Numeric.Width, v: Vector) returns (dim: nat, m: int)
    requires InRangeVec(w, v)
    ensures |v| == 0 ==> dim == 0 && m == Numeric.MaxValue(w)
    ensures |v| > 0 ==> dim < |v| && m == v[dim]
    ensures forall j :: 0 <= j < |v| ==> m <= v[j]
    ensures forall j :: 0 <= j < dim ==> m < v[j]
  {
    dim, m := 0, Numeric.MaxValue(w);
    for i := 0 to |v|
      invariant i == 0 ==> dim == 0 && m == Numeric.MaxValue(w)
      invariant i > 0 ==> dim < i && m == v[dim]
      invariant forall j :: 0 <= j < i ==> m <= v[j]
      invariant forall j :: 0 <= j < dim ==> m < v[j]
    {
      if m > v[i] {
        dim, m := i, v[i];
      }
    }
  }

  /**
   `max_component`: scans from the seed `(0, m_min_value)`, moving on a strict
   increase only, so the lowest index holding the maximum wins.
   */
  method MaxComponent(w: Numeric.Width, v: Vector) returns (dim: nat, m: int)
    requires InRangeVec(w, v)
    ensures |v| == 0 ==> dim == 0 && m == Numeric.MinValue(w)
    ensures |v| > 0 ==> dim < |v| && m == v[dim]
    ensures forall j :: 0 <= j < |v| ==> v[j] <= m
    ensures forall j :: 0 <= j < dim ==> v[j] < m
  {
    dim, m := 0, Numeric.MinValue(w);
    for i := 0 to |v|
      invariant i == 0 ==> dim == 0 && m == Numeric.MinValue(w)
      invariant i > 0 ==> dim < i && m == v[dim]
      invariant forall j :: 0 <= j < i ==> v[j] <= m
      invariant forall j :: 0 <= j < dim ==> v[j] < m
    {
      if m < v[i] {
        dim, m := i, v[i];
      }
    }
  }

  /** `Point::from_min_components`: the componentwise minimum of two points. */
  function FromMinComponents(a: Point, b: Point): (r: Point)
    requires |a| == |b|
    ensures |r| == |a|
    ensures forall i :: 0 <= i < |r| ==> r[i] <= a[i] && r[i] <= b[i] && (r[i] == a[i] || r[i] == b[i])
  {
    seq(|a|, i requires 0 <= i < |a| => Numeric.Min(a[i], b[i]))
  }

  /** `Point::from_max_components`: the componentwise maximum of two points. */
  function FromMaxComponents(a: Point, b: Point): (r: Point)
    requires |a| == |b|
    ensures |r| == |a|
    ensures forall i :: 0 <= i < |r| ==> r[i] >= a[i] && r[i] >= b[i] && (r[i] == a[i] || r[i] == b[i])
  {
    seq(|a|, i requires 0 <= i < |a| => Numeric.Max(a[i], b[i]))
  }

  // ---------------------------------------------------------------------------
  // The 2-, 3- and 4-dimensional aliases: constructors, `From` tuples, accessors

  /** `Vec2::elements(x, y)`. */
  function Elements2(x: int, y: int): (v: Vector)
    ensures |v| == 2 && X(v) == x && Y(v) == y
  {
    [x, y]
  }

  /** `Vec3::elements(x, y, z)`. */
  function Elements3(x: int, y: int, z: int): (v: Vector)
    ensures |v| == 3 && X(v) == x && Y(v) == y && Z(v) == z
  {
    [x, y, z]
  }

  /** `Vec4::elements(x, y, z, w)`. */
  function Elements4(x: int, y: int, z: int, w: int): (v: Vector)
    ensures |v| == 4 && X(v) == x && Y(v) == y && Z(v) == z && W(v) == w
  {
    [x, y, z, w]
  }

  /** `From<(T, T)> for Vec2`. */
  function FromPair(t: (int, int)): (v: Vector)
    ensures v == Elements2(t.0, t.1)
  {
    [t.0, t.1]
  }

  /** `From<(T, T, T)> for Vec3`. */
  function FromTriple(t: (int, int, int)): (v: Vector)
    ensures v == Elements3(t.0, t.1, t.2)
  {
    [t.0, t.1, t.2]
  }

  /** `From<(T, T, T, T)> for Vec4`. */
  function FromQuad(t: (int, int, int, int)): (v: Vector)
    ensures v == Elements4(t.0, t.1, t.2, t.3)
  {
    [t.0, t.1, t.2, t.3]
  }

  /** `x()`, present on `Vec2`, `Vec3` and `Vec4`. */
  function X(v: Vector): int
    requires 2 <= |v| <= 4
  {
    v[0]
  }

  /** `y()`, present on `Vec2`, `Vec3` and `Vec4`. */
  function Y(v: Vector): int
    requires 2 <= |v| <= 4
  {
    v[1]
  }

  /** `z()`, present on `Vec3` and `Vec4`. */
  function Z(v: Vector): int
    requires 3 <= |v| <= 4
  {
    v[2]
  }

  /** `w()`, present on `Vec4` only. */
  function W(v: Vector): int
    requires |v| == 4
  {
    v[3]
  }

  /** Reading the accessors back and rebuilding gives the same vector. */
  lemma ElementsFromAccessors(v: Vector)
    requires 2 <= |v| <= 4
    ensures |v| == 2 ==> Elements2(X(v), Y(v)) == v
    ensures |v| == 3 ==> Elements3(X(v), Y(v), Z(v)) == v
    ensures |v| == 4 ==> Elements4(X(v), Y(v), Z(v), W(v)) == v
  {
  }

  // ---------------------------------------------------------------------------
  // The 3-dimensional cross product

  /** `Vec3::cross`: the right-handed cross product, perpendicular to both operands. */
  function Cross(a: Vector, b: Vector): (r: Vector)
    requires |a| == 3 && |b| == 3
    ensures |r| == 3
    ensures Dot(r, a) == 0 && Dot(r, b) == 0
  {
    var u1, u2, u3 := a[0], a[1], a[2];
    var v1, v2, v3 := b[0], b[1], b[2];
    var r := [u2 * v3 - u3 * v2, -(u1 * v3 - u3 * v1), u1 * v2 - u2 * v1];
    Dot3(r, a);
    Dot3(r, b);
    TripleProductVanishes(u1, u2, u3, v1, v2, v3);
    r
  }

  /** Swapping the operands negates the cross product. */
  lemma CrossAnticommutative(a: Vector, b: Vector)
    requires |a| == 3 && |b| == 3
    ensures Cross(a, b) == Neg(Cross(b, a))
  {
  }

  lemma TripleProductVanishes(u1: int, u2: int, u3: int, v1: int, v2: int, v3: int)
    ensures (u2 * v3 - u3 * v2) * u1 + -(u1 * v3 - u3 * v1) * u2 + (u1 * v2 - u2 * v1) * u3 == 0
    ensures (v2 * u3 - v3 * u2) * u1 + -(v1 * u3 - v3 * u1) * u2 + (v1 * u2 - v2 * u1) * u3 == 0
  {
    assert (u2 * v3 - u3 * v2) * u1 == u1 * u2 * v3 - u1 * u3 * v2;
    assert -(u1 * v3 - u3 * v1) * u2 == u2 * u3 * v1 - u1 * u2 * v3;
    assert (u1 * v2 - u2 * v1) * u3 == u1 * u3 * v2 - u2 * u3 * v1;
    assert (v2 * u3 - v3 * u2) * u1 == u1 * u3 * v2 - u1 * u2 * v3;
    assert -(v1 * u3 - v3 * u1) * u2 == u1 * u2 * v3 - u2 * u3 * v1;
    assert (v1 * u2 - v2 * u1) * u3 == u2 * u3 * v1 - u1 * u3 * v2;
  }

  lemma Dot3(a: Vector, b: Vector)
    requires |a| == 3 && |b| == 3
    ensures Dot(a, b) == a[0] * b[0] + a[1] * b[1] + a[2] * b[2]
  {
    var a2, b2 := a[..2], b[..2];
    var a1, b1 := a2[..1], b2[..1];
    assert Dot(a, b) == Dot(a2, b2) + a[2] * b[2];
    assert Dot(a2, b2) == Dot(a1, b1) + a[1] * b[1];
    assert Dot(a1, b1) == Dot(a1[..0], b1[..0]) + a[0] * b[0];
    assert Dot(a1[..0], b1[..0]) == 0;
  }

  /** The cross product maps the standard basis by the right-hand rule. */
  lemma CrossOfBasis()
    ensures Cross(Elements3(1, 0, 0), Elements3(0, 1, 0)) == Elements3(0, 0, 1)
    ensures Cross(Elements3(0, 1, 0), Elements3(0, 0, 1)) == Elements3(1, 0, 0)
    ensures Cross(Elements3(0, 0, 1), Elements3(1, 0, 0)) == Elements3(0, 1, 0)
  {
  }
}
