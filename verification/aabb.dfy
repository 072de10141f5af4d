/**
 The axis-aligned bounding box `Bounds<T, N>`: a low corner and a high corner.

 A box built by `New` is valid (low <= high in every dimension). The default
 box is deliberately invalid (low = the scalar maximum, high = the scalar
 minimum everywhere) so that it is the identity of `Union`.
 */
module Aabb {
  import Numeric
  import Vectors

  type Point = Vectors.Point

  datatype Bounds = Bounds(pMin: Point, pMax: Point)

  /** Both corners have dimension `n`. */
  predicate HasDim(b: Bounds, n: nat)
  {
    |b.pMin| == n && |b.pMax| == n
  }

  /** Both corners hold values of the scalar type of width `w`. */
  predicate InRangeBox(w: Numeric.Width, b: Bounds)
  {
    Vectors.InRangeVec(w, b.pMin) && Vectors.InRangeVec(w, b.pMax)
  }

  /** The box invariant: the low corner lies below the high corner in every dimension. */
  predicate Valid(b: Bounds)
  {
    |b.pMin| == |b.pMax| && forall i :: 0 <= i < |b.pMin| ==> b.pMin[i] <= b.pMax[i]
  }

  /** The point `p` lies in the closed box `b`. */
  predicate Contains(b: Bounds, p: Point)
    requires |b.pMin| == |p| && |b.pMax| == |p|
  {
    forall i :: 0 <= i < |p| ==> b.pMin[i] <= p[i] <= b.pMax[i]
  }

  /** Corner-wise enclosure: `outer`'s corners lie outside `inner`'s in every dimension. */
  predicate Encloses(outer: Bounds, inner: Bounds)
    requires |outer.pMin| == |outer.pMax| == |inner.pMin| == |inner.pMax|
  {
    forall i :: 0 <= i < |outer.pMin| ==>
      outer.pMin[i] <= inner.pMin[i] && inner.pMax[i] <= outer.pMax[i]
  }

  /** `Bounds::new`: the box spanned by two points, given in either order. */
  function New(a: Point, b: Point): (r: Bounds)
    requires |a| == |b|
    ensures HasDim(r, |a|) && Valid(r)
    ensures Contains(r, a) && Contains(r, b)
    ensures forall i :: 0 <= i < |a| ==> r.pMin[i] == Numeric.Min(a[i], b[i]) && r.pMax[i] == Numeric.Max(a[i], b[i])
  {
    Bounds(Vectors.FromMinComponents(a, b), Vectors.FromMaxComponents(a, b))
  }

  /** `new` does not care about the order of its arguments. */
  lemma NewSymmetric(a: Point, b: Point)
    requires |a| == |b|
    ensures New(a, b) == New(b, a)
  {
    assert New(a, b).pMin == New(b, a).pMin;
    assert New(a, b).pMax == New(b, a).pMax;
  }

  /** Points already ordered corner-wise are kept as they are. */
  lemma NewKeepsOrderedCorners(a: Point, b: Point)
    requires |a| == |b| && Valid(Bounds(a, b))
    ensures New(a, b) == Bounds(a, b)
  {
    assert New(a, b).pMin == a;
    assert New(a, b).pMax == b;
  }

  /** `Bounds::from_single`: the degenerate box around one point. */
  function FromSingle(p: Point): (r: Bounds)
    ensures HasDim(r, |p|) && Valid(r) && Contains(r, p)
    ensures forall q :: |q| == |p| && Contains(r, q) ==> q == p
  {
    Bounds(p, p)
  }

  /** The degenerate box is the box spanned by the point and itself. */
  lemma FromSingleIsNew(p: Point)
    ensures FromSingle(p) == New(p, p)
  {
    assert New(p, p).pMin == p;
    assert New(p, p).pMax == p;
  }

  /** `Default for Bounds`: low corner at the scalar maximum, high corner at the scalar minimum. */
  function Default(w: Numeric.Width, n: nat): (r: Bounds)
    ensures HasDim(r, n) && InRangeBox(w, r)
    ensures n > 0 ==> !Valid(r)
    ensures forall i :: 0 <= i < n ==> r.pMin[i] == Numeric.MaxValue(w) && r.pMax[i] == Numeric.MinValue(w)
  {
    var r := Bounds(Vectors.New(n, Numeric.MaxValue(w)), Vectors.New(n, Numeric.MinValue(w)));
    assert n > 0 ==> r.pMin[0] > r.pMax[0];
    r
  }

  /** `union_with_point`: the box grown just enough to hold `p`. */
  function UnionWithPoint(b: Bounds, p: Point): (r: Bounds)
    requires HasDim(b, |p|)
    ensures HasDim(r, |p|)
    ensures Contains(r, p) && Encloses(r, b)
    ensures Valid(b) ==> Valid(r)
  {
    Bounds(Vectors.FromMinComponents(b.pMin, p), Vectors.FromMaxComponents(b.pMax, p))
  }

  /** Growing the empty box by a point gives the degenerate box around that point. */
  lemma DefaultUnionWithPoint(w: Numeric.Width, p: Point)
    requires Vectors.InRangeVec(w, p)
    ensures UnionWithPoint(Default(w, |p|), p) == FromSingle(p)
  {
    var r := UnionWithPoint(Default(w, |p|), p);
    assert r.pMin == p;
    assert r.pMax == p;
  }

  /** Growing by a point is the union with the degenerate box around it. */
  lemma UnionWithPointIsUnion(b: Bounds, p: Point)
    requires HasDim(b, |p|)
    ensures UnionWithPoint(b, p) == Union(b, FromSingle(p))
  {
    assert UnionWithPoint(b, p).pMin == Union(b, FromSingle(p)).pMin;
    assert UnionWithPoint(b, p).pMax == Union(b, FromSingle(p)).pMax;
  }

  /** `union`: the smallest box enclosing both boxes. */
  function Union(a: Bounds, b: Bounds): (r: Bounds)
    requires HasDim(a, |a.pMin|) && HasDim(b, |a.pMin|)
    ensures HasDim(r, |a.pMin|)
    ensures Encloses(r, a) && Encloses(r, b)
    ensures Valid(a) || Valid(b) ==> Valid(r)
    ensures forall c: Bounds :: HasDim(c, |a.pMin|) && Encloses(c, a) && Encloses(c, b) ==> Encloses(c, r)
  {
    Bounds(Vectors.FromMinComponents(a.pMin, b.pMin), Vectors.FromMaxComponents(a.pMax, b.pMax))
  }

  /** `union` is commutative and idempotent. */
  lemma UnionCommutativeIdempotent(a: Bounds, b: Bounds)
    requires HasDim(a, |a.pMin|) && HasDim(b, |a.pMin|)
    ensures Union(a, b) == Union(b, a)
    ensures Union(a, a) == a
  {
    assert Union(a, b).pMin == Union(b, a).pMin;
    assert Union(a, b).pMax == Union(b, a).pMax;
    assert Union(a, a).pMin == a.pMin;
    assert Union(a, a).pMax == a.pMax;
  }

  /** `union` is associative. */
  lemma UnionAssociative(a: Bounds, b: Bounds, c: Bounds)
    requires HasDim(a, |a.pMin|) && HasDim(b, |a.pMin|) && HasDim(c, |a.pMin|)
    ensures Union(Union(a, b), c) == Union(a, Union(b, c))
  {
    assert Union(Union(a, b), c).pMin == Union(a, Union(b, c)).pMin;
    assert Union(Union(a, b), c).pMax == Union(a, Union(b, c)).pMax;
  }

  /** The default box is the identity of `union` on every box of in-range values. */
  lemma DefaultIsUnionIdentity(w: Numeric.Width, b: Bounds)
    requires HasDim(b, |b.pMin|) && InRangeBox(w, b)
    ensures Union(Default(w, |b.pMin|), b) == b
    ensures Union(b, Default(w, |b.pMin|)) == b
  {
    var e := Default(w, |b.pMin|);
    assert Union(e, b).pMin == b.pMin;
    assert Union(e, b).pMax == b.pMax;
    assert Union(b, e).pMin == b.pMin;
    assert Union(b, e).pMax == b.pMax;
  }

  /** `intersect`: the largest box enclosed by both boxes; invalid when they do not overlap. */
  function Intersect(a: Bounds, b: Bounds): (r: Bounds)
    requires HasDim(a, |a.pMin|) && HasDim(b, |a.pMin|)
    ensures HasDim(r, |a.pMin|)
    ensures Encloses(a, r) && Encloses(b, r)
    ensures forall c: Bounds :: HasDim(c, |a.pMin|) && Encloses(a, c) && Encloses(b, c) ==> Encloses(r, c)
    ensures forall p: Point :: |p| == |a.pMin| ==> (Contains(r, p) <==> Contains(a, p) && Contains(b, p))
  {
    Bounds(Vectors.FromMaxComponents(a.pMin, b.pMin), Vectors.FromMinComponents(a.pMax, b.pMax))
  }

  /** `intersect` is commutative. */
  lemma IntersectCommutative(a: Bounds, b: Bounds)
    requires HasDim(a, |a.pMin|) && HasDim(b, |a.pMin|)
    ensures Intersect(a, b) == Intersect(b, a)
  {
    assert Intersect(a, b).pMin == Intersect(b, a).pMin;
    assert Intersect(a, b).pMax == Intersect(b, a).pMax;
  }

  /** Boxes separated along some axis intersect in an invalid box, inverted along that axis. */
  lemma IntersectOfDisjointIsInvalid(a: Bounds, b: Bounds, i: nat)
    requires HasDim(a, |a.pMin|) && HasDim(b, |a.pMin|)
    requires i < |a.pMin| && a.pMax[i] < b.pMin[i]
    ensures Intersect(a, b).pMin[i] > Intersect(a, b).pMax[i]
    ensures !Valid(Intersect(a, b))
  {
  }
}
