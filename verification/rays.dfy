/**
 The parametric ray `Ray<T>`: an origin, a direction, a parametric extent
 `t_max` and a time. Modelled over the same exact integer scalar as vectors.
 */
module Rays {
  import Numeric
  import Vectors

  datatype Ray = Ray(origin: Vectors.Point, dir: Vectors.Vector, tMax: int, time: int)

  /** Origin and direction are three-dimensional. */
  predicate WellFormed(r: Ray)
  {
    |r.origin| == 3 && |r.dir| == 3
  }

  /** `Default for Ray`: zero origin and direction, unbounded extent, time zero. */
  function Default(w: Numeric.Width): (r: Ray)
    ensures WellFormed(r)
    ensures r.origin == Vectors.Default(3) && r.dir == Vectors.Default(3)
    ensures r.tMax == Numeric.MaxValue(w) && r.time == Numeric.Zero
  {
    Ray(Vectors.New(3, Numeric.Zero), Vectors.New(3, Numeric.Zero), Numeric.MaxValue(w), Numeric.Zero)
  }

  /** `Ray::new(o, d)`: origin and direction as given, everything else from `Default`. */
  function New(w: Numeric.Width, o: Vectors.Point, d: Vectors.Vector): (r: Ray)
    requires |o| == 3 && |d| == 3
    ensures WellFormed(r) && r.origin == o && r.dir == d
    ensures r.tMax == Numeric.MaxValue(w) && r.time == Numeric.Zero
  {
    Default(w).(origin := o, dir := d)
  }

  /** `at(t)`: the point `origin + dir * t`; `t` is not checked against `t_max`. */
  function At(r: Ray, t: int): (p: Vectors.Point)
    requires WellFormed(r)
    ensures |p| == 3
    ensures Vectors.Sub(p, r.origin) == Vectors.Scale(r.dir, t)
  {
    Vectors.Add(r.origin, Vectors.Scale(r.dir, t))
  }

  /** The ray starts at its origin. */
  lemma AtZero(r: Ray)
    requires WellFormed(r)
    ensures At(r, 0) == r.origin
  {
  }

  /** Displacement along the ray is additive and homogeneous in the parameter. */
  lemma AtIsAffine(r: Ray, t1: int, t2: int, k: int)
    requires WellFormed(r)
    ensures Vectors.Sub(At(r, t1 + t2), r.origin)
         == Vectors.Add(Vectors.Sub(At(r, t1), r.origin), Vectors.Sub(At(r, t2), r.origin))
    ensures Vectors.Sub(At(r, k * t1), r.origin) == Vectors.Scale(Vectors.Sub(At(r, t1), r.origin), k)
  {
    Vectors.ScaleDistributes(r.dir, t1, t2);
    Vectors.ScaleAssociates(r.dir, t1, k);
  }

  /** The point at `t` ignores `t_max` and `time`. */
  lemma AtIgnoresExtentAndTime(r: Ray, t: int, tMax: int, time: int)
    requires WellFormed(r)
    ensures At(r.(tMax := tMax, time := time), t) == At(r, t)
  {
  }
}
