/**
 The scalar capability set (`Numeric`) at its integer instantiations, i32 and i64.

 Scalars are mathematical integers. The instantiation's bit width only matters
 for the sentinel values `m_max_value` / `m_min_value` and for the range of
 values a scalar of that type can hold, so it is carried as a `Width`.
 Rust's `/` and `%` on integers truncate toward zero; they are written out here
 (`Quot`, `Rem`) because Dafny's own `/` and `%` are Euclidean.
 */
module Numeric {

  /** The two integer types the `Numeric` trait is implemented for. */
  datatype Width = I32 | I64

  /** 2^(bits - 1): the magnitude of the most negative two's-complement value. */
  function HalfRange(w: Width): int
  {
    match w
    case I32 => 0x8000_0000
    case I64 => 0x8000_0000_0000_0000
  }

  /** The values a two's-complement integer of width `w` can hold. */
  predicate InRange(w: Width, x: int)
  {
    -HalfRange(w) <= x < HalfRange(w)
  }

  /** The scalar default value, `T::default()`. */
  const Zero: int := 0

  /** `m_max_value`: the greatest value of the type. */
  function MaxValue(w: Width): (r: int)
    ensures InRange(w, r)
    ensures forall x :: InRange(w, x) ==> x <= r
  {
    HalfRange(w) - 1
  }

  /** `m_min_value`: the least value of the type. */
  function MinValue(w: Width): (r: int)
    ensures InRange(w, r)
    ensures forall x :: InRange(w, x) ==> r <= x
  {
    -HalfRange(w)
  }

  /** `m_abs`. The source panics (or wraps) on the minimum value; see `AbsInRange`. */
  function Abs(a: int): (r: int)
    ensures r >= 0
    ensures r == a || r == -a
  {
    if a < 0 then -a else a
  }

  /** Away from the minimum value, `m_abs` stays inside the type. */
  lemma AbsInRange(w: Width, a: int)
    requires InRange(w, a) && a > MinValue(w)
    ensures InRange(w, Abs(a))
  {
  }

  /** `m_signum`: -1, 0 or 1 according to the sign of the argument. */
  function Signum(a: int): (r: int)
    ensures r == 1 <==> a > 0
    ensures r == 0 <==> a == 0
    ensures r == -1 <==> a < 0
  {
    if a > 0 then 1 else if a == 0 then 0 else -1
  }

  /** Sign and magnitude recombine to the value. */
  lemma SignumTimesAbs(a: int)
    ensures Signum(a) * Abs(a) == a
    ensures Abs(a) == Signum(a) * a
  {
  }

  /** `m_max` (`Ord::max`): the second argument wins ties. */
  function Max(a: int, b: int): (r: int)
    ensures r >= a && r >= b
    ensures r == a || r == b
  {
    if b >= a then b else a
  }

  /** `m_min` (`Ord::min`): the first argument wins ties. */
  function Min(a: int, b: int): (r: int)
    ensures r <= a && r <= b
    ensures r == a || r == b
  {
    if a <= b then a else b
  }

  /** Rust's integer `/`: the quotient truncated toward zero. */
  function Quot(a: int, b: int): (q: int)
    requires b != 0
    ensures Abs(q) * Abs(b) <= Abs(a) < (Abs(q) + 1) * Abs(b)
    ensures q != 0 ==> (q > 0 <==> (a > 0) == (b > 0))
  {
    var m := Abs(a) / Abs(b);
    FloorDivBound(Abs(a), Abs(b));
    if (a < 0) == (b < 0) then m else -m
  }

  lemma FloorDivBound(x: int, y: int)
    requires x >= 0 && y > 0
    ensures 0 <= x / y && (x / y) * y <= x < (x / y + 1) * y
  {
    assert (x / y + 1) * y == (x / y) * y + y;
  }

  /** Rust's integer `%`: the remainder that goes with `Quot`, carrying the dividend's sign. */
  function Rem(a: int, b: int): (r: int)
    requires b != 0
    ensures a == Quot(a, b) * b + r
    ensures Abs(r) < Abs(b)
    ensures r != 0 ==> (r < 0 <==> a < 0)
  {
    QuotRemFacts(a, b);
    a - Quot(a, b) * b
  }

  lemma QuotRemFacts(a: int, b: int)
    requires b != 0
    ensures Abs(a - Quot(a, b) * b) < Abs(b)
    ensures a - Quot(a, b) * b != 0 ==> (a - Quot(a, b) * b < 0 <==> a < 0)
  {
    var bigA, bigB := Abs(a), Abs(b);
    var m, s := bigA / bigB, bigA % bigB;
    assert bigA == m * bigB + s && 0 <= s < bigB;
    QuotTimesDivisor(a, b);
    if a < 0 {
      assert a - Quot(a, b) * b == -s;
    } else {
      assert a - Quot(a, b) * b == s;
    }
  }

  /** The truncated quotient times the divisor is the floored magnitude product, with the dividend's sign. */
  lemma QuotTimesDivisor(a: int, b: int)
    requires b != 0
    ensures Quot(a, b) * b == if a < 0 then -((Abs(a) / Abs(b)) * Abs(b)) else (Abs(a) / Abs(b)) * Abs(b)
  {
    var m, bigB := Abs(a) / Abs(b), Abs(b);
    NegProduct(m, bigB);
    NegBoth(m, bigB);
  }

  lemma NegProduct(x: int, y: int)
    ensures (-x) * y == -(x * y) && x * (-y) == -(x * y)
  {
  }

  lemma NegBoth(x: int, y: int)
    ensures (-x) * (-y) == x * y
  {
  }

  /** `m_div_euclid`: the truncated quotient corrected by one when the truncated remainder is negative. */
  function DivEuclid(a: int, b: int): (q: int)
    requires b != 0
    ensures a == q * b + RemEuclid(a, b)
  {
    var t := Quot(a, b);
    if Rem(a, b) < 0 then (if b > 0 then t - 1 else t + 1) else t
  }

  /** `m_rem_euclid`: the truncated remainder moved into `[0, |b|)`. */
  function RemEuclid(a: int, b: int): (r: int)
    requires b != 0
    ensures 0 <= r < Abs(b)
  {
    var t := Rem(a, b);
    if t < 0 then t + Abs(b) else t
  }

  /** The Euclidean pair is the unique one: it agrees with Dafny's own Euclidean `/` and `%`. */
  lemma {:induction false} EuclidIsUnique(a: int, b: int)
    requires b != 0
    ensures DivEuclid(a, b) == a / b
    ensures RemEuclid(a, b) == a % b
  {
    var q, r := DivEuclid(a, b), RemEuclid(a, b);
    assert a == q * b + r && 0 <= r < Abs(b);
    BuiltinDivision(a, b);
    DivisionIsUnique(a, b, q, r, a / b, a % b);
  }

  lemma BuiltinDivision(a: int, b: int)
    requires b != 0
    ensures a == (a / b) * b + a % b && 0 <= a % b < Abs(b)
  {
  }

  /** Two quotient/remainder pairs with remainders in `[0, |b|)` coincide. */
  lemma DivisionIsUnique(a: int, b: int, q: int, r: int, q': int, r': int)
    requires b != 0
    requires a == q * b + r && 0 <= r < Abs(b)
    requires a == q' * b + r' && 0 <= r' < Abs(b)
    ensures q == q' && r == r'
  {
    assert (q - q') * b == q * b - q' * b;
    SmallMultipleIsZero(q - q', b, r' - r);
  }

  /** Truncating division of an exact multiple recovers the factor. */
  lemma QuotOfExact(a: int, b: int, q: int)
    requires b != 0 && a == q * b
    ensures Quot(a, b) == q
  {
    var t, r := Quot(a, b), Rem(a, b);
    assert a == t * b + r && Abs(r) < Abs(b);
    assert (q - t) * b == q * b - t * b;
    SmallMultipleIsZero(q - t, b, r);
  }

  /** A multiple of `b` smaller in magnitude than `b` is zero. */
  lemma SmallMultipleIsZero(x: int, b: int, d: int)
    requires b != 0 && x * b == d && Abs(d) < Abs(b)
    ensures x == 0
  {
    AbsOfProduct(x, b);
    if x != 0 {
      MulMonotone(Abs(x), 1, Abs(b));
    }
  }

  lemma AbsOfProduct(x: int, y: int)
    ensures Abs(x * y) == Abs(x) * Abs(y)
  {
    if x < 0 { NegProduct(-x, y); }
    if y < 0 { NegProduct(x, -y); }
    if x < 0 && y < 0 { NegBoth(-x, -y); }
  }

  lemma MulMonotone(x: int, y: int, z: int)
    requires x >= y && z >= 0
    ensures x * z >= y * z
  {
    assert x * z - y * z == (x - y) * z;
  }

  /** The remainder fits the type except for `MIN.rem_euclid(-1)`, which overflows in the source's `self % rhs`. */
  lemma RemEuclidInRange(w: Width, a: int, b: int)
    requires InRange(w, a) && InRange(w, b) && b != 0
    requires !(a == MinValue(w) && b == -1)
    ensures InRange(w, RemEuclid(a, b))
  {
  }

  /** The quotient fits the type except for `MIN.div_euclid(-1)`, which overflows in the source. */
  lemma DivEuclidInRange(w: Width, a: int, b: int)
    requires InRange(w, a) && InRange(w, b) && b != 0
    requires !(a == MinValue(w) && b == -1)
    ensures InRange(w, DivEuclid(a, b))
  {
    var q, r := DivEuclid(a, b), RemEuclid(a, b);
    var h := HalfRange(w);
    assert q * b == a - r;
    if b == 1 {
      assert q == a - r;
      assert r == 0;
    } else if b == -1 {
      assert r == 0;
      assert q == r - a;
    } else {
      AbsOfProduct(q, b);
      assert Abs(q) * Abs(b) <= h + Abs(b) - 1;
      if Abs(q) >= h {
        MulMonotone(Abs(q), h, Abs(b));
        MulMonotone(Abs(b), 2, h - 1);
        assert false;
      }
    }
  }
}
