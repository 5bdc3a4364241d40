/** Points and displacement vectors of the plane.
    Coordinates are exact reals, so the algebraic identities of the vector
    operators hold exactly; `sqrt` is not a Dafny operation, so a length is
    described by the relation `IsLength` rather than computed. */
module Vectors {

  datatype Option<T> = None | Some(value: T)

  datatype Point = Point(x: real, y: real)

  datatype Vector = Vector(x: real, y: real)

  const Zero: Vector := Vector(0.0, 0.0)

  /** `p - q`: the displacement that carries q onto p. */
  function Sub(p: Point, q: Point): Vector
  {
    Vector(p.x - q.x, p.y - q.y)
  }

  /** `p + v`: the point reached from p by the displacement v. */
  function Add(p: Point, v: Vector): Point
  {
    Point(p.x + v.x, p.y + v.y)
  }

  /** `k * v`: componentwise scaling. */
  function Scale(k: real, v: Vector): Vector
  {
    Vector(k * v.x, k * v.y)
  }

  /** The 2D cross product: the signed area of the parallelogram spanned by u and v. */
  function Cross(u: Vector, v: Vector): real
  {
    u.x * v.y - u.y * v.x
  }

  /** `x*x + y*y`, the argument of `sqrt` in `length`. */
  function SquaredLength(v: Vector): real
  {
    v.x * v.x + v.y * v.y
  }

  /** `len` is the Euclidean length of v, i.e. `sqrt(x*x + y*y)`:
      the non-negative number whose square is the squared length. */
  predicate IsLength(v: Vector, len: real)
  {
    len >= 0.0 && len * len == SquaredLength(v)
  }

  /** `v / |v|`, written `1.0 / length * v`. For the zero vector the length is
      zero and the division yields NaN components; that outcome is None. */
  function Normalized(v: Vector, len: real): (u: Option<Vector>)
    requires IsLength(v, len)
    ensures u.None? <==> v == Zero
  {
    LengthZeroIff(v, len);
    if len == 0.0 then None
    else Some(Scale(1.0 / len, v))
  }

  /** The normalised vector has length one and points the same way: scaled
      back by the length it is the original vector. */
  lemma NormalizedUnit(v: Vector, len: real)
    requires IsLength(v, len) && v != Zero
    ensures Normalized(v, len).Some?
    ensures IsLength(Normalized(v, len).value, 1.0)
    ensures Scale(len, Normalized(v, len).value) == v
  {
    LengthZeroIff(v, len);
    UnitLength(v, len);
  }

  // ---------------------------------------------------------------------
  // Point arithmetic

  /** Adding the difference back recovers the point: `p + (q - p) == q`. */
  lemma AddSubRoundTrip(p: Point, q: Point)
    ensures Add(p, Sub(q, p)) == q
  {
  }

  /** The other round trip: `(p + v) - p == v`. */
  lemma SubAddRoundTrip(p: Point, v: Vector)
    ensures Sub(Add(p, v), p) == v
  {
  }

  // ---------------------------------------------------------------------
  // Cross product

  lemma CrossAntisymmetric(u: Vector, v: Vector)
    ensures Cross(u, v) == -Cross(v, u)
  {
  }

  lemma CrossSelfZero(v: Vector)
    ensures Cross(v, v) == 0.0
  {
    CrossAntisymmetric(v, v);
  }

  /** The cross product is linear in each argument. */
  lemma CrossScale(k: real, u: Vector, v: Vector)
    ensures Cross(Scale(k, u), v) == k * Cross(u, v)
    ensures Cross(u, Scale(k, v)) == k * Cross(u, v)
  {
    calc {
      Cross(Scale(k, u), v);
      (k * u.x) * v.y - (k * u.y) * v.x;
      k * (u.x * v.y - u.y * v.x);
    }
    calc {
      Cross(u, Scale(k, v));
      u.x * (k * v.y) - u.y * (k * v.x);
      k * (u.x * v.y - u.y * v.x);
    }
  }

  /** The cross product of u and a non-zero v vanishes exactly when u is a
      multiple of v, i.e. the two are parallel or anti-parallel. */
  lemma CrossZeroIffParallel(u: Vector, v: Vector)
    requires v != Zero
    ensures Cross(u, v) == 0.0 <==> exists k: real :: u == Scale(k, v)
  {
    if Cross(u, v) == 0.0 {
      var k := if v.x != 0.0 then u.x / v.x else u.y / v.y;
      if v.x != 0.0 {
        assert u.x == k * v.x;
        assert u.x * v.y == u.y * v.x;
        assert (k * v.x) * v.y == u.y * v.x;
        assert u.y == k * v.y;
      } else {
        assert v.y != 0.0;
        assert u.y == k * v.y;
        assert u.x * v.y == 0.0;
        assert u.x == k * v.x;
      }
      assert u == Scale(k, v);
    } else {
      forall k: real
        ensures u != Scale(k, v)
      {
        CrossScale(k, v, v);
        CrossSelfZero(v);
      }
    }
  }

  /** A vector whose cross products with two non-parallel vectors both vanish
      is the zero vector. */
  lemma CrossBothZero(w: Vector, d1: Vector, d2: Vector)
    requires Cross(d1, d2) != 0.0
    requires Cross(w, d1) == 0.0 && Cross(w, d2) == 0.0
    ensures w == Zero
  {
    var c := Cross(d1, d2);
    assert w.x * c == d1.x * Cross(w, d2) - d2.x * Cross(w, d1);
    assert w.y * c == d1.y * Cross(w, d2) - d2.y * Cross(w, d1);
  }

  // ---------------------------------------------------------------------
  // Length and normalisation

  lemma SquarePositive(a: real)
    requires a != 0.0
    ensures a * a > 0.0
  {
    if a > 0.0 {
      assert a * a > 0.0;
    } else {
      assert a * a == (-a) * (-a);
      assert (-a) * (-a) > 0.0;
    }
  }

  lemma SquareNonNegative(a: real)
    ensures a * a >= 0.0
  {
    if a != 0.0 {
      SquarePositive(a);
    }
  }

  lemma SumOfSquaresPositive(a: real, b: real)
    requires b != 0.0
    ensures a * a + b * b > 0.0
  {
    SquarePositive(b);
    SquareNonNegative(a);
  }

  /** Only the zero vector has squared length zero. */
  lemma SquaredLengthPositive(v: Vector)
    requires v != Zero
    ensures SquaredLength(v) > 0.0
  {
    if v.y != 0.0 {
      calc {
        SquaredLength(v);
        v.x * v.x + v.y * v.y;
      > { SumOfSquaresPositive(v.x, v.y); }
        0.0;
      }
    } else {
      calc {
        SquaredLength(v);
        v.y * v.y + v.x * v.x;
      > { SumOfSquaresPositive(v.y, v.x); }
        0.0;
      }
    }
  }

  /** A length is never negative and is zero exactly for the zero vector. */
  lemma LengthZeroIff(v: Vector, len: real)
    requires IsLength(v, len)
    ensures len >= 0.0
    ensures len == 0.0 <==> v == Zero
  {
    if v != Zero {
      SquaredLengthPositive(v);
      assert len * len != 0.0;
    } else {
      if len != 0.0 {
        calc {
          0.0;
          SquaredLength(v);
          len * len;
        > { SquarePositive(len); }
          0.0;
        }
      }
    }
  }

  /** The square root is unique: a vector has only one length. */
  lemma LengthUnique(v: Vector, a: real, b: real)
    requires IsLength(v, a) && IsLength(v, b)
    ensures a == b
  {
    assert (a - b) * (a + b) == a * a - b * b;
    if a + b == 0.0 {
      assert a == 0.0 && b == 0.0;
    } else {
      assert a - b == ((a - b) * (a + b)) / (a + b);
    }
  }

  lemma SquaredLengthScale(k: real, v: Vector)
    ensures SquaredLength(Scale(k, v)) == (k * k) * SquaredLength(v)
  {
    calc {
      SquaredLength(Scale(k, v));
      (k * v.x) * (k * v.x) + (k * v.y) * (k * v.y);
      (k * k) * (v.x * v.x + v.y * v.y);
      (k * k) * SquaredLength(v);
    }
  }

  /** Scaling by a non-negative factor scales the length. */
  lemma LengthScale(k: real, v: Vector, len: real)
    requires IsLength(v, len) && k >= 0.0
    ensures IsLength(Scale(k, v), k * len)
  {
    calc {
      SquaredLength(Scale(k, v));
    == { SquaredLengthScale(k, v); }
      (k * k) * SquaredLength(v);
      (k * k) * (len * len);
      (k * len) * (k * len);
    }
  }

  /** Dividing a non-zero vector by its length gives a unit vector that,
      scaled back by the length, is the vector again. */
  lemma UnitLength(v: Vector, len: real)
    requires IsLength(v, len) && len != 0.0
    ensures IsLength(Scale(1.0 / len, v), 1.0)
    ensures Scale(len, Scale(1.0 / len, v)) == v
  {
    var k := 1.0 / len;
    assert k * len == 1.0;
    LengthZeroIff(v, len);
    LengthScale(k, v, len);
    assert Scale(len, Scale(k, v)) == Scale(k * len, v);
  }
}
