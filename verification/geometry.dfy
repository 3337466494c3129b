/** Plane geometry over exact reals: the part of olc::vd2d the simulation uses
    (componentwise +, -, *, scaling by a scalar, the magnitude and the unit vector).

    Squares are written `Sq(r)` rather than `r * r`, so that facts about them are
    stated once, in the lemmas below, and used everywhere else without arithmetic.
    The magnitude `mag()` is `sqrt(x*x + y*y)`; Dafny has no square root, so the
    square root is a parameter of the model (the C library's `std::sqrt`), and
    `IsSqrtAt` / `IsSqrt` say when such a parameter is faithful. */
module Geometry {

  datatype Vec = Vec(x: real, y: real)

  const Zero: Vec := Vec(0.0, 0.0)

  function Add(a: Vec, b: Vec): Vec {
    Vec(a.x + b.x, a.y + b.y)
  }

  function Sub(a: Vec, b: Vec): Vec {
    Vec(a.x - b.x, a.y - b.y)
  }

  /** olc's `vector * vector`, which multiplies componentwise. */
  function Mul(a: Vec, b: Vec): Vec {
    Vec(a.x * b.x, a.y * b.y)
  }

  /** olc's `vector * scalar`. */
  function Scale(a: Vec, k: real): Vec {
    Vec(a.x * k, a.y * k)
  }

  function Sq(r: real): real {
    r * r
  }

  function Abs(r: real): real {
    if r < 0.0 then -r else r
  }

  /** The squared magnitude, olc's `mag2()`. */
  function Norm2(a: Vec): real {
    Sq(a.x) + Sq(a.y)
  }

  /** `std::min` on doubles. */
  function Min(a: real, b: real): real {
    if b < a then b else a
  }

  /** `sqrt` returns the non-negative square root of `x` (so `x` itself is non-negative). */
  ghost predicate IsSqrtAt(sqrt: real -> real, x: real) {
    0.0 <= sqrt(x) && Sq(sqrt(x)) == x
  }

  /** `sqrt` is a faithful square root on every non-negative real. */
  ghost predicate IsSqrt(sqrt: real -> real) {
    forall x :: 0.0 <= x ==> IsSqrtAt(sqrt, x)
  }

  /** The magnitude `mag()` of a vector, computed through the given square root. */
  function Mag(sqrt: real -> real, a: Vec): real {
    sqrt(Norm2(a))
  }

  /** olc's `norm()`: the vector divided by its magnitude. Only meaningful when the
      magnitude is non-zero; callers guard the zero case. */
  function Unit(sqrt: real -> real, a: Vec): Vec
    requires Mag(sqrt, a) != 0.0
  {
    Scale(a, 1.0 / Mag(sqrt, a))
  }

  // ---------------------------------------------------------------- squares

  lemma SqNonNegative(r: real)
    ensures 0.0 <= Sq(r)
  {
  }

  lemma SqNegate(r: real)
    ensures Sq(-r) == Sq(r)
  {
  }

  lemma SqAbs(r: real)
    ensures Sq(Abs(r)) == Sq(r)
  {
    SqNegate(r);
  }

  lemma SqLess(s: real, b: real)
    requires 0.0 <= s < b
    ensures Sq(s) < Sq(b)
  {
    var d := b - s;
    assert b * b == s * s + 2.0 * s * d + d * d;
  }

  lemma SqAtMost(s: real, b: real)
    requires 0.0 <= s <= b
    ensures Sq(s) <= Sq(b)
  {
    var d := b - s;
    assert b * b == s * s + 2.0 * s * d + d * d;
  }

  lemma SqPositive(r: real)
    requires r != 0.0
    ensures 0.0 < Sq(r)
  {
    if 0.0 < r {
      SqLess(0.0, r);
    } else {
      SqLess(0.0, -r);
      SqNegate(r);
    }
  }

  /** On non-negative reals, squaring preserves and reflects strict order. */
  lemma {:induction false} SqLessIff(s: real, b: real)
    requires 0.0 <= s && 0.0 <= b
    ensures s < b <==> Sq(s) < Sq(b)
  {
    if s < b {
      SqLess(s, b);
    } else {
      SqAtMost(b, s);
    }
  }

  /** A number whose square is at most `Sq(b)` lies in `[-b, b]`. */
  lemma {:induction false} SquareBound(a: real, b: real)
    requires 0.0 <= b
    requires Sq(a) <= Sq(b)
    ensures -b <= a <= b
  {
    if b < Abs(a) {
      SqLess(b, Abs(a));
      SqAbs(a);
    }
  }

  lemma SqScale(r: real, k: real)
    ensures Sq(r * k) == Sq(r) * Sq(k)
  {
  }

  lemma SqQuotient(m: real, n: real)
    requires n != 0.0
    ensures Sq(m / n) * Sq(n) == Sq(m)
  {
  }

  // ---------------------------------------------------------------- vectors

  lemma Norm2NonNegative(a: Vec)
    ensures 0.0 <= Norm2(a)
  {
    SqNonNegative(a.x);
    SqNonNegative(a.y);
  }

  /** Only the zero vector has squared magnitude zero. */
  lemma {:induction false} Norm2ZeroIff(a: Vec)
    ensures Norm2(a) == 0.0 <==> a == Zero
  {
    SqNonNegative(a.x);
    SqNonNegative(a.y);
    if a.x != 0.0 {
      SqPositive(a.x);
    } else if a.y != 0.0 {
      SqPositive(a.y);
    }
  }

  /** Each coordinate of a vector is bounded by any bound on its magnitude. */
  lemma {:induction false} CoordinatesWithin(a: Vec, b: real)
    requires 0.0 <= b
    requires Norm2(a) <= Sq(b)
    ensures -b <= a.x <= b && -b <= a.y <= b
  {
    SqNonNegative(a.x);
    SqNonNegative(a.y);
    SquareBound(a.x, b);
    SquareBound(a.y, b);
  }

  /** The distance between two points does not depend on the order they are given in. */
  lemma {:induction false} DistanceSymmetric(a: Vec, b: Vec)
    ensures Norm2(Sub(a, b)) == Norm2(Sub(b, a))
  {
    SqNegate(a.x - b.x);
    SqNegate(a.y - b.y);
  }

  lemma {:induction false} Norm2Scale(a: Vec, k: real)
    ensures Norm2(Scale(a, k)) == Sq(k) * Norm2(a)
  {
    SqScale(a.x, k);
    SqScale(a.y, k);
  }

  /** Scaling a vector of magnitude `n` by `m / n` gives a vector of magnitude `m`. */
  lemma {:induction false} ScaleToLength(a: Vec, n: real, m: real)
    requires n != 0.0
    requires Sq(n) == Norm2(a)
    ensures Norm2(Scale(a, m / n)) == Sq(m)
  {
    Norm2Scale(a, m / n);
    SqQuotient(m, n);
  }

  /** The magnitude is zero exactly for the zero vector. */
  lemma {:induction false} MagZeroIff(sqrt: real -> real, a: Vec)
    requires IsSqrtAt(sqrt, Norm2(a))
    ensures Mag(sqrt, a) == 0.0 <==> a == Zero
  {
    Norm2ZeroIff(a);
    var s := Mag(sqrt, a);
    if s != 0.0 {
      SqPositive(s);
    } else {
      assert Sq(s) == 0.0;
    }
  }

  /** Comparing a square root with a non-negative bound is the same as comparing
      the radicand with the squared bound. */
  lemma {:induction false} SqrtLessIff(sqrt: real -> real, x: real, bound: real)
    requires IsSqrtAt(sqrt, x)
    requires 0.0 <= bound
    ensures sqrt(x) < bound <==> x < Sq(bound)
  {
    SqLessIff(sqrt(x), bound);
  }
}
