/** Plane geometry shared by the game: the `Position` record (a location, a
    velocity or a direction), its arithmetic, and `Math.sqrt` as a parameter. */
module Geometry {

  /** A point or a vector of the plane. */
  datatype Position = Position(x: real, y: real)

  const Origin: Position := Position(0.0, 0.0)

  function Add(p: Position, q: Position): Position {
    Position(p.x + q.x, p.y + q.y)
  }

  function Scale(p: Position, k: real): Position {
    Position(p.x * k, p.y * k)
  }

  lemma ScaleOrigin(k: real)
    ensures Scale(Origin, k) == Origin
  {
  }

  function Dot(p: Position, q: Position): real {
    p.x * q.x + p.y * q.y
  }

  /** The square of a number, named so that facts about squares stay facts
      about this term. */
  function Sq(a: real): real {
    a * a
  }

  /** The squared Euclidean length `x * x + y * y` of a vector. */
  function SquaredLength(v: Position): real {
    Sq(v.x) + Sq(v.y)
  }

  /** Only the zero vector has squared length 0. */
  lemma SquaredLengthPositive(v: Position)
    ensures 0.0 <= SquaredLength(v)
    ensures v != Origin ==> 0.0 < SquaredLength(v)
  {
    SqNonNegative(v.x);
    SqNonNegative(v.y);
    if v.x != 0.0 {
      SqPositive(v.x);
    } else if v.y != 0.0 {
      SqPositive(v.y);
    }
  }

  /** `dx * dx + dy * dy` for the vector from `p` to `q`: the square of the
      Euclidean distance. It is never negative, is zero from a point to
      itself and does not depend on the order of the two points. */
  function SquaredDistance(p: Position, q: Position): (d2: real)
    ensures d2 >= 0.0
    ensures p == q ==> d2 == 0.0
  {
    var dx := q.x - p.x;
    var dy := q.y - p.y;
    SqNonNegative(dx);
    SqNonNegative(dy);
    Sq(dx) + Sq(dy)
  }

  lemma SquaredDistanceSymmetric(p: Position, q: Position)
    ensures SquaredDistance(p, q) == SquaredDistance(q, p)
  {
    NegatedSquare(q.x - p.x);
    NegatedSquare(q.y - p.y);
    assert p.x - q.x == -(q.x - p.x) && p.y - q.y == -(q.y - p.y);
  }

  /** The host's `Math.sqrt`: a function that yields the non-negative square
      root of every non-negative argument. Operations that call `Math.sqrt`
      take it as a parameter satisfying this predicate. */
  ghost predicate IsSquareRoot(sqrt: real -> real) {
    forall x: real :: 0.0 <= x ==> 0.0 <= sqrt(x) && sqrt(x) * sqrt(x) == x
  }

  /** A square root of zero is zero. */
  lemma RootOfZero(sqrt: real -> real)
    requires IsSquareRoot(sqrt)
    ensures sqrt(0.0) == 0.0
  {
    RootUnique(sqrt(0.0), 0.0);
  }

  /** Comparing a root with a bound, `sqrt(x) < bound`, is comparing the
      squares, provided the bound is positive; a non-positive bound is never
      exceeded from below. */
  lemma RootBelowIff(sqrt: real -> real, x: real, bound: real)
    requires IsSquareRoot(sqrt) && 0.0 <= x
    ensures sqrt(x) < bound <==> 0.0 < bound && x < bound * bound
  {
    var r := sqrt(x);
    assert 0.0 <= r && r * r == x;
    if 0.0 < bound {
      if r < bound {
        SquareStrictMonotone(bound, r);
      } else {
        SquareMonotone(r, bound);
      }
    }
  }

  /** The inclusive counterpart of `RootBelowIff`. */
  lemma RootAtMostIff(sqrt: real -> real, x: real, bound: real)
    requires IsSquareRoot(sqrt) && 0.0 <= x
    ensures sqrt(x) <= bound <==> 0.0 <= bound && x <= bound * bound
  {
    var r := sqrt(x);
    assert 0.0 <= r && r * r == x;
    if 0.0 <= bound {
      if r <= bound {
        SquareMonotone(bound, r);
      } else {
        SquareStrictMonotone(r, bound);
      }
    }
  }

  /** The root of a positive number is positive. */
  lemma RootPositive(sqrt: real -> real, x: real)
    requires IsSquareRoot(sqrt) && 0.0 < x
    ensures 0.0 < sqrt(x)
  {
  }

  /** Two non-negative numbers with the same square are equal. */
  lemma RootUnique(a: real, b: real)
    requires 0.0 <= a && 0.0 <= b && a * a == b * b
    ensures a == b
  {
    if a < b {
      SquareStrictMonotone(b, a);
    } else if b < a {
      SquareStrictMonotone(a, b);
    }
  }

  // Facts of ordered-field arithmetic that the solver does not find unaided
  // inside larger proofs. Naming the products keeps the solver on linear
  // reasoning over them.

  lemma SqPositive(a: real)
    requires a != 0.0
    ensures Sq(a) > 0.0
  {
    if a > 0.0 {
      SquareStrictMonotone(a, 0.0);
    } else {
      SquareStrictMonotone(-a, 0.0);
      NegatedSquare(a);
    }
  }

  /** Stated on `Sq` rather than on `a * a`: the solver rewrites a product
      atom such as `a * a >= 0` away, and a caller could not use it. */
  lemma SqNonNegative(a: real)
    ensures Sq(a) >= 0.0
  {
    if a != 0.0 {
      SqPositive(a);
    }
  }

  lemma NegatedSquare(a: real)
    ensures (-a) * (-a) == a * a
  {
  }

  lemma SquareMonotone(a: real, b: real)
    requires 0.0 <= b <= a
    ensures b * b <= a * a
  {
    var lo, mid, hi := b * b, b * a, a * a;
    assert lo <= mid;
    assert mid <= hi;
  }

  lemma SquareStrictMonotone(a: real, b: real)
    requires 0.0 <= b < a
    ensures b * b < a * a
  {
    var lo, mid, hi := b * b, b * a, a * a;
    assert lo <= mid;
    assert mid < hi;
  }
}
