/** Positions on the integer grid and the distance test used for every range
    check of the spell (Point.swift). The source compares a floating-point
    square root with a range; here the same test is made on integers, and
    the lemma `WithinMatchesSqrt` states why that is the same comparison. */
module Geometry {

  /** A player position: two integers, immutable once created. */
  datatype Point = Point(x: int, y: int)

  /** The squared Euclidean distance, the radicand of `distanceTo`. */
  function DistanceSquared(p: Point, q: Point): (d: int)
    ensures d >= 0
    ensures d == 0 <==> p == q
  {
    var dx := p.x - q.x;
    var dy := p.y - q.y;
    SumOfSquares(dx, dy);
    dx * dx + dy * dy
  }

  /** `p.distanceTo(q) <= Double(r)`, stated on integers. */
  predicate Within(p: Point, q: Point, r: int)
  {
    r >= 0 && DistanceSquared(p, q) <= r * r
  }

  lemma SquareNonNegative(a: int)
    ensures a * a >= 0
  {
    if a < 0 {
      assert a * a == (-a) * (-a);
    }
  }

  lemma SumOfSquares(a: int, b: int)
    ensures a * a + b * b >= 0
    ensures a * a + b * b == 0 <==> a == 0 && b == 0
  {
    SquareNonNegative(a);
    SquareNonNegative(b);
    if a != 0 { SquarePositive(a); }
    if b != 0 { SquarePositive(b); }
  }

  lemma SquarePositive(a: int)
    requires a != 0
    ensures a * a > 0
  {
    if a < 0 {
      assert a * a == (-a) * (-a);
    }
  }

  /** The distance does not depend on the order of its arguments. */
  lemma DistanceSymmetric(p: Point, q: Point)
    ensures DistanceSquared(p, q) == DistanceSquared(q, p)
  {
    var dx, dy := p.x - q.x, p.y - q.y;
    assert (q.x - p.x) * (q.x - p.x) == dx * dx;
    assert (q.y - p.y) * (q.y - p.y) == dy * dy;
  }

  /** A point is at distance 0 from itself. */
  lemma DistanceToSelf(p: Point)
    ensures DistanceSquared(p, p) == 0
  {
  }

  /** The range test is symmetric. */
  lemma WithinSymmetric(p: Point, q: Point, r: int)
    ensures Within(p, q, r) <==> Within(q, p, r)
  {
    DistanceSymmetric(p, q);
  }

  /** Every point is within any non-negative range of itself. */
  lemma WithinSelf(p: Point, r: int)
    ensures Within(p, p, r) <==> r >= 0
  {
    if r >= 0 {
      SquareNonNegative(r);
    }
  }

  /** For a non-negative real `s` whose square is the squared distance (the
      value `sqrt` returns), `s <= r` holds exactly when the integer test
      `Within` does: a negative range admits nothing, and squaring is
      monotone on non-negative numbers. */
  lemma WithinMatchesSqrt(p: Point, q: Point, r: int, s: real)
    requires s >= 0.0 && s * s == DistanceSquared(p, q) as real
    ensures s <= r as real <==> Within(p, q, r)
  {
    var d := DistanceSquared(p, q);
    var rr := r as real;
    if r >= 0 {
      if s <= rr {
        SquareMonotone(s, rr);
        assert (r * r) as real == rr * rr;
      } else {
        SquareStrictlyMonotone(rr, s);
        assert (r * r) as real == rr * rr;
      }
    }
  }

  lemma SquareMonotone(a: real, b: real)
    requires 0.0 <= a <= b
    ensures a * a <= b * b
  {
    assert a * a <= a * b;
    assert a * b <= b * b;
  }

  lemma SquareStrictlyMonotone(a: real, b: real)
    requires 0.0 <= a < b
    ensures a * a < b * b
  {
    calc {
      a * a;
    <= { assert (b - a) * a >= 0.0; }
      a * b;
    < { assert (b - a) * b > 0.0; }
      b * b;
    }
  }
}
