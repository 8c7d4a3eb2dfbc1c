/**
 * The arithmetic the entities use on their real-valued positions: C++'s
 * truncating cast to int, std::round, absolute values and the inclusive
 * circular range test shared by the player's vision and the enemy's
 * detection.
 */
module Numeric {

  function Abs(r: real): (a: real)
    ensures a >= 0.0 && (a == r || a == -r)
  {
    if r < 0.0 then -r else r
  }

  /** static_cast<int>: drops the fraction, rounding toward zero. */
  function Trunc(r: real): (n: int)
    ensures 0.0 <= r ==> n as real <= r < n as real + 1.0
    ensures r < 0.0 ==> n as real - 1.0 < r <= n as real
  {
    if r >= 0.0 then r.Floor else -((-r).Floor)
  }

  /** std::round: the nearest integer, halfway cases rounded away from zero. */
  function Round(r: real): (n: int)
    ensures 0.0 <= r ==> n as real - 0.5 <= r < n as real + 0.5
    ensures r < 0.0 ==> n as real - 0.5 < r <= n as real + 0.5
  {
    if r >= 0.0 then (r + 0.5).Floor else -((-r + 0.5).Floor)
  }

  /** Truncating and rounding leave a whole number where it is. */
  lemma WholeNumbersStay(n: int)
    ensures Trunc(n as real) == n && Round(n as real) == n
  {
    if n < 0 {
      assert (-(n as real)).Floor == -n;
      assert (-(n as real) + 0.5).Floor == -n;
    }
  }

  /** Truncation commutes with moving by a whole number when the position is whole. */
  lemma TruncShift(n: int, k: int)
    ensures Trunc(n as real + k as real) == n + k
  {
    WholeNumbersStay(n + k);
  }

  /** Whether (px, py) lies within `radius` of (cx, cy), the boundary included. */
  predicate WithinRadius(cx: real, cy: real, px: real, py: real, radius: real)
  {
    (px - cx) * (px - cx) + (py - cy) * (py - cy) <= radius * radius
  }

  /** The range test does not care which of the two points is the centre. */
  lemma WithinRadiusSymmetric(cx: real, cy: real, px: real, py: real, radius: real)
    ensures WithinRadius(cx, cy, px, py, radius) <==> WithinRadius(px, py, cx, cy, radius)
  {
    assert (px - cx) * (px - cx) == (cx - px) * (cx - px);
    assert (py - cy) * (py - cy) == (cy - py) * (cy - py);
  }

  /** A larger non-negative radius sees everything a smaller one does. */
  lemma WiderRadiusSeesMore(cx: real, cy: real, px: real, py: real, r1: real, r2: real)
    requires 0.0 <= r1 <= r2
    requires WithinRadius(cx, cy, px, py, r1)
    ensures WithinRadius(cx, cy, px, py, r2)
  {
    assert r1 * r1 <= r1 * r2 <= r2 * r2;
  }

  /** A point within range lies inside the square around the centre whose half-side is the radius. */
  lemma WithinRadiusBounded(cx: real, cy: real, px: real, py: real, radius: real)
    requires 0.0 <= radius
    requires WithinRadius(cx, cy, px, py, radius)
    ensures Abs(px - cx) <= radius && Abs(py - cy) <= radius
  {
    SquareBounds(px - cx, (py - cy) * (py - cy), radius);
    SquareBounds(py - cy, (px - cx) * (px - cx), radius);
  }

  lemma SquareBounds(d: real, rest: real, radius: real)
    requires 0.0 <= radius && 0.0 <= rest
    requires d * d + rest <= radius * radius
    ensures Abs(d) <= radius
  {
    if Abs(d) > radius {
      SquareGrows(radius, Abs(d));
    }
  }

  lemma SquareGrows(r: real, a: real)
    requires 0.0 <= r < a
    ensures r * r < a * a
  {
    var rr, ra, aa := r * r, r * a, a * a;
    assert rr <= ra;
    assert ra < aa;
  }
}
