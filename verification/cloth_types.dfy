/**
  The mesh of the cloth simulator: point masses, the sticks that link them,
  the pointer snapshot one frame reads, and the tuning values of the engine.
  Positions are exact reals; the square root the engine takes is a parameter
  of every operation that needs one.
 */
module ClothTypes {

  /** Canvas size: points are kept inside [0, ScreenWidth] x [0, ScreenHeight]. */
  const ScreenWidth: real := 800.0
  const ScreenHeight: real := 600.0

  /** A point mass with Verlet state: the previous position stands for its velocity.
      The anchor (pinx, piny) is where a pinned point is held. */
  datatype Point = Point(
    x: real, y: real,
    oldx: real, oldy: real,
    pinned: bool,
    pinx: real, piny: real)

  /** A distance constraint between the points at indices p0 and p1,
      with its rest length and a flag that, once set, disables it. */
  datatype Stick = Stick(p0: nat, p1: nat, length: real, broken: bool)

  /** The pointer state of one frame: cursor now and one event earlier
      (integer pixels), and the left (drag), right (cut) and middle (explode) buttons. */
  datatype Pointer = Pointer(
    x: int, y: int,
    oldx: int, oldy: int,
    drag: bool, cut: bool, explode: bool)

  /** Tuning values of the engine. */
  datatype Params = Params(
    gravity: real,
    drag: real,
    bouncing: real,
    iterations: int,
    tearDistance: real,
    mouseInfluence: real,
    cutRange: real,
    explodeRange: real)

  /** The values the program starts with (g_gravity ... g_explode_range). */
  const DefaultParams: Params := Params(0.07, 1.0, 0.3, 4, 32.0, 30.0, 3.5, 25.0)
  const DefaultClothWidth: nat := 60
  const DefaultClothHeight: nat := 40
  const DefaultSpacing: real := 8.0

  /** `sqrt` is an exact square root on the non-negative reals. */
  ghost predicate IsSqrt(sqrt: real -> real) {
    forall s: real :: 0.0 <= s ==> 0.0 <= sqrt(s) && sqrt(s) * sqrt(s) == s
  }

  /** Squared Euclidean distance between two positions. */
  function Dist2(x0: real, y0: real, x1: real, y1: real): (r: real)
    ensures r >= 0.0
  {
    SquareNonnegative(x1 - x0);
    SquareNonnegative(y1 - y0);
    (x1 - x0) * (x1 - x0) + (y1 - y0) * (y1 - y0)
  }

  /** Squared distance from a position to the cursor. */
  function CursorDist2(px: real, py: real, ptr: Pointer): real
  {
    Dist2(ptr.x as real, ptr.y as real, px, py)
  }

  /** Every stick refers to points that exist. */
  predicate ValidSticks(sticks: seq<Stick>, pointCount: nat) {
    forall k :: 0 <= k < |sticks| ==> sticks[k].p0 < pointCount && sticks[k].p1 < pointCount
  }

  /** q differs from p at most in its position. */
  predicate SameButPosition(p: Point, q: Point) {
    q == p.(x := q.x, y := q.y)
  }

  lemma MulPositive(a: real, b: real)
    requires a > 0.0 && b > 0.0
    ensures a * b > 0.0
  {
  }

  lemma MulNonnegative(a: real, b: real)
    requires a >= 0.0 && b >= 0.0
    ensures a * b >= 0.0
  {
    if a > 0.0 && b > 0.0 {
      MulPositive(a, b);
    }
  }

  /** A non-zero factor cancels. */
  lemma MulCancel(a: real, b: real, c: real)
    requires c != 0.0 && a * c == b * c
    ensures a == b
  {
  }

  lemma SquareNonnegative(a: real)
    ensures a * a >= 0.0
  {
    if a < 0.0 {
      assert a * a == (-a) * (-a);
    }
  }

  /** Squaring is monotone, strictly so, on the non-negative reals. */
  lemma SquareMonotone(a: real, b: real)
    requires 0.0 <= a <= b
    ensures a * a <= b * b
    ensures a < b ==> a * a < b * b
  {
    assert b * b - a * a == (b - a) * (b + a);
    MulNonnegative(b - a, b + a);
    if a < b {
      MulPositive(b - a, b + a);
    }
  }

  /** Under an exact square root, `sqrt(s) < r` is the comparison `s < r * r`
      for a positive range r (and is false for any other range). */
  lemma SqrtBelow(sqrt: real -> real, s: real, r: real)
    requires IsSqrt(sqrt) && 0.0 <= s
    ensures sqrt(s) < r <==> 0.0 < r && s < r * r
  {
    var q := sqrt(s);
    assert 0.0 <= q && q * q == s;
    if q < r {
      SquareMonotone(q, r);
    } else if 0.0 <= r {
      SquareMonotone(r, q);
    }
  }

  /** Under an exact square root, `sqrt(s) > t` is the comparison `s > t * t`
      for a non-negative threshold t, and always holds for a negative one. */
  lemma SqrtAbove(sqrt: real -> real, s: real, t: real)
    requires IsSqrt(sqrt) && 0.0 <= s
    ensures sqrt(s) > t <==> t < 0.0 || s > t * t
  {
    var q := sqrt(s);
    assert 0.0 <= q && q * q == s;
    if 0.0 <= t < q {
      SquareMonotone(t, q);
    } else if q <= t {
      SquareMonotone(q, t);
    }
  }

  /** The exact square root of d*d is d for a non-negative d. */
  lemma SqrtOfSquare(sqrt: real -> real, d: real)
    requires IsSqrt(sqrt) && 0.0 <= d
    ensures sqrt(d * d) == d
  {
    var q := sqrt(d * d);
    assert 0.0 <= q && q * q == d * d;
    if q < d {
      SquareMonotone(q, d);
    } else if d < q {
      SquareMonotone(d, q);
    }
  }
}
