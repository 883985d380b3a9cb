/**
  The point integrator: one Verlet step per point. A pinned point is put back
  on its anchor; a free point first has its previous position overridden by
  the pointer (drag, explode), then moves by its damped implied velocity plus
  gravity, and is finally clamped to the canvas with a damped bounce.
 */
module Integrator {
  import opened ClothTypes

  /** The cursor is closer than `range` to the point (the engine compares a
      square root of the squared distance). */
  predicate InReach(p: Point, ptr: Pointer, range: real, sqrt: real -> real) {
    sqrt(CursorDist2(p.x, p.y, ptr)) < range
  }

  /** Under an exact square root, the reach test is the comparison of
      squared distances the engine's sqrtf call stands for. */
  lemma InReachSquared(p: Point, ptr: Pointer, range: real, sqrt: real -> real)
    requires IsSqrt(sqrt)
    ensures InReach(p, ptr, range, sqrt) <==> 0.0 < range && CursorDist2(p.x, p.y, ptr) < range * range
  {
    SqrtBelow(sqrt, CursorDist2(p.x, p.y, ptr), range);
  }

  /** The previous position of a free point once the pointer has acted on it.
      Drag gives the point an implied velocity of half the cursor's last
      displacement; explode, applied after drag, gives it twice its offset
      from the cursor. */
  function PointerOld(p: Point, ptr: Pointer, prm: Params, sqrt: real -> real): (o: (real, real))
    ensures var (ox, oy) := o;
            var exploded := ptr.explode && InReach(p, ptr, prm.explodeRange, sqrt);
            var dragged := ptr.drag && InReach(p, ptr, prm.mouseInfluence, sqrt);
            && (exploded ==>
                  p.x - ox == 2.0 * (p.x - ptr.x as real) && p.y - oy == 2.0 * (p.y - ptr.y as real))
            && (dragged && !exploded ==>
                  p.x - ox == 0.5 * (ptr.x - ptr.oldx) as real && p.y - oy == 0.5 * (ptr.y - ptr.oldy) as real)
            && (!dragged && !exploded ==> o == (p.oldx, p.oldy))
  {
    if ptr.drag || ptr.explode then
      var dx := p.x - ptr.x as real;
      var dy := p.y - ptr.y as real;
      var distance := sqrt(CursorDist2(p.x, p.y, ptr));
      var (ox, oy) :=
        if ptr.drag && distance < prm.mouseInfluence then
          (p.x - (ptr.x - ptr.oldx) as real * 0.5, p.y - (ptr.y - ptr.oldy) as real * 0.5)
        else (p.oldx, p.oldy);
      if ptr.explode && distance < prm.explodeRange then
        (p.x - dx * 2.0, p.y - dy * 2.0)
      else (ox, oy)
    else (p.oldx, p.oldy)
  }

  /** Keeps one coordinate inside [0, bound]. Returns the new coordinate and
      the new previous coordinate: unchanged motion (pos, prev) when inside,
      otherwise the bound and a previous coordinate that reverses the
      velocity v scaled by the bounce factor. */
  function ClampAxis(pos: real, prev: real, v: real, bound: real, bouncing: real): (r: (real, real))
    requires bound >= 0.0
    ensures 0.0 <= r.0 <= bound
    ensures 0.0 <= pos <= bound ==> r == (pos, prev)
    ensures pos > bound ==> r.0 == bound
    ensures pos < 0.0 ==> r.0 == 0.0
    ensures !(0.0 <= pos <= bound) ==> r.0 - r.1 == -(v * bouncing)
  {
    if pos > bound then (bound, bound + v * bouncing)
    else if pos < 0.0 then (0.0, 0.0 + v * bouncing)
    else (pos, prev)
  }

  /** The point lies on the canvas. */
  predicate OnCanvas(p: Point) {
    0.0 <= p.x <= ScreenWidth && 0.0 <= p.y <= ScreenHeight
  }

  /** The Verlet step of a free point whose previous position is (ox, oy)
      after the pointer overrides: each axis either moves by its damped
      velocity (plus gravity on y), the pre-step position becoming the
      previous one, or is clamped with a bounce that reverses that velocity. */
  function VerletStep(p: Point, ox: real, oy: real, prm: Params): (r: Point)
    ensures SameButPosition(p, r.(oldx := p.oldx, oldy := p.oldy))
    ensures OnCanvas(r)
    ensures var vx := (p.x - ox) * prm.drag;
            && (0.0 <= p.x + vx <= ScreenWidth ==> r.x == p.x + vx && r.oldx == p.x)
            && (p.x + vx > ScreenWidth ==> r.x == ScreenWidth)
            && (p.x + vx < 0.0 ==> r.x == 0.0)
            && (!(0.0 <= p.x + vx <= ScreenWidth) ==> r.x - r.oldx == -(vx * prm.bouncing))
    ensures var vy := (p.y - oy) * prm.drag;
            && (0.0 <= p.y + vy + prm.gravity <= ScreenHeight ==>
                  r.y == p.y + vy + prm.gravity && r.oldy == p.y)
            && (p.y + vy + prm.gravity > ScreenHeight ==> r.y == ScreenHeight)
            && (p.y + vy + prm.gravity < 0.0 ==> r.y == 0.0)
            && (!(0.0 <= p.y + vy + prm.gravity <= ScreenHeight) ==> r.y - r.oldy == -(vy * prm.bouncing))
  {
    var vx := (p.x - ox) * prm.drag;
    var vy := (p.y - oy) * prm.drag;
    var cx := ClampAxis(p.x + vx, p.x, vx, ScreenWidth, prm.bouncing);
    var cy := ClampAxis(p.y + vy + prm.gravity, p.y, vy, ScreenHeight, prm.bouncing);
    p.(x := cx.0, y := cy.0, oldx := cx.1, oldy := cy.1)
  }

  /** One integration step of one point, the body of the loop of updatePoints. */
  function IntegratePoint(p: Point, ptr: Pointer, prm: Params, sqrt: real -> real): (r: Point)
    // pinned points snap to their anchor and keep everything else
    ensures p.pinned ==> r == p.(x := p.pinx, y := p.piny)
    // the pin flag and anchor never change
    ensures r.pinned == p.pinned && r.pinx == p.pinx && r.piny == p.piny
    // free points end on the canvas, having taken the Verlet step from the
    // previous position the pointer left them
    ensures !p.pinned ==>
              var o := PointerOld(p, ptr, prm, sqrt);
              OnCanvas(r) && r == VerletStep(p, o.0, o.1, prm)
  {
    if p.pinned then
      p.(x := p.pinx, y := p.piny)
    else
      var o := PointerOld(p, ptr, prm, sqrt);
      VerletStep(p, o.0, o.1, prm)
  }

  /** With no button down and no wall reached, a free point takes the plain
      Verlet step: damped implied velocity, gravity on y, and the pre-step
      position becomes its previous position. */
  lemma FreeFall(p: Point, ptr: Pointer, prm: Params, sqrt: real -> real)
    requires !p.pinned && !ptr.drag && !ptr.explode
    requires 0.0 <= p.x + (p.x - p.oldx) * prm.drag <= ScreenWidth
    requires 0.0 <= p.y + (p.y - p.oldy) * prm.drag + prm.gravity <= ScreenHeight
    ensures var r := IntegratePoint(p, ptr, prm, sqrt);
            && r.x == p.x + (p.x - p.oldx) * prm.drag
            && r.y == p.y + (p.y - p.oldy) * prm.drag + prm.gravity
            && r.oldx == p.x && r.oldy == p.y
  {
    assert PointerOld(p, ptr, prm, sqrt) == (p.oldx, p.oldy);
    UnclampedStep(p, p.oldx, p.oldy, prm);
  }

  lemma UnclampedStep(p: Point, ox: real, oy: real, prm: Params)
    requires 0.0 <= p.x + (p.x - ox) * prm.drag <= ScreenWidth
    requires 0.0 <= p.y + (p.y - oy) * prm.drag + prm.gravity <= ScreenHeight
    ensures var r := VerletStep(p, ox, oy, prm);
            && r.x == p.x + (p.x - ox) * prm.drag
            && r.y == p.y + (p.y - oy) * prm.drag + prm.gravity
            && r.oldx == p.x && r.oldy == p.y
  {
  }

  /** A free point moving down through the floor is put on the floor and
      leaves with an upward implied velocity, its downward one scaled by the
      bounce factor. */
  lemma FloorBounce(p: Point, ptr: Pointer, prm: Params, sqrt: real -> real)
    requires !p.pinned && !ptr.drag && !ptr.explode
    requires prm.drag > 0.0 && prm.bouncing > 0.0 && p.y > p.oldy
    requires p.y + (p.y - p.oldy) * prm.drag + prm.gravity > ScreenHeight
    ensures var r := IntegratePoint(p, ptr, prm, sqrt);
            && r.y == ScreenHeight
            && r.y - r.oldy == -((p.y - p.oldy) * prm.drag * prm.bouncing)
            && r.y - r.oldy < 0.0
  {
    assert PointerOld(p, ptr, prm, sqrt) == (p.oldx, p.oldy);
    var r := VerletStep(p, p.oldx, p.oldy, prm);
    assert IntegratePoint(p, ptr, prm, sqrt) == r;
    var vy := (p.y - p.oldy) * prm.drag;
    assert r.y == ScreenHeight && r.y - r.oldy == -(vy * prm.bouncing);
    MulPositive(p.y - p.oldy, prm.drag);
    MulPositive(vy, prm.bouncing);
  }

  /** Every point integrated once, each on its own input: a point's step
      reads no other point, so the order of the loop does not matter. */
  function IntegrateAll(pts: seq<Point>, ptr: Pointer, prm: Params, sqrt: real -> real): (r: seq<Point>)
    ensures |r| == |pts|
    ensures forall i :: 0 <= i < |pts| && pts[i].pinned ==> r[i].x == pts[i].pinx && r[i].y == pts[i].piny
    ensures forall i :: 0 <= i < |pts| && !pts[i].pinned ==> OnCanvas(r[i])
    ensures forall i :: 0 <= i < |pts| ==>
              r[i].pinned == pts[i].pinned && r[i].pinx == pts[i].pinx && r[i].piny == pts[i].piny
  {
    seq(|pts|, i requires 0 <= i < |pts| => IntegratePoint(pts[i], ptr, prm, sqrt))
  }

  /** updatePoints: integrates every point once, in index order. */
  method UpdatePoints(points: seq<Point>, ptr: Pointer, prm: Params, sqrt: real -> real)
    returns (out: seq<Point>)
    ensures out == IntegrateAll(points, ptr, prm, sqrt)
    ensures |out| == |points|
    ensures forall i :: 0 <= i < |out| ==> out[i] == IntegratePoint(points[i], ptr, prm, sqrt)
    ensures forall i :: 0 <= i < |out| && points[i].pinned ==>
              out[i].x == points[i].pinx && out[i].y == points[i].piny
    ensures forall i :: 0 <= i < |out| && !points[i].pinned ==> OnCanvas(out[i])
    ensures forall i :: 0 <= i < |out| ==>
              out[i].pinned == points[i].pinned && out[i].pinx == points[i].pinx && out[i].piny == points[i].piny
  {
    out := points;
    for i := 0 to |points|
      invariant |out| == |points|
      invariant forall j :: 0 <= j < i ==> out[j] == IntegratePoint(points[j], ptr, prm, sqrt)
      invariant forall j :: i <= j < |out| ==> out[j] == points[j]
    {
      out := out[i := IntegratePoint(out[i], ptr, prm, sqrt)];
    }
  }

  /** With the engine's default tuning, a free point at rest away from the
      walls falls by the gravity value 0.07 in one step. */
  lemma DefaultRestingFall(p: Point, ptr: Pointer, sqrt: real -> real)
    requires !p.pinned && !ptr.drag && !ptr.explode
    requires p.oldx == p.x && p.oldy == p.y
    requires 0.0 <= p.x <= ScreenWidth && 0.0 <= p.y <= ScreenHeight - DefaultParams.gravity
    ensures var r := IntegratePoint(p, ptr, DefaultParams, sqrt);
            r.x == p.x && r.y == p.y + 0.07 && r.oldx == p.x && r.oldy == p.y
  {
    FreeFall(p, ptr, DefaultParams, sqrt);
  }
}
