/**
  The stick relaxer: passes over the stick buffer that pull every intact
  stick's endpoints toward its rest length, half the error to each free end.
  A visit first lets the cut button and then the tear threshold break the
  stick; the flag only ever goes from intact to broken, and the visit that
  breaks a stick still applies its correction. Broken sticks are skipped.
 */
module Relaxer {
  import opened ClothTypes

  /** The engine divides by the stick's current length. When that length is
      zero and an end is free, the offset it adds to that end is not a number,
      so the visit has no defined outcome and the model reports it. When both
      ends are pinned the offset is computed but never applied. */
  datatype Visit = Visited(points: seq<Point>, stick: Stick) | Degenerate

  /** Outcome of a run of passes: the relaxed mesh, or the pass and slot of
      the first intact stick met with zero current length and a free end. */
  datatype Relaxation = Relaxed(points: seq<Point>, sticks: seq<Stick>) | ZeroLength(pass: nat, index: nat)

  /** Current length of the segment from a to b. */
  function Length(a: Point, b: Point, sqrt: real -> real): real {
    sqrt(Dist2(a.x, a.y, b.x, b.y))
  }

  /** The cut button is down and the stick's midpoint is within the cut range of the cursor. */
  predicate CutHit(a: Point, b: Point, ptr: Pointer, prm: Params, sqrt: real -> real) {
    && ptr.cut
    && sqrt(CursorDist2(a.x + (b.x - a.x) * 0.5, a.y + (b.y - a.y) * 0.5, ptr)) < prm.cutRange
  }

  /** The stick is longer than the tear threshold. */
  predicate Torn(a: Point, b: Point, prm: Params, sqrt: real -> real) {
    Length(a, b, sqrt) > prm.tearDistance
  }

  /** Under an exact square root, the cut test compares the squared distance
      from the midpoint to the cursor with the squared cut range. */
  lemma CutHitSquared(a: Point, b: Point, ptr: Pointer, prm: Params, sqrt: real -> real)
    requires IsSqrt(sqrt)
    ensures CutHit(a, b, ptr, prm, sqrt) <==>
              && ptr.cut && 0.0 < prm.cutRange
              && CursorDist2(a.x + (b.x - a.x) * 0.5, a.y + (b.y - a.y) * 0.5, ptr) < prm.cutRange * prm.cutRange
  {
    SqrtBelow(sqrt, CursorDist2(a.x + (b.x - a.x) * 0.5, a.y + (b.y - a.y) * 0.5, ptr), prm.cutRange);
  }

  /** Under an exact square root, the tear test compares the squared length
      with the squared tear distance (and always holds for a negative one). */
  lemma TornSquared(a: Point, b: Point, prm: Params, sqrt: real -> real)
    requires IsSqrt(sqrt)
    ensures Torn(a, b, prm, sqrt) <==>
              prm.tearDistance < 0.0 || Dist2(a.x, a.y, b.x, b.y) > prm.tearDistance * prm.tearDistance
  {
    SqrtAbove(sqrt, Dist2(a.x, a.y, b.x, b.y), prm.tearDistance);
  }

  /** s has the same endpoints and rest length as t. */
  predicate SameLink(s: Stick, t: Stick) {
    s.p0 == t.p0 && s.p1 == t.p1 && s.length == t.length
  }

  /** Every stick at point i is broken, so no visit can move it. */
  predicate Detached(sticks: seq<Stick>, i: nat) {
    forall k :: 0 <= k < |sticks| && (sticks[k].p0 == i || sticks[k].p1 == i) ==> sticks[k].broken
  }

  lemma DivSub(rest: real, dist: real)
    requires dist != 0.0
    ensures (rest - dist) / dist == rest / dist - 1.0
  {
    var q, t := (rest - dist) / dist, rest / dist;
    assert q * dist == rest - dist;
    assert t * dist == rest;
    assert (t - 1.0) * dist == rest - dist;
    MulCancel(q, t - 1.0, dist);
  }

  /** Moving both ends by the half offsets turns the separation d into d * (rest / dist). */
  lemma BothEndsSeparation(d: real, rest: real, dist: real)
    requires dist != 0.0
    ensures d + 2.0 * (d * ((rest - dist) / dist * 0.5)) == d * (rest / dist)
  {
    DivSub(rest, dist);
  }

  /** Moving one end by the half offset turns the separation d into d * (rest + dist) / (2 * dist). */
  lemma OneEndSeparation(d: real, rest: real, dist: real)
    requires dist != 0.0
    ensures d + d * ((rest - dist) / dist * 0.5) == d * ((rest / dist + 1.0) * 0.5)
  {
    DivSub(rest, dist);
  }

  /** The symmetric position correction at the end of a visit in
      updateSticks: both free endpoints move by half the length error along the stick, a pinned one stays. */
  function Correct(pts: seq<Point>, i0: nat, i1: nat, rest: real, dist: real): (r: seq<Point>)
    requires i0 < |pts| && i1 < |pts| && dist != 0.0
    ensures |r| == |pts|
    ensures forall i :: 0 <= i < |pts| && i != i0 && i != i1 ==> r[i] == pts[i]
    ensures forall i :: 0 <= i < |pts| ==> SameButPosition(pts[i], r[i])
    ensures forall i :: 0 <= i < |pts| && pts[i].pinned ==> r[i] == pts[i]
    // two free ends: the midpoint stays, the separation is rescaled by rest / dist
    ensures i0 != i1 && !pts[i0].pinned && !pts[i1].pinned ==>
              && r[i0].x + r[i1].x == pts[i0].x + pts[i1].x
              && r[i0].y + r[i1].y == pts[i0].y + pts[i1].y
              && r[i1].x - r[i0].x == (pts[i1].x - pts[i0].x) * (rest / dist)
              && r[i1].y - r[i0].y == (pts[i1].y - pts[i0].y) * (rest / dist)
    // one free end: it alone takes half the error, the separation becomes
    // the mean of the old one and its rescaled value
    ensures i0 != i1 && (pts[i0].pinned != pts[i1].pinned) ==>
              && r[i1].x - r[i0].x == (pts[i1].x - pts[i0].x) * ((rest / dist + 1.0) * 0.5)
              && r[i1].y - r[i0].y == (pts[i1].y - pts[i0].y) * ((rest / dist + 1.0) * 0.5)
  {
    var a, b := pts[i0], pts[i1];
    var percent := (rest - dist) / dist * 0.5;
    var ox, oy := (b.x - a.x) * percent, (b.y - a.y) * percent;
    BothEndsSeparation(b.x - a.x, rest, dist);
    BothEndsSeparation(b.y - a.y, rest, dist);
    OneEndSeparation(b.x - a.x, rest, dist);
    OneEndSeparation(b.y - a.y, rest, dist);
    var pts1 := if !a.pinned then pts[i0 := a.(x := a.x - ox, y := a.y - oy)] else pts;
    var b1 := pts1[i1];
    if !b1.pinned then pts1[i1 := b1.(x := b1.x + ox, y := b1.y + oy)] else pts1
  }

  /** Under an exact square root, a correction of a stick with two free ends
      restores its rest length: the new squared length is rest * rest. */
  lemma CorrectionRestoresRestLength(pts: seq<Point>, i0: nat, i1: nat, rest: real, sqrt: real -> real)
    requires IsSqrt(sqrt)
    requires i0 < |pts| && i1 < |pts| && i0 != i1 && !pts[i0].pinned && !pts[i1].pinned
    requires Length(pts[i0], pts[i1], sqrt) != 0.0
    ensures var r := Correct(pts, i0, i1, rest, Length(pts[i0], pts[i1], sqrt));
            Dist2(r[i0].x, r[i0].y, r[i1].x, r[i1].y) == rest * rest
  {
    var a, b := pts[i0], pts[i1];
    var dist := Length(a, b, sqrt);
    var r := Correct(pts, i0, i1, rest, dist);
    var dx, dy := b.x - a.x, b.y - a.y;
    var t := rest / dist;
    assert dx * dx + dy * dy == dist * dist;
    assert t * dist == rest;
    assert r[i1].x - r[i0].x == dx * t && r[i1].y - r[i0].y == dy * t;
    calc {
      Dist2(r[i0].x, r[i0].y, r[i1].x, r[i1].y);
      (dx * t) * (dx * t) + (dy * t) * (dy * t);
      (dx * dx + dy * dy) * (t * t);
      (dist * dist) * (t * t);
      (t * dist) * (t * dist);
      rest * rest;
    }
  }

  /** One visit of one stick in updateSticks. */
  function RelaxStick(pts: seq<Point>, s: Stick, ptr: Pointer, prm: Params, sqrt: real -> real): (v: Visit)
    requires s.p0 < |pts| && s.p1 < |pts|
    // a broken stick is skipped: nothing changes
    ensures s.broken ==> v == Visited(pts, s)
    // the only failure is an intact stick of zero current length with a free end
    ensures v.Degenerate? <==>
              && !s.broken && Length(pts[s.p0], pts[s.p1], sqrt) == 0.0
              && !(pts[s.p0].pinned && pts[s.p1].pinned)
    // the stick keeps its link; it breaks when cut or torn and never mends
    ensures v.Visited? ==> SameLink(v.stick, s)
    ensures v.Visited? ==>
              v.stick.broken == (s.broken || CutHit(pts[s.p0], pts[s.p1], ptr, prm, sqrt)
                                           || Torn(pts[s.p0], pts[s.p1], prm, sqrt))
    // an intact stick is corrected in this visit, whether or not it breaks in it
    ensures v.Visited? && !s.broken && Length(pts[s.p0], pts[s.p1], sqrt) != 0.0 ==>
              v.points == Correct(pts, s.p0, s.p1, s.length, Length(pts[s.p0], pts[s.p1], sqrt))
    // a stick between two pinned points moves nothing, whatever its length
    ensures v.Visited? && pts[s.p0].pinned && pts[s.p1].pinned ==> v.points == pts
    // only the free endpoints of the stick move, and only in position
    ensures v.Visited? ==> |v.points| == |pts|
    ensures v.Visited? ==> forall i :: 0 <= i < |pts| && i != s.p0 && i != s.p1 ==> v.points[i] == pts[i]
    ensures v.Visited? ==> forall i :: 0 <= i < |pts| && pts[i].pinned ==> v.points[i] == pts[i]
    ensures v.Visited? ==> forall i :: 0 <= i < |pts| ==> SameButPosition(pts[i], v.points[i])
  {
    if s.broken then Visited(pts, s)
    else
      var a, b := pts[s.p0], pts[s.p1];
      var cut := CutHit(a, b, ptr, prm, sqrt);
      var dist := Length(a, b, sqrt);
      var torn := dist > prm.tearDistance;
      if dist == 0.0 then
        if a.pinned && b.pinned then Visited(pts, s.(broken := cut || torn)) else Degenerate
      else Visited(Correct(pts, s.p0, s.p1, s.length, dist), s.(broken := cut || torn))
  }

  /** The rest of pass `pass` from slot k on: slot k is visited on the
      points the earlier visits left, then the pass goes on at slot k + 1.
      This is the reference the pass method is proved against. */
  function Pass(pts: seq<Point>, ss: seq<Stick>, ptr: Pointer, prm: Params, sqrt: real -> real,
                pass: nat, k: nat): (o: Relaxation)
    requires ValidSticks(ss, |pts|) && k <= |ss|
    // the first intact zero-length stick with a free end stops the pass at its own slot
    ensures o.ZeroLength? ==> o.pass == pass && k <= o.index < |ss| && !ss[o.index].broken
    ensures o.Relaxed? ==> |o.points| == |pts| && |o.sticks| == |ss| && ValidSticks(o.sticks, |o.points|)
    // slots before k are not visited again
    ensures o.Relaxed? ==> forall i :: 0 <= i < k ==> o.sticks[i] == ss[i]
    decreases |ss| - k
  {
    if k == |ss| then Relaxed(pts, ss)
    else
      match RelaxStick(pts, ss[k], ptr, prm, sqrt)
      case Degenerate => ZeroLength(pass, k)
      case Visited(next, s) => Pass(next, ss[k := s], ptr, prm, sqrt, pass, k + 1)
  }

  /** Passes pass, pass + 1, ..., passes - 1, each on what the previous one
      left; none when pass >= passes, so a non-positive count runs none. */
  function Passes(pts: seq<Point>, ss: seq<Stick>, ptr: Pointer, prm: Params, sqrt: real -> real,
                  pass: nat, passes: int): (o: Relaxation)
    requires ValidSticks(ss, |pts|)
    ensures o.ZeroLength? ==> pass <= o.pass < passes && o.index < |ss|
    ensures o.Relaxed? ==> |o.points| == |pts| && |o.sticks| == |ss| && ValidSticks(o.sticks, |o.points|)
    decreases passes - pass
  {
    if passes <= pass then Relaxed(pts, ss)
    else
      match Pass(pts, ss, ptr, prm, sqrt, pass, 0)
      case ZeroLength(p, i) => ZeroLength(p, i)
      case Relaxed(next, nss) => Passes(next, nss, ptr, prm, sqrt, pass + 1, passes)
  }

  /** The first j visits of pass `pass`: RelaxStick on slots 0 .. j-1 in
      order, each on what the previous visits left; ZeroLength at the first
      degenerate visit among them. */
  function Reached(pts: seq<Point>, ss: seq<Stick>, ptr: Pointer, prm: Params, sqrt: real -> real,
                   pass: nat, j: nat): (o: Relaxation)
    requires ValidSticks(ss, |pts|) && j <= |ss|
    ensures o.ZeroLength? ==> o.pass == pass && o.index < j
    ensures o.Relaxed? ==> |o.points| == |pts| && |o.sticks| == |ss| && ValidSticks(o.sticks, |o.points|)
    // slots from j on are not visited yet
    ensures o.Relaxed? ==> forall i :: j <= i < |ss| ==> o.sticks[i] == ss[i]
  {
    if j == 0 then Relaxed(pts, ss)
    else
      match Reached(pts, ss, ptr, prm, sqrt, pass, j - 1)
      case ZeroLength(p, i) => ZeroLength(p, i)
      case Relaxed(cur, cs) =>
        match RelaxStick(cur, cs[j - 1], ptr, prm, sqrt)
        case Degenerate => ZeroLength(pass, j - 1)
        case Visited(next, st) => Relaxed(next, cs[j - 1 := st])
  }

  /** A pass is its first j visits followed by the rest of the pass from slot j. */
  lemma {:induction false} PassSplits(pts: seq<Point>, ss: seq<Stick>, ptr: Pointer, prm: Params,
                                      sqrt: real -> real, pass: nat, j: nat)
    requires ValidSticks(ss, |pts|) && j <= |ss|
    ensures var r := Reached(pts, ss, ptr, prm, sqrt, pass, j);
            && (r.ZeroLength? ==> Pass(pts, ss, ptr, prm, sqrt, pass, 0) == r)
            && (r.Relaxed? ==>
                  Pass(r.points, r.sticks, ptr, prm, sqrt, pass, j) == Pass(pts, ss, ptr, prm, sqrt, pass, 0))
  {
    if j > 0 {
      PassSplits(pts, ss, ptr, prm, sqrt, pass, j - 1);
    }
  }

  /** Within a pass, a stick that was intact breaks exactly when, on the
      points its own visit saw (those left by the visits of the slots before
      it), the cursor cut its midpoint or it was longer than the tear
      distance; a broken stick stays broken. */
  lemma BreakCause(pts: seq<Point>, ss: seq<Stick>, ptr: Pointer, prm: Params, sqrt: real -> real,
                   pass: nat, j: nat)
    requires ValidSticks(ss, |pts|) && j < |ss|
    requires Pass(pts, ss, ptr, prm, sqrt, pass, 0).Relaxed?
    ensures Reached(pts, ss, ptr, prm, sqrt, pass, j).Relaxed?
    ensures var o := Pass(pts, ss, ptr, prm, sqrt, pass, 0);
            var seen := Reached(pts, ss, ptr, prm, sqrt, pass, j).points;
            && (ss[j].broken ==> o.sticks[j].broken)
            && (!ss[j].broken ==>
                  (o.sticks[j].broken <==>
                     CutHit(seen[ss[j].p0], seen[ss[j].p1], ptr, prm, sqrt) ||
                     Torn(seen[ss[j].p0], seen[ss[j].p1], prm, sqrt)))
  {
    PassSplits(pts, ss, ptr, prm, sqrt, pass, j);
    var r := Reached(pts, ss, ptr, prm, sqrt, pass, j);
    assert r.Relaxed?;
    var v := RelaxStick(r.points, r.sticks[j], ptr, prm, sqrt);
    assert v.Visited?;
    var nss := r.sticks[j := v.stick];
    assert ValidSticks(nss, |v.points|);
    var o := Pass(v.points, nss, ptr, prm, sqrt, pass, j + 1);
    assert o.sticks[j] == v.stick;
  }

  /** One pass over the whole stick buffer in slot order (the body of the
      outer loop of updateSticks). */
  method RelaxPass(pts: seq<Point>, sticks: seq<Stick>, ptr: Pointer, prm: Params, sqrt: real -> real, pass: nat)
    returns (o: Relaxation)
    requires ValidSticks(sticks, |pts|)
    ensures o == Pass(pts, sticks, ptr, prm, sqrt, pass, 0)
    ensures o.ZeroLength? ==> o.pass == pass && o.index < |sticks| && !sticks[o.index].broken
    ensures o.Relaxed? ==> |o.points| == |pts| && |o.sticks| == |sticks|
    ensures o.Relaxed? ==> forall k :: 0 <= k < |sticks| ==>
              SameLink(o.sticks[k], sticks[k]) && (sticks[k].broken ==> o.sticks[k] == sticks[k])
    ensures o.Relaxed? ==> forall i :: 0 <= i < |pts| ==> SameButPosition(pts[i], o.points[i])
    ensures o.Relaxed? ==> forall i :: 0 <= i < |pts| && pts[i].pinned ==> o.points[i] == pts[i]
    ensures o.Relaxed? ==> forall i :: 0 <= i < |pts| && Detached(sticks, i) ==> o.points[i] == pts[i]
  {
    var cur, ss := pts, sticks;
    for k := 0 to |sticks|
      invariant |cur| == |pts| && |ss| == |sticks|
      invariant ValidSticks(ss, |cur|)
      invariant Pass(cur, ss, ptr, prm, sqrt, pass, k) == Pass(pts, sticks, ptr, prm, sqrt, pass, 0)
      invariant forall j :: 0 <= j < |sticks| ==>
                  SameLink(ss[j], sticks[j]) && (sticks[j].broken ==> ss[j] == sticks[j])
      invariant forall j :: k <= j < |sticks| ==> ss[j] == sticks[j]
      invariant forall i :: 0 <= i < |pts| ==> SameButPosition(pts[i], cur[i])
      invariant forall i :: 0 <= i < |pts| && pts[i].pinned ==> cur[i] == pts[i]
      invariant forall i :: 0 <= i < |pts| && Detached(sticks, i) ==> cur[i] == pts[i]
    {
      var v := RelaxStick(cur, ss[k], ptr, prm, sqrt);
      if v.Degenerate? {
        return ZeroLength(pass, k);
      }
      cur, ss := v.points, ss[k := v.stick];
    }
    o := Relaxed(cur, ss);
  }

  /** updateSticks: prm.iterations passes, none when the count is not positive. */
  method UpdateSticks(pts: seq<Point>, sticks: seq<Stick>, ptr: Pointer, prm: Params, sqrt: real -> real)
    returns (o: Relaxation)
    requires ValidSticks(sticks, |pts|)
    ensures o == Passes(pts, sticks, ptr, prm, sqrt, 0, prm.iterations)
    ensures prm.iterations <= 0 ==> o == Relaxed(pts, sticks)
    ensures o.ZeroLength? ==> o.pass < prm.iterations && o.index < |sticks|
    ensures o.Relaxed? ==> |o.points| == |pts| && |o.sticks| == |sticks|
    ensures o.Relaxed? ==> forall k :: 0 <= k < |sticks| ==>
              SameLink(o.sticks[k], sticks[k]) && (sticks[k].broken ==> o.sticks[k] == sticks[k])
    ensures o.Relaxed? ==> forall i :: 0 <= i < |pts| ==> SameButPosition(pts[i], o.points[i])
    ensures o.Relaxed? ==> forall i :: 0 <= i < |pts| && pts[i].pinned ==> o.points[i] == pts[i]
    ensures o.Relaxed? ==> forall i :: 0 <= i < |pts| && Detached(sticks, i) ==> o.points[i] == pts[i]
  {
    var passes := if prm.iterations > 0 then prm.iterations else 0;
    var cur, ss := pts, sticks;
    for pass := 0 to passes
      invariant passes == 0 ==> cur == pts && ss == sticks
      invariant |cur| == |pts| && |ss| == |sticks|
      invariant ValidSticks(ss, |cur|)
      invariant Passes(cur, ss, ptr, prm, sqrt, pass, prm.iterations) == Passes(pts, sticks, ptr, prm, sqrt, 0, prm.iterations)
      invariant forall j :: 0 <= j < |sticks| ==>
                  SameLink(ss[j], sticks[j]) && (sticks[j].broken ==> ss[j] == sticks[j])
      invariant forall i :: 0 <= i < |pts| ==> SameButPosition(pts[i], cur[i])
      invariant forall i :: 0 <= i < |pts| && pts[i].pinned ==> cur[i] == pts[i]
      invariant forall i :: 0 <= i < |pts| && Detached(sticks, i) ==> cur[i] == pts[i]
    {
      DetachedPersists(sticks, ss);
      var r := RelaxPass(cur, ss, ptr, prm, sqrt, pass);
      if r.ZeroLength? {
        return r;
      }
      cur, ss := r.points, r.sticks;
    }
    o := Relaxed(cur, ss);
  }

  /** A point detached in the original buffer is still detached once sticks
      have only kept their links and gained broken flags. */
  lemma DetachedPersists(sticks: seq<Stick>, ss: seq<Stick>)
    requires |ss| == |sticks|
    requires forall j :: 0 <= j < |sticks| ==>
               SameLink(ss[j], sticks[j]) && (sticks[j].broken ==> ss[j] == sticks[j])
    ensures forall i: nat :: Detached(sticks, i) ==> Detached(ss, i)
  {
  }
}
