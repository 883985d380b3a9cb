/**
  One frame of the simulation: relax the sticks for the configured number of
  passes, then integrate every point once, all against one pointer snapshot.
  Running frames one after another is the frame loop of the program.
 */
module Simulation {
  import opened ClothTypes
  import Integrator
  import Relaxer

  /** The points' pin flags and anchors are those of the reference buffer. */
  predicate SamePins(ref: seq<Point>, pts: seq<Point>) {
    && |pts| == |ref|
    && forall i :: 0 <= i < |ref| ==>
         pts[i].pinned == ref[i].pinned && pts[i].pinx == ref[i].pinx && pts[i].piny == ref[i].piny
  }

  /** The state a renderer may observe after a frame: pinned points on their
      anchors, free points on the canvas. */
  predicate Settled(pts: seq<Point>) {
    forall i :: 0 <= i < |pts| ==>
      if pts[i].pinned then pts[i].x == pts[i].pinx && pts[i].y == pts[i].piny
      else Integrator.OnCanvas(pts[i])
  }

  /** The sticks keep their links, and every broken stick of the reference
      buffer is still broken. */
  predicate KeptLinks(ref: seq<Stick>, ss: seq<Stick>) {
    && |ss| == |ref|
    && forall k :: 0 <= k < |ref| ==>
         Relaxer.SameLink(ss[k], ref[k]) && (ref[k].broken ==> ss[k].broken)
  }

  /** The outcome of a frame or of a run of frames: the mesh it leaves, or
      the frame, relaxation pass and stick slot at which an intact stick of
      zero length with a free end stopped it. */
  datatype Outcome =
    | Advanced(points: seq<Point>, sticks: seq<Stick>)
    | Stalled(frame: nat, pass: nat, index: nat)

  /** Frame number n of a run, as doFrameProcess computes it: the relaxation
      passes, then the integration of the points they left. */
  function Frame(pts: seq<Point>, sticks: seq<Stick>, ptr: Pointer, prm: Params, sqrt: real -> real,
                 n: nat): (o: Outcome)
    requires ValidSticks(sticks, |pts|)
    ensures o.Stalled? ==> o.frame == n && o.pass < prm.iterations && o.index < |sticks|
    ensures o.Advanced? ==>
              |o.points| == |pts| && ValidSticks(o.sticks, |o.points|) && Settled(o.points)
  {
    match Relaxer.Passes(pts, sticks, ptr, prm, sqrt, 0, prm.iterations)
    case ZeroLength(p, i) => Stalled(n, p, i)
    case Relaxed(rp, rs) => Advanced(Integrator.IntegrateAll(rp, ptr, prm, sqrt), rs)
  }

  /** Frames n, n + 1, ... of a run, one per pointer snapshot, each on the
      mesh the previous one left; the first stalled frame ends the run. */
  function Frames(pts: seq<Point>, sticks: seq<Stick>, frames: seq<Pointer>, prm: Params,
                  sqrt: real -> real, n: nat): (o: Outcome)
    requires ValidSticks(sticks, |pts|)
    ensures o.Stalled? ==> n <= o.frame < n + |frames|
    ensures o.Advanced? ==> |o.points| == |pts| && ValidSticks(o.sticks, |o.points|)
    ensures o.Advanced? && |frames| > 0 ==> Settled(o.points)
    decreases |frames|
  {
    if |frames| == 0 then Advanced(pts, sticks)
    else
      match Frame(pts, sticks, frames[0], prm, sqrt, n)
      case Stalled(f, p, i) => Stalled(f, p, i)
      case Advanced(np, ns) => Frames(np, ns, frames[1..], prm, sqrt, n + 1)
  }

  /** Frame number n (doFrameProcess): relaxation first, then integration of
      the points the relaxation left. */
  method Step(pts: seq<Point>, sticks: seq<Stick>, ptr: Pointer, prm: Params, sqrt: real -> real, n: nat)
    returns (o: Outcome)
    requires ValidSticks(sticks, |pts|)
    ensures o == Frame(pts, sticks, ptr, prm, sqrt, n)
    ensures o.Advanced? ==> SamePins(pts, o.points) && Settled(o.points)
    ensures o.Advanced? ==> KeptLinks(sticks, o.sticks) && ValidSticks(o.sticks, |o.points|)
    ensures o.Stalled? ==> o.frame == n && o.index < |sticks| && o.pass < prm.iterations
  {
    var r := Relaxer.UpdateSticks(pts, sticks, ptr, prm, sqrt);
    if r.ZeroLength? {
      return Stalled(n, r.pass, r.index);
    }
    var moved := Integrator.UpdatePoints(r.points, ptr, prm, sqrt);
    o := Advanced(moved, r.sticks);
  }

  /** The frame loop of the program: one frame per pointer snapshot, stopping
      at the first stalled frame. Whatever the number of frames, pin flags,
      anchors and stick links are kept and broken sticks stay broken; after
      at least one frame every pinned point is on its anchor and every free
      point is on the canvas. */
  method Run(pts: seq<Point>, sticks: seq<Stick>, frames: seq<Pointer>, prm: Params, sqrt: real -> real)
    returns (o: Outcome)
    requires ValidSticks(sticks, |pts|)
    ensures o == Frames(pts, sticks, frames, prm, sqrt, 0)
    ensures o.Advanced? ==> SamePins(pts, o.points) && KeptLinks(sticks, o.sticks)
    ensures o.Advanced? && |frames| > 0 ==> Settled(o.points)
    ensures |frames| == 0 ==> o == Advanced(pts, sticks)
    ensures o.Stalled? ==> o.frame < |frames|
  {
    var cur, ss := pts, sticks;
    for f := 0 to |frames|
      invariant SamePins(pts, cur) && KeptLinks(sticks, ss) && ValidSticks(ss, |cur|)
      invariant f > 0 ==> Settled(cur)
      invariant f == 0 ==> cur == pts && ss == sticks
      invariant Frames(cur, ss, frames[f..], prm, sqrt, f) == Frames(pts, sticks, frames, prm, sqrt, 0)
    {
      assert frames[f..][0] == frames[f] && frames[f..][1..] == frames[f + 1..];
      var r := Step(cur, ss, frames[f], prm, sqrt, f);
      if r.Stalled? {
        return r;
      }
      cur, ss := r.points, r.sticks;
    }
    o := Advanced(cur, ss);
  }
}
