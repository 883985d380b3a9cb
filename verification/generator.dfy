/**
  The cloth generator: lays out a w x h grid of points centred on the canvas,
  pins the top row, and links every point to its left and upper neighbours.
  Points live at index y * w + x; sticks fill a buffer of exactly
  2 * w * h - w - h slots, cell by cell in row-major order, the left link of a
  cell before its up link.
 */
module Generator {
  import opened ClothTypes

  /** The number of sticks of a w x h grid, the size of the stick buffer. */
  function StickCount(w: int, h: int): int {
    2 * w * h - w - h
  }

  /** Row-major index of grid cell (x, y). */
  function PointIndex(w: nat, x: nat, y: nat): nat {
    y * w + x
  }

  /** Number of sticks a cell emits: a left link unless it is in the first
      column, an up link unless it is in the first row. */
  function Emitted(x: nat, y: nat): nat {
    (if x > 0 then 1 else 0) + (if y > 0 then 1 else 0)
  }

  /** The slot of the first stick emitted by cell (x, y): row 0 emits w - 1
      left links, every later row emits one up link for its first cell and
      a left and an up link for each other cell. */
  function CellStart(w: nat, x: nat, y: nat): nat
    requires w >= 1
  {
    if y == 0 then (if x == 0 then 0 else x - 1)
    else
      MulMonotone(0, y - 1, 2 * w - 1);
      (w - 1) + (y - 1) * (2 * w - 1) + (if x == 0 then 0 else 2 * x - 1)
  }

  /** The slot of the up link of cell (x, y), which follows its left link. */
  function UpSlot(w: nat, x: nat, y: nat): nat
    requires w >= 1
  {
    CellStart(w, x, y) + (if x > 0 then 1 else 0)
  }

  /** Top-left corner of a mesh of w x h cells of size d centred on the canvas. */
  function Origin(w: nat, h: nat, d: real): (real, real) {
    ((ScreenWidth - w as real * d) * 0.5, (ScreenHeight - h as real * d) * 0.5)
  }

  /** The freshly generated point of cell (x, y): at rest, pinned on row 0,
      anchored where it stands. */
  function GridPoint(w: nat, h: nat, d: real, x: nat, y: nat): Point {
    var (sx, sy) := Origin(w, h, d);
    var px := sx + x as real * d;
    var py := sy + y as real * d;
    Point(px, py, px, py, y == 0, px, py)
  }

  /** The link from the left neighbour of (x, y) to (x, y). */
  function LeftStick(w: nat, x: nat, y: nat, rest: real): Stick
    requires x > 0
  {
    Stick(PointIndex(w, x - 1, y), PointIndex(w, x, y), rest, false)
  }

  /** The link from the upper neighbour of (x, y) to (x, y). */
  function UpStick(w: nat, x: nat, y: nat, rest: real): Stick
    requires y > 0
  {
    Stick(PointIndex(w, x, y - 1), PointIndex(w, x, y), rest, false)
  }

  /** pts is the generated point buffer of a w x h grid. */
  ghost predicate GridPoints(pts: seq<Point>, w: nat, h: nat, d: real) {
    && |pts| == w * h
    && forall x: nat, y: nat :: x < w && y < h ==>
         PointIndex(w, x, y) < |pts| && pts[PointIndex(w, x, y)] == GridPoint(w, h, d, x, y)
  }

  /** ss is the generated stick buffer of a w x h grid with rest length rest. */
  ghost predicate GridSticks(ss: seq<Stick>, w: nat, h: nat, rest: real)
    requires w >= 1
  {
    && |ss| == StickCount(w, h)
    && (forall x: nat, y: nat :: 0 < x < w && y < h ==>
          CellStart(w, x, y) < |ss| && ss[CellStart(w, x, y)] == LeftStick(w, x, y, rest))
    && (forall x: nat, y: nat :: x < w && 0 < y < h ==>
          UpSlot(w, x, y) < |ss| && ss[UpSlot(w, x, y)] == UpStick(w, x, y, rest))
  }

  // ---------------------------------------------------------------------
  // Index arithmetic

  /** Multiplication by a natural number is monotone. */
  lemma MulMonotone(a: int, b: int, c: nat)
    requires a <= b
    ensures a * c <= b * c
  {
    var e := b - a;
    assert b * c == a * c + e * c;
  }

  lemma PointIndexInRange(w: nat, h: nat, x: nat, y: nat)
    requires x < w && y < h
    ensures PointIndex(w, x, y) < w * h
  {
    MulMonotone(y + 1, h, w);
    assert (y + 1) * w == y * w + w;
  }

  lemma PointIndexUp(w: nat, x: nat, y: nat)
    requires y > 0
    ensures PointIndex(w, x, y - 1) + w == PointIndex(w, x, y)
  {
  }

  lemma PointIndexDistinct(w: nat, x: nat, y: nat, x': nat, y': nat)
    requires x < w && x' < w && (x != x' || y != y')
    ensures PointIndex(w, x, y) != PointIndex(w, x', y')
  {
    if y < y' {
      MulMonotone(y + 1, y', w);
      assert (y + 1) * w == y * w + w;
    } else if y' < y {
      MulMonotone(y' + 1, y, w);
      assert (y' + 1) * w == y' * w + w;
    }
  }

  /** Every index of a w x h buffer is the index of the cell its remainder
      and quotient by w name. */
  lemma PointIndexOnto(w: nat, h: nat, i: nat)
    requires w >= 1 && i < w * h
    ensures i % w < w && i / w < h && PointIndex(w, i % w, i / w) == i
  {
    var q, r := i / w, i % w;
    assert i == q * w + r;
    if h <= q {
      MulMonotone(h, q, w);
    }
  }

  lemma CellStartStep(w: nat, x: nat, y: nat)
    requires w >= 1 && x < w
    ensures CellStart(w, x, y) + Emitted(x, y) == CellStart(w, x + 1, y)
  {
  }

  lemma CellStartRowEnd(w: nat, y: nat)
    requires w >= 1
    ensures CellStart(w, w, y) == CellStart(w, 0, y + 1)
  {
    if y > 0 {
      assert y * (2 * w - 1) == (y - 1) * (2 * w - 1) + (2 * w - 1);
    }
  }

  lemma CellStartGridEnd(w: nat, h: nat)
    requires w >= 1 && h >= 1
    ensures CellStart(w, 0, h) == StickCount(w, h)
  {
    assert (h - 1) * (2 * w - 1) == 2 * w * h - 2 * w - h + 1;
  }

  /** The sticks of every cell fit inside the stick buffer. */
  lemma CellEndWithinBuffer(w: nat, h: nat, x: nat, y: nat)
    requires w >= 1 && x < w && y < h
    ensures CellStart(w, x, y) + Emitted(x, y) <= StickCount(w, h)
  {
    CellStartStep(w, x, y);
    CellStartRowEnd(w, y);
    CellStartGridEnd(w, h);
    assert CellStart(w, x + 1, y) <= CellStart(w, w, y);
    MulMonotone(y, h - 1, 2 * w - 1);
    MulMonotone(0, h - 1, 2 * w - 1);
  }

  /** Every stick slot belongs to one cell: it is either the left link or
      the up link of the cell this lemma names. */
  lemma SlotOwner(w: nat, h: nat, k: nat) returns (x: nat, y: nat, left: bool)
    requires w >= 1 && h >= 1 && k < StickCount(w, h)
    ensures x < w && y < h
    ensures left ==> x > 0 && k == CellStart(w, x, y)
    ensures !left ==> y > 0 && k == UpSlot(w, x, y)
  {
    if k < w - 1 {
      x, y, left := k + 1, 0, true;
    } else {
      var m := 2 * w - 1;
      var j := k - (w - 1);
      var q, r := j / m, j % m;
      DivMod(j, m);
      CellStartGridEnd(w, h);
      if h - 1 <= q {
        MulMonotone(h - 1, q, m);
      }
      y := q + 1;
      if r == 0 {
        x, left := 0, false;
      } else {
        x := (r + 1) / 2;
        left := r % 2 == 1;
      }
      assert CellStart(w, x, y) == (w - 1) + q * m + (if x == 0 then 0 else 2 * x - 1);
    }
  }

  lemma DivMod(j: nat, m: nat)
    requires m > 0
    ensures j == (j / m) * m + j % m && 0 <= j % m < m
  {
  }

  // ---------------------------------------------------------------------
  // Generation

  /** Fills the point buffer row by row, the first loop nest of generateCloth. */
  method GeneratePoints(w: nat, h: nat, d: real, buffer: seq<Point>) returns (pts: seq<Point>)
    requires |buffer| == w * h
    ensures GridPoints(pts, w, h, d)
    ensures forall i :: 0 <= i < |pts| ==> pts[i].oldx == pts[i].x == pts[i].pinx
    ensures forall i :: 0 <= i < |pts| ==> pts[i].oldy == pts[i].y == pts[i].piny
  {
    pts := buffer;
    for y := 0 to h
      invariant |pts| == w * h
      invariant forall x': nat, y': nat :: x' < w && y' < y ==>
                  PointIndex(w, x', y') < |pts| && pts[PointIndex(w, x', y')] == GridPoint(w, h, d, x', y')
    {
      for x := 0 to w
        invariant |pts| == w * h
        invariant forall x': nat, y': nat :: x' < w && y' < y ==>
                    PointIndex(w, x', y') < |pts| && pts[PointIndex(w, x', y')] == GridPoint(w, h, d, x', y')
        invariant forall x': nat :: x' < x ==>
                    PointIndex(w, x', y) < |pts| && pts[PointIndex(w, x', y)] == GridPoint(w, h, d, x', y)
      {
        var i := PointIndex(w, x, y);
        PointIndexInRange(w, h, x, y);
        forall x': nat, y': nat | x' < w && (y' < y || (y' == y && x' < x))
          ensures PointIndex(w, x', y') != i
        {
          PointIndexDistinct(w, x', y', x, y);
        }
        pts := pts[i := GridPoint(w, h, d, x, y)];
      }
    }
    forall i | 0 <= i < |pts|
      ensures pts[i].oldx == pts[i].x == pts[i].pinx && pts[i].oldy == pts[i].y == pts[i].piny
    {
      PointIndexOnto(w, h, i);
    }
  }

  /** Squared distance between horizontally or vertically adjacent generated points. */
  lemma NeighbourDist2(w: nat, h: nat, d: real, p: Point, q: Point, x: nat, y: nat, x': nat, y': nat)
    requires (x' + 1 == x && y' == y) || (x' == x && y' + 1 == y)
    requires p == GridPoint(w, h, d, x, y) && q == GridPoint(w, h, d, x', y')
    ensures Dist2(p.x, p.y, q.x, q.y) == d * d
  {
  }

  /** The rest length the generator computes for the link from cell (x', y')
      to its neighbour (x, y). */
  method NeighbourLength(w: nat, h: nat, d: real, sqrt: real -> real, pts: seq<Point>,
                         x: nat, y: nat, x': nat, y': nat) returns (len: real)
    requires x < w && y < h && ((x' + 1 == x && y' == y) || (x' == x && y' + 1 == y))
    requires GridPoints(pts, w, h, d)
    ensures len == sqrt(d * d)
  {
    PointIndexInRange(w, h, x, y);
    PointIndexInRange(w, h, x', y');
    var p, q := pts[PointIndex(w, x, y)], pts[PointIndex(w, x', y')];
    NeighbourDist2(w, h, d, p, q, x, y, x', y');
    len := sqrt(Dist2(p.x, p.y, q.x, q.y));
  }

  /** A generated stick: it links a lower index to a higher one inside the
      grid, is intact and has the given rest length. */
  predicate FreshStick(s: Stick, pointCount: nat, rest: real) {
    s.p0 < s.p1 < pointCount && !s.broken && s.length == rest
  }

  /** Cell (x', y') comes before cell (x, y) in row-major order. */
  predicate Before(x': nat, y': nat, x: nat, y: nat) {
    y' < y || (y' == y && x' < x)
  }

  /** The sticks of every cell before (x, y) are in place, below slot count. */
  ghost predicate EmittedBefore(ss: seq<Stick>, w: nat, rest: real, count: nat, x: nat, y: nat)
    requires w >= 1
  {
    && (forall x': nat, y': nat :: 0 < x' < w && Before(x', y', x, y) ==>
          CellStart(w, x', y') < count && CellStart(w, x', y') < |ss| &&
          ss[CellStart(w, x', y')] == LeftStick(w, x', y', rest))
    && (forall x': nat, y': nat :: x' < w && 0 < y' && Before(x', y', x, y) ==>
          UpSlot(w, x', y') < count && UpSlot(w, x', y') < |ss| &&
          ss[UpSlot(w, x', y')] == UpStick(w, x', y', rest))
  }

  /** Emitting cell (x, y) at slot start extends what is in place by that cell. */
  lemma EmittedStep(ss: seq<Stick>, ss': seq<Stick>, w: nat, rest: real, start: nat, count: nat, x: nat, y: nat)
    requires w >= 1 && x < w && |ss'| == |ss|
    requires EmittedBefore(ss, w, rest, start, x, y)
    requires start == CellStart(w, x, y) && count == start + Emitted(x, y) <= |ss|
    requires forall k :: 0 <= k < |ss| && !(start <= k < count) ==> ss'[k] == ss[k]
    requires x > 0 ==> ss'[CellStart(w, x, y)] == LeftStick(w, x, y, rest)
    requires y > 0 ==> ss'[UpSlot(w, x, y)] == UpStick(w, x, y, rest)
    ensures EmittedBefore(ss', w, rest, count, x + 1, y)
  {
  }

  lemma EmittedRowEnd(ss: seq<Stick>, w: nat, rest: real, count: nat, y: nat)
    requires w >= 1
    requires EmittedBefore(ss, w, rest, count, w, y)
    ensures EmittedBefore(ss, w, rest, count, 0, y + 1)
  {
  }

  /** Emits the sticks of one cell at slot count: its left link, then its
      up link, as one iteration of the inner stick loop of generateCloth. */
  method EmitCell(w: nat, h: nat, d: real, sqrt: real -> real, pts: seq<Point>,
                  ss: seq<Stick>, count: nat, x: nat, y: nat)
    returns (ss': seq<Stick>, count': nat)
    requires w >= 1 && x < w && y < h
    requires GridPoints(pts, w, h, d)
    requires |ss| == StickCount(w, h) && count == CellStart(w, x, y)
    ensures |ss'| == |ss| && count' == count + Emitted(x, y) == CellStart(w, x + 1, y) <= |ss|
    ensures forall k :: 0 <= k < |ss| && !(count <= k < count') ==> ss'[k] == ss[k]
    ensures forall k :: count <= k < count' ==> FreshStick(ss'[k], w * h, sqrt(d * d))
    ensures x > 0 ==> ss'[CellStart(w, x, y)] == LeftStick(w, x, y, sqrt(d * d))
    ensures y > 0 ==> ss'[UpSlot(w, x, y)] == UpStick(w, x, y, sqrt(d * d))
  {
    CellEndWithinBuffer(w, h, x, y);
    CellStartStep(w, x, y);
    PointIndexInRange(w, h, x, y);
    var here := PointIndex(w, x, y);
    ss', count' := ss, count;
    if x > 0 {
      var len := NeighbourLength(w, h, d, sqrt, pts, x, y, x - 1, y);
      ss' := ss'[count' := Stick(PointIndex(w, x - 1, y), here, len, false)];
      count' := count' + 1;
    }
    if y > 0 {
      var len := NeighbourLength(w, h, d, sqrt, pts, x, y, x, y - 1);
      PointIndexInRange(w, h, x, y - 1);
      PointIndexUp(w, x, y);
      ss' := ss'[count' := Stick(PointIndex(w, x, y - 1), here, len, false)];
      count' := count' + 1;
    }
  }

  /** Emits the sticks of row y, cell by cell. */
  method EmitRow(w: nat, h: nat, d: real, sqrt: real -> real, pts: seq<Point>,
                 ss: seq<Stick>, count: nat, y: nat)
    returns (ss': seq<Stick>, count': nat)
    requires w >= 1 && y < h
    requires GridPoints(pts, w, h, d)
    requires |ss| == StickCount(w, h) && count == CellStart(w, 0, y) <= |ss|
    requires forall k :: 0 <= k < count ==> FreshStick(ss[k], w * h, sqrt(d * d))
    requires EmittedBefore(ss, w, sqrt(d * d), count, 0, y)
    ensures |ss'| == |ss| && count' == CellStart(w, 0, y + 1) <= |ss'|
    ensures forall k :: 0 <= k < count' ==> FreshStick(ss'[k], w * h, sqrt(d * d))
    ensures EmittedBefore(ss', w, sqrt(d * d), count', 0, y + 1)
  {
    var rest := sqrt(d * d);
    ss', count' := ss, count;
    for x := 0 to w
      invariant |ss'| == StickCount(w, h)
      invariant count' == CellStart(w, x, y) <= |ss'|
      invariant forall k :: 0 <= k < count' ==> FreshStick(ss'[k], w * h, rest)
      invariant EmittedBefore(ss', w, rest, count', x, y)
    {
      var prev, start := ss', count';
      ss', count' := EmitCell(w, h, d, sqrt, pts, ss', count', x, y);
      EmittedStep(prev, ss', w, rest, start, count', x, y);
    }
    CellStartRowEnd(w, y);
    EmittedRowEnd(ss', w, rest, count', y);
  }

  /** Emits the sticks row by row, the second loop nest of generateCloth;
      the rest length of each is the distance between its generated
      endpoints, and the running stick counter ends at the buffer size. */
  method GenerateSticks(w: nat, h: nat, d: real, sqrt: real -> real, pts: seq<Point>, buffer: seq<Stick>)
    returns (ss: seq<Stick>, count: nat)
    requires w >= 1 && h >= 1
    requires GridPoints(pts, w, h, d)
    requires |buffer| == StickCount(w, h)
    ensures count == StickCount(w, h)
    ensures GridSticks(ss, w, h, sqrt(d * d))
    ensures forall k :: 0 <= k < |ss| ==> FreshStick(ss[k], w * h, sqrt(d * d))
  {
    var rest := sqrt(d * d);
    ss := buffer;
    count := 0;
    for y := 0 to h
      invariant |ss| == StickCount(w, h)
      invariant count == CellStart(w, 0, y) <= |ss|
      invariant forall k :: 0 <= k < count ==> FreshStick(ss[k], w * h, rest)
      invariant EmittedBefore(ss, w, rest, count, 0, y)
    {
      ss, count := EmitRow(w, h, d, sqrt, pts, ss, count, y);
    }
    CellStartGridEnd(w, h);
  }

  /** Regenerates the whole cloth into the given buffers; whatever they held
      before is overwritten. */
  method GenerateCloth(w: nat, h: nat, d: real, sqrt: real -> real,
                       pointBuffer: seq<Point>, stickBuffer: seq<Stick>)
    returns (pts: seq<Point>, ss: seq<Stick>)
    requires w >= 1 && h >= 1
    requires |pointBuffer| == w * h && |stickBuffer| == StickCount(w, h)
    ensures GridPoints(pts, w, h, d)
    ensures GridSticks(ss, w, h, sqrt(d * d))
    ensures ValidSticks(ss, |pts|)
    ensures forall k :: 0 <= k < |ss| ==> FreshStick(ss[k], w * h, sqrt(d * d))
    ensures IsSqrt(sqrt) && d >= 0.0 ==> forall k :: 0 <= k < |ss| ==> ss[k].length == d
  {
    pts := GeneratePoints(w, h, d, pointBuffer);
    var count;
    ss, count := GenerateSticks(w, h, d, sqrt, pts, stickBuffer);
    if IsSqrt(sqrt) && d >= 0.0 {
      SqrtOfSquare(sqrt, d);
    }
  }

  // ---------------------------------------------------------------------
  // Regeneration

  /** The generated point buffer depends on nothing but w, h and d. */
  lemma {:induction false} GridPointsUnique(a: seq<Point>, b: seq<Point>, w: nat, h: nat, d: real)
    requires GridPoints(a, w, h, d) && GridPoints(b, w, h, d)
    ensures a == b
  {
    forall i | 0 <= i < |a|
      ensures a[i] == b[i]
    {
      PointIndexOnto(w, h, i);
      assert a[PointIndex(w, i % w, i / w)] == b[PointIndex(w, i % w, i / w)];
    }
  }

  /** The generated stick buffer depends on nothing but w, h and the rest length. */
  lemma {:induction false} GridSticksUnique(a: seq<Stick>, b: seq<Stick>, w: nat, h: nat, rest: real)
    requires w >= 1 && h >= 1
    requires GridSticks(a, w, h, rest) && GridSticks(b, w, h, rest)
    ensures a == b
  {
    forall k | 0 <= k < |a|
      ensures a[k] == b[k]
    {
      var x, y, left := SlotOwner(w, h, k);
    }
  }

  /** The engine's default cloth: 60 x 40 points 8 pixels apart make 4700
      sticks of rest length 8 under an exact square root, and the top-left
      point is pinned at (160, 140), centring the 480 x 320 mesh on the canvas. */
  lemma DefaultCloth(sqrt: real -> real, pts: seq<Point>, ss: seq<Stick>)
    requires IsSqrt(sqrt)
    requires GridPoints(pts, DefaultClothWidth, DefaultClothHeight, DefaultSpacing)
    requires GridSticks(ss, DefaultClothWidth, DefaultClothHeight, sqrt(DefaultSpacing * DefaultSpacing))
    ensures |pts| == 2400 && |ss| == 4700
    ensures forall k :: 0 <= k < |ss| ==> ss[k].length == 8.0
    ensures pts[0].x == 160.0 && pts[0].y == 140.0 && pts[0].pinned
  {
    SqrtOfSquare(sqrt, DefaultSpacing);
    assert PointIndex(DefaultClothWidth, 0, 0) == 0;
    forall k | 0 <= k < |ss|
      ensures ss[k].length == 8.0
    {
      var x, y, left := SlotOwner(DefaultClothWidth, DefaultClothHeight, k);
    }
  }
}
