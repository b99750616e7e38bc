/** The points that the drawing loops of lcd/PCD8544.c plot, in the wrapping octet coordinates that
    `my_setpixel` receives. */
module PlottedPoints {
  import opened CArith
  import opened CircleGeometry
  import opened LineGeometry
  import opened Framebuffer

  predicate Octets(p: Point) {
    0 <= p.0 < 256 && 0 <= p.1 < 256
  }

  /** The octet coordinates `p` are those of the point at offset `(dx, dy)` of the ideal circle. */
  ghost predicate OnCircleAt(x0: uint8, y0: uint8, r: int, dx: int, dy: int, p: Point) {
    OnCircle(r, dx, dy) && p == (ToUint8(x0 + dx), ToUint8(y0 + dy))
  }

  /** The ideal circle in the wrapping octet plane. */
  ghost function CirclePoints(x0: uint8, y0: uint8, r: int): iset<Point> {
    iset p: Point | Octets(p) && exists dx, dy :: OnCircleAt(x0, y0, r, dx, dy, p)
  }

  /** Points whose signed octet offset from the centre is on the ideal circle, or on its part up to `x`. */
  ghost function NearCirclePoints(x0: uint8, y0: uint8, r: int): iset<Point> {
    iset p: Point | Octets(p) && OnCircle(r, ToInt8(p.0 - x0), ToInt8(p.1 - y0))
  }

  ghost function CirclePointsUpTo(x0: uint8, y0: uint8, r: int, x: int): iset<Point> {
    iset p: Point | Octets(p) && OnCircleUpTo(r, x, ToInt8(p.0 - x0), ToInt8(p.1 - y0))
  }

  ghost function MirrorPoints(x0: uint8, y0: uint8, x: int, y: int): iset<Point> {
    iset p: Point | Octets(p) && MirrorImage(x, y, ToInt8(p.0 - x0), ToInt8(p.1 - y0))
  }

  /** Adding an offset modulo 256 and reading a signed difference are inverse to each other. */
  lemma WrapInverse(x0: uint8, a: int, px: int)
    requires -128 <= a < 128 && 0 <= px < 256
    ensures px == ToUint8(x0 + a) <==> ToInt8(px - x0) == a
  {
    ToUint8Cases(x0 + a);
    SignedDifference(px - x0);
  }

  /** The eight points that one pass of the circle's loop plots. */
  ghost function EightPoints(x0: uint8, y0: uint8, x: int, y: int): iset<Point> {
    iset{(ToUint8(x0 + x), ToUint8(y0 + y)), (ToUint8(x0 - x), ToUint8(y0 + y)),
         (ToUint8(x0 + x), ToUint8(y0 - y)), (ToUint8(x0 - x), ToUint8(y0 - y)),
         (ToUint8(x0 + y), ToUint8(y0 + x)), (ToUint8(x0 - y), ToUint8(y0 + x)),
         (ToUint8(x0 + y), ToUint8(y0 - x)), (ToUint8(x0 - y), ToUint8(y0 - x))}
  }

  lemma EightPointsMirror(x0: uint8, y0: uint8, x: int, y: int)
    requires 0 <= x < 128 && 0 <= y < 128
    ensures EightPoints(x0, y0, x, y) == MirrorPoints(x0, y0, x, y)
  {
    forall p: Point
      ensures p in EightPoints(x0, y0, x, y) <==> p in MirrorPoints(x0, y0, x, y)
    {
      if Octets(p) { MirrorPoint(x0, y0, x, y, p); }
    }
  }

  lemma MirrorPoint(x0: uint8, y0: uint8, x: int, y: int, p: Point)
    requires 0 <= x < 128 && 0 <= y < 128 && Octets(p)
    ensures p in EightPoints(x0, y0, x, y) <==> p in MirrorPoints(x0, y0, x, y)
  {
    hide ToInt8, ToUint8, MirrorImage;
    MirrorCoordinates(x0, y0, x, y, p);
    MirrorCases(x, y, ToInt8(p.0 - x0), ToInt8(p.1 - y0));
  }

  lemma MirrorCases(x: int, y: int, dx: int, dy: int)
    requires 0 <= x && 0 <= y
    ensures MirrorImage(x, y, dx, dy) <==>
      ((dx == x || dx == -x) && (dy == y || dy == -y)) || ((dx == y || dx == -y) && (dy == x || dy == -x))
  {
  }

  lemma MirrorCoordinates(x0: uint8, y0: uint8, x: int, y: int, p: Point)
    requires 0 <= x < 128 && 0 <= y < 128 && Octets(p)
    ensures var dx, dy := ToInt8(p.0 - x0), ToInt8(p.1 - y0);
      && (p.0 == ToUint8(x0 + x) <==> dx == x) && (p.0 == ToUint8(x0 - x) <==> dx == -x)
      && (p.0 == ToUint8(x0 + y) <==> dx == y) && (p.0 == ToUint8(x0 - y) <==> dx == -y)
      && (p.1 == ToUint8(y0 + x) <==> dy == x) && (p.1 == ToUint8(y0 - x) <==> dy == -x)
      && (p.1 == ToUint8(y0 + y) <==> dy == y) && (p.1 == ToUint8(y0 - y) <==> dy == -y)
  {
    hide ToInt8, ToUint8;
    WrapInverse(x0, x, p.0); WrapInverse(x0, -x, p.0); WrapInverse(x0, y, p.0); WrapInverse(x0, -y, p.0);
    WrapInverse(y0, x, p.1); WrapInverse(y0, -x, p.1); WrapInverse(y0, y, p.1); WrapInverse(y0, -y, p.1);
  }

  lemma CirclePointsStart(x0: uint8, y0: uint8, r: int)
    requires r >= 0
    ensures CirclePointsUpTo(x0, y0, r, 0) == MirrorPoints(x0, y0, 0, r)
  {
    forall p: Point | Octets(p)
      ensures p in CirclePointsUpTo(x0, y0, r, 0) <==> p in MirrorPoints(x0, y0, 0, r)
    {
      CircleStart(r, ToInt8(p.0 - x0), ToInt8(p.1 - y0));
    }
  }

  lemma CirclePointsGrow(x0: uint8, y0: uint8, r: int, x: int, y: int)
    requires Octant(r, x, y) && x < y
    ensures CirclePointsUpTo(x0, y0, r, x + 1)
         == CirclePointsUpTo(x0, y0, r, x) + MirrorPoints(x0, y0, x + 1, NextY(r, x, y))
  {
    forall p: Point | Octets(p)
      ensures p in CirclePointsUpTo(x0, y0, r, x + 1) <==>
              p in CirclePointsUpTo(x0, y0, r, x) + MirrorPoints(x0, y0, x + 1, NextY(r, x, y))
    {
      CircleGrows(r, x, y, ToInt8(p.0 - x0), ToInt8(p.1 - y0));
    }
  }

  /** What the variables of the drawing loop hold between two passes. The increments are kept modulo 256:
      for radii above 64, -2y itself does not fit a signed octet. */
  ghost predicate CircleLoop(r: int, x: int, y: int, f: int, ddFx: int, ddFy: int) {
    && Octant(r, x, y) && (x < y ==> Reached(r, x, y))
    && (x < y ==> f == Decision(r, x, y)) && ddFx == ToInt8(2 * x + 1) && ddFy == ToInt8(-2 * y)
  }

  lemma CircleLoopStart(r: int)
    requires Drawable(r)
    ensures CircleLoop(r, 0, r, ToInt8(1 - r), 1, ToInt8(-2 * r))
  {
    CircleStart(r, 0, r);
  }

  /** The octet arithmetic of a pass that steps inwards before it steps along, ... */
  lemma CircleLoopInwards(r: int, x: int, y: int, f: int, ddFx: int, ddFy: int)
    requires Drawable(r) && x < y && CircleLoop(r, x, y, f, ddFx, ddFy) && f >= 0
    ensures NextY(r, x, y) == y - 1
    ensures var ddFx', ddFy' := ToInt8(ddFx + 2), ToInt8(ddFy + 2);
      CircleLoop(r, x + 1, y - 1, ToInt8(ToInt8(f + ddFy') + ddFx'), ddFx', ddFy')
  {
    CircleStepExact(r, x, y);
    OctetStep(f, x, y);
  }

  /** ... and of one that only steps along. */
  lemma CircleLoopAlong(r: int, x: int, y: int, f: int, ddFx: int, ddFy: int)
    requires Drawable(r) && x < y && CircleLoop(r, x, y, f, ddFx, ddFy) && f < 0
    ensures NextY(r, x, y) == y
    ensures var ddFx' := ToInt8(ddFx + 2);
      CircleLoop(r, x + 1, y, ToInt8(f + ddFx'), ddFx', ddFy)
  {
    CircleStepExact(r, x, y);
    OctetStep(f, x, y);
  }

  /** The same pass over the integers. */
  lemma CircleStepExact(r: int, x: int, y: int)
    requires Drawable(r) && Octant(r, x, y) && x < y && Reached(r, x, y)
    ensures var f, y' := Decision(r, x, y), NextY(r, x, y);
      var g := f - (if f >= 0 then 2 * (y - 1) else 0) + 2 * (x + 1) + 1;
      && y' == (if f >= 0 then y - 1 else y)
      && Octant(r, x + 1, y') && Reached(r, x + 1, y')
      && Decision(r, x + 1, y') == g && ToInt8(g) == g
  {
    OctantStep(r, x, y);
    DecisionFits(r, x, y);
    DecisionStep(r, x, NextY(r, x, y));
    DecisionStep(r, x, y);
  }

  lemma OctetStep(f: int, x: int, y: int)
    ensures var ddFx, ddFy := ToInt8(2 * x + 1), ToInt8(-2 * y);
      && ToInt8(ddFx + 2) == ToInt8(2 * (x + 1) + 1)
      && ToInt8(ddFy + 2) == ToInt8(-2 * (y - 1))
      && ToInt8(f + ToInt8(ddFx + 2)) == ToInt8(f + 2 * (x + 1) + 1)
      && ToInt8(ToInt8(f + ToInt8(ddFy + 2)) + ToInt8(ddFx + 2)) == ToInt8(f - 2 * (y - 1) + 2 * (x + 1) + 1)
  {
    WrapAdd(-2 * y, 2);
    WrapAdd(2 * x + 1, 2);
    WrapAdd(2 * x + 3, f);
    WrapTwice(f, -2 * (y - 1), 2 * (x + 1) + 1);
  }

  /** The variables of the drawing loop. */
  datatype CircleState = CircleState(x: int, y: int, f: int, ddFx: int, ddFy: int)

  /** They after `n` passes, each rounded to a signed octet at every assignment. */
  ghost function CircleRun(r: int, n: nat): CircleState {
    if n == 0 then CircleState(0, ToInt8(r), ToInt8(1 - r), 1, ToInt8(-2 * r))
    else CirclePass(CircleRun(r, n - 1))
  }

  ghost function CirclePass(s: CircleState): CircleState {
    var t := if s.f >= 0 then
        var ddFy := ToInt8(s.ddFy + 2);
        s.(y := ToInt8(s.y - 1), ddFy := ddFy, f := ToInt8(s.f + ddFy))
      else s;
    var ddFx := ToInt8(t.ddFx + 2);
    t.(x := ToInt8(t.x + 1), ddFx := ddFx, f := ToInt8(t.f + ddFx))
  }

  lemma CircleRunStart(r: int)
    ensures CircleRun(r, 0) == CircleState(0, ToInt8(r), ToInt8(1 - r), 1, ToInt8(-2 * r))
  {
  }

  lemma CircleRunStep(r: int, n: nat)
    ensures CircleRun(r, n + 1) == CirclePass(CircleRun(r, n))
  {
  }

  /** A pass counts x up, and keeps what the loop's variables mean. */
  lemma CircleLoopPass(r: int, x: int, y: int, f: int, ddFx: int, ddFy: int)
    requires -128 <= x < 127 && -128 <= y < 128 && x < y
    ensures var t := CirclePass(CircleState(x, y, f, ddFx, ddFy));
      && t.x == x + 1 && x <= t.y <= y
      && (Drawable(r) && CircleLoop(r, x, y, f, ddFx, ddFy) ==>
            t.y == NextY(r, x, y) && CircleLoop(r, t.x, t.y, t.f, t.ddFx, t.ddFy))
  {
    hide CircleLoop;
    if Drawable(r) && CircleLoop(r, x, y, f, ddFx, ddFy) {
      assert Octant(r, x, y) by { CircleLoopOctant(r, x, y, f, ddFx, ddFy); }
      if f >= 0 { CircleLoopInwards(r, x, y, f, ddFx, ddFy); } else { CircleLoopAlong(r, x, y, f, ddFx, ddFy); }
    }
  }

  lemma CircleLoopOctant(r: int, x: int, y: int, f: int, ddFx: int, ddFy: int)
    requires CircleLoop(r, x, y, f, ddFx, ddFy)
    ensures Octant(r, x, y) && 0 <= x && 0 <= y
  {
  }

  lemma {:induction false} RunPointsGrow(x0: uint8, y0: uint8, r: int, k: nat, n: nat)
    requires 0 < k <= n
    ensures MirrorPoints(x0, y0, CircleRun(r, k).x, CircleRun(r, k).y) <= RunPoints(x0, y0, r, n)
    decreases n
  {
    hide CircleRun, MirrorPoints;
    if k < n { RunPointsGrow(x0, y0, r, k, n - 1); }
  }

  predicate FitsInt8(a: int) {
    -128 <= a < 128
  }

  /** Every value that the loop's variables take at a loop point, beyond the diagonal too, fits a signed octet
      exactly when the radius is at most 64; a larger radius overflows the increment at once. */
  lemma NoOctetWraps(r: int)
    requires 0 <= r < 128
    ensures r <= 64 <==>
      forall x, y | Octant(r, x, y) ::
        && FitsInt8(2 * x + 1) && FitsInt8(-2 * y) && FitsInt8(Decision(r, x, y))
        && (Decision(r, x, y) >= 0 && x < y ==> FitsInt8(Decision(r, x, y - 1)))
  {
    if r <= 64 {
      forall x, y | Octant(r, x, y)
        ensures FitsInt8(2 * x + 1) && FitsInt8(-2 * y) && FitsInt8(Decision(r, x, y))
        ensures Decision(r, x, y) >= 0 && x < y ==> FitsInt8(Decision(r, x, y - 1))
      {
        DecisionBounds(r, x, y);
        DecisionStep(r, x, y);
        if x <= y { OctantHeight(r, x, y); } else { BeyondDiagonal(r, x, y); }
      }
    } else {
      CircleStart(r, 0, r);
      assert Octant(r, 0, r) && !FitsInt8(-2 * r);
    }
  }

  /** The last point may lie one step beyond the diagonal, hardly further out than the others. */
  lemma BeyondDiagonal(r: int, x: int, y: int)
    requires 0 <= r <= 64 && Octant(r, x, y) && x > y
    ensures x <= 60
  {
    if x > 60 {
      SquareMono(60, y);
      SquareMono(61, x);
      SquareMono(r, 64);
    }
  }

  lemma WrapTwice(f: int, a: int, b: int)
    ensures ToInt8(ToInt8(f + ToInt8(a)) + ToInt8(b)) == ToInt8(f + a + b)
  {
    WrapAdd(a, f);
    WrapAdd(b, ToInt8(f + a));
    WrapAdd(f + a, b);
  }

  /** The points plotted before the circle's loop. */
  ghost function AxisPoints(x0: uint8, y0: uint8, r: int): iset<Point> {
    iset{(x0, ToUint8(y0 + r)), (x0, ToUint8(y0 - r)), (ToUint8(x0 + r), y0), (ToUint8(x0 - r), y0)}
  }

  lemma AxesAreEight(x0: uint8, y0: uint8, r: int)
    requires 0 <= r < 128
    ensures AxisPoints(x0, y0, r) == MirrorPoints(x0, y0, 0, r)
  {
    hide ToInt8, MirrorPoints;
    EightPointsMirror(x0, y0, 0, r);
    assert ToUint8(x0 + 0) == x0 == ToUint8(x0 - 0) && ToUint8(y0 + 0) == y0 == ToUint8(y0 - 0);
  }

  /** The points that `n` passes plot, whatever the octets do to the variables. */
  ghost function RunPoints(x0: uint8, y0: uint8, r: int, n: nat): iset<Point> {
    if n == 0 then AxisPoints(x0, y0, r)
    else RunPoints(x0, y0, r, n - 1) + MirrorPoints(x0, y0, CircleRun(r, n).x, CircleRun(r, n).y)
  }

  /** The loop is entered at least `n` times. */
  ghost predicate RunGoesOn(r: int, n: nat) {
    forall k: nat :: k < n ==> CircleRun(r, k).x < CircleRun(r, k).y
  }

  /** It is left after exactly `n` passes. */
  ghost predicate RunEnds(r: int, n: nat) {
    RunGoesOn(r, n) && CircleRun(r, n).x >= CircleRun(r, n).y
  }

  lemma RunPointsStep(x0: uint8, y0: uint8, r: int, n: nat)
    ensures RunPoints(x0, y0, r, n + 1)
         == RunPoints(x0, y0, r, n) + MirrorPoints(x0, y0, CircleRun(r, n + 1).x, CircleRun(r, n + 1).y)
  {
  }

  /** At a drawable radius the passes plot the ideal points, column by column. */
  lemma {:induction false} RunFollowsCircle(x0: uint8, y0: uint8, r: int, n: nat)
    requires Drawable(r) && RunGoesOn(r, n)
    ensures var s := CircleRun(r, n);
      s.x == n && CircleLoop(r, s.x, s.y, s.f, s.ddFx, s.ddFy) && Octant(r, s.x, s.y)
    ensures RunPoints(x0, y0, r, n) == CirclePointsUpTo(x0, y0, r, n)
  {
    hide CircleLoop, CirclePass, MirrorPoints, CirclePointsUpTo, AxisPoints, Octant;
    if n == 0 {
      CircleLoopStart(r);
      CircleLoopOctant(r, 0, r, ToInt8(1 - r), 1, ToInt8(-2 * r));
      AxesAreEight(x0, y0, r);
      CirclePointsStart(x0, y0, r);
    } else {
      var s, t := CircleRun(r, n - 1), CircleRun(r, n);
      assert s.x < s.y;
      RunFollowsCircle(x0, y0, r, n - 1);
      assert s.y <= 83 by { OctantBelowRadius(r, s.x, s.y); }
      CircleLoopPass(r, s.x, s.y, s.f, s.ddFx, s.ddFy);
      CircleLoopOctant(r, t.x, t.y, t.f, t.ddFx, t.ddFy);
      CirclePointsGrow(x0, y0, r, s.x, s.y);
      RunPointsStep(x0, y0, r, n - 1);
    }
  }

  lemma OctantBelowRadius(r: int, x: int, y: int)
    requires Octant(r, x, y)
    ensures 0 <= x && y <= r
  {
  }

  /** ... and all of them when the loop is left. */
  lemma RunDrawsCircle(x0: uint8, y0: uint8, r: int, n: nat)
    requires Drawable(r) && RunEnds(r, n)
    ensures RunPoints(x0, y0, r, n) == CirclePoints(x0, y0, r)
  {
    CircleIsNear(x0, y0, r);
    RunFollowsCircle(x0, y0, r, n);
    CirclePointsDone(x0, y0, r, CircleRun(r, n).x, CircleRun(r, n).y);
  }

  lemma CirclePointsDone(x0: uint8, y0: uint8, r: int, x: int, y: int)
    requires Octant(r, x, y) && x >= y
    ensures CirclePointsUpTo(x0, y0, r, x) == NearCirclePoints(x0, y0, r)
  {
    forall p: Point | Octets(p)
      ensures p in CirclePointsUpTo(x0, y0, r, x) <==> p in NearCirclePoints(x0, y0, r)
    {
      CircleDone(r, x, y, ToInt8(p.0 - x0), ToInt8(p.1 - y0));
    }
  }

  lemma CircleWithinRadius(r: int, dx: int, dy: int)
    requires r >= 0 && OnCircle(r, dx, dy)
    ensures Abs(dx) <= r && Abs(dy) <= r
  {
    var a, b := Min(Abs(dx), Abs(dy)), Max(Abs(dx), Abs(dy));
    assert a * a >= 0;
    if b > r { SquareGap(r, b); }
  }

  /** Below radius 128 all offsets of the circle fit a signed octet. */
  lemma CircleIsNear(x0: uint8, y0: uint8, r: int)
    requires 0 <= r < 128
    ensures CirclePoints(x0, y0, r) == NearCirclePoints(x0, y0, r)
  {
    hide OnCircle, ToInt8, ToUint8;
    forall p: Point | Octets(p) ensures p in CirclePoints(x0, y0, r) <==> p in NearCirclePoints(x0, y0, r) {
      NearPoint(x0, y0, r, p);
    }
  }

  lemma NearPoint(x0: uint8, y0: uint8, r: int, p: Point)
    requires 0 <= r < 128 && Octets(p)
    ensures p in CirclePoints(x0, y0, r) <==> p in NearCirclePoints(x0, y0, r)
  {
    hide OnCircle, ToInt8, ToUint8;
    if p in CirclePoints(x0, y0, r) {
      var dx, dy :| OnCircleAt(x0, y0, r, dx, dy, p);
      CircleWithinRadius(r, dx, dy);
      assert -128 <= dx < 128 && -128 <= dy < 128 by { AbsBelow(dx, r); AbsBelow(dy, r); }
      WrapInverse(x0, dx, p.0);
      WrapInverse(y0, dy, p.1);
    }
    if p in NearCirclePoints(x0, y0, r) {
      var dx: int, dy: int := ToInt8(p.0 - x0), ToInt8(p.1 - y0);
      WrapInverse(x0, dx, p.0);
      WrapInverse(y0, dy, p.1);
      assert OnCircleAt(x0, y0, r, dx, dy, p);
    }
  }

  lemma AbsBelow(a: int, r: int)
    requires Abs(a) <= r
    ensures -r <= a <= r
  {
  }

  /** The wrap of the coordinates is invisible: an on-screen pixel is lit exactly when its true offset is
      on the circle, provided the circle does not pass the right and lower end of the octet range. */
  lemma CircleWrapInvisible(x0: uint8, y0: uint8, r: int, px: int, py: int)
    requires 0 <= r < 128 && x0 + r <= 255 && y0 + r <= 255 && OnScreen(px, py)
    ensures (px, py) in CirclePoints(x0, y0, r) <==> OnCircle(r, px - x0, py - y0)
  {
    CircleIsNear(x0, y0, r);
    var dx, dy := ToInt8(px - x0), ToInt8(py - y0);
    SignedDifference(px - x0);
    SignedDifference(py - y0);
    if OnCircle(r, dx, dy) { CircleWithinRadius(r, dx, dy); }
    if OnCircle(r, px - x0, py - y0) { CircleWithinRadius(r, px - x0, py - y0); }
  }

  /** ... and that proviso is exact: a circle that passes x = 255 reappears at the left edge. */
  lemma CircleWrapExact(x0: uint8, y0: uint8, r: int)
    requires 0 <= r <= 84 && y0 < LCD_HEIGHT
    ensures x0 + r <= 255 <==>
      forall px, py | OnScreen(px, py) :: (px, py) in CirclePoints(x0, y0, r) <==> OnCircle(r, px - x0, py - y0)
  {
    if x0 + r <= 255 {
      forall px, py | OnScreen(px, py)
        ensures (px, py) in CirclePoints(x0, y0, r) <==> OnCircle(r, px - x0, py - y0)
      {
        CircleWrapInvisible(x0, y0, r, px, py);
      }
    } else {
      CircleIsNear(x0, y0, r);
      var px := x0 + r - 256;
      CircleStart(r, r, 0);
      assert ToInt8(px - x0) == r && ToInt8(y0 - y0) == 0 && OnScreen(px, y0);
      assert (px, y0) in CirclePoints(x0, y0, r);
      if OnCircle(r, px - x0, 0) { CircleWithinRadius(r, px - x0, 0); }
      assert !OnCircle(r, px - x0, y0 - y0);
    }
  }

  /** The points of the segment. */
  ghost function SegmentPoints(x0: int, y0: int, x1: int, y1: int): iset<Point> {
    iset p: Point | OnSegment(x0, y0, x1, y1, p.0, p.1)
  }

  /** What the variables of the line's loop hold when column `x` is drawn. */
  ghost predicate LineLoop(o: Ordered, x: int, y: int, err: int)
    requires o.x0 <= x
  {
    && y == o.Minor(HeightAt(o.Dx(), o.Dy(), x - o.x0))
    && err == ToInt8(ErrorAt(o.Dx(), o.Dy(), x - o.x0))
  }

  /** The octet test reads the sign of the exact error. */
  predicate SignRead(dy: int, e: int) {
    ToInt8(ToInt8(e) - dy) < 0 <==> e - dy < 0
  }

  /** It does so for every error term exactly if neither dy nor dx - dy exceeds 128. */
  lemma SignTestExact(dx: int, dy: int)
    requires 0 <= dy <= dx < 256 && dx > 0
    ensures (forall e :: 0 <= e < dx ==> SignRead(dy, e)) <==> dy <= 128 && dx - dy <= 128
  {
    forall e | 0 <= e < dx ensures ToInt8(ToInt8(e) - dy) == ToInt8(e - dy) { WrapAdd(e, -dy); }
    if dy > 128 {
      assert !SignRead(dy, 0) by { SignedDifference(-dy); }
    } else if dx - dy > 128 {
      assert !SignRead(dy, dx - 1) by { SignedDifference(dx - 1 - dy); }
    } else {
      forall e | 0 <= e < dx ensures SignRead(dy, e) { SignedDifference(e - dy); }
    }
  }

  lemma ErrorStep(dx: int, dy: int, i: nat)
    ensures var down := ErrorAt(dx, dy, i) - dy;
      && ErrorAt(dx, dy, i + 1) == (if down < 0 then down + dx else down)
      && HeightAt(dx, dy, i + 1) == HeightAt(dx, dy, i) + (if down < 0 then 1 else 0)
  {
  }

  /** The octet arithmetic of one pass, where the sign that it tests is the sign of the exact error. */
  lemma LineLoopStep(o: Ordered, x: int, y: int, err: int)
    requires OctetEnds(o) && o.x0 <= x < o.x1 && LineLoop(o, x, y, err)
    requires SignRead(o.Dy(), ErrorAt(o.Dx(), o.Dy(), x - o.x0))
    ensures var (y', e) := LinePass(o, (y, err)); LineLoop(o, x + 1, y', e)
  {
    hide ErrorAt, HeightAt, ToInt8;
    var i, dx, dy := x - o.x0, o.Dx(), o.Dy();
    var e := ErrorAt(dx, dy, i);
    LoopBounds(dx, dy, i);
    LoopBounds(dx, dy, i + 1);
    ErrorStep(dx, dy, i);
    WrapAdd(e, -dy);
    WrapAdd(e - dy, dx);
  }

  /** Where the sign is misread, the pass steps when it should not, or the other way round. */
  lemma LineLoopMisstep(o: Ordered, x: int, y: int, err: int)
    requires OctetEnds(o) && o.x0 <= x < o.x1 && LineLoop(o, x, y, err)
    requires !SignRead(o.Dy(), ErrorAt(o.Dx(), o.Dy(), x - o.x0))
    ensures LinePass(o, (y, err)).0 != o.Minor(HeightAt(o.Dx(), o.Dy(), x + 1 - o.x0))
  {
    hide ErrorAt, HeightAt, ToInt8;
    var i, dx, dy := x - o.x0, o.Dx(), o.Dy();
    LoopBounds(dx, dy, i);
    ErrorStep(dx, dy, i);
  }

  /** The ends of a segment in octets, ordered. */
  predicate OctetEnds(o: Ordered) {
    0 <= o.x0 <= o.x1 < 256 && 0 <= o.y0 < 256 && 0 <= o.y1 < 256 && o.Dy() <= o.Dx()
  }

  /** The octets read the sign of the first `n` error terms. */
  ghost predicate SignsRead(o: Ordered, n: int) {
    forall i: nat :: i < n ==> SignRead(o.Dy(), ErrorAt(o.Dx(), o.Dy(), i))
  }

  /** The minor coordinate and the error term of the line's loop after `i` passes, each rounded at every
      assignment. */
  ghost function LineRun(o: Ordered, i: nat): (int, int) {
    if i == 0 then (o.y0, ToInt8(o.Dx() / 2)) else LinePass(o, LineRun(o, i - 1))
  }

  ghost function LinePass(o: Ordered, s: (int, int)): (int, int) {
    var e := ToInt8(s.1 - o.Dy());
    if e < 0 then (ToUint8(s.0 + o.YStep()), ToInt8(e + o.Dx())) else (s.0, e)
  }

  /** The points that the passes before major coordinate `x` plot, whatever the octets do to the error. */
  ghost function LineRunPoints(o: Ordered, x: int): iset<Point> {
    iset p: Point | var major, minor := if o.steep then p.1 else p.0, if o.steep then p.0 else p.1;
      o.x0 <= major < x && minor == LineRun(o, major - o.x0).0
  }

  lemma LineRunPointsGrow(o: Ordered, x: int)
    requires o.x0 <= x
    ensures var minor := LineRun(o, x - o.x0).0;
      LineRunPoints(o, x + 1) == LineRunPoints(o, x) + iset{if o.steep then (minor, x) else (x, minor)}
  {
    hide LineRun;
  }

  lemma LineRunStep(o: Ordered, i: nat)
    ensures LineRun(o, i + 1) == LinePass(o, LineRun(o, i))
  {
  }

  lemma LineRunStart(o: Ordered)
    requires 0 <= o.x0 <= o.x1 < 256 && 0 <= o.y0 < 256 && 0 <= o.y1 < 256
    ensures ToUint8(o.x1 - o.x0) == o.Dx() && ToUint8(Abs(o.y1 - o.y0)) == o.Dy()
    ensures (o.y0, ToInt8(o.Dx() / 2)) == LineRun(o, 0) && LineRunPoints(o, o.x0) == iset{}
  {
  }

  /** While the sign test is right, the passes follow the ideal line. */
  lemma {:induction false} LineRunFollowsLine(o: Ordered, i: nat)
    requires OctetEnds(o) && i <= o.Dx() && SignsRead(o, i)
    ensures LineLoop(o, o.x0 + i, LineRun(o, i).0, LineRun(o, i).1)
  {
    hide LinePass, LineLoop, SignRead, ErrorAt;
    if i == 0 {
      assert LineLoop(o, o.x0, o.y0, ToInt8(o.Dx() / 2)) by { LineLoopBegin(o); }
    } else {
      LineRunFollowsLine(o, i - 1);
      var s := LineRun(o, i - 1);
      assert SignRead(o.Dy(), ErrorAt(o.Dx(), o.Dy(), i - 1));
      LineLoopStep(o, o.x0 + i - 1, s.0, s.1);
      assert LineRun(o, i) == LinePass(o, s);
    }
  }

  lemma LineLoopBegin(o: Ordered)
    requires OctetEnds(o)
    ensures LineLoop(o, o.x0, o.y0, ToInt8(o.Dx() / 2))
  {
  }

  /** Where the loop is at major coordinate `x`, and nowhere else, the ideal line is. */
  lemma LineRunPoint(o: Ordered, x: int, y: int)
    requires OctetEnds(o) && SignsRead(o, o.Dx())
    ensures o.x0 <= x <= o.x1 && y == LineRun(o, x - o.x0).0 <==> OnLine(o.Dx(), o.Dy(), x - o.x0, o.Height(y))
  {
    hide LineRun, HeightAt, ErrorAt, SignRead;
    if o.x0 <= x <= o.x1 {
      var i := x - o.x0;
      var k := HeightAt(o.Dx(), o.Dy(), i);
      LineRunFollowsLine(o, i);
      LoopFollowsLine(o.Dx(), o.Dy(), i);
      if OnLine(o.Dx(), o.Dy(), i, o.Height(y)) {
        LineUnique(o.Dx(), o.Dy(), i, o.Height(y), k);
      }
    }
  }

  /** The first misread sign puts the next point beside the line. */
  lemma {:induction false} LineRunLeavesLine(o: Ordered, n: nat) returns (x: int)
    requires OctetEnds(o) && n <= o.Dx() && !SignsRead(o, n)
    ensures o.x0 <= x <= o.x1 && LineRun(o, x - o.x0).0 != o.Minor(HeightAt(o.Dx(), o.Dy(), x - o.x0))
  {
    hide LinePass, LineLoop, SignRead, ErrorAt, HeightAt;
    if SignsRead(o, n - 1) {
      var s := LineRun(o, n - 1);
      assert !SignRead(o.Dy(), ErrorAt(o.Dx(), o.Dy(), n - 1));
      LineRunFollowsLine(o, n - 1);
      LineLoopMisstep(o, o.x0 + n - 1, s.0, s.1);
      assert LineRun(o, n) == LinePass(o, s);
      x := o.x0 + n;
    } else {
      x := LineRunLeavesLine(o, n - 1);
    }
  }

  /** The loop plots the ideal line exactly if the octets read the sign of every error term on it. */
  lemma LineRunDrawsSegment(x0: uint8, y0: uint8, x1: uint8, y1: uint8)
    ensures var o := Order(x0, y0, x1, y1);
      LineRunPoints(o, o.x1 + 1) == SegmentPoints(x0, y0, x1, y1) <==> SignsRead(o, o.Dx())
  {
    hide LineLoop, LineRun, OnLine, SignsRead;
    var o := Order(x0, y0, x1, y1);
    if SignsRead(o, o.Dx()) {
      forall p: Point ensures p in LineRunPoints(o, o.x1 + 1) <==> p in SegmentPoints(x0, y0, x1, y1) {
        LineRunPoint(o, if o.steep then p.1 else p.0, if o.steep then p.0 else p.1);
      }
    } else {
      var x := LineRunLeavesLine(o, o.Dx());
      var k := HeightAt(o.Dx(), o.Dy(), x - o.x0);
      LoopFollowsLine(o.Dx(), o.Dy(), x - o.x0);
      var p: Point := if o.steep then (o.Minor(k), x) else (x, o.Minor(k));
      assert o.Height(o.Minor(k)) == k;
      assert p in SegmentPoints(x0, y0, x1, y1) && p !in LineRunPoints(o, o.x1 + 1);
    }
  }

  /** The octets do so for all lines on which neither dy nor dx - dy exceeds 128, ... */
  lemma ShortLineRead(o: Ordered)
    requires OctetEnds(o) && o.Dy() <= 128 && o.Dx() - o.Dy() <= 128
    ensures SignsRead(o, o.Dx())
  {
    hide SignRead, ErrorAt;
    forall i: nat | i < o.Dx() ensures SignRead(o.Dy(), ErrorAt(o.Dx(), o.Dy(), i)) {
      LoopBounds(o.Dx(), o.Dy(), i);
      SignTestExact(o.Dx(), o.Dy());
    }
  }

  /** ... but not, for example, on the line from the origin to (254, 100). */
  lemma LongLineMisread()
    ensures !SignsRead(Order(0, 0, 254, 100), 254)
  {
    var o := Order(0, 0, 254, 100);
    assert ErrorAt(254, 100, 2) == 181 && ErrorAt(254, 100, 4) == 235;
    SignedDifference(235);
    assert !SignRead(o.Dy(), ErrorAt(o.Dx(), o.Dy(), 4));
  }
}
