/** For which radii the loop of `LCDdrawcircle` draws the circle: exactly up to 76, and 82 and 83. */
module CircleRadii {
  import opened CArith
  import opened CircleGeometry
  import opened Framebuffer
  import opened PlottedPoints

  /** The first column in which the loop steps inwards at a radius between 77 and 127. */
  function FirstInwards(r: int): int {
    if r <= 81 then 8 else if r <= 100 then 9 else if r <= 121 then 10 else 11
  }

  /** Until then y stays at r, and the variables are exact but for -2r, which wraps once. */
  lemma {:induction false} FlatRun(r: int, n: nat)
    requires 77 <= r < 128 && n <= FirstInwards(r)
    ensures CircleRun(r, n) == CircleState(n, r, (n + 1) * (n + 1) - r, 2 * n + 1, 256 - 2 * r)
  {
    hide CircleRun, CirclePass;
    if n == 0 {
      CircleRunStart(r);
    } else {
      FlatRun(r, n - 1);
      CircleRunStep(r, n - 1);
      StillFlat(r, n);
      FlatPass(n - 1, r, n * n - r, 256 - 2 * r);
    }
  }

  lemma FlatPass(n: nat, y: int, f: int, ddFy: int)
    requires n <= 20 && -128 <= f < 0 && f + 2 * n + 3 < 128
    ensures CirclePass(CircleState(n, y, f, 2 * n + 1, ddFy)) == CircleState(n + 1, y, f + 2 * n + 3, 2 * n + 3, ddFy)
  {
  }

  lemma StillFlat(r: int, n: nat)
    requires 77 <= r < 128 && 0 < n <= FirstInwards(r)
    ensures n * n - r < 0 && n * n - r + 2 * n + 1 < 128
    ensures (n + 1) * (n + 1) == n * n + 2 * n + 1
  {
    SquareMono(n, FirstInwards(r));
    SquareSucc(n);
  }

  lemma FirstInwardsDecision(r: int)
    requires 77 <= r < 128
    ensures var k := FirstInwards(r);
      && (k + 1) * (k + 1) >= r
      && (!Drawable(r) ==> -256 <= (k + 2) * (k + 2) - 3 * r + 2 < -128)
  {
  }

  /** What a pass makes of the decision variable when it steps inwards. */
  lemma InwardsWraps(f: int, ddFy: int, ddFx: int)
    ensures ToInt8(ToInt8(f + ddFy) + ddFx) == ToInt8(f + ddFy + ddFx - 256)
  {
    WrapAdd(f + ddFy, ddFx);
    WrapPeriod(f + ddFy + ddFx, -1);
  }

  /** The pass that steps inwards for the first time. */
  lemma FirstInwardsPass(r: int)
    requires 77 <= r < 128
    ensures var k := FirstInwards(r);
      CircleRun(r, k + 1)
      == CircleState(k + 1, r - 1, ToInt8((k + 2) * (k + 2) - 3 * r + 2), 2 * k + 3, 258 - 2 * r)
  {
    hide CircleRun, ToInt8;
    var k := FirstInwards(r);
    FlatRun(r, k);
    FirstInwardsDecision(r);
    CircleRunStep(r, k);
    InwardsWraps((k + 1) * (k + 1) - r, 258 - 2 * r, 2 * k + 3);
    SquareSucc(k + 1);
  }

  /** The decision variable is then below -128, unless the radius is 82 or 83, and wraps to a positive value:
      the next pass steps inwards as well. */
  lemma SecondInwardsPass(r: int)
    requires 77 <= r < 128 && !Drawable(r)
    ensures var k := FirstInwards(r);
      && RunGoesOn(r, k + 2)
      && CircleRun(r, k + 2).x == k + 2 && CircleRun(r, k + 2).y == r - 2
  {
    hide CircleRun;
    var k := FirstInwards(r);
    FirstInwardsPass(r);
    FirstInwardsDecision(r);
    WrapPeriod((k + 2) * (k + 2) - 3 * r + 2, 1);
    CircleRunStep(r, k + 1);
    forall m: nat | m < k + 2 ensures CircleRun(r, m).x < CircleRun(r, m).y {
      if m <= k { FlatRun(r, m); }
    }
  }

  /** The point that it plots is too far inside. */
  lemma NotOnCircle(r: int)
    requires 77 <= r < 128
    ensures !OnCircle(r, FirstInwards(r) + 2, r - 2)
  {
  }

  /** So the circle is drawn wrong, wherever its centre is. */
  lemma LargeCircleWrong(x0: uint8, y0: uint8, r: int, n: nat)
    requires 77 <= r < 128 && !Drawable(r) && RunEnds(r, n)
    ensures RunPoints(x0, y0, r, n) != CirclePoints(x0, y0, r)
  {
    hide CircleRun, RunPoints, OnCircle;
    CircleIsNear(x0, y0, r);
    var k := FirstInwards(r);
    SecondInwardsPass(r);
    NotOnCircle(r);
    assert n < k + 2 ==> CircleRun(r, n).x < CircleRun(r, n).y;
    RunPointsGrow(x0, y0, r, k + 2, n);
    var p: Point := (ToUint8(x0 + (k + 2)), ToUint8(y0 + (r - 2)));
    WrapInverse(x0, k + 2, p.0);
    WrapInverse(y0, r - 2, p.1);
    assert p in MirrorPoints(x0, y0, k + 2, r - 2) && p !in CirclePoints(x0, y0, r);
  }

  /** From radius 128 on y is negative, so only the points on the axes are plotted, ... */
  lemma HugeRunEnds(r: uint8, n: nat)
    requires r >= 128 && RunEnds(r, n)
    ensures n == 0
  {
    CircleRunStart(r);
    assert n > 0 ==> CircleRun(r, 0).x < CircleRun(r, 0).y;
  }

  /** ... and they are not the circle, which has points beside the axes. */
  lemma HugeCircleWrong(x0: uint8, y0: uint8, r: uint8)
    requires r >= 128
    ensures AxisPoints(x0, y0, r) != CirclePoints(x0, y0, r)
  {
    var p: Point := (ToUint8(x0 + 1), ToUint8(y0 + r));
    assert NearestRoot(r * r - 1 * 1, r) by { SquareMono(2, r); assert r * r - r == r * (r - 1); }
    assert OnCircleAt(x0, y0, r, 1, r, p);
    assert p in CirclePoints(x0, y0, r) && p !in AxisPoints(x0, y0, r);
  }

  /** A circle of radius 96 or more around a point of the screen has no point on the screen. */
  lemma BeyondScreen(x0: int, y0: int, r: int, px: int, py: int)
    requires OnScreen(x0, y0) && OnScreen(px, py) && r >= 96
    ensures !OnCircle(r, px - x0, py - y0)
  {
    var a, b := Min(Abs(px - x0), Abs(py - y0)), Max(Abs(px - x0), Abs(py - y0));
    SquareMono(a, 47);
    SquareMono(b, 83);
    SquareMono(96, r);
  }

  /** There the picture is right exactly if nothing that is plotted is on the screen. */
  lemma FarCircleShown(points: iset<Point>, x0: uint8, y0: uint8, r: int)
    requires OnScreen(x0, y0) && r >= 96
    ensures ShowsCircle(points, x0, y0, r) <==> forall px, py | OnScreen(px, py) :: (px, py) !in points
  {
    hide OnCircle;
    forall px, py | OnScreen(px, py) ensures !OnCircle(r, px - x0, py - y0) { BeyondScreen(x0, y0, r, px, py); }
  }

  /** No axis point wraps onto the screen. */
  predicate AxesStayOff(x0: int, y0: int, r: int) {
    x0 + r <= 255 && r <= x0 + 172 && y0 + r <= 255 && r <= y0 + 208
  }

  /** What is visible of `points` is what is visible of the true circle around the centre. */
  ghost predicate ShowsCircle(points: iset<Point>, x0: uint8, y0: uint8, r: int) {
    forall px, py | OnScreen(px, py) :: (px, py) in points <==> OnCircle(r, px - x0, py - y0)
  }

  /** Around a centre on the screen: a drawable circle is always shown right, although it is plotted in
      wrapping coordinates; ... */
  lemma DrawableShown(x0: uint8, y0: uint8, r: uint8, n: nat)
    requires OnScreen(x0, y0) && Drawable(r) && RunEnds(r, n)
    ensures ShowsCircle(RunPoints(x0, y0, r, n), x0, y0, r)
  {
    hide RunPoints, CirclePoints, OnCircle, RunEnds;
    RunDrawsCircle(x0, y0, r, n);
    forall px, py | OnScreen(px, py)
      ensures (px, py) in CirclePoints(x0, y0, r) <==> OnCircle(r, px - x0, py - y0)
    {
      CircleWrapInvisible(x0, y0, r, px, py);
    }
  }

  /** ... and from radius 128 on the picture is right, namely empty, exactly if no axis point wraps onto the
      screen. */
  lemma HugeShown(x0: uint8, y0: uint8, r: uint8, n: nat)
    requires OnScreen(x0, y0) && r >= 128 && RunEnds(r, n)
    ensures ShowsCircle(RunPoints(x0, y0, r, n), x0, y0, r) <==> AxesStayOff(x0, y0, r)
  {
    hide OnCircle, RunEnds, AxisPoints;
    HugeRunEnds(r, n);
    RunPointsStart(x0, y0, r);
    FarCircleShown(AxisPoints(x0, y0, r), x0, y0, r);
    if AxesStayOff(x0, y0, r) {
      forall px, py | OnScreen(px, py) ensures (px, py) !in AxisPoints(x0, y0, r) {
        AxesOff(x0, y0, r, px, py);
      }
    } else {
      var p := AxesOn(x0, y0, r);
      assert OnScreen(p.0, p.1) && (p.0, p.1) in AxisPoints(x0, y0, r);
    }
  }

  lemma AxesOff(x0: uint8, y0: uint8, r: uint8, px: int, py: int)
    requires OnScreen(x0, y0) && r >= 128 && OnScreen(px, py) && AxesStayOff(x0, y0, r)
    ensures (px, py) !in AxisPoints(x0, y0, r)
  {
    hide ToUint8;
    ToUint8Cases(x0 + r);
    ToUint8Cases(x0 - r);
    ToUint8Cases(y0 + r);
    ToUint8Cases(y0 - r);
  }

  lemma AxesOn(x0: uint8, y0: uint8, r: uint8) returns (p: Point)
    requires OnScreen(x0, y0) && r >= 128 && !AxesStayOff(x0, y0, r)
    ensures OnScreen(p.0, p.1) && p in AxisPoints(x0, y0, r)
  {
    hide ToUint8;
    ToUint8Cases(x0 + r);
    ToUint8Cases(x0 - r);
    ToUint8Cases(y0 + r);
    ToUint8Cases(y0 - r);
    p := if x0 + r > 255 then (ToUint8(x0 + r), y0)
         else if r > x0 + 172 then (ToUint8(x0 - r), y0)
         else if y0 + r > 255 then (x0, ToUint8(y0 + r))
         else (x0, ToUint8(y0 - r));
  }

  /** For every radius: what the loop plots is the circle exactly if the radius is at most 76, or 82, or 83. */
  lemma CircleDrawnExactly(x0: uint8, y0: uint8, r: uint8, n: nat)
    requires RunEnds(r, n)
    ensures RunPoints(x0, y0, r, n) == CirclePoints(x0, y0, r) <==> Drawable(r)
  {
    hide RunEnds, RunPoints, CirclePoints, AxisPoints;
    if Drawable(r) {
      RunDrawsCircle(x0, y0, r, n);
    } else if r < 128 {
      LargeCircleWrong(x0, y0, r, n);
    } else {
      HugeRunEnds(r, n);
      assert RunPoints(x0, y0, r, 0) == AxisPoints(x0, y0, r) by { RunPointsStart(x0, y0, r); }
      HugeCircleWrong(x0, y0, r);
    }
  }

  lemma RunPointsStart(x0: uint8, y0: uint8, r: int)
    ensures RunPoints(x0, y0, r, 0) == AxisPoints(x0, y0, r)
  {
  }
}
