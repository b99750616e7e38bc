/** Bresenham's line over the integers: what the error term of `LCDdrawline` means, and which lattice
    points it selects. */
module LineGeometry {
  import opened CArith
  import opened CircleGeometry

  /** The ideal digital line of slope dy/dx: at `i` along the major axis the height is `dy * i / dx`
      rounded to the nearest integer, ties towards the start. */
  ghost predicate OnLine(dx: int, dy: int, i: int, k: int) {
    && 0 <= i <= dx
    && if dx == 0 then k == 0 else -dx <= 2 * (dx * k - dy * i) < dx
  }

  /** The value of the error term when height `k` is drawn at `i`. */
  function ErrorTerm(dx: int, dy: int, i: int, k: int): int {
    dx / 2 + dx * k - dy * i
  }

  lemma ErrorTermRange(dx: int, dy: int, i: int, k: int)
    requires 0 <= i <= dx && dx > 0
    ensures OnLine(dx, dy, i, k) <==> 0 <= ErrorTerm(dx, dy, i, k) < dx
  {
    var e := dx * k - dy * i;
    assert dx == 2 * (dx / 2) || dx == 2 * (dx / 2) + 1;
  }

  lemma LineUnique(dx: int, dy: int, i: int, k: int, h: int)
    requires OnLine(dx, dy, i, k) && OnLine(dx, dy, i, h)
    ensures k == h
  {
    if dx > 0 && k < h { MultipleGap(dx, k, h); }
    if dx > 0 && h < k { MultipleGap(dx, h, k); }
  }

  lemma MultipleGap(d: int, a: int, b: int)
    requires d >= 0 && a < b
    ensures d * a + d <= d * b
  {
    MulMono(d, a + 1, b);
    assert d * (a + 1) == d * a + d;
  }

  /** Both ends of the segment belong to the line. */
  lemma LineEnds(dx: int, dy: int)
    requires 0 <= dy <= dx
    ensures OnLine(dx, dy, 0, 0) && OnLine(dx, dy, dx, dy)
  {
  }

  /** The height stays between those of the ends. */
  lemma LineRange(dx: int, dy: int, i: int, k: int)
    requires 0 <= dy <= dx && OnLine(dx, dy, i, k)
    ensures 0 <= k <= dy
  {
    if dx > 0 {
      MulMono(dy, 0, i);
      MulMono(dy, i, dx);
      if k < 0 { MultipleGap(dx, k, 0); }
      if k > dy { MultipleGap(dx, dy, k); }
    }
  }

  /** One pass of the loop: subtract dy, and on a negative result add dx and step the height. */
  lemma LineStep(dx: int, dy: int, i: int, k: int)
    requires 0 <= dy <= dx && i < dx && OnLine(dx, dy, i, k)
    ensures var e := ErrorTerm(dx, dy, i, k);
      var up := if e - dy < 0 then 1 else 0;
      && ErrorTerm(dx, dy, i + 1, k + up) == e - dy + up * dx
      && OnLine(dx, dy, i + 1, k + up)
  {
    var e := ErrorTerm(dx, dy, i, k);
    var up := if e - dy < 0 then 1 else 0;
    ErrorTermRange(dx, dy, i, k);
    assert dx * (k + up) == dx * k + dx * up;
    assert dy * (i + 1) == dy * i + dy;
    ErrorTermRange(dx, dy, i + 1, k + up);
  }

  /** The error term and the height at `i`, as the loop computes them without a product. */
  ghost function ErrorAt(dx: int, dy: int, i: nat): int {
    if i == 0 then dx / 2
    else
      var e := ErrorAt(dx, dy, i - 1) - dy;
      if e < 0 then e + dx else e
  }

  ghost function HeightAt(dx: int, dy: int, i: nat): int {
    if i == 0 then 0
    else HeightAt(dx, dy, i - 1) + if ErrorAt(dx, dy, i - 1) - dy < 0 then 1 else 0
  }

  /** They are the error term and the height of the ideal line. */
  lemma {:induction false} LoopFollowsLine(dx: int, dy: int, i: nat)
    requires 0 <= dy <= dx && i <= dx
    ensures OnLine(dx, dy, i, HeightAt(dx, dy, i))
    ensures ErrorAt(dx, dy, i) == ErrorTerm(dx, dy, i, HeightAt(dx, dy, i))
    ensures dx > 0 ==> 0 <= ErrorAt(dx, dy, i) < dx
    ensures 0 <= HeightAt(dx, dy, i) <= dy
  {
    if i == 0 {
      LineEnds(dx, dy);
    } else {
      LoopFollowsLine(dx, dy, i - 1);
      LineStep(dx, dy, i - 1, HeightAt(dx, dy, i - 1));
    }
    LineRange(dx, dy, i, HeightAt(dx, dy, i));
    if dx > 0 { ErrorTermRange(dx, dy, i, HeightAt(dx, dy, i)); }
  }

  lemma LoopBounds(dx: int, dy: int, i: nat)
    requires 0 <= dy <= dx && i <= dx
    ensures dx > 0 ==> 0 <= ErrorAt(dx, dy, i) < dx
    ensures 0 <= HeightAt(dx, dy, i) <= dy
  {
    LoopFollowsLine(dx, dy, i);
  }

  /** The end points exchanged so that the major axis comes first and ascends. */
  datatype Ordered = Ordered(steep: bool, x0: int, y0: int, x1: int, y1: int)
  {
    function Dx(): int { x1 - x0 }
    function Dy(): int { Abs(y1 - y0) }
    function YStep(): int { if y0 < y1 then 1 else -1 }

    /** The minor coordinate at height `k`, and the height of a minor coordinate. */
    function Minor(k: int): int { if y0 < y1 then y0 + k else y0 - k }
    function Height(y: int): int { if y0 < y1 then y - y0 else y0 - y }
  }

  function Order(x0: int, y0: int, x1: int, y1: int): (o: Ordered)
    ensures 0 <= o.Dy() <= o.Dx()
  {
    if Abs(y1 - y0) > Abs(x1 - x0) then
      if y0 > y1 then Ordered(true, y1, x1, y0, x0) else Ordered(true, y0, x0, y1, x1)
    else
      if x0 > x1 then Ordered(false, x1, y1, x0, y0) else Ordered(false, x0, y0, x1, y1)
  }

  /** The pixels of the segment between two points of the plane. */
  ghost predicate OnSegment(x0: int, y0: int, x1: int, y1: int, px: int, py: int) {
    var o := Order(x0, y0, x1, y1);
    var major, minor := if o.steep then py else px, if o.steep then px else py;
    OnLine(o.Dx(), o.Dy(), major - o.x0, o.Height(minor))
  }

  /** A segment does not depend on the order of its end points. */
  lemma SegmentSymmetric(x0: int, y0: int, x1: int, y1: int, px: int, py: int)
    ensures OnSegment(x0, y0, x1, y1, px, py) <==> OnSegment(x1, y1, x0, y0, px, py)
  {
    var o, p := Order(x0, y0, x1, y1), Order(x1, y1, x0, y0);
    assert o == p;
  }

  lemma SegmentHasEnds(x0: int, y0: int, x1: int, y1: int)
    ensures OnSegment(x0, y0, x1, y1, x0, y0) && OnSegment(x0, y0, x1, y1, x1, y1)
  {
    var o := Order(x0, y0, x1, y1);
    LineEnds(o.Dx(), o.Dy());
    assert o.Height(o.y1) == o.Dy() && o.Height(o.y0) == 0;
  }

  /** A segment stays inside the rectangle of its end points. */
  lemma SegmentInBox(x0: int, y0: int, x1: int, y1: int, px: int, py: int)
    requires OnSegment(x0, y0, x1, y1, px, py)
    ensures Min(x0, x1) <= px <= Max(x0, x1) && Min(y0, y1) <= py <= Max(y0, y1)
  {
    var o := Order(x0, y0, x1, y1);
    var major, minor := if o.steep then py else px, if o.steep then px else py;
    LineRange(o.Dx(), o.Dy(), major - o.x0, o.Height(minor));
  }

  /** No gaps: the heights at neighbouring positions differ by at most one. */
  lemma LineConnected(dx: int, dy: int, i: int, k: int, h: int)
    requires 0 <= dy <= dx && OnLine(dx, dy, i, k) && OnLine(dx, dy, i + 1, h)
    ensures k <= h <= k + 1
  {
    LineStep(dx, dy, i, k);
    var e := ErrorTerm(dx, dy, i, k);
    LineUnique(dx, dy, i + 1, h, k + if e - dy < 0 then 1 else 0);
  }
}
