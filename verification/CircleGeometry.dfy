/** The midpoint circle over the integers: what the decision variable of `LCDdrawcircle` means, and which
    lattice points it selects. */
module CircleGeometry {

  function Abs(a: int): int { if a < 0 then -a else a }
  function Min(a: int, b: int): int { if a <= b then a else b }
  function Max(a: int, b: int): int { if a <= b then b else a }

  /** `b` is the integer nearest to the square root of `n`. */
  ghost predicate NearestRoot(n: int, b: int) {
    && 0 <= n && 0 <= b
    && n <= b * b + b
    && (b == 0 || b * b - b < n)
  }

  /** The ideal digital circle: the longer offset is the rounded height of the circle over the shorter. */
  ghost predicate OnCircle(r: int, dx: int, dy: int) {
    var a, b := Min(Abs(dx), Abs(dy)), Max(Abs(dx), Abs(dy));
    NearestRoot(r * r - a * a, b)
  }

  /** The part of the ideal circle whose shorter offset is at most `x`. */
  ghost predicate OnCircleUpTo(r: int, x: int, dx: int, dy: int) {
    OnCircle(r, dx, dy) && Min(Abs(dx), Abs(dy)) <= x
  }

  /** The eight mirror images of an offset, told by the lengths of the two legs. */
  ghost predicate MirrorImage(x: int, y: int, dx: int, dy: int) {
    Min(Abs(dx), Abs(dy)) == Min(x, y) && Max(Abs(dx), Abs(dy)) == Max(x, y)
  }

  /** The state of the drawing loop: `(x, y)` is an ideal point of the octant, or the mirror image of one,
      reached when the last step crosses the diagonal. */
  ghost predicate Octant(r: int, x: int, y: int) {
    && 0 <= x && 0 <= y <= r
    && if x <= y then NearestRoot(r * r - x * x, y)
       else x == y + 1 && NearestRoot(r * r - y * y, x) && x * x + y * y - r * r >= -y
  }

  /** The value of the decision variable at `(x, y)`. */
  function Decision(r: int, x: int, y: int): int {
    (x + 1) * (x + 1) + y * y - y - r * r
  }

  function NextY(r: int, x: int, y: int): int {
    if Decision(r, x, y) >= 0 then y - 1 else y
  }

  lemma NearestRootUnique(n: int, b: int, c: int)
    requires NearestRoot(n, b) && NearestRoot(n, c)
    ensures b == c
  {
    if b < c { SquareGap(b, c); }
    if c < b { SquareGap(c, b); }
  }

  lemma SquareGap(b: int, c: int)
    requires 0 <= b < c
    ensures b * b + b <= c * c - c
  {
    assert c * c - c - b * b - b == (c - b - 1) * (c + b);
  }

  lemma SquareSucc(a: int)
    ensures (a + 1) * (a + 1) == a * a + 2 * a + 1
  {
  }

  lemma SquareMono(a: int, b: int)
    requires 0 <= a <= b
    ensures a * a <= b * b
  {
    assert b * b - a * a == (b - a) * (b + a);
  }

  lemma OctantStep(r: int, x: int, y: int)
    requires Octant(r, x, y) && x < y
    ensures Octant(r, x + 1, NextY(r, x, y))
  {
    SquareSucc(x);
    SquareSucc(y - 1);
    if Decision(r, x, y) >= 0 {
      if x + 1 <= y - 1 {
        SquareMono(1, y - 1);
      }
    } else {
      SquareMono(1, y);
    }
  }

  /** The incremental updates of the drawing loop compute the decision variable. */
  lemma DecisionStep(r: int, x: int, y: int)
    ensures Decision(r, x + 1, y) == Decision(r, x, y) + 2 * (x + 1) + 1
    ensures Decision(r, x, y - 1) == Decision(r, x, y) - 2 * (y - 1)
  {
  }

  /** The squared distance of a loop point from the circle differs from r^2 by at most its height. */
  lemma OctantError(r: int, x: int, y: int)
    requires Octant(r, x, y)
    ensures -y <= x * x + y * y - r * r <= y
  {
  }

  lemma DecisionBounds(r: int, x: int, y: int)
    requires Octant(r, x, y)
    ensures 2 * x + 1 - 2 * y <= Decision(r, x, y) <= 2 * x + 1
  {
    OctantError(r, x, y);
    SquareSucc(x);
  }

  lemma HeightMono(a: int, b: int)
    requires 1 <= a <= b
    ensures a * a - a <= b * b - b
  {
    assert b * b - b - (a * a - a) == (b - a) * (b + a - 1);
  }

  /** The loop runs at most seven tenths of the way up the axis. */
  lemma OctantHeight(r: int, x: int, y: int)
    requires 0 <= r <= 83 && Octant(r, x, y) && x <= y
    ensures x <= 59
  {
    if x > 59 {
      SquareMono(60, x);
      HeightMono(60, y);
      SquareMono(r, 83);
      OctantError(r, x, y);
    }
  }

  /** The radii for which the decision variable stays in a signed octet. */
  predicate Drawable(r: int) {
    0 <= r <= 76 || r == 82 || r == 83
  }

  /** How far the loop has come at least when y has left r, and then r - 1 and r - 2. */
  ghost predicate Reached(r: int, x: int, y: int) {
    && (r > 64 && y < r ==> x >= 9)
    && (r > 76 && y < r ==> x >= 10)
    && (r > 76 && y < r - 1 ==> x >= 16)
    && (r > 76 && y < r - 2 ==> x >= 17)
  }

  /** At those radii the decision variable indeed fits, as the steps inwards come late. */
  lemma DecisionFits(r: int, x: int, y: int)
    requires Drawable(r) && Octant(r, x, y) && x < y && Reached(r, x, y)
    ensures -128 <= Decision(r, x + 1, NextY(r, x, y)) <= 127
    ensures Reached(r, x + 1, NextY(r, x, y))
  {
    var y' := NextY(r, x, y);
    OctantStep(r, x, y);
    DecisionBounds(r, x + 1, y');
    OctantHeight(r, x, y);
    if r > 64 && y == r {
      FirstStepInwards(r, x);
    } else if r > 76 {
      LaterStepsInwards(r, x, r - y);
    }
  }

  /** The decision variable as a function of how far y has come down. */
  lemma DecisionBelow(r: int, x: int, j: int)
    ensures Decision(r, x, r - j) == (x + 1) * (x + 1) - (2 * j + 1) * r + j * j + j
  {
  }

  /** While y is still r the decision variable is (x+1)^2 - r, so the first step inwards needs x >= 8. */
  lemma FirstStepInwards(r: int, x: int)
    requires Drawable(r) && r > 64 && 0 <= x
    ensures Decision(r, x, r) >= 0 ==> x >= 8 && (r > 76 ==> x >= 9) && Decision(r, x + 1, r - 1) >= -128
    ensures Decision(r, x, r) < 0 ==> Decision(r, x + 1, r) >= -128
  {
    SquareSucc(x);
    SquareSucc(x + 1);
    SquareSucc(r - 1);
    if x < 8 { SquareMono(x + 1, 8); } else { SquareMono(9, x + 1); }
    if x < 9 { SquareMono(x + 1, 9); } else { SquareMono(10, x + 1); }
  }

  /** At radii 82 and 83 the second one needs x >= 15, the third x >= 16. */
  lemma LaterStepsInwards(r: int, x: int, j: int)
    requires (r == 82 || r == 83) && j > 0 && x >= 10 && (j > 1 ==> x >= 16) && (j > 2 ==> x >= 17)
    ensures j == 1 ==> Decision(r, x + 1, r - 1) >= -128
    ensures j == 1 && Decision(r, x, r - 1) >= 0 ==> x >= 15 && Decision(r, x + 1, r - 2) >= -128
    ensures j == 2 ==> Decision(r, x + 1, r - 2) >= -128
    ensures j == 2 && Decision(r, x, r - 2) >= 0 ==> x >= 16
  {
    DecisionBelow(r, x, 1);
    DecisionBelow(r, x + 1, 1);
    DecisionBelow(r, x, 2);
    DecisionBelow(r, x + 1, 2);
    SquareMono(12, x + 2);
    if x < 15 { SquareMono(x + 1, 15); } else { SquareMono(17, x + 2); }
  }

  /** One pass of the loop adds exactly the ideal points whose shorter offset is `x + 1`. */
  lemma CircleGrows(r: int, x: int, y: int, dx: int, dy: int)
    requires Octant(r, x, y) && x < y
    ensures var y' := NextY(r, x, y);
      OnCircleUpTo(r, x + 1, dx, dy) <==> OnCircleUpTo(r, x, dx, dy) || MirrorImage(x + 1, y', dx, dy)
  {
    OctantStep(r, x, y);
    var y' := NextY(r, x, y);
    var a, b := Min(Abs(dx), Abs(dy)), Max(Abs(dx), Abs(dy));
    if x + 1 <= y' {
      if a == x + 1 && OnCircle(r, dx, dy) { NearestRootUnique(r * r - a * a, b, y'); }
    } else {
      // the loop has crossed the diagonal: (x + 1, y') mirrors the point (x, y) before it
      assert y' == x && y == x + 1;
      if a == x + 1 && OnCircle(r, dx, dy) {
        HeightFalls(r, x, y, a, b);
      }
    }
  }

  /** Past the diagonal no ideal point remains. */
  lemma HeightFalls(r: int, x: int, y: int, a: int, b: int)
    requires y == x + 1 == a && a <= b && 0 <= x
    requires Decision(r, x, y) >= 0
    ensures !NearestRoot(r * r - a * a, b)
  {
    if a < b { SquareGap(a, b); }
  }

  lemma BeyondTheEnd(r: int, x: int, y: int, a: int, b: int)
    requires Octant(r, x, y) && x >= y && x < a <= b
    ensures !NearestRoot(r * r - a * a, b)
  {
    SquareGap(x, a);
    SquareGap(x, b);
    SquareSucc(y);
  }

  /** When the loop ends, every ideal point has been reached. */
  lemma CircleDone(r: int, x: int, y: int, dx: int, dy: int)
    requires Octant(r, x, y) && x >= y
    ensures OnCircleUpTo(r, x, dx, dy) <==> OnCircle(r, dx, dy)
  {
    var a, b := Min(Abs(dx), Abs(dy)), Max(Abs(dx), Abs(dy));
    if a > x { BeyondTheEnd(r, x, y, a, b); }
  }

  /** Before the loop only the four axis points are drawn. */
  lemma CircleStart(r: int, dx: int, dy: int)
    requires r >= 0
    ensures Octant(r, 0, r) && Decision(r, 0, r) == 1 - r
    ensures OnCircleUpTo(r, 0, dx, dy) <==> MirrorImage(0, r, dx, dy)
  {
    if r > 0 { SquareMono(1, r); }
    assert 0 * 0 == 0;
    assert NearestRoot(r * r - 0 * 0, r);
    var a, b := Min(Abs(dx), Abs(dy)), Max(Abs(dx), Abs(dy));
    if a == 0 && OnCircle(r, dx, dy) { NearestRootUnique(r * r, b, r); }
  }
}
