/** When the loop of `LCDdrawline` reads every sign, told by the ends alone, and when it ends at all. */
module LineSigns {
  import opened CArith
  import opened CircleGeometry
  import opened LineGeometry
  import opened Framebuffer
  import opened PlottedPoints

  function Gcd(a: nat, b: nat): (g: nat)
    requires a > 0 || b > 0
    ensures g > 0
    decreases b
  {
    if b == 0 then a else Gcd(b, a % b)
  }

  lemma {:induction false} GcdDivides(a: nat, b: nat) returns (p: nat, q: nat)
    requires a > 0 || b > 0
    ensures a == Gcd(a, b) * p && b == Gcd(a, b) * q
    decreases b
  {
    if b == 0 {
      p, q := 1, 0;
    } else {
      var g, t := Gcd(a, b), a / b;
      var p', q' := GcdDivides(b, a % b);
      p, q := p' * t + q', p';
      Distribute(g, p', t, q');
    }
  }

  lemma Distribute(g: int, p: int, t: int, q: int)
    ensures g * (p * t + q) == (g * p) * t + g * q
  {
    assert g * (p * t + q) == g * (p * t) + g * q;
  }

  lemma {:induction false} Bezout(a: nat, b: nat) returns (u: int, v: int)
    requires a > 0 || b > 0
    ensures a * u + b * v == Gcd(a, b)
    decreases b
  {
    if b == 0 {
      u, v := 1, 0;
    } else {
      var t, c := a / b, a % b;
      var u', v' := Bezout(b, c);
      u, v := v', u' - t * v';
      Recombine(b, t, c, u', v');
    }
  }

  lemma Recombine(b: int, t: int, c: int, u: int, v: int)
    ensures (b * t + c) * v + b * (u - t * v) == b * u + c * v
  {
    assert (b * t + c) * v == b * t * v + c * v;
    assert b * (u - t * v) == b * u - b * t * v;
  }

  /** The least and the greatest error term that the line reaches. */
  function LeastError(dx: nat, dy: nat): nat
    requires dx > 0
  {
    dx / 2 % Gcd(dx, dy)
  }

  function GreatestError(dx: nat, dy: nat): int
    requires dx > 0
  {
    dx - Gcd(dx, dy) + LeastError(dx, dy)
  }

  lemma HalfSplit(dx: nat, dy: nat) returns (q: nat)
    requires dx > 0
    ensures dx / 2 == Gcd(dx, dy) * q + LeastError(dx, dy) && LeastError(dx, dy) < Gcd(dx, dy)
  {
    hide Gcd;
    q := dx / 2 / Gcd(dx, dy);
  }

  /** All error terms lie between the two. */
  lemma ErrorBetween(dx: nat, dy: nat, i: nat)
    requires 0 <= dy <= dx && 0 < dx && i <= dx
    ensures LeastError(dx, dy) <= ErrorAt(dx, dy, i) <= GreatestError(dx, dy)
  {
    hide ErrorAt, HeightAt, OnLine, Gcd, LeastError;
    LoopFollowsLine(dx, dy, i);
    var g, p, k := Gcd(dx, dy), LeastError(dx, dy), HeightAt(dx, dy, i);
    var a, b := GcdDivides(dx, dy);
    var q := HalfSplit(dx, dy);
    assert ErrorAt(dx, dy, i) == dx / 2 + dx * k - dy * i == g * q + p + (g * a) * k - (g * b) * i;
    ErrorInSteps(g, a, b, p, q, i, k);
    StepsWithin(g, a, p, q + a * k - b * i);
  }

  lemma ErrorInSteps(g: int, a: int, b: int, p: int, q: int, i: int, k: int)
    ensures g * q + p + (g * a) * k - (g * b) * i == p + g * (q + a * k - b * i)
  {
    assert g * (q + a * k - b * i) == g * q + g * (a * k) - g * (b * i);
  }

  lemma StepsWithin(g: int, a: int, p: int, t: int)
    requires g > 0 && 0 <= p < g && 0 <= p + g * t < g * a
    ensures p <= p + g * t <= g * a - g + p
  {
    if t < 0 { MulMono(g, t, -1); } else { MulMono(g, 0, t); }
    if t > a - 1 { MulMono(g, a, t); } else { MulMono(g, t, a - 1); }
    assert g * (a - 1) == g * a - g;
  }

  /** Every value that is a multiple of the gcd above the least one is reached in some column. */
  lemma ErrorReached(dx: nat, dy: nat, t: nat) returns (i: nat)
    requires 0 <= dy <= dx && 0 < dx
    requires LeastError(dx, dy) + Gcd(dx, dy) * t < dx
    ensures i < dx && ErrorAt(dx, dy, i) == LeastError(dx, dy) + Gcd(dx, dy) * t
  {
    hide ErrorAt, HeightAt, OnLine, Gcd, LeastError;
    var g, p := Gcd(dx, dy), LeastError(dx, dy);
    var q := HalfSplit(dx, dy);
    var e := p + g * t;
    var u, v := Bezout(dx, dy);
    var n := v * (q - t);
    i := n % dx;
    var k := -(u * (q - t) + dy * (n / dx));
    SolveColumn(dx, dy, g, u, v, q - t, i, n / dx);
    assert g * (q - t) == g * q - g * t;
    assert dx * k == -(dx * (u * (q - t) + dy * (n / dx)));
    assert ErrorTerm(dx, dy, i, k) == e;
    assert 0 <= e by { MulMono(g, 0, t); }
    ErrorTermRange(dx, dy, i, k);
    LoopFollowsLine(dx, dy, i);
    LineUnique(dx, dy, i, k, HeightAt(dx, dy, i));
  }

  lemma SolveColumn(dx: int, dy: int, g: int, u: int, v: int, s: int, i: int, m: int)
    requires dx * u + dy * v == g && v * s == dx * m + i
    ensures dy * i == g * s - dx * (u * s + dy * m)
  {
    assert dy * (v * s) == dy * (dx * m) + dy * i;
    assert g * s == (dx * u + dy * v) * s == dx * (u * s) + dy * (v * s);
    assert dy * (dx * m) == dx * (dy * m);
  }

  /** The octet test reads the sign exactly if the difference fits a signed octet. */
  lemma SignReadExact(dy: int, e: int)
    requires 0 <= dy < 256 && 0 <= e < 256
    ensures SignRead(dy, e) <==> -128 <= e - dy <= 127
  {
    WrapAdd(e, -dy);
    SignedDifference(e - dy);
  }

  /** The condition on the ends under which the octets draw the ideal line. */
  predicate LineDrawable(dx: nat, dy: nat) {
    dx == 0 || (dy - LeastError(dx, dy) <= 128 && GreatestError(dx, dy) - dy <= 127)
  }

  lemma SignsReadExact(o: Ordered)
    requires OctetEnds(o)
    ensures SignsRead(o, o.Dx()) <==> LineDrawable(o.Dx(), o.Dy())
  {
    hide ErrorAt, SignRead, LeastError, Gcd;
    var dx, dy := o.Dx(), o.Dy();
    if dx > 0 {
      ErrorRange(dx, dy);
      if LineDrawable(dx, dy) {
        forall i: nat | i < dx ensures SignRead(dy, ErrorAt(dx, dy, i)) {
          ErrorBetween(dx, dy, i);
          SignReadExact(dy, ErrorAt(dx, dy, i));
        }
      } else {
        var i := MisreadColumn(dx, dy);
      }
    }
  }

  lemma ErrorRange(dx: nat, dy: nat)
    requires 0 <= dy <= dx && 0 < dx
    ensures 0 <= LeastError(dx, dy) <= GreatestError(dx, dy) < dx
  {
    ErrorBetween(dx, dy, 0);
  }

  /** If the condition fails, one of the extreme error terms is misread where the line reaches it. */
  lemma MisreadColumn(dx: nat, dy: nat) returns (i: nat)
    requires 0 <= dy <= dx < 256 && !LineDrawable(dx, dy)
    ensures i < dx && !SignRead(dy, ErrorAt(dx, dy, i))
  {
    hide ErrorAt, SignRead, LeastError, Gcd;
    ErrorRange(dx, dy);
    if dy - LeastError(dx, dy) > 128 {
      i := ErrorReached(dx, dy, 0);
    } else {
      var a, b := GcdDivides(dx, dy);
      var g := Gcd(dx, dy);
      assert g * (a - 1) == g * a - g;
      if a < 1 { MulMono(g, a, 0); }
      i := ErrorReached(dx, dy, a - 1);
    }
    SignReadExact(dy, ErrorAt(dx, dy, i));
  }

  /** For all ends in octets: what the loop plots is the ideal segment exactly if the ends satisfy the
      condition. */
  lemma LineDrawnExactly(x0: uint8, y0: uint8, x1: uint8, y1: uint8)
    ensures var o := Order(x0, y0, x1, y1);
      LineRunPoints(o, o.x1 + 1) == SegmentPoints(x0, y0, x1, y1) <==> LineDrawable(o.Dx(), o.Dy())
  {
    hide LineDrawable, SignsRead, LineRunPoints, SegmentPoints;
    LineRunDrawsSegment(x0, y0, x1, y1);
    SignsReadExact(Order(x0, y0, x1, y1));
  }

  /** The condition holds on all lines on which neither dy nor dx - dy exceeds 128. */
  lemma ShortLineDrawable(o: Ordered)
    requires OctetEnds(o) && o.Dy() <= 128 && o.Dx() - o.Dy() <= 128
    ensures LineDrawable(o.Dx(), o.Dy())
  {
    hide LineDrawable, SignsRead;
    ShortLineRead(o);
    SignsReadExact(o);
  }

  /** The octet counter of the loop, after `n` increments, is past the end. */
  predicate PastEnd(x0: uint8, x1: uint8, n: nat) {
    ToUint8(x0 + n) > x1
  }

  /** That ever happens exactly if the end is below 255: otherwise the counter wraps for ever. */
  lemma LineEndsExactly(x0: uint8, x1: uint8)
    ensures (exists n: nat :: PastEnd(x0, x1, n)) <==> x1 < 255
  {
    if x1 < 255 {
      var n := if x0 <= x1 then x1 + 1 - x0 else 0;
      assert PastEnd(x0, x1, n);
    }
  }
}
