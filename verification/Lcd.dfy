/** The drawing operations of lcd/PCD8544.c on the in-memory image. */
module Lcd {
  import opened CArith
  import opened CircleGeometry
  import opened LineGeometry
  import opened Framebuffer
  import opened PlottedPoints
  import opened CircleRadii
  import opened LineSigns
  import opened TextCells
  import opened TextPictures

  class Display {
    const buffer: array<bv8>
    const font: seq<bv8>
    var cursorX: uint8
    var cursorY: uint8
    var textSize: uint8
    var textColor: uint8

    ghost predicate Valid() {
      buffer.Length == BUFFER_SIZE && |font| == FONT_SIZE
    }

    /** The state after `LCDInit`: an empty image, black text of size one. */
    constructor (font: seq<bv8>)
      requires |font| == FONT_SIZE
      ensures Valid() && fresh(buffer) && this.font == font
      ensures forall i :: 0 <= i < BUFFER_SIZE ==> buffer[i] == 0
      ensures cursorX == cursorY == 0 && textSize == 1 && textColor == 1
    {
      buffer := new bv8[BUFFER_SIZE](_ => 0);
      this.font := font;
      cursorX, cursorY, textSize, textColor := 0, 0, 1, 1;
    }

    ghost function Now(): Screen
      reads this, buffer
    {
      Screen(buffer[..], cursorX, cursorY)
    }

    method SetPixel(x: uint8, y: uint8, color: uint8)
      requires Valid()
      modifies buffer
      ensures Painted(old(buffer[..]), buffer[..], iset{(x, y)}, color != 0)
    {
      if x >= LCD_WIDTH || y >= LCD_HEIGHT { return; }
      PaintOne(buffer[..], x, y, color != 0);
      UpdateOctet(x + (y / 8) * LCD_WIDTH, y % 8, color);
    }

    method UpdateOctet(i: nat, bit: nat, color: uint8)
      requires Valid() && i < BUFFER_SIZE && bit < 8
      modifies buffer
      ensures buffer[..] == old(buffer[..])[i := WithBit(old(buffer[i]), bit, color != 0)]
    {
      if color != 0 {
        buffer[i] := buffer[i] | Bv(bit);
      } else {
        buffer[i] := buffer[i] & !Bv(bit);
      }
    }

    /** Reads bit 7 - y % 8, that is, the pixel mirrored within its row of cells: never the one that
        `SetPixel(x, y, _)` writes. */
    method GetPixel(x: uint8, y: uint8) returns (value: uint8)
      requires Valid()
      ensures value == if OnScreen(x, y) && Pixel(buffer[..], x, 8 * (y / 8) + 7 - y % 8) then 1 else 0
      ensures 8 * (y / 8) + 7 - y % 8 != y
    {
      if x >= LCD_WIDTH || y >= LCD_HEIGHT { return 0; }
      var octet := buffer[x + (y / 8) * LCD_WIDTH];
      var bit := (octet >> (7 - y % 8)) & 1;
      ShiftedBit(octet, 7 - y % 8);
      assert Cell(x, 8 * (y / 8) + 7 - y % 8) == x + (y / 8) * LCD_WIDTH;
      value := if bit == 1 then 1 else 0;
    }

    method PlotTwo(x: uint8, y: uint8, u: uint8, v: uint8, color: uint8)
      requires Valid()
      modifies buffer
      ensures Painted(old(buffer[..]), buffer[..], iset{(x, y), (u, v)}, color != 0)
    {
      SetPixel(x, y, color);
      label second:
      SetPixel(u, v, color);
      PaintBoth(old(buffer[..]), old@second(buffer[..]), buffer[..], iset{(x, y)}, iset{(u, v)}, color != 0);
      assert iset{(x, y)} + iset{(u, v)} == iset{(x, y), (u, v)};
    }

    method PlotFour(x: uint8, y: uint8, u: uint8, v: uint8, color: uint8)
      requires Valid()
      modifies buffer
      ensures Painted(old(buffer[..]), buffer[..], iset{(x, y), (u, y), (x, v), (u, v)}, color != 0)
    {
      PlotTwo(x, y, u, y, color);
      label second:
      PlotTwo(x, v, u, v, color);
      PaintBoth(old(buffer[..]), old@second(buffer[..]), buffer[..], iset{(x, y), (u, y)},
        iset{(x, v), (u, v)}, color != 0);
      assert iset{(x, y), (u, y)} + iset{(x, v), (u, v)} == iset{(x, y), (u, y), (x, v), (u, v)};
    }

    /** The eight mirror images that one pass of the circle's loop draws. */
    method PlotMirrored(x0: uint8, y0: uint8, x: int8, y: int8, color: uint8)
      requires Valid() && 0 <= x && 0 <= y
      modifies buffer
      ensures Painted(old(buffer[..]), buffer[..], MirrorPoints(x0, y0, x, y), color != 0)
    {
      PlotFour(ToUint8(x0 + x), ToUint8(y0 + y), ToUint8(x0 - x), ToUint8(y0 - y), color);
      label half:
      PlotFour(ToUint8(x0 + y), ToUint8(y0 + x), ToUint8(x0 - y), ToUint8(y0 - x), color);
      ghost var four := iset{(ToUint8(x0 + x), ToUint8(y0 + y)), (ToUint8(x0 - x), ToUint8(y0 + y)),
                             (ToUint8(x0 + x), ToUint8(y0 - y)), (ToUint8(x0 - x), ToUint8(y0 - y))};
      ghost var others := iset{(ToUint8(x0 + y), ToUint8(y0 + x)), (ToUint8(x0 - y), ToUint8(y0 + x)),
                               (ToUint8(x0 + y), ToUint8(y0 - x)), (ToUint8(x0 - y), ToUint8(y0 - x))};
      PaintBoth(old(buffer[..]), old@half(buffer[..]), buffer[..], four, others, color != 0);
      EightPointsMirror(x0, y0, x, y);
      assert four + others == EightPoints(x0, y0, x, y);
    }

    /** The four points on the axes, drawn before the loop. */
    method PlotAxes(x0: uint8, y0: uint8, r: uint8, color: uint8)
      requires Valid()
      modifies buffer
      ensures Painted(old(buffer[..]), buffer[..], AxisPoints(x0, y0, r), color != 0)
    {
      PlotTwo(x0, ToUint8(y0 + r), x0, ToUint8(y0 - r), color);
      label half:
      PlotTwo(ToUint8(x0 + r), y0, ToUint8(x0 - r), y0, color);
      ghost var vertical := iset{(x0, ToUint8(y0 + r)), (x0, ToUint8(y0 - r))};
      ghost var horizontal := iset{(ToUint8(x0 + r), y0), (ToUint8(x0 - r), y0)};
      PaintBoth(old(buffer[..]), old@half(buffer[..]), buffer[..], vertical, horizontal, color != 0);
      assert vertical + horizontal == AxisPoints(x0, y0, r);
    }

    /** Draws the points that its loop in octets visits: the ideal circle exactly at the drawable radii. */
    method DrawCircle(x0: uint8, y0: uint8, r: uint8, color: uint8) returns (ghost passes: nat)
      requires Valid()
      modifies buffer
      ensures RunEnds(r, passes) && Painted(old(buffer[..]), buffer[..], RunPoints(x0, y0, r, passes), color != 0)
      ensures RunPoints(x0, y0, r, passes) == CirclePoints(x0, y0, r) <==> Drawable(r)
    {
      hide CircleRun, CirclePass, CircleLoop, CirclePoints, MirrorPoints, Painted, Drawable;
      var f: int, ddFx: int, ddFy: int, x: int, y: int := ToInt8(1 - r), 1, ToInt8(-2 * r), 0, ToInt8(r);
      PlotAxes(x0, y0, r, color);
      CircleRunStart(r);
      while x < y
        invariant 0 <= x < 128 && -128 <= y < 128
        invariant CircleState(x, y, f, ddFx, ddFy) == CircleRun(r, x)
        invariant RunGoesOn(r, x)
        invariant Painted(old(buffer[..]), buffer[..], RunPoints(x0, y0, r, x), color != 0)
        decreases y - x
      {
        CircleLoopPass(r, x, y, f, ddFx, ddFy);
        CircleRunStep(r, x);
        RunPointsStep(x0, y0, r, x);
        ghost var done := RunPoints(x0, y0, r, x);
        x, y, f, ddFx, ddFy := StepCircle(x, y, f, ddFx, ddFy);
        label before:
        PlotMirrored(x0, y0, x, y, color);
        PaintBoth(old(buffer[..]), old@before(buffer[..]), buffer[..], done, MirrorPoints(x0, y0, x, y), color != 0);
      }
      passes := x;
      CircleDrawnExactly(x0, y0, r, passes);
    }

    /** The update at the start of a pass of the circle's loop. */
    static method StepCircle(x0: int, y0: int, f0: int, ddFx0: int, ddFy0: int)
        returns (x: int, y: int, f: int, ddFx: int, ddFy: int)
      ensures CircleState(x, y, f, ddFx, ddFy) == CirclePass(CircleState(x0, y0, f0, ddFx0, ddFy0))
    {
      x, y, f, ddFx, ddFy := x0, y0, f0, ddFx0, ddFy0;
      if f >= 0 {
        y := ToInt8(y - 1);
        ddFy := ToInt8(ddFy + 2);
        f := ToInt8(f + ddFy);
      }
      x := ToInt8(x + 1);
      ddFx := ToInt8(ddFx + 2);
      f := ToInt8(f + ddFx);
    }

    /** Exchanges coordinates and end points until the major axis comes first and ascends. */
    static method SortEnds(x0: uint8, y0: uint8, x1: uint8, y1: uint8)
        returns (steep: bool, a0: int, b0: int, a1: int, b1: int)
      ensures Ordered(steep, a0, b0, a1, b1) == Order(x0, y0, x1, y1)
      ensures 0 <= a0 <= a1 < 256 && 0 <= b0 < 256 && 0 <= b1 < 256
    {
      steep := Abs(y1 - y0) > Abs(x1 - x0);
      a0, b0, a1, b1 := x0, y0, x1, y1;
      if steep {
        a0, b0 := b0, a0;
        a1, b1 := b1, a1;
      }
      if a0 > a1 {
        a0, a1 := a1, a0;
        b0, b1 := b1, b0;
      }
    }

    /** Draws the points that its loop in octets visits. A major coordinate of 255 is excluded: its counter
        would never pass the end. The points are the ideal line exactly if the ends are drawable, as all
        on-screen ones are. */
    method DrawLine(x0: uint8, y0: uint8, x1: uint8, y1: uint8, color: uint8)
      requires Valid() && Order(x0, y0, x1, y1).x1 < 255
      modifies buffer
      ensures var o := Order(x0, y0, x1, y1);
        && Painted(old(buffer[..]), buffer[..], LineRunPoints(o, o.x1 + 1), color != 0)
        && (LineRunPoints(o, o.x1 + 1) == SegmentPoints(x0, y0, x1, y1) <==> LineDrawable(o.Dx(), o.Dy()))
        && (o.Dy() <= 128 && o.Dx() - o.Dy() <= 128 ==> LineDrawable(o.Dx(), o.Dy()))
    {
      hide Order, LineDrawable, LineRun, LinePass, LineRunPoints, SegmentPoints, Painted, ToUint8, ToInt8, Abs;
      var steep, a0, b0, a1, b1 := SortEnds(x0, y0, x1, y1);
      ghost var o := Ordered(steep, a0, b0, a1, b1);
      LineRunStart(o);
      var dx, dy := ToUint8(a1 - a0), ToUint8(Abs(b1 - b0));
      var err: int := ToInt8(dx / 2);
      var ystep := if b0 < b1 then 1 else -1;
      PaintNothing(buffer[..], color != 0);
      while a0 <= a1
        invariant o.x0 <= a0 <= a1 + 1
        invariant 0 <= b0 < 256
        invariant (b0, err) == LineRun(o, a0 - o.x0)
        invariant Painted(old(buffer[..]), buffer[..], LineRunPoints(o, a0), color != 0)
      {
        label before:
        PlotMajor(steep, a0, b0, color);
        PaintBoth(old(buffer[..]), old@before(buffer[..]), buffer[..], LineRunPoints(o, a0),
          iset{if steep then (b0, a0) else (a0, b0)}, color != 0);
        LineRunPointsGrow(o, a0);
        LineRunStep(o, a0 - o.x0);
        b0, err := StepMinor(o, b0, err, dx, dy, ystep);
        a0 := a0 + 1;
      }
      LineDrawnExactly(x0, y0, x1, y1);
      if dy <= 128 && dx - dy <= 128 { ShortLineDrawable(o); }
    }

    /** Draws at a major and a minor coordinate. */
    method PlotMajor(steep: bool, major: uint8, minor: uint8, color: uint8)
      requires Valid()
      modifies buffer
      ensures Painted(old(buffer[..]), buffer[..], iset{if steep then (minor, major) else (major, minor)}, color != 0)
    {
      if steep {
        SetPixel(minor, major, color);
      } else {
        SetPixel(major, minor, color);
      }
    }

    /** The update at the end of a pass of the line's loop. */
    static method StepMinor(ghost o: Ordered, y0: uint8, err0: int, dx: uint8, dy: uint8, ystep: int)
        returns (y: uint8, err: int)
      requires dx == o.Dx() && dy == o.Dy() && ystep == o.YStep()
      ensures (y as int, err) == LinePass(o, (y0 as int, err0))
    {
      y := y0;
      err := ToInt8(err0 - dy);
      if err < 0 {
        y := ToUint8(y + ystep);
        err := ToInt8(err + dx);
      }
    }

    /** Draws the picture of `c` with its top left corner at `(x, y)`, if it fits to the right. */
    method DrawChar(x: uint8, y: uint8, c: letter)
      requires Valid()
      modifies buffer
      ensures !Fits(x, y) ==> buffer[..] == old(buffer[..])
      ensures Fits(x, y) ==>
        && Overlaid(old(buffer[..]), buffer[..], Block(x, y, 6, 0), Lit(font, c, textColor != 0, x, y))
        && GlyphShows(buffer[..], font, c, textColor != 0, x, y) && RestKept(old(buffer[..]), buffer[..], x, y)
    {
      hide GlyphShows, RestKept;
      if y >= LCD_HEIGHT { return; }
      if x + 5 >= LCD_WIDTH { return; }
      ghost var lit := Lit(font, c, textColor != 0, x, y);
      var i := 0;
      while i < 5
        invariant 0 <= i <= 5
        invariant Overlaid(old(buffer[..]), buffer[..], Block(x, y, i, 0), lit)
      {
        DrawColumn(x, y, i, font[c * 5 + i], Block(x, y, i, 0), lit, old(buffer[..]));
        BlockColumn(x, y, i);
        i := i + 1;
      }
      DrawColumn(x, y, 5, 0, Block(x, y, 5, 0), lit, old(buffer[..]));
      BlockColumn(x, y, 5);
      OverlayShowsGlyph(old(buffer[..]), buffer[..], font, c, textColor != 0, x, y);
    }

    /** Draws one column of eight pixels, set bits in the text colour and the others in its opposite. */
    method DrawColumn(x: uint8, y: uint8, i: nat, octet: bv8, ghost points: iset<Point>, ghost lit: iset<Point>,
        ghost start: seq<bv8>)
      requires Valid() && i < 6 && x + 5 < LCD_WIDTH && y < LCD_HEIGHT
      requires points == Block(x, y, i, 0) && Overlaid(start, buffer[..], points, lit)
      requires forall j | 0 <= j < 8 :: (x + i, y + j) in lit <==> Bit(octet, j) == (textColor != 0)
      modifies buffer
      ensures Overlaid(start, buffer[..], Block(x, y, i, 8), lit)
    {
      var j := 0;
      while j < 8
        invariant 0 <= j <= 8
        invariant Overlaid(start, buffer[..], Block(x, y, i, j), lit)
      {
        label before:
        PlotBit(x + i, y + j, octet, j);
        OverlayOne(start, old@before(buffer[..]), buffer[..], Block(x, y, i, j), lit, (x + i, y + j));
        BlockPoint(x, y, i, j);
        j := j + 1;
      }
    }

    /** A set bit shows in the text colour, any other in its opposite. */
    method PlotBit(x: uint8, y: uint8, octet: bv8, j: nat)
      requires Valid() && j < 8
      modifies buffer
      ensures Painted(old(buffer[..]), buffer[..], iset{(x, y)}, Bit(octet, j) == (textColor != 0))
    {
      if octet & Bv(j) != 0 {
        SetPixel(x, y, textColor);
      } else {
        SetPixel(x, y, if textColor != 0 then 0 else 1);
      }
    }

    /** One character at the cursor. */
    method Write(c: letter)
      requires Valid()
      modifies buffer, this`cursorX, this`cursorY
      ensures Writes(font, textSize, textColor != 0, c, old(Now()), Now())
    {
      hide Overlaid, Lit, Block, Advanced;
      if c == 10 {
        cursorY := ToUint8(cursorY + (textSize as int) * 8);
        cursorX := 0;
      } else if c == 13 {
        // skipped
      } else {
        DrawChar(cursorX, cursorY, c);
        AdvanceCursor();
      }
    }

    method AdvanceCursor()
      modifies this`cursorX, this`cursorY
      ensures (cursorX, cursorY) == Advanced(old(cursorX), old(cursorY), textSize)
    {
      cursorX := ToUint8(cursorX + (textSize as int) * 6);
      if cursorX >= LCD_WIDTH - 5 {
        cursorX := 0;
        cursorY := ToUint8(cursorY + 8);
      }
      if cursorY >= LCD_HEIGHT {
        cursorY := 0;
      }
    }

    /** Draws a text character by character; without line feeds and from a grid cell on, this is a write into
        the ring of cells. */
    method DrawString(x: uint8, y: uint8, text: seq<letter>)
      requires Valid()
      requires forall i :: 0 <= i < |text| ==> text[i] != 0
      modifies buffer, this`cursorX, this`cursorY
      ensures WritesAll(font, textSize, textColor != 0, text, Screen(old(buffer[..]), x, y), Now())
      ensures textSize == 1 && OnGrid(x, y) && NoLineFeed(text) ==>
        && buffer[..] == RingWrite(old(buffer[..]), font, textColor != 0, CellOf(x, y), Visible(text))
        && OnGrid(cursorX, cursorY) && CellOf(cursorX, cursorY) == (CellOf(x, y) + |Visible(text)|) % CELLS
    {
      hide Writes, WritesAll, OnGrid, NoLineFeed, RingWrite, CellOf;
      cursorX, cursorY := x, y;
      ghost var start := Now();
      WritesNothing(font, textSize, textColor != 0, text, start);
      var k := 0;
      while k < |text|
        invariant 0 <= k <= |text|
        invariant WritesAll(font, textSize, textColor != 0, text[..k], start, Now())
      {
        ghost var before := Now();
        Write(text[k]);
        WritesMore(font, textSize, textColor != 0, text, k, start, before, Now());
        k := k + 1;
      }
      assert text[..k] == text;
      if textSize == 1 && OnGrid(x, y) && NoLineFeed(text) {
        TextIsRingWrite(font, textColor != 0, text, start, Now());
      }
    }

    /** Text by column and row of cells, as the display view calls it. */
    method DisplayText(text: seq<letter>, col: int, row: int)
      requires Valid()
      requires forall i :: 0 <= i < |text| ==> text[i] != 0
      modifies buffer, this`cursorX, this`cursorY
      ensures var start := Screen(old(buffer[..]), ToUint8(col * 6), ToUint8(row * 8));
        WritesAll(font, textSize, textColor != 0, text, start, Now())
      ensures textSize == 1 && 0 <= col < 14 && 0 <= row < 6 && NoLineFeed(text) ==>
        buffer[..] == RingWrite(old(buffer[..]), font, textColor != 0, 14 * row + col, Visible(text))
      ensures textSize == 1 && 0 <= col < 14 && 0 <= row < 6 && Plain(text) && |text| <= 84 ==>
        FillsCells(old(buffer[..]), buffer[..], font, textColor != 0, 14 * row + col, text)
    {
      hide WritesAll, RingWrite, Visible, NoLineFeed, ToUint8, CellOf, OnGrid, FillsCells, Plain;
      if 0 <= col < 14 && 0 <= row < 6 { GridPosition(col, row); }
      ghost var start := Screen(buffer[..], ToUint8(col * 6), ToUint8(row * 8));
      DrawString(ToUint8(col * 6), ToUint8(row * 8), text);
      if textSize == 1 && 0 <= col < 14 && 0 <= row < 6 && Plain(text) && |text| <= 84 {
        TextFillsCells(font, textColor != 0, text, start, Now());
      }
    }
  }
}
