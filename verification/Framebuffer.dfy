/** The packed image of the 84x48 display: one octet holds eight pixels of a column, the topmost in the
    least significant bit. */
module Framebuffer {

  const LCD_WIDTH := 84
  const LCD_HEIGHT := 48
  const BUFFER_SIZE := 504

  /** A point of the plane. */
  type Point = (int, int)

  /** The octet with bit `j` set, `_BV(j)`. */
  function Bv(j: int): bv8
    requires 0 <= j < 8
  {
    1 << j
  }

  predicate OnScreen(x: int, y: int) {
    0 <= x < LCD_WIDTH && 0 <= y < LCD_HEIGHT
  }

  /** The octet that holds the pixel. */
  function Cell(x: int, y: int): (i: int)
    requires OnScreen(x, y)
    ensures 0 <= i < BUFFER_SIZE
  {
    x + (y / 8) * LCD_WIDTH
  }

  predicate Bit(b: bv8, j: int)
    requires 0 <= j < 8
  {
    b & Bv(j) != 0
  }

  predicate Pixel(buffer: seq<bv8>, x: int, y: int)
    requires |buffer| == BUFFER_SIZE && OnScreen(x, y)
  {
    Bit(buffer[Cell(x, y)], y % 8)
  }

  /** Exactly the pixels of `points` that are on the screen were set to `on`. */
  ghost predicate Painted(before: seq<bv8>, after: seq<bv8>, points: iset<Point>, on: bool) {
    && |before| == |after| == BUFFER_SIZE
    && forall x, y | OnScreen(x, y) ::
         Pixel(after, x, y) == if (x, y) in points then on else Pixel(before, x, y)
  }

  /** Exactly the on-screen pixels of `points` were replaced: those in `lit` are on, the others off. */
  ghost predicate Overlaid(before: seq<bv8>, after: seq<bv8>, points: iset<Point>, lit: iset<Point>) {
    && |before| == |after| == BUFFER_SIZE
    && forall x, y | OnScreen(x, y) ::
         Pixel(after, x, y) == if (x, y) in points then (x, y) in lit else Pixel(before, x, y)
  }

  lemma OverlayOne(a: seq<bv8>, b: seq<bv8>, c: seq<bv8>, points: iset<Point>, lit: iset<Point>, p: Point)
    requires Overlaid(a, b, points, lit) && Painted(b, c, iset{p}, p in lit)
    ensures Overlaid(a, c, points + iset{p}, lit)
  {
  }

  lemma BvTable()
    ensures Bv(0) == 0x01 && Bv(1) == 0x02 && Bv(2) == 0x04 && Bv(3) == 0x08
    ensures Bv(4) == 0x10 && Bv(5) == 0x20 && Bv(6) == 0x40 && Bv(7) == 0x80
  {
  }

  lemma BvDistinct(i: int, j: int)
    requires 0 <= i < 8 && 0 <= j < 8
    ensures Bv(i) != 0
    ensures i != j ==> Bv(i) & Bv(j) == 0
  {
    BvTable();
  }

  lemma MaskSame(b: bv8, m: bv8)
    ensures (b | m) & m == m && b & !m & m == 0
  {
  }

  lemma SameBit(b: bv8, i: int)
    requires 0 <= i < 8
    ensures Bit(b | Bv(i), i) && !Bit(b & !Bv(i), i)
  {
    BvDistinct(i, i);
    MaskSame(b, Bv(i));
  }

  lemma OtherBitSet(b: bv8, i: int, j: int)
    requires 0 <= i < 8 && 0 <= j < 8 && i != j
    ensures Bit(b | Bv(i), j) == Bit(b, j)
  {
    BvDistinct(i, j);
  }

  lemma OtherBitCleared(b: bv8, i: int, j: int)
    requires 0 <= i < 8 && 0 <= j < 8 && i != j
    ensures Bit(b & !Bv(i), j) == Bit(b, j)
  {
    BvDistinct(i, j);
  }

  /** Setting or clearing bit `i` leaves every other bit alone. */
  lemma BitUpdate(b: bv8, i: int, j: int)
    requires 0 <= i < 8 && 0 <= j < 8
    ensures Bit(b | Bv(i), j) <==> i == j || Bit(b, j)
    ensures Bit(b & !Bv(i), j) <==> i != j && Bit(b, j)
  {
    hide Bv, Bit;
    if i == j {
      SameBit(b, i);
    } else {
      OtherBitSet(b, i, j);
      OtherBitCleared(b, i, j);
    }
  }

  lemma ShiftedBit(b: bv8, j: int)
    requires 0 <= j < 8
    ensures (b >> j) & 1 == (if Bit(b, j) then 1 else 0)
  {
    BvTable();
  }

  /** An octet is determined by its bits. */
  lemma BitsDetermine(a: bv8, b: bv8)
    requires forall j | 0 <= j < 8 :: Bit(a, j) == Bit(b, j)
    ensures a == b
  {
    BvTable();
    assert Bit(a, 0) == Bit(b, 0) && Bit(a, 1) == Bit(b, 1) && Bit(a, 2) == Bit(b, 2) && Bit(a, 3) == Bit(b, 3);
    assert Bit(a, 4) == Bit(b, 4) && Bit(a, 5) == Bit(b, 5) && Bit(a, 6) == Bit(b, 6) && Bit(a, 7) == Bit(b, 7);
  }

  /** Two pixels share an octet exactly when they are in the same column and the same row of cells. */
  lemma SameCell(x: int, y: int, u: int, v: int)
    requires OnScreen(x, y) && OnScreen(u, v)
    ensures Cell(x, y) == Cell(u, v) <==> x == u && y / 8 == v / 8
  {
  }

  /** The image is determined by its pixels. */
  lemma PixelsDetermine(a: seq<bv8>, b: seq<bv8>)
    requires |a| == |b| == BUFFER_SIZE
    requires forall x, y | OnScreen(x, y) :: Pixel(a, x, y) == Pixel(b, x, y)
    ensures a == b
  {
    forall i | 0 <= i < BUFFER_SIZE ensures a[i] == b[i] {
      var x, row := i % LCD_WIDTH, i / LCD_WIDTH;
      forall j | 0 <= j < 8 ensures Bit(a[i], j) == Bit(b[i], j) {
        assert OnScreen(x, 8 * row + j) && Cell(x, 8 * row + j) == i;
        assert Pixel(a, x, 8 * row + j) == Pixel(b, x, 8 * row + j);
      }
      BitsDetermine(a[i], b[i]);
    }
  }

  lemma PaintNothing(buffer: seq<bv8>, on: bool)
    requires |buffer| == BUFFER_SIZE
    ensures Painted(buffer, buffer, iset{}, on)
  {
  }

  /** Painting twice in one colour paints the union. */
  lemma PaintBoth(a: seq<bv8>, b: seq<bv8>, c: seq<bv8>, ps: iset<Point>, qs: iset<Point>, on: bool)
    requires Painted(a, b, ps, on) && Painted(b, c, qs, on)
    ensures Painted(a, c, ps + qs, on)
  {
  }

  function WithBit(b: bv8, j: int, on: bool): bv8
    requires 0 <= j < 8
  {
    if on then b | Bv(j) else b & !Bv(j)
  }

  lemma WithBitBits(b: bv8, i: int, on: bool, j: int)
    requires 0 <= i < 8 && 0 <= j < 8
    ensures Bit(WithBit(b, i, on), j) == if i == j then on else Bit(b, j)
  {
    BitUpdate(b, i, j);
  }

  /** The effect of one octet update on the pixels. */
  lemma PaintOne(before: seq<bv8>, x: int, y: int, on: bool)
    requires |before| == BUFFER_SIZE && OnScreen(x, y)
    ensures var i := Cell(x, y);
      Painted(before, before[i := WithBit(before[i], y % 8, on)], iset{(x, y)}, on)
  {
    var i := Cell(x, y);
    var after := before[i := WithBit(before[i], y % 8, on)];
    forall u, v | OnScreen(u, v)
      ensures Pixel(after, u, v) == if (u, v) in iset{(x, y)} then on else Pixel(before, u, v)
    {
      SameCell(x, y, u, v);
      if Cell(u, v) == i {
        WithBitBits(before[i], y % 8, on, v % 8);
        assert y == 8 * (y / 8) + y % 8 && v == 8 * (v / 8) + v % 8;
      }
    }
  }
}
