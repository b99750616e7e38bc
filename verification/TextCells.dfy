/** The display as a ring of 84 character cells: fourteen to a row, six octets each. */
module TextCells {
  import opened CArith
  import opened Framebuffer

  const CELLS := 84
  const FONT_SIZE := 1275

  /** A character that the font has a picture of; `char` is unsigned on the display's processor. */
  type letter = c: int | 0 <= c < 255

  /** Column `i` of the picture of `c`: five font octets and a blank one. */
  function GlyphOctet(font: seq<bv8>, c: letter, i: int): bv8
    requires |font| == FONT_SIZE && 0 <= i < 6
  {
    if i < 5 then font[c * 5 + i] else 0
  }

  /** The six octets of a character cell, inverted when the text colour is white. */
  function CellImage(font: seq<bv8>, c: letter, black: bool): (six: seq<bv8>)
    requires |font| == FONT_SIZE
    ensures |six| == 6
  {
    seq(6, i requires 0 <= i < 6 =>
      if black then GlyphOctet(font, c, i) else !GlyphOctet(font, c, i))
  }

  /** Replaces the octets of cell `m`. */
  function Stamp(buffer: seq<bv8>, m: int, six: seq<bv8>): (after: seq<bv8>)
    requires |buffer| == BUFFER_SIZE && 0 <= m < CELLS && |six| == 6
    ensures |after| == BUFFER_SIZE
    ensures forall i :: 0 <= i < BUFFER_SIZE ==>
      after[i] == if 6 * m <= i < 6 * m + 6 then six[i - 6 * m] else buffer[i]
  {
    buffer[..6 * m] + six + buffer[6 * m + 6..]
  }

  function NextCell(m: int): (n: int)
    requires 0 <= m < CELLS
    ensures 0 <= n < CELLS
  {
    if m == CELLS - 1 then 0 else m + 1
  }

  lemma CellArithmetic(m: int, k: nat)
    requires 0 <= m < CELLS && k > 0
    ensures (NextCell(m) + (k - 1)) % CELLS == (m + k) % CELLS
  {
  }

  /** Characters written one after the other into the ring, from cell `m` on. */
  function RingWrite(buffer: seq<bv8>, font: seq<bv8>, black: bool, m: int, text: seq<letter>): (after: seq<bv8>)
    requires |buffer| == BUFFER_SIZE && |font| == FONT_SIZE && 0 <= m < CELLS
    ensures |after| == BUFFER_SIZE
    decreases |text|
  {
    if text == [] then buffer
    else RingWrite(Stamp(buffer, m, CellImage(font, text[0], black)), font, black, NextCell(m), text[1..])
  }

  /** How many cells after `m` the cell `n` comes. */
  function CellsAhead(m: int, n: int): int {
    if n >= m then n - m else n - m + CELLS
  }

  /** A cell that the text does not reach keeps its octets. */
  lemma {:induction false} RingWriteKeeps(buffer: seq<bv8>, font: seq<bv8>, black: bool, m: int,
      text: seq<letter>, n: int)
    requires |buffer| == BUFFER_SIZE && |font| == FONT_SIZE && 0 <= m < CELLS && 0 <= n < CELLS
    requires CellsAhead(m, n) >= |text|
    ensures RingWrite(buffer, font, black, m, text)[6 * n..6 * n + 6] == buffer[6 * n..6 * n + 6]
    decreases |text|
  {
    if text != [] {
      var stamped := Stamp(buffer, m, CellImage(font, text[0], black));
      assert stamped[6 * n..6 * n + 6] == buffer[6 * n..6 * n + 6];
      RingWriteKeeps(stamped, font, black, NextCell(m), text[1..], n);
    }
  }

  /** Character `k` shows in cell `(m + k) mod 84` unless a later character went round the ring onto it;
      with at most 84 characters every one of them shows. */
  lemma {:induction false} RingWriteShows(buffer: seq<bv8>, font: seq<bv8>, black: bool, m: int,
      text: seq<letter>, k: nat)
    requires |buffer| == BUFFER_SIZE && |font| == FONT_SIZE && 0 <= m < CELLS
    requires k < |text| <= k + CELLS
    ensures var n := (m + k) % CELLS;
      RingWrite(buffer, font, black, m, text)[6 * n..6 * n + 6] == CellImage(font, text[k], black)
    decreases |text|
  {
    hide CellImage;
    var six := CellImage(font, text[0], black);
    var stamped := Stamp(buffer, m, six);
    if k == 0 {
      assert (m + 0) % CELLS == m;
      RingWriteKeeps(stamped, font, black, NextCell(m), text[1..], m);
      assert stamped[6 * m..6 * m + 6] == six;
    } else {
      RingWriteShows(stamped, font, black, NextCell(m), text[1..], k - 1);
      CellArithmetic(m, k);
    }
  }

  predicate NoLineFeed(text: seq<letter>) {
    forall i :: 0 <= i < |text| ==> text[i] != 10
  }

  /** The characters that draw something: carriage returns are skipped. */
  function Visible(text: seq<letter>): (t: seq<letter>)
    ensures forall i :: 0 <= i < |t| ==> t[i] != 13
  {
    if text == [] then [] else if text[0] == 13 then Visible(text[1..]) else [text[0]] + Visible(text[1..])
  }

  /** The top left corner of a character cell. */
  predicate OnGrid(x: int, y: int) {
    0 <= x < LCD_WIDTH && x % 6 == 0 && 0 <= y < LCD_HEIGHT && y % 8 == 0
  }

  function CellOf(x: int, y: int): (m: int)
    requires OnGrid(x, y)
    ensures 0 <= m < CELLS
  {
    14 * (y / 8) + x / 6
  }

  lemma GridPosition(col: int, row: int)
    requires 0 <= col < 14 && 0 <= row < 6
    ensures ToUint8(col * 6) == col * 6 && ToUint8(row * 8) == row * 8
    ensures OnGrid(col * 6, row * 8) && CellOf(col * 6, row * 8) == 14 * row + col
  {
  }

  /** A character is drawn only if its top is on the screen and it does not reach over the right edge. */
  predicate Fits(x: uint8, y: uint8) {
    y < LCD_HEIGHT && x + 5 < LCD_WIDTH
  }

  lemma GridFits(x: uint8, y: uint8)
    requires OnGrid(x, y)
    ensures Fits(x, y)
  {
  }

  /** The cursor after a character: further right, or in the next row behind the last column, and at the top
      behind the last row. */
  function Advanced(x: uint8, y: uint8, textSize: uint8): (uint8, uint8) {
    var right := ToUint8(x + (textSize as int) * 6);
    var below := if right >= LCD_WIDTH - 5 then ToUint8(y + 8) else y;
    (if right >= LCD_WIDTH - 5 then 0 else right, if below >= LCD_HEIGHT then 0 else below)
  }

  /** Stepping the cursor by one character from a grid cell leads to the next cell of the ring. */
  lemma GridAdvance(x: uint8, y: uint8)
    requires OnGrid(x, y)
    ensures var (x', y') := Advanced(x, y, 1);
      OnGrid(x', y') && CellOf(x', y') == NextCell(CellOf(x, y))
  {
    ToUint8Cases(x + 6);
    ToUint8Cases(y + 8);
  }

  /** What remains to be written after one visible character. */
  lemma RingWriteStep(buffer: seq<bv8>, font: seq<bv8>, black: bool, m: int, rest: seq<letter>)
    requires |buffer| == BUFFER_SIZE && |font| == FONT_SIZE && 0 <= m < CELLS
    requires rest != [] && rest[0] != 13
    ensures RingWrite(buffer, font, black, m, Visible(rest))
         == RingWrite(Stamp(buffer, m, CellImage(font, rest[0], black)), font, black, NextCell(m), Visible(rest[1..]))
    ensures (m + |Visible(rest)|) % CELLS == (NextCell(m) + |Visible(rest[1..])|) % CELLS
  {
    assert Visible(rest)[1..] == Visible(rest[1..]);
    CellArithmetic(m, |Visible(rest)|);
  }

  /** The image after writing `text` from grid position `(x, y)` on, and the cell the cursor ends at. */
  function RingResult(buffer: seq<bv8>, font: seq<bv8>, black: bool, x: int, y: int, text: seq<letter>): (seq<bv8>, int)
    requires |buffer| == BUFFER_SIZE && |font| == FONT_SIZE && OnGrid(x, y)
  {
    (RingWrite(buffer, font, black, CellOf(x, y), Visible(text)), (CellOf(x, y) + |Visible(text)|) % CELLS)
  }

  lemma RingResultStep(buffer: seq<bv8>, font: seq<bv8>, black: bool, x: int, y: int, u: int, v: int, rest: seq<letter>)
    requires |buffer| == BUFFER_SIZE && |font| == FONT_SIZE
    requires OnGrid(x, y) && OnGrid(u, v) && CellOf(u, v) == NextCell(CellOf(x, y))
    requires rest != [] && rest[0] != 13
    ensures RingResult(buffer, font, black, x, y, rest)
      == RingResult(Stamp(buffer, CellOf(x, y), CellImage(font, rest[0], black)), font, black, u, v, rest[1..])
  {
    RingWriteStep(buffer, font, black, CellOf(x, y), rest);
  }

  lemma RingResultSkip(buffer: seq<bv8>, font: seq<bv8>, black: bool, x: int, y: int, rest: seq<letter>)
    requires |buffer| == BUFFER_SIZE && |font| == FONT_SIZE && OnGrid(x, y)
    requires rest != [] && rest[0] == 13
    ensures RingResult(buffer, font, black, x, y, rest) == RingResult(buffer, font, black, x, y, rest[1..])
  {
  }

  /** The points of the picture drawn at `(x, y)`: all rows of the columns before `i`, and the rows before
      `j` of column `i`. */
  ghost function Block(x: int, y: int, i: int, j: int): iset<Point> {
    iset p: Point | y <= p.1 < y + 8 && x <= p.0 && (p.0 < x + i || (p.0 == x + i && p.1 < y + j))
  }

  lemma BlockPoint(x: int, y: int, i: nat, j: int)
    requires 0 <= j < 8
    ensures Block(x, y, i, j + 1) == Block(x, y, i, j) + iset{(x + i, y + j)}
  {
  }

  lemma BlockColumn(x: int, y: int, i: nat)
    ensures Block(x, y, i, 8) == Block(x, y, i + 1, 0)
  {
  }

  /** The points that the picture of `c` at `(x, y)` turns on. */
  ghost function Lit(font: seq<bv8>, c: letter, black: bool, x: int, y: int): iset<Point>
    requires |font| == FONT_SIZE
  {
    iset p: Point | x <= p.0 < x + 6 && y <= p.1 < y + 8 && Bit(GlyphOctet(font, c, p.0 - x), p.1 - y) == black
  }

  /** On the grid, drawing a character pixel by pixel replaces the six octets of its cell. */
  lemma OverlayIsStamp(before: seq<bv8>, after: seq<bv8>, font: seq<bv8>, c: letter, black: bool, x: int, y: int)
    requires |font| == FONT_SIZE && OnGrid(x, y)
    requires Overlaid(before, after, Block(x, y, 6, 0), Lit(font, c, black, x, y))
    ensures after == Stamp(before, CellOf(x, y), CellImage(font, c, black))
  {
    var m, six := CellOf(x, y), CellImage(font, c, black);
    var stamped := Stamp(before, m, six);
    forall u, v | OnScreen(u, v) ensures Pixel(after, u, v) == Pixel(stamped, u, v) {
      var i := Cell(u, v);
      assert v == 8 * (v / 8) + v % 8 && y == 8 * (y / 8) && x == 6 * (x / 6);
      assert 6 * m == x + 84 * (y / 8);
      if 6 * m <= i < 6 * m + 6 {
        assert v / 8 == y / 8 && i - 6 * m == u - x && v - y == v % 8;
        assert (u, v) in Block(x, y, 6, 0);
        var g := GlyphOctet(font, c, u - x);
        BitComplement(g, v % 8);
      } else {
        assert (u, v) !in Block(x, y, 6, 0);
      }
    }
    PixelsDetermine(after, stamped);
  }

  /** The image and the cursor. */
  datatype Screen = Screen(image: seq<bv8>, x: uint8, y: uint8)

  /** What writing one character at any cursor position does: a line feed moves to the start of a lower row, a
      carriage return does nothing, and any other character is drawn if it fits and moves the cursor on. */
  ghost predicate Writes(font: seq<bv8>, textSize: uint8, black: bool, c: letter, s: Screen, t: Screen)
    requires |font| == FONT_SIZE
  {
    if c == 10 then t == Screen(s.image, 0, ToUint8(s.y + (textSize as int) * 8))
    else if c == 13 then t == s
    else
      && (t.x, t.y) == Advanced(s.x, s.y, textSize)
      && if Fits(s.x, s.y) then Overlaid(s.image, t.image, Block(s.x, s.y, 6, 0), Lit(font, c, black, s.x, s.y))
         else t.image == s.image
  }

  /** The screens before, between and after the characters of a text. */
  ghost predicate Trace(font: seq<bv8>, textSize: uint8, black: bool, text: seq<letter>, screens: seq<Screen>)
    requires |font| == FONT_SIZE
  {
    && |screens| == |text| + 1
    && forall k :: 0 <= k < |text| ==> Writes(font, textSize, black, text[k], screens[k], screens[k + 1])
  }

  /** What writing a text does, character by character. */
  ghost predicate WritesAll(font: seq<bv8>, textSize: uint8, black: bool, text: seq<letter>, s: Screen, t: Screen)
    requires |font| == FONT_SIZE
  {
    exists screens :: Trace(font, textSize, black, text, screens) && screens[0] == s && screens[|text|] == t
  }

  lemma WritesMore(font: seq<bv8>, textSize: uint8, black: bool, text: seq<letter>, k: nat,
      s: Screen, u: Screen, t: Screen)
    requires |font| == FONT_SIZE && k < |text|
    requires WritesAll(font, textSize, black, text[..k], s, u) && Writes(font, textSize, black, text[k], u, t)
    ensures WritesAll(font, textSize, black, text[..k + 1], s, t)
  {
    hide Writes;
    var screens :| Trace(font, textSize, black, text[..k], screens) && screens[0] == s && screens[|text[..k]|] == u;
    assert Trace(font, textSize, black, text[..k + 1], screens + [t]);
  }

  lemma WritesNothing(font: seq<bv8>, textSize: uint8, black: bool, text: seq<letter>, s: Screen)
    requires |font| == FONT_SIZE
    ensures WritesAll(font, textSize, black, text[..0], s, s)
  {
    assert Trace(font, textSize, black, text[..0], [s]);
  }

  /** There is only one screen that a text leads to. */
  lemma WritesUnique(font: seq<bv8>, textSize: uint8, black: bool, text: seq<letter>, s: Screen, t: Screen, t': Screen)
    requires |font| == FONT_SIZE && |s.image| == BUFFER_SIZE
    requires WritesAll(font, textSize, black, text, s, t) && WritesAll(font, textSize, black, text, s, t')
    ensures t == t'
  {
    var screens :| Trace(font, textSize, black, text, screens) && screens[0] == s && screens[|text|] == t;
    var others :| Trace(font, textSize, black, text, others) && others[0] == s && others[|text|] == t';
    TraceUnique(font, textSize, black, text, screens, others, |text|);
  }

  lemma {:induction false} TraceUnique(font: seq<bv8>, textSize: uint8, black: bool, text: seq<letter>,
      screens: seq<Screen>, others: seq<Screen>, k: nat)
    requires |font| == FONT_SIZE && k <= |text|
    requires Trace(font, textSize, black, text, screens) && Trace(font, textSize, black, text, others)
    requires screens[0] == others[0] && |screens[0].image| == BUFFER_SIZE
    ensures screens[k] == others[k] && |screens[k].image| == BUFFER_SIZE
    decreases k
  {
    hide Writes;
    if k > 0 {
      TraceUnique(font, textSize, black, text, screens, others, k - 1);
      OneScreen(font, textSize, black, text[k - 1], screens[k - 1], screens[k], others[k]);
    }
  }

  /** On the grid a visible character fills its cell and moves to the next cell of the ring. */
  lemma GridWrite(font: seq<bv8>, black: bool, c: letter, s: Screen, t: Screen)
    requires |font| == FONT_SIZE && |s.image| == BUFFER_SIZE && OnGrid(s.x, s.y) && c != 10 && c != 13
    requires Writes(font, 1, black, c, s, t)
    ensures t.image == Stamp(s.image, CellOf(s.x, s.y), CellImage(font, c, black))
    ensures OnGrid(t.x, t.y) && CellOf(t.x, t.y) == NextCell(CellOf(s.x, s.y))
  {
    hide Overlaid, Stamp, CellImage, Lit, Block, Advanced;
    GridFits(s.x, s.y);
    OverlayIsStamp(s.image, t.image, font, c, black, s.x, s.y);
    GridAdvance(s.x, s.y);
  }

  lemma GridStep(font: seq<bv8>, black: bool, rest: seq<letter>, s: Screen, t: Screen)
    requires |font| == FONT_SIZE && |s.image| == BUFFER_SIZE && OnGrid(s.x, s.y) && rest != [] && rest[0] != 10
    requires Writes(font, 1, black, rest[0], s, t)
    ensures |t.image| == BUFFER_SIZE && OnGrid(t.x, t.y)
    ensures RingResult(t.image, font, black, t.x, t.y, rest[1..]) == RingResult(s.image, font, black, s.x, s.y, rest)
  {
    hide RingResult, OnGrid, CellOf, CellImage;
    if rest[0] == 13 {
      assert t == s;
      RingResultSkip(s.image, font, black, s.x, s.y, rest);
    } else {
      GridWrite(font, black, rest[0], s, t);
      RingResultStep(s.image, font, black, s.x, s.y, t.x, t.y, rest);
    }
  }

  lemma {:induction false} RingTrace(font: seq<bv8>, black: bool, text: seq<letter>, screens: seq<Screen>, k: nat)
    requires |font| == FONT_SIZE && k <= |text| && NoLineFeed(text) && Trace(font, 1, black, text, screens)
    requires |screens[0].image| == BUFFER_SIZE && OnGrid(screens[0].x, screens[0].y)
    ensures |screens[k].image| == BUFFER_SIZE && OnGrid(screens[k].x, screens[k].y)
    ensures RingResult(screens[k].image, font, black, screens[k].x, screens[k].y, text[k..])
         == RingResult(screens[0].image, font, black, screens[0].x, screens[0].y, text)
    decreases k
  {
    hide Writes, RingResult, OnGrid;
    if k == 0 {
      assert text[0..] == text;
    } else {
      RingTrace(font, black, text, screens, k - 1);
      assert text[k - 1..][1..] == text[k..] && text[k - 1..][0] == text[k - 1];
      GridStep(font, black, text[k - 1..], screens[k - 1], screens[k]);
    }
  }

  /** A text without line feeds that is written character by character from a grid cell on is a write into the
      ring of cells. */
  lemma TextIsRingWrite(font: seq<bv8>, black: bool, text: seq<letter>, s: Screen, t: Screen)
    requires |font| == FONT_SIZE && |s.image| == BUFFER_SIZE && OnGrid(s.x, s.y) && NoLineFeed(text)
    requires WritesAll(font, 1, black, text, s, t)
    ensures var m := CellOf(s.x, s.y);
      && t.image == RingWrite(s.image, font, black, m, Visible(text))
      && OnGrid(t.x, t.y) && CellOf(t.x, t.y) == (m + |Visible(text)|) % CELLS
  {
    hide OnGrid, CellOf, Writes;
    var screens :| Trace(font, 1, black, text, screens) && screens[0] == s && screens[|text|] == t;
    RingTrace(font, black, text, screens, |text|);
    assert text[|text|..] == [];
  }

  lemma OneScreen(font: seq<bv8>, textSize: uint8, black: bool, c: letter, s: Screen, t: Screen, t': Screen)
    requires |font| == FONT_SIZE && |s.image| == BUFFER_SIZE
    requires Writes(font, textSize, black, c, s, t) && Writes(font, textSize, black, c, s, t')
    ensures t == t' && |t.image| == BUFFER_SIZE
  {
    hide Lit, Block, Advanced, Pixel;
    if c != 10 && c != 13 && Fits(s.x, s.y) {
      PixelsDetermine(t.image, t'.image);
    }
  }

  lemma BitComplement(b: bv8, j: int)
    requires 0 <= j < 8
    ensures Bit(!b, j) <==> !Bit(b, j)
  {
    BvTable();
  }
}
