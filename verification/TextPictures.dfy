/** What text looks like in the image: the font's own octets, cell by cell and pixel by pixel. */
module TextPictures {
  import opened CArith
  import opened Framebuffer
  import opened TextCells

  /** Cell `n` holds the five font octets of `c` and a blank one, all complemented for white text. */
  predicate CellShows(image: seq<bv8>, n: int, font: seq<bv8>, c: letter, black: bool)
    requires |image| == BUFFER_SIZE && |font| == FONT_SIZE && 0 <= n < 84
  {
    image[6 * n..6 * n + 6] ==
      if black then [font[5 * c], font[5 * c + 1], font[5 * c + 2], font[5 * c + 3], font[5 * c + 4], 0x00]
      else [!font[5 * c], !font[5 * c + 1], !font[5 * c + 2], !font[5 * c + 3], !font[5 * c + 4], 0xFF]
  }

  /** The k-th cell behind `m` is as before. */
  predicate SameCellAt(before: seq<bv8>, after: seq<bv8>, m: int, k: int)
    requires |before| == |after| == BUFFER_SIZE
  {
    var n := (m + k) % 84;
    after[6 * n..6 * n + 6] == before[6 * n..6 * n + 6]
  }

  /** Character k of the text fills cell (m + k) mod 84, and the cells behind the last one are as before. */
  ghost predicate FillsCells(before: seq<bv8>, after: seq<bv8>, font: seq<bv8>, black: bool, m: int, text: seq<letter>)
    requires |before| == |after| == BUFFER_SIZE && |font| == FONT_SIZE && 0 <= m < 84
  {
    && (forall k :: 0 <= k < |text| ==> CellShows(after, (m + k) % 84, font, text[k], black))
    && (forall k :: |text| <= k < 84 ==> SameCellAt(before, after, m, k))
  }

  /** Neither a line feed nor a carriage return. */
  predicate Plain(text: seq<letter>) {
    forall i :: 0 <= i < |text| ==> text[i] != 10 && text[i] != 13
  }

  lemma ImageIsFont(font: seq<bv8>, c: letter, black: bool)
    requires |font| == FONT_SIZE
    ensures CellImage(font, c, black) ==
      if black then [font[5 * c], font[5 * c + 1], font[5 * c + 2], font[5 * c + 3], font[5 * c + 4], 0x00]
      else [!font[5 * c], !font[5 * c + 1], !font[5 * c + 2], !font[5 * c + 3], !font[5 * c + 4], 0xFF]
  {
  }

  lemma {:induction false} PlainIsVisible(text: seq<letter>)
    requires Plain(text)
    ensures Visible(text) == text && NoLineFeed(text)
  {
    if text != [] { PlainIsVisible(text[1..]); }
  }

  lemma CellsBehind(m: int, k: int)
    requires 0 <= m < 84 && 0 <= k < 84
    ensures CellsAhead(m, (m + k) % 84) == k
  {
    if m + k < 84 { assert (m + k) % 84 == m + k; } else { assert (m + k) % 84 == m + k - 84; }
  }

  lemma RingFillsCells(image: seq<bv8>, font: seq<bv8>, black: bool, m: int, text: seq<letter>)
    requires |image| == BUFFER_SIZE && |font| == FONT_SIZE && 0 <= m < 84 && |text| <= 84
    ensures FillsCells(image, RingWrite(image, font, black, m, text), font, black, m, text)
  {
    hide RingWrite, CellImage;
    var after := RingWrite(image, font, black, m, text);
    forall k | 0 <= k < |text| ensures CellShows(after, (m + k) % 84, font, text[k], black) {
      RingWriteShows(image, font, black, m, text, k);
      ImageIsFont(font, text[k], black);
    }
    forall k | |text| <= k < 84 ensures SameCellAt(image, after, m, k) {
      CellsBehind(m, k);
      RingWriteKeeps(image, font, black, m, text, (m + k) % 84);
    }
  }

  /** Writing a plain text of at most 84 characters, character by character, from a grid cell on fills the cells
      from there with the characters' own font octets, and leaves the cursor behind the last one. */
  lemma TextFillsCells(font: seq<bv8>, black: bool, text: seq<letter>, s: Screen, t: Screen)
    requires |font| == FONT_SIZE && |s.image| == BUFFER_SIZE && OnGrid(s.x, s.y)
    requires Plain(text) && |text| <= 84 && WritesAll(font, 1, black, text, s, t)
    ensures var m := 14 * (s.y / 8) + s.x / 6;
      && |t.image| == BUFFER_SIZE && FillsCells(s.image, t.image, font, black, m, text)
      && OnGrid(t.x, t.y) && 14 * (t.y / 8) + t.x / 6 == (m + |text|) % 84
  {
    hide RingWrite, WritesAll, FillsCells, OnGrid, CellOf, Plain, Visible;
    PlainIsVisible(text);
    TextIsRingWrite(font, black, text, s, t);
    CellByRow(s.x, s.y);
    CellByRow(t.x, t.y);
    RingFillsCells(s.image, font, black, CellOf(s.x, s.y), text);
  }

  lemma CellByRow(x: int, y: int)
    requires OnGrid(x, y)
    ensures CellOf(x, y) == 14 * (y / 8) + x / 6
  {
  }

  /** A line feed in any row but the last leads to the first cell of the next row, and changes no pixel. */
  lemma LineFeedStartsRow(font: seq<bv8>, black: bool, s: Screen, t: Screen)
    requires |font| == FONT_SIZE && OnGrid(s.x, s.y) && s.y < 40 && Writes(font, 1, black, 10, s, t)
    ensures t.image == s.image && OnGrid(t.x, t.y) && 14 * (t.y / 8) + t.x / 6 == 14 * (s.y / 8 + 1)
  {
    ToUint8Cases(s.y + 8);
  }

  /** Within a row the cursor moves right by six columns for each unit of the text size. */
  lemma CursorMovesRight(x: uint8, y: uint8, textSize: uint8)
    requires x + 6 * (textSize as int) < 79 && y < 48
    ensures Advanced(x, y, textSize) == (x + 6 * (textSize as int), y)
  {
    ToUint8Cases(x + 6 * (textSize as int));
  }

  /** The pixels of the character's block show the bits of its font octets in the text colour, the topmost pixel
      the lowest bit; the sixth column is blank. */
  ghost predicate GlyphShows(image: seq<bv8>, font: seq<bv8>, c: letter, black: bool, x: int, y: int)
    requires |image| == BUFFER_SIZE && |font| == FONT_SIZE
  {
    forall px, py | OnScreen(px, py) && x <= px < x + 6 && y <= py < y + 8 ::
      Pixel(image, px, py) ==
        if px == x + 5 then !black else (font[5 * c + (px - x)] & Bv(py - y) != 0) == black
  }

  /** No other pixel of the screen changes. */
  ghost predicate RestKept(before: seq<bv8>, after: seq<bv8>, x: int, y: int)
    requires |before| == |after| == BUFFER_SIZE
  {
    forall px, py | OnScreen(px, py) && !(x <= px < x + 6 && y <= py < y + 8) ::
      Pixel(after, px, py) == Pixel(before, px, py)
  }

  lemma OverlayShowsGlyph(before: seq<bv8>, after: seq<bv8>, font: seq<bv8>, c: letter, black: bool, x: int, y: int)
    requires |font| == FONT_SIZE && Overlaid(before, after, Block(x, y, 6, 0), Lit(font, c, black, x, y))
    ensures GlyphShows(after, font, c, black, x, y) && RestKept(before, after, x, y)
  {
    hide Pixel;
    forall px, py | OnScreen(px, py) && x <= px < x + 6 && y <= py < y + 8
      ensures Pixel(after, px, py) ==
        if px == x + 5 then !black else (font[5 * c + (px - x)] & Bv(py - y) != 0) == black
    {
      LitByFont(font, c, black, x, y, px, py);
    }
  }

  lemma LitByFont(font: seq<bv8>, c: letter, black: bool, x: int, y: int, px: int, py: int)
    requires |font| == FONT_SIZE && x <= px < x + 6 && y <= py < y + 8
    ensures (px, py) in Block(x, y, 6, 0)
    ensures (px, py) in Lit(font, c, black, x, y) <==>
      if px == x + 5 then !black else (font[5 * c + (px - x)] & Bv(py - y) != 0) == black
  {
    hide Bv;
    if px == x + 5 { assert (0 as bv8) & Bv(py - y) == 0; }
  }
}
