/** The fixed-width 5x7 text layout shared by both text routines: character
    `i` of the string owns the slot starting `i * (5 + 1) * scale` pixels to
    the right of the origin (whether or not the font knows it), and bit
    `4 - col` of row `row` of its glyph lights the `scale x scale` block at
    column `col`, row `row` of that slot. */
module Glyphs {
  import opened Options
  import opened Canvas

  /** Glyph columns and the horizontal advance (columns plus one of spacing). */
  const CharWidth: nat := 5
  const Advance: nat := 6
  const CharHeight: nat := 7

  /** The source's `u8`. */
  type Byte = x: int | 0 <= x < 256

  /** A glyph: seven rows, top to bottom; in a row the leftmost column is
      bit 4. */
  datatype Glyph = Glyph(r0: Byte, r1: Byte, r2: Byte, r3: Byte, r4: Byte, r5: Byte, r6: Byte)
  {
    function Row(k: nat): Byte
      requires k < CharHeight
    {
      if k == 0 then r0 else if k == 1 then r1 else if k == 2 then r2
      else if k == 3 then r3 else if k == 4 then r4 else if k == 5 then r5 else r6
    }
  }

  /** A font looks a character up and gives its glyph, if it has one. */
  type Font = char -> Option<Glyph>

  function Pow2(k: nat): (p: nat)
    ensures p >= 1
  {
    if k == 0 then 1 else 2 * Pow2(k - 1)
  }

  /** The test `(row_bits >> (char_width - 1 - col)) & 1 == 1`: on a
      non-negative number a right shift by `k` is division by `2^k`, and
      masking with 1 keeps the remainder modulo 2. */
  predicate BitSet(row: Byte, col: nat)
    requires col < CharWidth
  {
    row / Pow2(CharWidth - 1 - col) % 2 == 1
  }

  /** Pixel `(px, py)` is painted by text `text` drawn at `(x, y)`: it falls in
      the block of a lit glyph cell. Blocks are found by dividing the offset by
      the scale; the column unit `u` splits into slot `u / 6` and column
      `u % 6`, where column 5 is the spacing. */
  predicate TextLit(font: Font, text: string, x: int, y: int, scale: nat, px: int, py: int)
  {
    && scale > 0 && x <= px && y <= py
    && var u := (px - x) / scale;
       var row := (py - y) / scale;
       var (i, col) := (u / Advance, u % Advance);
       && i < |text| && font(text[i]).Some?
       && col < CharWidth && row < CharHeight
       && BitSet(font(text[i]).value.Row(row), col)
  }

  /** The cell `(i, row, col)` containing `(px, py)` comes before `(ci, crow,
      ccol)` in the order the loops visit cells, and it is lit. */
  predicate LitBefore(font: Font, text: string, x: int, y: int, scale: nat, px: int, py: int,
                      ci: int, crow: int, ccol: int)
  {
    && TextLit(font, text, x, y, scale, px, py)
    && var u := (px - x) / scale;
       var row := (py - y) / scale;
       var (i, col) := (u / Advance, u % Advance);
       (i < ci || (i == ci && (row < crow || (row == crow && col < ccol))))
  }

  /** All cells before the first one are unvisited; all cells before slot
      `|text|` are all cells. */
  lemma LitBeforeBounds(font: Font, text: string, x: int, y: int, scale: nat, px: int, py: int)
    ensures !LitBefore(font, text, x, y, scale, px, py, 0, 0, 0)
    ensures LitBefore(font, text, x, y, scale, px, py, |text|, 0, 0) <==>
            TextLit(font, text, x, y, scale, px, py)
  {
  }

  /** The block of cell `(i, row, col)` is the set of pixels that decode to
      that cell. */
  lemma CellBlock(x: int, y: int, scale: nat, i: nat, row: nat, col: nat, px: int, py: int)
    requires scale > 0 && col < Advance
    ensures var left, top := x + i * Advance * scale + col * scale, y + row * scale;
      (left <= px < left + scale && top <= py < top + scale) <==>
      (x <= px && y <= py &&
       (px - x) / scale / Advance == i && (px - x) / scale % Advance == col && (py - y) / scale == row)
  {
    var k := Advance * i + col;
    assert i * Advance * scale + col * scale == k * scale by {
      assert i * Advance * scale == (Advance * i) * scale;
      assert (Advance * i) * scale + col * scale == (Advance * i + col) * scale;
    }
    DivBlock(px - x, scale, k);
    DivBlock(py - y, scale, row);
    MulMonotone(0, k, scale);
    MulMonotone(0, row, scale);
    var u := (px - x) / scale;
    assert u == k <==> u / Advance == i && u % Advance == col;
  }

  /** Pixel `(px, py)` lies in the `scale x scale` block that cell
      `(i, row, col)` paints when its bit is set. */
  predicate InCell(x: int, y: int, scale: nat, i: nat, row: nat, col: nat, px: int, py: int)
  {
    var left, top := x + i * Advance * scale + col * scale, y + row * scale;
    left <= px < left + scale && top <= py < top + scale
  }

  /** Visiting a glyph cell adds exactly its block, if its bit is set. */
  lemma LitStep(font: Font, text: string, x: int, y: int, scale: nat, px: int, py: int,
                i: nat, row: nat, col: nat)
    requires scale > 0 && i < |text| && font(text[i]).Some? && row < CharHeight && col < CharWidth
    ensures LitBefore(font, text, x, y, scale, px, py, i, row, col + 1) <==>
      LitBefore(font, text, x, y, scale, px, py, i, row, col) ||
      (InCell(x, y, scale, i, row, col, px, py) && BitSet(font(text[i]).value.Row(row), col))
  {
    CellBlock(x, y, scale, i, row, col, px, py);
  }

  /** The spacing column is never lit, so the scan of a row ends where the
      next row begins. */
  lemma LitRowEnd(font: Font, text: string, x: int, y: int, scale: nat, px: int, py: int, i: int, row: int)
    ensures LitBefore(font, text, x, y, scale, px, py, i, row, CharWidth) <==>
            LitBefore(font, text, x, y, scale, px, py, i, row + 1, 0)
  {
  }

  /** A glyph has seven rows, so the scan of a slot ends where the next slot
      begins. */
  lemma LitSlotEnd(font: Font, text: string, x: int, y: int, scale: nat, px: int, py: int, i: int)
    ensures LitBefore(font, text, x, y, scale, px, py, i, CharHeight, 0) <==>
            LitBefore(font, text, x, y, scale, px, py, i + 1, 0, 0)
  {
  }

  /** A character without a glyph lights nothing but still takes its slot. */
  lemma LitSkip(font: Font, text: string, x: int, y: int, scale: nat, px: int, py: int, i: nat)
    requires i < |text| && font(text[i]).None?
    ensures LitBefore(font, text, x, y, scale, px, py, i, 0, 0) <==>
            LitBefore(font, text, x, y, scale, px, py, i + 1, 0, 0)
  {
  }
}
