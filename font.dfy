/** The 5x7 font of the old renderer: 65 glyphs (capital letters, space,
    digits and ASCII punctuation), seven rows of five bits each (written in
    hex here; the source writes them in binary). */
module Font {
  import opened Options
  import opened Glyphs

  /** The font table: the glyph of `c`, if the table has one. The table
      covers exactly the characters from space to backquote: there are no
      lower-case letters, no braces and no tilde. */
  function Glyph5x7(c: char): (g: Option<Glyph>)
    ensures g.Some? <==> ' ' <= c <= '`'
  {
    match c
    case 'A' => Some(Glyph(0x0E, 0x11, 0x11, 0x1F, 0x11, 0x11, 0x11))
    case 'B' => Some(Glyph(0x1E, 0x11, 0x11, 0x1E, 0x11, 0x11, 0x1E))
    case 'C' => Some(Glyph(0x0E, 0x11, 0x10, 0x10, 0x10, 0x11, 0x0E))
    case 'D' => Some(Glyph(0x1C, 0x12, 0x11, 0x11, 0x11, 0x12, 0x1C))
    case 'E' => Some(Glyph(0x1F, 0x10, 0x10, 0x1E, 0x10, 0x10, 0x1F))
    case 'F' => Some(Glyph(0x1F, 0x10, 0x10, 0x1E, 0x10, 0x10, 0x10))
    case 'G' => Some(Glyph(0x0E, 0x11, 0x10, 0x17, 0x11, 0x11, 0x0E))
    case 'H' => Some(Glyph(0x11, 0x11, 0x11, 0x1F, 0x11, 0x11, 0x11))
    case 'I' => Some(Glyph(0x0E, 0x04, 0x04, 0x04, 0x04, 0x04, 0x0E))
    case 'J' => Some(Glyph(0x01, 0x01, 0x01, 0x01, 0x11, 0x11, 0x0E))
    case 'K' => Some(Glyph(0x11, 0x12, 0x14, 0x18, 0x14, 0x12, 0x11))
    case 'L' => Some(Glyph(0x10, 0x10, 0x10, 0x10, 0x10, 0x10, 0x1F))
    case 'M' => Some(Glyph(0x11, 0x1B, 0x15, 0x11, 0x11, 0x11, 0x11))
    case 'N' => Some(Glyph(0x11, 0x11, 0x19, 0x15, 0x13, 0x11, 0x11))
    case 'O' => Some(Glyph(0x0E, 0x11, 0x11, 0x11, 0x11, 0x11, 0x0E))
    case 'P' => Some(Glyph(0x1E, 0x11, 0x11, 0x1E, 0x10, 0x10, 0x10))
    case 'Q' => Some(Glyph(0x0E, 0x11, 0x11, 0x11, 0x15, 0x12, 0x0D))
    case 'R' => Some(Glyph(0x1E, 0x11, 0x11, 0x1E, 0x14, 0x12, 0x11))
    case 'S' => Some(Glyph(0x0F, 0x10, 0x10, 0x0E, 0x01, 0x01, 0x1E))
    case 'T' => Some(Glyph(0x1F, 0x04, 0x04, 0x04, 0x04, 0x04, 0x04))
    case 'U' => Some(Glyph(0x11, 0x11, 0x11, 0x11, 0x11, 0x11, 0x0E))
    case 'V' => Some(Glyph(0x11, 0x11, 0x11, 0x11, 0x11, 0x0A, 0x04))
    case 'W' => Some(Glyph(0x11, 0x11, 0x11, 0x11, 0x15, 0x1B, 0x11))
    case 'X' => Some(Glyph(0x11, 0x11, 0x0A, 0x04, 0x0A, 0x11, 0x11))
    case 'Y' => Some(Glyph(0x11, 0x11, 0x0A, 0x04, 0x04, 0x04, 0x04))
    case 'Z' => Some(Glyph(0x1F, 0x01, 0x02, 0x04, 0x08, 0x10, 0x1F))
    case ' ' => Some(Glyph(0x00, 0x00, 0x00, 0x00, 0x00, 0x00, 0x00))
    case '0' => Some(Glyph(0x0E, 0x11, 0x13, 0x15, 0x19, 0x11, 0x0E))
    case '1' => Some(Glyph(0x04, 0x0C, 0x04, 0x04, 0x04, 0x04, 0x0E))
    case '2' => Some(Glyph(0x0E, 0x11, 0x01, 0x02, 0x04, 0x08, 0x1F))
    case '3' => Some(Glyph(0x1F, 0x02, 0x04, 0x02, 0x01, 0x11, 0x0E))
    case '4' => Some(Glyph(0x02, 0x06, 0x0A, 0x12, 0x1F, 0x02, 0x02))
    case '5' => Some(Glyph(0x1F, 0x10, 0x1E, 0x01, 0x01, 0x11, 0x0E))
    case '6' => Some(Glyph(0x06, 0x08, 0x10, 0x1E, 0x11, 0x11, 0x0E))
    case '7' => Some(Glyph(0x1F, 0x01, 0x02, 0x04, 0x08, 0x08, 0x08))
    case '8' => Some(Glyph(0x0E, 0x11, 0x11, 0x0E, 0x11, 0x11, 0x0E))
    case '9' => Some(Glyph(0x0E, 0x11, 0x11, 0x0F, 0x01, 0x02, 0x0C))
    case '!' => Some(Glyph(0x04, 0x04, 0x04, 0x04, 0x00, 0x04, 0x00))
    case '"' => Some(Glyph(0x0A, 0x0A, 0x00, 0x00, 0x00, 0x00, 0x00))
    case '#' => Some(Glyph(0x0A, 0x1F, 0x0A, 0x0A, 0x1F, 0x0A, 0x00))
    case '$' => Some(Glyph(0x04, 0x0F, 0x14, 0x0E, 0x05, 0x1E, 0x04))
    case '%' => Some(Glyph(0x18, 0x19, 0x02, 0x04, 0x08, 0x13, 0x03))
    case '&' => Some(Glyph(0x0C, 0x12, 0x14, 0x08, 0x15, 0x12, 0x0D))
    case '\'' => Some(Glyph(0x04, 0x04, 0x00, 0x00, 0x00, 0x00, 0x00))
    case '(' => Some(Glyph(0x02, 0x04, 0x08, 0x08, 0x08, 0x04, 0x02))
    case ')' => Some(Glyph(0x08, 0x04, 0x02, 0x02, 0x02, 0x04, 0x08))
    case '*' => Some(Glyph(0x00, 0x04, 0x15, 0x0E, 0x15, 0x04, 0x00))
    case '+' => Some(Glyph(0x00, 0x04, 0x04, 0x1F, 0x04, 0x04, 0x00))
    case ',' => Some(Glyph(0x00, 0x00, 0x00, 0x00, 0x04, 0x04, 0x08))
    case '-' => Some(Glyph(0x00, 0x00, 0x00, 0x1F, 0x00, 0x00, 0x00))
    case '.' => Some(Glyph(0x00, 0x00, 0x00, 0x00, 0x00, 0x06, 0x06))
    case '/' => Some(Glyph(0x01, 0x02, 0x04, 0x08, 0x10, 0x00, 0x00))
    case ':' => Some(Glyph(0x00, 0x06, 0x06, 0x00, 0x06, 0x06, 0x00))
    case ';' => Some(Glyph(0x00, 0x06, 0x06, 0x00, 0x06, 0x04, 0x08))
    case '<' => Some(Glyph(0x02, 0x04, 0x08, 0x10, 0x08, 0x04, 0x02))
    case '=' => Some(Glyph(0x00, 0x1F, 0x00, 0x1F, 0x00, 0x00, 0x00))
    case '>' => Some(Glyph(0x08, 0x04, 0x02, 0x01, 0x02, 0x04, 0x08))
    case '?' => Some(Glyph(0x0E, 0x11, 0x02, 0x04, 0x04, 0x00, 0x04))
    case '@' => Some(Glyph(0x0E, 0x11, 0x17, 0x15, 0x17, 0x10, 0x0E))
    case '[' => Some(Glyph(0x0E, 0x08, 0x08, 0x08, 0x08, 0x08, 0x0E))
    case '\\' => Some(Glyph(0x10, 0x08, 0x04, 0x02, 0x01, 0x00, 0x00))
    case ']' => Some(Glyph(0x0E, 0x02, 0x02, 0x02, 0x02, 0x02, 0x0E))
    case '^' => Some(Glyph(0x04, 0x0A, 0x11, 0x00, 0x00, 0x00, 0x00))
    case '_' => Some(Glyph(0x00, 0x00, 0x00, 0x00, 0x00, 0x00, 0x1F))
    case '`' => Some(Glyph(0x04, 0x04, 0x00, 0x00, 0x00, 0x00, 0x00))
    case _ => None
  }

  /** Every row of every glyph is a 5-bit mask, so the bit test of the
      blitters, which looks at bits 4 down to 0, sees the whole glyph. */
  lemma FiveBitRows(c: char, k: nat)
    requires Glyph5x7(c).Some? && k < CharHeight
    ensures Glyph5x7(c).value.Row(k) < 32
  {
  }

  /** The space glyph is blank: no pixel of a space's slot is painted. */
  lemma SpaceIsBlank(text: string, x: int, y: int, scale: nat, px: int, py: int)
    requires TextLit(Glyph5x7, text, x, y, scale, px, py)
    ensures text[(px - x) / scale / Advance] != ' '
  {
  }

  /** "A" at scale 1 lights exactly the 5x7 pattern of the letter A, and
      nothing outside its 5-wide, 7-tall cell. */
  lemma LetterA(x: int, y: int, px: int, py: int)
    ensures TextLit(Glyph5x7, "A", x, y, 1, px, py) <==>
      && 0 <= px - x < CharWidth && 0 <= py - y < CharHeight
      && BitSet(Glyph(0x0E, 0x11, 0x11, 0x1F, 0x11, 0x11, 0x11).Row(py - y), px - x)
  {
    assert Glyph5x7('A') == Some(Glyph(0x0E, 0x11, 0x11, 0x1F, 0x11, 0x11, 0x11));
  }
}
