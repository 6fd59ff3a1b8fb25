/** Terminal cells and rows (class Utf8Char and class CharStyle of FL/Fl_Terminal.H). */
module TerminalCells {
  import opened Rows

  /** One character cell: its UTF-8 text, colours, attribute bits and colour flags. */
  datatype Cell = Cell(text: string, fg: bv32, bg: bv32, attrib: bv8, flags: bv8)

  /** The part of the current style that is stored into a cell. */
  datatype Style = Style(fg: bv32, bg: bv32, attrib: bv8, flags: bv8)

  type Row = seq<Cell>

  const COLOR_MASK: bv8 := 0x03

  /** What the Utf8Char default constructor makes. */
  const FRESH_CELL := Cell(" ", 0xffff_ff00, 0xffff_ffff, 0, 0)

  /** Utf8Char::clear(): a space in the style's colours, without attributes. */
  function BlankCell(style: Style): Cell {
    Cell(" ", style.fg, style.bg, 0, 0)
  }

  /** Utf8Char::text_utf8(): new text and style, non-colour flag bits kept. */
  function PlottedCell(was: Cell, text: string, style: Style): Cell {
    Cell(text, style.fg, style.bg, style.attrib, (was.flags & !COLOR_MASK) | (style.flags & COLOR_MASK))
  }

  function FreshRow(cols: nat): Row { Repeat(FRESH_CELL, cols) }

  function BlankRow(style: Style, cols: nat): Row { Repeat(BlankCell(style), cols) }

  /** A row copied into a buffer of another width: cut, or extended with fresh cells. */
  function Fit(row: Row, cols: nat): (r: Row)
    ensures |r| == cols
  {
    if cols <= |row| then row[..cols] else row + FreshRow(cols - |row|)
  }
}
