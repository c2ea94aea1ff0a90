/** Grid geometry of the scratch card: its fixed dimensions, the linear
    index convention shared by the mask and the character grid, and the
    message table that scratching reveals. */
module Grid {

  /** Columns per row; column 0 of every row is a line break. */
  const WIDTH: nat := 40
  /** Rows of the card. */
  const HEIGHT: nat := 6
  /** Number of cells, and the length of the mask and the character grid. */
  const AREA: nat := WIDTH * HEIGHT

  /** Columns at the left of every row that scratching never turns into message text. */
  const PADDING: nat := 2

  /** The hidden message, one string per row. Every row is plain ASCII, so
      the source's byte indexing into a row is character indexing here. */
  const MESSAGE: seq<string> := [
    "",
    "    Dear people at Zoo, ",
    "    would you like to ",
    "    build the future ",
    "    of hardware design together? ",
    ""
  ]

  /** Column of a cell: `index % WIDTH`. */
  function Col(index: nat): (col: nat)
    ensures col < WIDTH
  {
    index % WIDTH
  }

  /** Row of a cell: `index / WIDTH`. */
  function Row(index: nat): (row: nat)
    requires index < AREA
    ensures row < HEIGHT
  {
    index / WIDTH
  }

  /** Linear index of the cell at `row`, `col`. */
  function Index(row: nat, col: nat): (index: nat)
    requires row < HEIGHT && col < WIDTH
    ensures index < AREA
  {
    row * WIDTH + col
  }

  /** Every cell is recovered from its row and column ... */
  lemma IndexOfCoordinates(index: nat)
    requires index < AREA
    ensures Index(Row(index), Col(index)) == index
  {
  }

  /** ... and every (row, column) pair from its cell: the convention is a bijection. */
  lemma CoordinatesOfIndex(row: nat, col: nat)
    requires row < HEIGHT && col < WIDTH
    ensures Row(Index(row, col)) == row && Col(Index(row, col)) == col
  {
  }

  /** A character the message may contain: printable ASCII. */
  predicate PrintableAscii(ch: char)
  {
    ' ' <= ch <= '~'
  }

  /** The message table has one row per grid row, and row r is of the
      length the layout assumes: 0, 24, 22, 21, 33 and 0 characters. */
  lemma MessageShape()
    ensures |MESSAGE| == HEIGHT
    ensures |MESSAGE[0]| == 0 && |MESSAGE[1]| == 24 && |MESSAGE[2]| == 22
    ensures |MESSAGE[3]| == 21 && |MESSAGE[4]| == 33 && |MESSAGE[5]| == 0
  {
  }

  /** Every message character is printable ASCII (so it is one byte, and never a line break). */
  lemma MessageIsPrintableAscii(row: nat, col: nat)
    requires row < HEIGHT && col < |MESSAGE[row]|
    ensures PrintableAscii(MESSAGE[row][col])
    ensures MESSAGE[row][col] as int < 128 && MESSAGE[row][col] != '\n'
  {
  }

  /** No message character is the 'x' the character grid is filled with before compositing. */
  lemma MessageHasNoPlaceholder(row: nat, col: nat)
    requires row < HEIGHT && col < |MESSAGE[row]|
    ensures MESSAGE[row][col] != 'x'
  {
  }

  /** No message row is longer than a grid row, so every message character has a cell. */
  lemma MessageFitsRow(row: nat)
    requires row < HEIGHT
    ensures |MESSAGE[row]| <= WIDTH
  {
  }

  /** For this message table, no row other than row 0 has a length equal
      to its own row number. */
  lemma RowNumberNeverRowLength(row: nat)
    requires 0 < row < HEIGHT
    ensures row != |MESSAGE[row]|
  {
  }
}
