/** The glyph compositor: from the scratch mask and the message table to
    the character grid shown on the card, recomputed on every frame. */
module Compositor {
  import opened Grid

  datatype Option<T> = None | Some(value: T)

  /** `usize` on the wasm32 target the card is built for. */
  const USIZE_MODULUS: nat := 0x1_0000_0000

  /** Character of a scratched cell outside the message (the coating's underside). */
  const TOP_LAYER: char := '0'

  /** `a - b` on `usize` as a release build computes it: wrapping on underflow. */
  function WrappingSub(a: nat, b: nat): (r: nat)
    requires a < USIZE_MODULUS && b < USIZE_MODULUS
    ensures r < USIZE_MODULUS
    ensures (r + b) % USIZE_MODULUS == a
    ensures b <= a ==> r + b == a
  {
    if b <= a then a - b else a - b + USIZE_MODULUS
  }

  /** `a - b` on `usize` as a debug build computes it: `None` stands for the
      overflow panic. */
  function CheckedSub(a: nat, b: nat): (r: Option<nat>)
    ensures r.Some? <==> b <= a
    ensures r.Some? ==> r.value + b == a
  {
    if b <= a then Some(a - b) else None
  }

  /** Bottom layer of a cell in column `col`, as the release build computes
      it: `match (col % 3) - 1 { 0 => 'Z', _ => 'O' }`, where the wrapped
      result of `0 - 1` falls to the second arm. */
  function BottomLayer(col: nat): (c: char)
    ensures c == 'Z' || c == 'O'
  {
    if WrappingSub(col % 3, 1) == 0 then 'Z' else 'O'
  }

  /** The same bottom layer as a debug build computes it; `None` is the panic. */
  function DebugBottomLayer(col: nat): (r: Option<char>)
    ensures r.Some? ==> r.value == 'Z' || r.value == 'O'
  {
    match CheckedSub(col % 3, 1)
    case None => None
    case Some(d) => Some(if d == 0 then 'Z' else 'O')
  }

  /** The coating alternates 'Z' 'O' 'O' with the column: 'Z' exactly in
      the columns that are 1 modulo 3. */
  lemma BottomLayerPattern(col: nat)
    ensures BottomLayer(col) == (if col % 3 == 1 then 'Z' else 'O')
    ensures BottomLayer(col) == 'Z' <==> col % 3 == 1
  {
  }

  /** In a debug build the bottom layer panics exactly in the columns that
      are 0 modulo 3, and agrees with the release build everywhere else. */
  lemma DebugBottomLayerPanics(col: nat)
    ensures DebugBottomLayer(col).None? <==> col % 3 == 0
    ensures col % 3 != 0 ==> DebugBottomLayer(col) == Some(BottomLayer(col))
  {
  }

  /** Every frame reaches such a column: index 3 is a non-separator cell in
      column 3, so a debug build panics on the first frame. */
  lemma DebugBuildPanicsOnFirstFrame()
    ensures 3 < AREA && Col(3) == 3
    ensures DebugBottomLayer(Col(3)) == None
    ensures BottomLayer(Col(3)) == 'O'
    ensures DebugCellChar(false, 3) == None && DebugCellChar(true, 3) == None
    ensures CellChar(false, 3) == 'O' && CellChar(true, 3) == TOP_LAYER
  {
  }

  /** Whether a scratched cell may show message text. The comparison of the
      row number with the row's length is part of the condition as written. */
  predicate IsMessageIndex(row: nat, col: nat)
    requires row < HEIGHT
    ensures IsMessageIndex(row, col) ==> PADDING < col && 0 < row
  {
    col > PADDING && row != 0 && row != |MESSAGE[row]|
  }

  /** For this message table the row-length clause excludes nothing:
      a cell may show message text exactly when it lies right of the
      padding and below the first row. */
  lemma MessageIndexIff(row: nat, col: nat)
    requires row < HEIGHT
    ensures IsMessageIndex(row, col) <==> col > PADDING && row != 0
  {
    if row != 0 {
      RowNumberNeverRowLength(row);
    }
  }

  /** The character of cell `index`, given whether that cell is scratched. */
  function CellChar(scratched: bool, index: nat): (c: char)
    requires index < AREA
    ensures c == '\n' <==> Col(index) == 0
    ensures c != 'x'
  {
    var col := Col(index);
    if col == 0 then '\n'
    else
      var row := Row(index);
      var sentence := MESSAGE[row];
      if scratched then
        if IsMessageIndex(row, col) && col < |sentence| then
          MessageIsPrintableAscii(row, col);
          MessageHasNoPlaceholder(row, col);
          sentence[col]
        else TOP_LAYER
      else
        BottomLayer(col)
  }

  /** The character of cell `index` as a debug build computes it: the source
      computes the bottom layer of every non-separator cell before it looks
      at the mask, so its panic (`None`) does not depend on `scratched`. */
  function DebugCellChar(scratched: bool, index: nat): (r: Option<char>)
    requires index < AREA
    ensures r.None? <==> Col(index) != 0 && Col(index) % 3 == 0
    ensures r.Some? ==> r.value == CellChar(scratched, index)
  {
    var col := Col(index);
    if col == 0 then Some('\n')
    else
      var row := Row(index);
      var sentence := MESSAGE[row];
      match DebugBottomLayer(col)
      case None => None
      case Some(bottomLayer) =>
        Some(if scratched then
               if IsMessageIndex(row, col) && col < |sentence| then sentence[col] else TOP_LAYER
             else bottomLayer)
  }

  /** The whole character grid for a mask, one cell at a time. */
  function Compose(mask: seq<bool>): (characters: seq<char>)
    requires |mask| == AREA
    ensures |characters| == AREA
  {
    seq(AREA, i requires 0 <= i < AREA => CellChar(mask[i], i))
  }

  /** `get_characters`: fills a grid of `AREA` placeholders cell by cell. */
  method GetCharacters(mask: seq<bool>) returns (characters: seq<char>)
    requires |mask| == AREA
    ensures characters == Compose(mask)
  {
    var grid := new char[AREA](_ => 'x');
    for index := 0 to AREA
      invariant forall k :: 0 <= k < index ==> grid[k] == CellChar(mask[k], k)
    {
      var col := Col(index);
      if col == 0 {
        grid[index] := '\n';
      } else {
        var row := Row(index);
        var sentence := MESSAGE[row];
        var isMessageIndex := IsMessageIndex(row, col);
        var bottomLayer := BottomLayer(col);
        grid[index] := if mask[index] then
            if isMessageIndex then
              if col < |sentence| then sentence[col] else TOP_LAYER
            else TOP_LAYER
          else bottomLayer;
      }
    }
    characters := grid[..];
  }

  /** Column 0, and only column 0, holds a line break, whatever the mask. */
  lemma SeparatorColumn(scratched: bool, index: nat)
    requires index < AREA
    ensures CellChar(scratched, index) == '\n' <==> Col(index) == 0
  {
    var col, row := Col(index), Row(index);
    if col != 0 && scratched && IsMessageIndex(row, col) && col < |MESSAGE[row]| {
      MessageIsPrintableAscii(row, col);
    }
  }

  /** An unscratched cell off the separator column shows the coating
      pattern, so no message character shows through it. */
  lemma UnscratchedShowsCoating(index: nat)
    requires index < AREA && Col(index) != 0
    ensures CellChar(false, index) == (if Col(index) % 3 == 1 then 'Z' else 'O')
  {
    BottomLayerPattern(Col(index));
  }

  /** A scratched cell in the first row or in the padding shows the top layer. */
  lemma ScratchedOutsideMessage(index: nat)
    requires index < AREA && Col(index) != 0
    requires Row(index) == 0 || Col(index) <= PADDING
    ensures CellChar(true, index) == TOP_LAYER
  {
  }

  /** A scratched message cell shows the message character at its column
      when the row is long enough, and the top layer beyond the row's end. */
  lemma ScratchedMessageCell(index: nat)
    requires index < AREA
    requires Col(index) > PADDING && Row(index) != 0 && Row(index) != |MESSAGE[Row(index)]|
    ensures Col(index) < |MESSAGE[Row(index)]| ==> CellChar(true, index) == MESSAGE[Row(index)][Col(index)]
    ensures Col(index) >= |MESSAGE[Row(index)]| ==> CellChar(true, index) == TOP_LAYER
  {
  }

  /** With this message table, scratching any cell below the first row and
      right of the padding reveals the message character there, if any. */
  lemma ScratchedRevealsMessage(index: nat)
    requires index < AREA
    requires Row(index) != 0 && PADDING < Col(index) < |MESSAGE[Row(index)]|
    ensures CellChar(true, index) == MESSAGE[Row(index)][Col(index)]
  {
    MessageIndexIff(Row(index), Col(index));
  }

  /** A scratched cell shows the line break in column 0, the message
      character where there is one below the first row and right of the
      padding, and the top layer everywhere else. */
  lemma ScratchedCell(index: nat)
    requires index < AREA
    ensures CellChar(true, index)
         == if Col(index) == 0 then '\n'
            else if Row(index) != 0 && PADDING < Col(index) < |MESSAGE[Row(index)]|
            then MESSAGE[Row(index)][Col(index)]
            else TOP_LAYER
  {
    MessageIndexIff(Row(index), Col(index));
  }

  /** No placeholder survives compositing, whatever the mask. */
  lemma ComposeHasNoPlaceholder(mask: seq<bool>)
    requires |mask| == AREA
    ensures forall k :: 0 <= k < AREA ==> Compose(mask)[k] != 'x'
  {
    forall k | 0 <= k < AREA
      ensures Compose(mask)[k] != 'x'
    {
      var col, row := Col(k), Row(k);
      if col != 0 && mask[k] && IsMessageIndex(row, col) && col < |MESSAGE[row]| {
        MessageHasNoPlaceholder(row, col);
      }
    }
  }

  /** Cell `i` of the grid depends on `mask[i]` alone: two masks that agree
      at `i` give the same character there. */
  lemma ComposeIsCellwise(mask1: seq<bool>, mask2: seq<bool>, i: nat)
    requires |mask1| == AREA && |mask2| == AREA && i < AREA
    requires mask1[i] == mask2[i]
    ensures Compose(mask1)[i] == Compose(mask2)[i]
  {
  }

  /** Changing one mask entry changes at most that one cell of the grid. */
  lemma ComposeUpdateIsLocal(mask: seq<bool>, i: nat, scratched: bool)
    requires |mask| == AREA && i < AREA
    ensures Compose(mask[i := scratched]) == Compose(mask)[i := CellChar(scratched, i)]
  {
  }

  /** The mask of a card nobody has scratched yet. */
  function Blank(): (mask: seq<bool>)
    ensures |mask| == AREA && forall k :: 0 <= k < AREA ==> !mask[k]
  {
    seq(AREA, _ => false)
  }

  /** The text of every row of the unscratched card. */
  const COATING_ROW: string := "\nZOOZOOZOOZOOZOOZOOZOOZOOZOOZOOZOOZOOZOO"

  /** The coating row is the line break followed by the bottom-layer pattern. */
  lemma CoatingRowPattern(c: nat)
    requires c < WIDTH
    ensures |COATING_ROW| == WIDTH
    ensures COATING_ROW[c] == if c == 0 then '\n' else if c % 3 == 1 then 'Z' else 'O'
  {
  }

  /** An unscratched card shows the coating row on every row. */
  lemma BlankCardShowsCoating(row: nat)
    requires row < HEIGHT
    ensures Compose(Blank())[row * WIDTH .. row * WIDTH + WIDTH] == COATING_ROW
  {
    var text := Compose(Blank())[row * WIDTH .. row * WIDTH + WIDTH];
    forall c | 0 <= c < WIDTH
      ensures text[c] == COATING_ROW[c]
    {
      CoordinatesOfIndex(row, c);
      CoatingRowPattern(c);
      if c != 0 {
        UnscratchedShowsCoating(Index(row, c));
      }
    }
  }

  /** The mask of a card scratched all over. */
  function Scratched(): (mask: seq<bool>)
    ensures |mask| == AREA && forall k :: 0 <= k < AREA ==> mask[k]
  {
    seq(AREA, _ => true)
  }

  /** The text a row with message `m` shows once scratched all over: the
      line break, the top layer over the padding, the message text from the
      first column past the padding, and the top layer up to the row's end. */
  function RevealedRow(m: string): (text: string)
    requires |m| <= WIDTH
    ensures |text| == WIDTH && text[0] == '\n'
  {
    if |m| <= PADDING + 1 then ['\n'] + seq(WIDTH - 1, _ => TOP_LAYER)
    else ['\n'] + seq(PADDING, _ => TOP_LAYER) + m[PADDING + 1..] + seq(WIDTH - |m|, _ => TOP_LAYER)
  }

  /** Column by column, the revealed text is the line break, the message
      character right of the padding where the message has one, and the top
      layer elsewhere. */
  lemma RevealedRowAt(m: string, c: nat)
    requires |m| <= WIDTH && c < WIDTH
    ensures |RevealedRow(m)| == WIDTH
    ensures RevealedRow(m)[c]
         == if c == 0 then '\n' else if PADDING < c < |m| then m[c] else TOP_LAYER
  {
    var text := RevealedRow(m);
    if c == 0 || |m| <= PADDING + 1 {
    } else if c <= PADDING {
      assert text[c] == seq(PADDING, _ => TOP_LAYER)[c - 1];
    } else if c < |m| {
      assert text[c] == m[PADDING + 1..][c - (PADDING + 1)];
    } else {
      assert text[c] == seq(WIDTH - |m|, _ => TOP_LAYER)[c - |m|];
    }
  }

  /** Scratched all over, every row shows its revealed text (row 0, whose
      message is empty, shows the top layer throughout). */
  lemma ScratchedMessageRow(row: nat)
    requires row < HEIGHT
    ensures |MESSAGE[row]| <= WIDTH
    ensures Compose(Scratched())[row * WIDTH .. row * WIDTH + WIDTH] == RevealedRow(MESSAGE[row])
  {
    MessageFitsRow(row);
    var mask := Scratched();
    var grid := Compose(mask);
    var text := grid[row * WIDTH .. row * WIDTH + WIDTH];
    var revealed := RevealedRow(MESSAGE[row]);
    forall c | 0 <= c < WIDTH
      ensures text[c] == revealed[c]
    {
      var index := Index(row, c);
      CoordinatesOfIndex(row, c);
      assert text[c] == grid[index] == CellChar(true, index);
      ScratchedCell(index);
      RevealedRowAt(MESSAGE[row], c);
    }
  }

  /** Scratching cell 45 (row 1, column 5) of a blank card reveals the 'e'
      of "Dear" there and changes no other cell. */
  lemma ScratchRowOneColumnFive()
    ensures Compose(Blank()[45 := true])[45] == MESSAGE[1][5] == 'e'
    ensures forall k :: 0 <= k < AREA && k != 45 ==> Compose(Blank()[45 := true])[k] == Compose(Blank())[k]
  {
    ComposeUpdateIsLocal(Blank(), 45, true);
  }

  /** Scratching cell 70 (row 1, column 30), beyond the end of that row's
      message, shows the top layer. */
  lemma ScratchBeyondRowEnd()
    ensures Compose(Blank()[70 := true])[70] == TOP_LAYER
  {
  }
}
