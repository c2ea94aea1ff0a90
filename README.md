# Scratch card: verified model

A model of the scratch card in `src/lib.rs`. The card is a grid of 40 × 6 text cells. Column 0 of each row is a line break. An unscratched cell shows a "ZOO" coating pattern. Dragging the pointer over the card scratches cells. A scratched cell reveals the hidden message where there is message text, and the top-layer glyph `'0'` elsewhere.

The model has three modules:

- `Grid` (`grid.dfy`): the constants `WIDTH`, `HEIGHT`, `AREA`, `PADDING` and `MESSAGE`, and the index convention `row = index / WIDTH`, `col = index % WIDTH`. It also holds facts about the message table: its shape, that it is printable ASCII with no `'x'`, and that no row past row 0 has a length equal to its row number.
- `Compositor` (`compositor.dfy`): `get_characters`.
  - `CellChar` is the pure per-cell rule and `Compose` applies it to the whole grid.
  - `GetCharacters` is the source's loop over an array of `AREA` placeholders. It is proved to return exactly `Compose(mask)`.
  - The lemmas give, for every cell, what is displayed: a separator, the coating, the top layer or a message character.
  - The `usize` subtraction in the bottom layer is written out using both release (wrapping) and debug (panicking) semantics.
- `Interaction` (`scratch_card.dfy`): the drag flag and the scratch mask.
  - `Step` and `Run` are the value-level meaning of pointer-down, pointer-up and pointer-move events.
  - The class `ScratchCard` holds `mask: array<bool>` and `dragging: bool`. Its three handler methods are proved to update the fields exactly as `Step` does.
  - Lemmas cover monotonicity, idempotence, idle moves, locality of redraws and the press/move/release scenario.
  - The method `DragThenReleaseClient` drives the class through that scenario. Its assertions follow from the handlers' contracts alone.

Modelling decisions:

- `usize` is taken as the wasm32 width (modulus 2^32). Any width gives the same bottom layer, because the wrapped value of `0 - 1` is never 0.
- `CellChar` uses the release-build reading of `pattern_index - 1`: the underflow wraps and the match falls to the `'O'` arm. The debug-build panic is modelled beside it (see Findings).
- The message rows are ASCII (`Grid.MessageIsPrintableAscii`). So `sentence.as_bytes()[col] as char` is the character at position `col`, and the model indexes the string directly.
- The move handler in the source copies the mask array out of its cell, sets one entry and writes the copy back. The effect is one in-place write, and `ScratchCard.PointerMove` models it that way.
- The pointer-move handler receives the cell index already computed. It is an arbitrary `nat`, and only indices below `AREA` are used.

## Model

| member | source | states |
|---|---|---|
| `Grid.Col` | src/lib.rs:139 | a cell's column lies in `[0, WIDTH)` |
| `Grid.Row` | src/lib.rs:144 | a grid cell's row lies in `[0, HEIGHT)` |
| `Grid.Index` | src/lib.rs:111-116 | `row * WIDTH + col` of an in-grid row and column is a grid cell |
| `Grid.IndexOfCoordinates` | src/lib.rs:139-144 | every cell is rebuilt from its row and column |
| `Grid.CoordinatesOfIndex` | src/lib.rs:139-144 | every (row, column) pair is rebuilt from its cell, so the convention is a bijection |
| `Grid.MessageShape` | src/lib.rs:124-131 | the message has `HEIGHT` rows, of lengths 0, 24, 22, 21, 33, 0 |
| `Grid.MessageIsPrintableAscii` | src/lib.rs:124-131 | every message character is printable ASCII, below 128 and not a line break |
| `Grid.MessageHasNoPlaceholder` | src/lib.rs:124-131 | no message character is the `'x'` placeholder |
| `Grid.MessageFitsRow` | src/lib.rs:124-131 | no message row is longer than `WIDTH` |
| `Grid.RowNumberNeverRowLength` | src/lib.rs:124-131 | for rows 1 to 5 the row number differs from the row's message length |
| `Compositor.WrappingSub` | src/lib.rs:152 | release-build `usize` subtraction: the result is in range and congruent to `a - b`, and exact when there is no underflow |
| `Compositor.CheckedSub` | src/lib.rs:152 | debug-build `usize` subtraction: it panics (`None`) exactly on underflow, otherwise the result is exact |
| `Compositor.BottomLayer` | src/lib.rs:148-155 | the release-build bottom layer is `'Z'` or `'O'`; its exact pattern is `BottomLayerPattern` |
| `Compositor.DebugBottomLayer` | src/lib.rs:152-155 | the debug-build bottom layer is `'Z'` or `'O'` when it does not panic; when it panics is `DebugBottomLayerPanics` |
| `Compositor.BottomLayerPattern` | src/lib.rs:148-155 | the bottom layer is `'Z'` if and only if `col % 3 == 1`, and `'O'` otherwise |
| `Compositor.DebugBottomLayerPanics` | src/lib.rs:148-155 | a debug build panics exactly when `col % 3 == 0`, and agrees with the release build otherwise |
| `Compositor.IsMessageIndex` | src/lib.rs:146 | a message cell lies right of the padding and below row 0; the converse is `MessageIndexIff` |
| `Compositor.CellChar` | src/lib.rs:139-170 | the per-cell rule: a cell is a line break if and only if it is in column 0, and it is never the `'x'` placeholder; the other cases are in `UnscratchedShowsCoating`, `ScratchedOutsideMessage`, `ScratchedMessageCell` and `ScratchedCell` |
| `Compositor.DebugCellChar` | src/lib.rs:139-170 | in a debug build a cell panics if and only if it is off column 0 with `col % 3 == 0`, whatever the mask, and otherwise shows what `CellChar` shows |
| `Compositor.DebugBuildPanicsOnFirstFrame` | src/lib.rs:138-155 | cell 3 is a non-separator cell in column 3: a debug build panics there whether or not it is scratched, and a release build shows `'O'` or `'0'` |
| `Compositor.MessageIndexIff` | src/lib.rs:146 | with this message table, a cell is a message cell if and only if `col > PADDING` and `row != 0` |
| `Compositor.Compose` | src/lib.rs:135-138 | the character grid has exactly `AREA` entries |
| `Compositor.GetCharacters` | src/lib.rs:135-175 | the loop's result equals the per-cell rule at every index |
| `Compositor.SeparatorColumn` | src/lib.rs:139-142 | a cell is a line break if and only if it is in column 0, whatever the mask |
| `Compositor.UnscratchedShowsCoating` | src/lib.rs:148-169 | an unscratched non-separator cell shows `'Z'` when `col % 3 == 1` and `'O'` otherwise, never message text |
| `Compositor.ScratchedOutsideMessage` | src/lib.rs:146-166 | a scratched cell in row 0 or in the padding shows `'0'` |
| `Compositor.ScratchedMessageCell` | src/lib.rs:157-166 | a scratched message cell shows the message character when the row is long enough, and `'0'` beyond the row's end |
| `Compositor.ScratchedRevealsMessage` | src/lib.rs:146-164 | a scratched cell below row 0, right of the padding and within its row's text shows that text's character |
| `Compositor.ScratchedCell` | src/lib.rs:139-167 | the complete case analysis for a scratched cell: separator, message character or top layer |
| `Compositor.ComposeHasNoPlaceholder` | src/lib.rs:136-172 | no `'x'` placeholder survives, whatever the mask |
| `Compositor.ComposeIsCellwise` | src/lib.rs:157-170 | cell `i` of the output depends only on `mask[i]` |
| `Compositor.ComposeUpdateIsLocal` | src/lib.rs:138-172 | changing one mask entry changes at most that one output cell |
| `Compositor.Blank` | src/lib.rs:44 | the startup mask has `AREA` entries, all false |
| `Compositor.CoatingRowPattern` | src/lib.rs:148-155 | the coating row text is a line break followed by the `Z`/`O` pattern of the bottom layer |
| `Compositor.BlankCardShowsCoating` | src/lib.rs:148-169 | every row of an unscratched card reads `"\nZOOZOO…ZOO"` |
| `Compositor.Scratched` | src/lib.rs:157 | a fully scratched mask has `AREA` entries, all true |
| `Compositor.RevealedRow` | src/lib.rs:145-166 | the revealed text of a row is `WIDTH` characters and starts with the line break; its columns are `RevealedRowAt` |
| `Compositor.RevealedRowAt` | src/lib.rs:145-166 | column by column, the revealed text of a row is a line break, the message character right of the padding, or `'0'` |
| `Compositor.ScratchedMessageRow` | src/lib.rs:145-166 | every fully scratched row shows `'0'` over the padding, then its message text from column 3, then `'0'` up to the row's end |
| `Compositor.ScratchRowOneColumnFive` | src/lib.rs:157-164 | scratching cell 45 of a blank card shows `'e'` there and changes no other cell |
| `Compositor.ScratchBeyondRowEnd` | src/lib.rs:160-163 | scratching cell 70, past the end of row 1's text, shows `'0'` |
| `Interaction.Initial` | src/lib.rs:29-44 | at startup the mask is all false and the pointer is up |
| `Interaction.Step` | src/lib.rs:34-67 | one event keeps the mask at `AREA` entries |
| `Interaction.Run` | src/lib.rs:34-69 | any sequence of events keeps the mask at `AREA` entries |
| `Interaction.PressAndRelease` | src/lib.rs:34-42 | pointer-down sets `dragging`, pointer-up clears it, and neither touches the mask |
| `Interaction.MoveMarksOnlyTarget` | src/lib.rs:62-67 | after pointer-move to `i`, cell `k` is scratched if and only if it was scratched before or `dragging && i < AREA && k == i`, and `dragging` is unchanged |
| `Interaction.MoveIgnoredWhenIdleOrOutside` | src/lib.rs:62 | pointer-move while not dragging, or with `i >= AREA`, changes nothing |
| `Interaction.MoveIsIdempotent` | src/lib.rs:62-67 | scratching a cell twice equals scratching it once |
| `Interaction.RunKeepsScratches` | src/lib.rs:62-67 | monotonicity: a scratched cell stays scratched through any sequence of events |
| `Interaction.RunChangesOnlyTargets` | src/lib.rs:62-67 | a cell that no pointer-move names keeps its state through any sequence of events |
| `Interaction.IdleMovesChangeNothing` | src/lib.rs:62-67 | while the pointer is up, any number of pointer-moves leaves the state unchanged |
| `Interaction.DragThenReleaseScenario` | src/lib.rs:34-67 | press, move to 45, release, move to 50: exactly cell 45 is scratched and the pointer is up |
| `Interaction.MoveRedrawsOneCell` | src/lib.rs:62-67 | after a scratching move, the next frame differs from the previous one only at that cell, which shows its scratched glyph |
| `Interaction.ScratchCard.State` | src/lib.rs:29-46 | the mask array and the shared drag flag, read as a well-formed `CardState` |
| `Interaction.ScratchCard.constructor` | src/lib.rs:29-45 | the card starts with a fresh all-false mask of `AREA` cells and the pointer up |
| `Interaction.ScratchCard.PointerDown` | src/lib.rs:34-36 | the `pointerdown` handler sets the state to `Step(old state, PointerDown)` |
| `Interaction.ScratchCard.PointerUp` | src/lib.rs:39-41 | the `pointerup` handler sets the state to `Step(old state, PointerUp)` |
| `Interaction.ScratchCard.PointerMove` | src/lib.rs:62-67 | the `pointermove` handler writes the mask array in place, so that the state becomes `Step(old state, PointerMove(index))` |

## Left out

- `transform_mouse_coordinates_to_mask_index` (src/lib.rs:93-109): floating-point pixel math with `f64`-to-`usize` casts. Its result is an arbitrary `nat` argument to `ScratchCard.PointerMove`. This also leaves out the `usize` underflow at src/lib.rs:106. For `x * WIDTH_COMPENSATION < 1`, meaning x below 11.5 px, and for negative x, which the cast turns into 0, `... as usize - 1` underflows. A debug build panics there. A release build wraps, and src/lib.rs:108 then gives `40 * y - 1`, so the leftmost strip of row y ≥ 1 scratches the last cell of row y − 1. No proof here depends on it, because `PointerMove` accepts any index.
- Event-listener registration, the event target's bounding rectangle, and the `Rc<RefCell<..>>` sharing (src/lib.rs:24-69): DOM plumbing. Events are dispatched one at a time, which is exactly what `Run` models.
- `render`, `request_animation_frame` and the rendering loop (src/lib.rs:71-91, 118-122): host scheduling and DOM text output. Only the character grid they display is modelled.
- `main_js`, the panic hook and the allocator (src/lib.rs:10-22): bootstrap.
- webpack.config.js: build configuration, with no logic.
- The compositor's only panic is the bottom layer's subtraction. `Compositor.DebugBottomLayer` and `Compositor.DebugCellChar` model it. The rest of the compositor follows the release build. The panic in the pixel-to-index conversion is left out with that conversion, as above.

## Findings

| source | as written | input that shows it | evidently intended | confidence | as-written member | corrected member |
|---|---|---|---|---|---|---|
| src/lib.rs:152 | `match pattern_index - 1` subtracts on `usize`, which underflows when `col % 3 == 0` | cell 3 (column 3) on every frame: a debug build panics with a subtraction overflow | `'O'` for every column with `col % 3 != 1`, which a release build gives only through wrap-around | not executed; high, from Rust's overflow semantics | `Compositor.DebugBuildPanicsOnFirstFrame` | `Compositor.BottomLayer` |
