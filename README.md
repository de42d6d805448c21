# Falling-block grid logic, modelled in Dafny

This project models the grid logic of a small terminal falling-block game written in Rust:

- the field of 21 rows by 13 columns (`game.rs`);
- the collision test, fixing a block into the field, line erasure and block moves (`game.rs`);
- the seven 4x4 block masks and their tag constants (`block.rs`);
- the gravity-period formula and the moves that the gravity thread and the key handlers attempt (`main.rs`).

Files and modules:

- `block.dfy`:
  - module `BlockTag` holds the `block_kind` tag constants (NONE = 0, WALL = 1, GHOST = 2, I..T = 3..9);
  - module `Block` holds the `BlockKind` enum, the `BLOCKS` table and the integer-to-kind match of `sample`.
- `bits.dfy`: module `Bits` defines `BitAnd`, the bitwise AND that the collision test uses, written out on naturals.
- `game.dfy`: module `Game` holds:
  - the field, as an `array<Row>` where each `Row` is a 13-cell sequence value, so that `field[y2] = field[y2 - 1]` is a whole-row copy as in Rust;
  - the `Game` class, with fields `field`, `pos` and `block`;
  - the specification functions `Collides`, `FixedField`, `ShiftDown` and `EraseFrom`/`Erased`;
  - the class invariant `Game.Valid`: the field has 21 rows, keeps its side walls and holds only 0/1 cells;
  - the imperative operations, each proved against its specification function: `IsCollision`, `StampMask`/`FixBlock`, `RowIsFull`, `ShiftRowsDown`, `EraseLine` and `MoveBlock`.
- `main_loop.dfy`: module `MainLoop` holds:
  - the gravity period;
  - the candidate positions for Left, Right and Down;
  - the gravity tick and the three move keys, as methods that update `game.pos`.

Each handler is one method call. That is the step done under one lock acquisition in the source.

The model keeps two quirks of the code as written. Both are proved, and both are listed under Findings:
- **Bitwise collision test.** `is_collision` tests `field & mask == 1`. Field cells are 0 or 1 and mask cells are 0 or the kind's tag (3..9). So only I, S, J and T (odd tags) can ever collide. O, Z and L pass through walls and the floor.
- **`fix_block` writes nothing.** `fix_block` writes only where a mask cell equals 1, and no mask cell does.

There is one more behaviour of `erase_line`: the shift covers rows 2..y only. So row 1 is never cleared, and every cleared row adds one more copy of row 1 below it (`ErasedClosedForm`). The model keeps this too.

## Model

| member | source | states |
|---|---|---|
| BlockTag.TagsDistinct | src/block.rs:10-19 | the ten tag constants are 0..9 in declaration order, hence pairwise distinct |
| Block.Index | src/block.rs:36-44 | `kind as usize` is a valid index into the seven-entry mask table |
| Block.IndexInjective | src/block.rs:36-44 | distinct kinds have distinct indices, so each kind has its own mask |
| Block.Sample | src/block.rs:47-57 | a draw n in 0..6 gives the kind whose index is n; every draw of 6 or more gives T |
| Block.SampleIndexRoundTrip | src/block.rs:47-57 | the `sample` match inverts `as usize`, so every kind is reachable from a draw in 0..=6 |
| Block.Tag | src/block.rs:62-77 | the tag each mask is filled with is the `block_kind` constant three places after the kind's enum index |
| Block.TagFollowsIndex | src/block.rs:13-19 | a kind's tag is its enum index plus 3 and is never NONE, WALL or GHOST |
| Block.OddTags | src/block.rs:13-19 | the tag is odd exactly for I, S, J and T |
| Block.Mask | src/block.rs:60-77 | `BLOCKS[k as usize]` is a 4x4 matrix |
| Block.MaskHasFourCells | src/block.rs:62-77 | every mask has exactly four non-empty cells |
| Block.MaskCellsCarryTag | src/block.rs:62-77 | every mask cell is 0 or the kind's own tag, never 1 (WALL) or 2 (GHOST) |
| Block.MaskPadding | src/block.rs:62-77 | rows 0 and 3 of every mask are empty |
| Bits.BitAndBound | src/game.rs:62 | `a & b` is at most each operand |
| Bits.BitAndLowBit | src/game.rs:62 | the lowest bit of `a & b` is the product of the operands' lowest bits |
| Bits.BitAndIsOne | src/game.rs:62 | `a & b == 1` exactly when both operands are odd and share no higher bit |
| Bits.BitAndWithBit | src/game.rs:62 | for a cell that is 0 or 1, `cell & b == 1` exactly when the cell is 1 and b is odd |
| Game.InitialField | src/game.rs:25-49 | the new field is wall (1) exactly on column 0, column 12 and row 20 and empty elsewhere; so it is walled and holds only 0/1 cells |
| Game.Game.constructor | src/game.rs:24-53 | `Game::new` yields that field, position (4,0) and the kind picked by the draw; the game starts valid: the field is walled and holds only 0/1 cells |
| Game.IsCollision | src/game.rs:56-68 | the scan returns true exactly when some in-range cell of the 4x4 box has `field & mask == 1`; out-of-range cells are skipped, so any position may be queried, and nothing is modified |
| Game.OutOfFieldNeverCollides | src/game.rs:57-61 | a box whose corner is past the last row or column never collides |
| Game.CollisionOnBinaryField | src/game.rs:62 | on a 0/1 field, the bitwise test fires exactly when the kind's tag is odd and a non-empty mask cell lies over a non-empty field cell |
| Game.EvenKindsNeverCollide | src/game.rs:62 | O, Z and L never collide, whatever the field holds |
| Game.OBlockPassesThroughFloor | src/game.rs:62 | an O block overlapping the floor at (4,18) is not reported as colliding |
| Game.SpawnNeverCollides | src/game.rs:56-68 | at the spawn position (4,0), no kind collides with the initial field, under the bitwise test or the overlap test |
| Game.StampMask | src/game.rs:71-77 | the nested loops set to 1 exactly the in-box cells whose mask cell equals 1; every other cell keeps its value |
| Game.Game.FixBlock | src/game.rs:70-78 | `fix_block` yields `FixedField` of the old field and, for every kind and position, leaves the field unchanged, so the game stays valid |
| Game.FixBlockIsNoOp | src/game.rs:73-75 | since no mask cell equals 1, the fixed field equals the old field |
| Game.FixedBlockLeavesNoTrace | src/game.rs:70-78 | a block fixed at the spawn position of the new field still overlaps nothing there |
| Game.FixIntendedOccupiesBlock | src/game.rs:70-78 | the corrected fix sets every non-empty cell of the block to 1 and keeps the others; it keeps a 0/1 field 0/1, and the block then overlaps what it left |
| Game.RowIsFull | src/game.rs:82-88 | `can_erase` is true exactly when columns 1..11 of the row are all non-zero |
| Game.ShiftRowsDown | src/game.rs:89-93 | the downward copy gives each row 2..y the old row above it and leaves the other rows unchanged |
| Game.EraseLine | src/game.rs:80-95 | `erase_line` leaves the field equal to the top-to-bottom pass `Erased` of the old field; a walled field stays walled and a 0/1 field stays 0/1 |
| Game.SkipRowsNotFull | src/game.rs:81-88 | rows that are not full are passed over without change |
| Game.NoFullRowUnchanged | src/game.rs:80-95 | a field with no full interior row (1..19) is left unchanged, including a row that is full but for one cell |
| Game.SingleFullRowShifts | src/game.rs:80-95 | with exactly one full interior row y, the result is the shift for y |
| Game.ShiftDownAsDeletion | src/game.rs:90-92 | the shift for y is rows 0 and 1, then old rows 1..y-1, then the rows below y: row y is deleted and row 1 is repeated |
| Game.ErasedRowsComeFromInput | src/game.rs:90-92 | every row of the result is a row of the input, since rows are copied whole |
| Game.EraseKeepsWalls | src/game.rs:90-92 | if every row has wall in columns 0 and 12, so does the result; a 0/1 field stays 0/1 |
| Game.EraseKeepsFixedRows | src/game.rs:81-92 | rows 0 and 1 and the floor row 20 are never changed |
| Game.EraseFromLeavesNoFullRow | src/game.rs:80-95 | once the rows above the scan are not full and row 1 is not full, the rest of the pass leaves no full interior row |
| Game.EraseLeavesNoFullRow | src/game.rs:80-95 | after `erase_line` no interior row is full, provided row 1 was not full |
| Game.SecondRowNeverCleared | src/game.rs:90-92 | a full row 1 stays full; clearing any row y >= 2 leaves rows 1 and 2 both equal to the old row 1 |
| Game.NonFullRows | src/game.rs:81-88 | the rows kept by the pass are all not full and all taken from the input |
| Game.FullRowCount | src/game.rs:81-88 | the full rows and the rows that are not full together make up all the scanned rows |
| Game.EraseFromClosedForm | src/game.rs:80-95 | each step of the pass keeps the field as: rows 0 and 1, one copy of row 1 per full row met so far, the non-full rows met so far in order, then the unscanned rows; so every row is scanned in its original state |
| Game.ErasedClosedForm | src/game.rs:80-95 | for any number of full rows, `erase_line` gives rows 0 and 1, then one copy of row 1 per full row among rows 2..19, then the non-full rows of 2..19 in order, then the floor |
| Game.EraseDuplicatesSecondRow | src/game.rs:89-93 | take the new field, occupy one cell of row 1 and fill row 19; erasing then shows that cell in rows 1 and 2 |
| Game.ShiftDownIntendedDeletes | src/game.rs:90-92 | the corrected shift (rows 1..y) deletes row y and repeats row 0 at the top |
| Game.EraseFromIntendedClosedForm | src/game.rs:80-95 | each step of the corrected pass keeps the field as: row 0, one copy of row 0 per full row met so far, the non-full rows met so far in order, then the unscanned rows |
| Game.ErasedIntendedClosedForm | src/game.rs:80-95 | the corrected pass deletes every full row among rows 1..19, keeps the others in order above the floor and refills the top with copies of row 0 |
| Game.EraseFromIntendedLeavesNoFullRow | src/game.rs:80-95 | with the corrected shift, no interior row is full after the pass, provided the top row 0 is not full |
| Game.Game.MoveBlock | src/game.rs:97-101 | `pos` becomes the new position exactly when it does not collide, and stays otherwise; since the field holds only 0/1 cells, the block moves unless it is I, S, J or T and overlaps an occupied cell; field and block are untouched and the game stays valid |
| MainLoop.GravityPeriod | src/main.rs:24-28 | the period is a multiple of 100 between 100 and 1000 ms |
| MainLoop.GravityPeriodClosedForm | src/main.rs:24-28 | the period equals max(100, 1000 - 100 * (line / 10)) |
| MainLoop.GravityPeriodMonotone | src/main.rs:24-28 | more cleared lines never give a longer period |
| MainLoop.LeftCandidate | src/main.rs:50-53 | the Left candidate keeps the row, is one column left when x > 0 and never goes below 0 |
| MainLoop.RightCandidate | src/main.rs:59-62 | the Right candidate keeps the row and is exactly one column right |
| MainLoop.DownCandidate | src/main.rs:31-34 | the Down and gravity candidate keeps the column and is exactly one row lower |
| MainLoop.CandidatesRoundTrip | src/main.rs:50-71 | Left undoes Right; Right undoes Left away from column 0; Left is the identity exactly at column 0; Down keeps the column and adds one to the row |
| MainLoop.GravityTick | src/main.rs:30-41 | the tick moves to (x, y+1) exactly when that does not collide; otherwise it reports landing and leaves the state alone; on the game's 0/1 field it lands exactly when the kind is I, S, J or T and overlaps an occupied cell; the field is never touched |
| MainLoop.MoveLeft | src/main.rs:48-56 | the Left key commits the Left candidate when it does not collide; at column 0 nothing changes |
| MainLoop.MoveRight | src/main.rs:57-65 | the Right key commits (x+1, y) when it does not collide, else nothing changes |
| MainLoop.MoveDown | src/main.rs:66-74 | the Down key commits (x, y+1) when it does not collide, else nothing changes |

## Left out

- `draw` and `COLOR_TABLE` are left out: they are terminal output and ANSI strings.
- Randomness (`rand::random`, `gen_range(0..=6)`) is left out. The drawn number is the constructor's `draw` parameter, and only the number-to-kind match is modelled.
- Threads, `Arc<Mutex<_>>`, `thread::sleep` and the `getch` key loop are left out. Each handler is modelled as one method call on the game: the step done while the lock is held.
- `landing`, `hard_drop`, `rotate_right`, `rotate_left`, `hold`, `gameover`, `quit` and the `line` field are called from `main.rs` but defined in none of the three files. They are not part of this model. The Up, `x`, `z`, space and `q` keys call only these, so they are left out too. The line count is a plain natural-number parameter of `GravityPeriod`.
- The bag randomizer, next queue, hold slot, rotation with wall kicks, scoring and ghost projection are left out: none of them is implemented in these files.
- MainLoop.GravityTick: when the move down collides, the source calls `landing`. The model only returns `landed = true` and leaves the state unchanged.
- Machine-word widths are left out. Cells and positions are naturals, so the `+ 1` on a position (which overflows a `usize` only after 2^64 moves) and the `u64` product `(line / 10) * 100` are unbounded here. Cells only ever hold 0..9.
- `erase_line` returns no count of erased lines, so the model returns none either.

## Findings

| source | as written | input that shows it | evidently intended | confidence | as-written member | corrected member |
|---|---|---|---|---|---|---|
| src/game.rs:62 | `field & mask == 1` is bitwise; mask cells hold tags 3..9 | an O block at (4,18) on the new field overlaps the floor but is not reported as colliding; O, Z and L never collide anywhere | a non-empty mask cell over a non-empty field cell collides | high, not executed | Game.OBlockPassesThroughFloor | Game.CollisionOnBinaryField |
| src/game.rs:73 | a cell is written only when the mask cell equals 1, which none does | any kind at any position: the field is unchanged, so a block fixed at the spawn position leaves no trace | every non-empty mask cell is written as 1 | high, not executed | Game.FixBlockIsNoOp | Game.FixIntendedOccupiesBlock |
| src/game.rs:90 | rows 2..=y are shifted, so row 1 keeps its contents | take the new field, occupy column 5 of row 1 and fill row 19: after erasing, column 5 is occupied in both row 1 and row 2 | rows 1..=y are shifted, so row 0 (never reached by a block) moves into row 1 | medium, not executed | Game.EraseDuplicatesSecondRow | Game.ErasedIntendedClosedForm |

The game operations (`IsCollision`, `FixBlock`, `EraseLine`, `MoveBlock` and the key handlers) model the code as written. The corrected definitions are `CollidesIntended`, `FixedFieldIntended`, `ShiftDownIntended` and `EraseFromIntended`. Each sits beside the code it corrects, with its intended property proved:
- On a 0/1 field, the corrected collision test agrees with the as-written one for I, S, J and T. Every game keeps its field 0/1 (`Game.Valid`).
- The corrected fix leaves the block solid.
- The corrected erase deletes every full row and refills the top with copies of row 0 (`ErasedIntendedClosedForm`). It leaves no full row whenever the top row is not full.
