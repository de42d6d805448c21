/// The playing field, the collision test, fixing a block into the field,
/// erasing full lines and moving the falling block.
module Game {
  import opened BlockTag
  import opened Block
  import opened Bits

  const FIELD_WIDTH: nat := 11 + 2
  const FIELD_HEIGHT: nat := 20 + 1

  /// One row of the field: thirteen cells, the outer two being the walls.
  type Row = r: seq<BlockColor> | |r| == FIELD_WIDTH
    witness [1, 0, 0, 0, 0, 0, 0, 0, 0, 0, 0, 0, 1]

  /// The field as a value: twenty-one rows, the last one being the floor.
  type Field = f: seq<Row> | |f| == FIELD_HEIGHT
    witness seq<Row>(21, _ => EMPTY_ROW)

  /// Top-left corner of the falling block's 4x4 box, as column `x` and row `y`.
  datatype Position = Position(x: nat, y: nat)

  /// `Position::init`: where every block starts.
  const SPAWN: Position := Position(4, 0)

  /// A playing row of the initial field: a wall cell at each end.
  const EMPTY_ROW: Row := [1, 0, 0, 0, 0, 0, 0, 0, 0, 0, 0, 0, 1]
  /// The bottom row of the initial field: all wall.
  const FLOOR_ROW: Row := [1, 1, 1, 1, 1, 1, 1, 1, 1, 1, 1, 1, 1]

  /// The field `Game::new` builds: twenty walled empty rows above the floor.
  /// It is wall exactly on column 0, column 12 and the bottom row 20, and
  /// empty everywhere else; so it is walled and holds only 0/1 cells.
  function InitialField(): (f: Field)
    ensures forall r, c :: 0 <= r < FIELD_HEIGHT && 0 <= c < FIELD_WIDTH ==>
      f[r][c] == (if r == FIELD_HEIGHT - 1 || c == 0 || c == FIELD_WIDTH - 1 then WALL else NONE)
    ensures IsWalled(f) && IsBinary(f)
  {
    var f: Field := seq(FIELD_HEIGHT, r => if r < FIELD_HEIGHT - 1 then EMPTY_ROW else FLOOR_ROW);
    assert forall r, c :: 0 <= r < FIELD_HEIGHT && 0 <= c < FIELD_WIDTH ==>
      f[r][c] == (if r == FIELD_HEIGHT - 1 || c == 0 || c == FIELD_WIDTH - 1 then WALL else NONE)
    by {
      forall r, c | 0 <= r < FIELD_HEIGHT && 0 <= c < FIELD_WIDTH
        ensures f[r][c] == (if r == FIELD_HEIGHT - 1 || c == 0 || c == FIELD_WIDTH - 1 then WALL else NONE)
      {
        if r < FIELD_HEIGHT - 1 {
          assert f[r] == EMPTY_ROW;
        } else {
          assert f[r] == FLOOR_ROW;
        }
      }
    }
    f
  }

  /// Column 0 and column 12 are wall on every row.
  predicate IsWalled(f: Field)
  {
    forall r :: 0 <= r < FIELD_HEIGHT ==> f[r][0] == WALL && f[r][FIELD_WIDTH - 1] == WALL
  }

  /// Every cell is 0 or 1: the initial field is, and neither `fix_block` nor
  /// `erase_line` writes anything else.
  predicate IsBinary(f: Field)
  {
    forall r, c :: 0 <= r < FIELD_HEIGHT && 0 <= c < FIELD_WIDTH ==> f[r][c] <= 1
  }

  // ---------------------------------------------------------------------
  // Collision

  /// Mask cell (y, x) of block `k` placed at `pos` lies on the field and the
  /// collision test fires on it: `field[pos.y + y][pos.x + x] & mask == 1`.
  predicate CellHits(f: Field, pos: Position, k: BlockKind, y: nat, x: nat)
  {
    y < 4 && x < 4 && pos.y + y < FIELD_HEIGHT && pos.x + x < FIELD_WIDTH &&
    BitAnd(f[pos.y + y][pos.x + x], Mask(k)[y][x]) == 1
  }

  /// What `is_collision` answers: some in-range cell of the box fires.
  ghost predicate Collides(f: Field, pos: Position, k: BlockKind)
  {
    exists y: nat, x: nat :: CellHits(f, pos, k, y, x)
  }

  /// `is_collision`: scans the 4x4 box row by row, skipping cells that fall
  /// outside the field, and stops at the first cell that fires. Any position
  /// may be queried.
  method IsCollision(field: array<Row>, pos: Position, block: BlockKind) returns (r: bool)
    requires field.Length == FIELD_HEIGHT
    ensures r == Collides(field[..], pos, block)
  {
    for y := 0 to 4
      invariant forall y': nat, x': nat :: y' < y ==> !CellHits(field[..], pos, block, y', x')
    {
      for x := 0 to 4
        invariant forall y': nat, x': nat :: y' < y || (y' == y && x' < x) ==>
          !CellHits(field[..], pos, block, y', x')
      {
        if y + pos.y >= FIELD_HEIGHT || x + pos.x >= FIELD_WIDTH {
          continue;
        }
        if BitAnd(field[y + pos.y][x + pos.x], Mask(block)[y][x]) == 1 {
          assert CellHits(field[..], pos, block, y, x);
          return true;
        }
      }
    }
    return false;
  }

  /// A box whose corner lies outside the field never collides: every one of
  /// its cells is skipped.
  lemma OutOfFieldNeverCollides(f: Field, pos: Position, k: BlockKind)
    requires pos.y >= FIELD_HEIGHT || pos.x >= FIELD_WIDTH
    ensures !Collides(f, pos, k)
  {
  }

  /// The collision the game evidently means: a non-empty mask cell over a
  /// non-empty field cell, inside the field.
  predicate CellOverlaps(f: Field, pos: Position, k: BlockKind, y: nat, x: nat)
  {
    y < 4 && x < 4 && pos.y + y < FIELD_HEIGHT && pos.x + x < FIELD_WIDTH &&
    f[pos.y + y][pos.x + x] != NONE && Mask(k)[y][x] != NONE
  }

  ghost predicate CollidesIntended(f: Field, pos: Position, k: BlockKind)
  {
    exists y: nat, x: nat :: CellOverlaps(f, pos, k, y, x)
  }

  /// On a field of 0/1 cells the bitwise test is the overlap test for the
  /// odd-tagged kinds I, S, J, T, and never fires for O, Z, L.
  lemma CollisionOnBinaryField(f: Field, pos: Position, k: BlockKind)
    requires IsBinary(f)
    ensures Collides(f, pos, k) <==> Tag(k) % 2 == 1 && CollidesIntended(f, pos, k)
  {
    MaskCellsCarryTag(k);
    forall y: nat, x: nat | y < 4 && x < 4 && pos.y + y < FIELD_HEIGHT && pos.x + x < FIELD_WIDTH
      ensures CellHits(f, pos, k, y, x) <==> Tag(k) % 2 == 1 && CellOverlaps(f, pos, k, y, x)
    {
      BitAndWithBit(f[pos.y + y][pos.x + x], Mask(k)[y][x]);
    }
    if Collides(f, pos, k) {
      var y: nat, x: nat :| CellHits(f, pos, k, y, x);
      assert CellOverlaps(f, pos, k, y, x);
    }
    if Tag(k) % 2 == 1 && CollidesIntended(f, pos, k) {
      var y: nat, x: nat :| CellOverlaps(f, pos, k, y, x);
      assert CellHits(f, pos, k, y, x);
    }
  }

  /// Whatever the field holds, the O, Z and L blocks (even tags) never
  /// collide: the lowest bit of `cell & tag` is always 0.
  lemma EvenKindsNeverCollide(f: Field, pos: Position, k: BlockKind)
    requires Tag(k) % 2 == 0
    ensures !Collides(f, pos, k)
  {
    MaskCellsCarryTag(k);
    forall y: nat, x: nat | y < 4 && x < 4 && pos.y + y < FIELD_HEIGHT && pos.x + x < FIELD_WIDTH
      ensures !CellHits(f, pos, k, y, x)
    {
      BitAndLowBit(f[pos.y + y][pos.x + x], Mask(k)[y][x]);
    }
  }

  /// The O block placed so that its lower row covers two floor cells is not
  /// reported as colliding, although it overlaps the floor.
  lemma OBlockPassesThroughFloor()
    ensures CollidesIntended(InitialField(), Position(4, 18), O)
    ensures !Collides(InitialField(), Position(4, 18), O)
  {
    assert CellOverlaps(InitialField(), Position(4, 18), O, 2, 1);
    EvenKindsNeverCollide(InitialField(), Position(4, 18), O);
  }

  /// A freshly spawned block never collides with the initial field, under
  /// either collision test: its occupied rows 1 and 2 land on empty rows and
  /// its columns 4..7 on empty columns.
  lemma SpawnNeverCollides(k: BlockKind)
    ensures !Collides(InitialField(), SPAWN, k)
    ensures !CollidesIntended(InitialField(), SPAWN, k)
  {
    MaskPadding(k);
    CollisionOnBinaryField(InitialField(), SPAWN, k);
    forall y: nat, x: nat ensures !CellOverlaps(InitialField(), SPAWN, k, y, x) {
      if y < 4 && x < 4 && y != 0 && y != 3 {
        assert InitialField()[SPAWN.y + y][SPAWN.x + x] == NONE;
      }
    }
  }

  // ---------------------------------------------------------------------
  // Fixing a block into the field

  /// `fix_block` writes field cell (r, c) when it lies under mask cell
  /// (r - pos.y, c - pos.x) and that cell equals 1.
  predicate Stamps(pos: Position, mask: BlockShape, r: nat, c: nat)
    requires IsShape(mask)
  {
    pos.y <= r < pos.y + 4 && pos.x <= c < pos.x + 4 && mask[r - pos.y][c - pos.x] == 1
  }

  /// Every mask cell that `fix_block` writes lies inside the field (the
  /// index would otherwise be out of bounds).
  predicate FixInRange(pos: Position, mask: BlockShape)
    requires IsShape(mask)
  {
    forall y, x :: 0 <= y < 4 && 0 <= x < 4 && mask[y][x] == 1 ==>
      pos.y + y < FIELD_HEIGHT && pos.x + x < FIELD_WIDTH
  }

  /// The field after `fix_block`: stamped cells become 1, all others keep
  /// their value.
  function FixedField(f: Field, pos: Position, mask: BlockShape): Field
    requires IsShape(mask)
  {
    seq(FIELD_HEIGHT, r requires 0 <= r < FIELD_HEIGHT =>
      seq(FIELD_WIDTH, c requires 0 <= c < FIELD_WIDTH =>
        if Stamps(pos, mask, r, c) then 1 else f[r][c]))
  }

  /// The nested loops of `fix_block` over an arbitrary 4x4 mask.
  method StampMask(field: array<Row>, pos: Position, mask: BlockShape)
    requires field.Length == FIELD_HEIGHT
    requires IsShape(mask) && FixInRange(pos, mask)
    modifies field
    ensures field[..] == FixedField(old(field[..]), pos, mask)
  {
    for y := 0 to 4
      invariant forall r, c :: 0 <= r < FIELD_HEIGHT && 0 <= c < FIELD_WIDTH ==>
        field[r][c] == if Stamps(pos, mask, r, c) && r < pos.y + y then 1 else old(field[r][c])
    {
      for x := 0 to 4
        invariant forall r, c :: 0 <= r < FIELD_HEIGHT && 0 <= c < FIELD_WIDTH ==>
          field[r][c] ==
            if Stamps(pos, mask, r, c) && (r < pos.y + y || (r == pos.y + y && c < pos.x + x))
            then 1 else old(field[r][c])
      {
        if mask[y][x] == 1 {
          field[y + pos.y] := field[y + pos.y][x + pos.x := 1];
        }
      }
    }
    ghost var want := FixedField(old(field[..]), pos, mask);
    forall r | 0 <= r < FIELD_HEIGHT ensures field[r] == want[r] {
      assert forall c :: 0 <= c < FIELD_WIDTH ==> field[r][c] == want[r][c];
    }
  }

  /// Since no mask cell equals 1, `fix_block` leaves every field unchanged.
  lemma FixBlockIsNoOp(f: Field, pos: Position, k: BlockKind)
    ensures FixedField(f, pos, Mask(k)) == f
  {
    MaskCellsCarryTag(k);
    TagFollowsIndex(k);
    var g := FixedField(f, pos, Mask(k));
    forall r | 0 <= r < FIELD_HEIGHT ensures g[r] == f[r] {
      forall c | 0 <= c < FIELD_WIDTH ensures g[r][c] == f[r][c] {
        if pos.y <= r < pos.y + 4 && pos.x <= c < pos.x + 4 {
          assert Mask(k)[r - pos.y][c - pos.x] != 1;
        }
      }
    }
  }

  /// Consequently a block fixed at the spawn point of the initial field
  /// leaves no trace: the same block still does not overlap anything there.
  lemma FixedBlockLeavesNoTrace(k: BlockKind)
    ensures !CollidesIntended(FixedField(InitialField(), SPAWN, Mask(k)), SPAWN, k)
  {
    FixBlockIsNoOp(InitialField(), SPAWN, k);
    SpawnNeverCollides(k);
  }

  /// The evidently intended `fix_block`: every non-empty mask cell becomes 1.
  predicate StampsIntended(pos: Position, mask: BlockShape, r: nat, c: nat)
    requires IsShape(mask)
  {
    pos.y <= r < pos.y + 4 && pos.x <= c < pos.x + 4 && mask[r - pos.y][c - pos.x] != NONE
  }

  predicate FixIntendedInRange(pos: Position, mask: BlockShape)
    requires IsShape(mask)
  {
    forall y, x :: 0 <= y < 4 && 0 <= x < 4 && mask[y][x] != NONE ==>
      pos.y + y < FIELD_HEIGHT && pos.x + x < FIELD_WIDTH
  }

  function FixedFieldIntended(f: Field, pos: Position, mask: BlockShape): Field
    requires IsShape(mask)
  {
    seq(FIELD_HEIGHT, r requires 0 <= r < FIELD_HEIGHT =>
      seq(FIELD_WIDTH, c requires 0 <= c < FIELD_WIDTH =>
        if StampsIntended(pos, mask, r, c) then 1 else f[r][c]))
  }

  /// With the intended `fix_block`, every cell of the block is occupied
  /// afterwards (so the block collides with what it left behind), every other
  /// cell is unchanged, and a field of 0/1 cells stays one.
  lemma FixIntendedOccupiesBlock(f: Field, pos: Position, k: BlockKind)
    requires FixIntendedInRange(pos, Mask(k))
    ensures forall y, x :: 0 <= y < 4 && 0 <= x < 4 && Mask(k)[y][x] != NONE ==>
      FixedFieldIntended(f, pos, Mask(k))[pos.y + y][pos.x + x] == 1
    ensures forall r, c :: 0 <= r < FIELD_HEIGHT && 0 <= c < FIELD_WIDTH ==>
      (!StampsIntended(pos, Mask(k), r, c) ==> FixedFieldIntended(f, pos, Mask(k))[r][c] == f[r][c])
    ensures IsBinary(f) ==> IsBinary(FixedFieldIntended(f, pos, Mask(k)))
    ensures CollidesIntended(FixedFieldIntended(f, pos, Mask(k)), pos, k)
  {
    var g := FixedFieldIntended(f, pos, Mask(k));
    forall y, x | 0 <= y < 4 && 0 <= x < 4 && Mask(k)[y][x] != NONE
      ensures g[pos.y + y][pos.x + x] == 1
    {
      assert StampsIntended(pos, Mask(k), pos.y + y, pos.x + x);
    }
    assert Mask(k)[2][1] != NONE by { MaskCellsCarryTag(k); }
    assert CellOverlaps(g, pos, k, 2, 1);
  }

  // ---------------------------------------------------------------------
  // Erasing full lines

  /// `can_erase`: every cell between the two walls is non-zero.
  predicate IsFullRow(row: Row)
  {
    forall x :: 1 <= x < FIELD_WIDTH - 1 ==> row[x] != NONE
  }

  /// The inner loop of `erase_line` that decides `can_erase`.
  method RowIsFull(row: Row) returns (canErase: bool)
    ensures canErase == IsFullRow(row)
  {
    canErase := true;
    for x := 1 to FIELD_WIDTH - 1
      invariant canErase == forall x' :: 1 <= x' < x ==> row[x'] != NONE
    {
      if row[x] == 0 {
        canErase := false;
        break;
      }
    }
  }

  /// The shift `erase_line` applies for full row `y`: each row 2..y takes the
  /// row above it; rows 0 and 1 and the rows below `y` keep their contents.
  function ShiftDown(f: Field, y: nat): Field
    requires y < FIELD_HEIGHT
  {
    seq(FIELD_HEIGHT, k requires 0 <= k < FIELD_HEIGHT => if 2 <= k <= y then f[k - 1] else f[k])
  }

  /// The row shift of `erase_line`, a whole row at a time from `y` up to 2.
  method ShiftRowsDown(field: array<Row>, y: nat)
    requires field.Length == FIELD_HEIGHT && 1 <= y < FIELD_HEIGHT
    modifies field
    ensures field[..] == ShiftDown(old(field[..]), y)
  {
    for y2 := y + 1 downto 2
      invariant forall k :: 0 <= k < FIELD_HEIGHT ==>
        field[k] == if y2 <= k <= y then old(field[k - 1]) else old(field[k])
    {
      field[y2] := field[y2 - 1];
    }
  }

  /// The field after the rows from `y` to 19 have been scanned, each full one
  /// shifted away as soon as it is found.
  function EraseFrom(f: Field, y: nat): Field
    decreases FIELD_HEIGHT - y
  {
    if y >= FIELD_HEIGHT - 1 then f
    else EraseFrom(if IsFullRow(f[y]) then ShiftDown(f, y) else f, y + 1)
  }

  /// The field after `erase_line`: one top-to-bottom pass over rows 1..19.
  function Erased(f: Field): Field
  {
    EraseFrom(f, 1)
  }

  /// `erase_line`, in place on the field array.
  method EraseLine(field: array<Row>)
    requires field.Length == FIELD_HEIGHT
    modifies field
    ensures field[..] == Erased(old(field[..]))
    ensures IsWalled(old(field[..])) ==> IsWalled(field[..])
    ensures IsBinary(old(field[..])) ==> IsBinary(field[..])
  {
    for y := 1 to FIELD_HEIGHT - 1
      invariant EraseFrom(field[..], y) == Erased(old(field[..]))
    {
      var canErase := RowIsFull(field[y]);
      if canErase {
        ShiftRowsDown(field, y);
      }
    }
    EraseKeepsWalls(old(field[..]));
  }

  /// Rows that are not full are passed over without any change.
  lemma {:induction false} SkipRowsNotFull(f: Field, s: nat, t: nat)
    requires s <= t <= FIELD_HEIGHT - 1
    requires forall y :: s <= y < t ==> !IsFullRow(f[y])
    ensures EraseFrom(f, s) == EraseFrom(f, t)
    decreases t - s
  {
    if s < t {
      SkipRowsNotFull(f, s + 1, t);
    }
  }

  /// `erase_line` leaves a field without a full interior row unchanged; in
  /// particular a row full but for one cell is not erased.
  lemma NoFullRowUnchanged(f: Field)
    requires forall y :: 1 <= y < FIELD_HEIGHT - 1 ==> !IsFullRow(f[y])
    ensures Erased(f) == f
  {
    SkipRowsNotFull(f, 1, FIELD_HEIGHT - 1);
  }

  /// With exactly one full interior row `y`, `erase_line` is that row's shift.
  lemma SingleFullRowShifts(f: Field, y: nat)
    requires 1 <= y < FIELD_HEIGHT - 1 && IsFullRow(f[y])
    requires forall k :: 1 <= k < FIELD_HEIGHT - 1 && k != y ==> !IsFullRow(f[k])
    ensures Erased(f) == ShiftDown(f, y)
  {
    SkipRowsNotFull(f, 1, y);
    var g := ShiftDown(f, y);
    assert EraseFrom(f, y) == EraseFrom(g, y + 1);
    SkipRowsNotFull(g, y + 1, FIELD_HEIGHT - 1);
  }

  /// `n` copies of `x`.
  function Repeat<T>(x: T, n: nat): (r: seq<T>)
    ensures |r| == n && forall i :: 0 <= i < n ==> r[i] == x
  {
    if n == 0 then [] else [x] + Repeat(x, n - 1)
  }

  /// The rows of `rows` that are not full, in their order.
  function NonFullRows(rows: seq<Row>): (r: seq<Row>)
    ensures |r| <= |rows|
    ensures forall i :: 0 <= i < |r| ==> !IsFullRow(r[i]) && r[i] in rows
  {
    if rows == [] then []
    else
      NonFullRows(rows[..|rows| - 1]) +
      (if IsFullRow(rows[|rows| - 1]) then [] else [rows[|rows| - 1]])
  }

  /// The number of full rows in `rows`: together with the rows that are not
  /// full, they make up all of `rows`.
  function FullRowCount(rows: seq<Row>): (n: nat)
    ensures n + |NonFullRows(rows)| == |rows|
  {
    if rows == [] then 0
    else FullRowCount(rows[..|rows| - 1]) + (if IsFullRow(rows[|rows| - 1]) then 1 else 0)
  }

  /// The field once rows 1..s-1 have been scanned: rows 0 and 1, one copy of
  /// row 1 per full row found in 2..s-1, the rows of 2..s-1 that are not full
  /// in their order, and the unscanned rows from `s` on.
  function ScannedUpTo(f: Field, s: nat): seq<Row>
    requires 2 <= s <= FIELD_HEIGHT - 1
  {
    f[..2] + Repeat(f[1], FullRowCount(f[2..s])) + NonFullRows(f[2..s]) + f[s..]
  }

  /// Counting one more row that is full adds one to the count of full rows.
  lemma CountFullRow(f: Field, lo: nat, s: nat)
    requires lo <= s < FIELD_HEIGHT - 1 && IsFullRow(f[s])
    ensures FullRowCount(f[lo..s + 1]) == FullRowCount(f[lo..s]) + 1
    ensures NonFullRows(f[lo..s + 1]) == NonFullRows(f[lo..s])
  {
    assert f[lo..s + 1][..s - lo] == f[lo..s];
    assert f[lo..s + 1][s - lo] == f[s];
    assert NonFullRows(f[lo..s]) + [] == NonFullRows(f[lo..s]);
  }

  /// Counting one more row that is not full appends it to the kept rows.
  lemma CountNonFullRow(f: Field, lo: nat, s: nat)
    requires lo <= s < FIELD_HEIGHT - 1 && !IsFullRow(f[s])
    ensures FullRowCount(f[lo..s + 1]) == FullRowCount(f[lo..s])
    ensures NonFullRows(f[lo..s + 1]) == NonFullRows(f[lo..s]) + [f[s]]
  {
    assert f[lo..s + 1][..s - lo] == f[lo..s];
    assert f[lo..s + 1][s - lo] == f[s];
  }

  /// The prefix built so far has exactly `s` rows, so row `s` is still the
  /// original row `s` when the scan reaches it.
  lemma ScannedUpToSplits(f: Field, s: nat)
    requires 2 <= s <= FIELD_HEIGHT - 1
    ensures |f[..2] + Repeat(f[1], FullRowCount(f[2..s])) + NonFullRows(f[2..s])| == s
    ensures |ScannedUpTo(f, s)| == FIELD_HEIGHT
    ensures ScannedUpTo(f, s)[s] == f[s]
  {
  }

  /// Skipping a row that is not full moves it into the kept rows.
  lemma ScanSkipsRow(f: Field, s: nat)
    requires 2 <= s < FIELD_HEIGHT - 1 && !IsFullRow(f[s])
    ensures ScannedUpTo(f, s) == ScannedUpTo(f, s + 1)
  {
    CountNonFullRow(f, 2, s);
    assert f[s..] == [f[s]] + f[s + 1..];
  }

  /// Deleting the element right after `top + copies + kept` and repeating
  /// `top[1]` at position 2 is one more copy of `top[1]`.
  lemma DeleteAfterPrefix<T>(g: seq<T>, top: seq<T>, n: nat, kept: seq<T>, x: T, rest: seq<T>)
    requires |top| == 2
    requires g == top + Repeat(top[1], n) + kept + ([x] + rest)
    ensures g[..2] + g[1..2 + n + |kept|] + g[2 + n + |kept| + 1..] ==
      top + Repeat(top[1], n + 1) + kept + rest
  {
    var s := 2 + n + |kept|;
    assert g[..2] == top;
    assert g[1..s] == [top[1]] + Repeat(top[1], n) + kept;
    assert [top[1]] + Repeat(top[1], n) == Repeat(top[1], n + 1);
    assert g[s + 1..] == rest;
  }

  /// Shifting away a full row adds one more copy of row 1.
  lemma ScanShiftsRow(f: Field, g: Field, s: nat)
    requires 2 <= s < FIELD_HEIGHT - 1 && IsFullRow(f[s])
    requires g == ScannedUpTo(f, s)
    ensures ShiftDown(g, s) == ScannedUpTo(f, s + 1)
  {
    CountFullRow(f, 2, s);
    ShiftDownAsDeletion(g, s);
    var n := FullRowCount(f[2..s]);
    var kept := NonFullRows(f[2..s]);
    var rest := f[s + 1..];
    assert 2 + n + |kept| == s;
    assert f[s..] == [f[s]] + rest;
    assert g == f[..2] + Repeat(f[1], n) + kept + ([f[s]] + rest);
    DeleteAfterPrefix(g, f[..2], n, kept, f[s], rest);
    assert ScannedUpTo(f, s + 1) == f[..2] + Repeat(f[1], n + 1) + kept + rest;
  }

  /// Each step of the pass keeps the field in the form `ScannedUpTo`
  /// describes, so the pass from `s` ends in that form for all of rows 2..19.
  lemma {:induction false} EraseFromClosedForm(f: Field, g: Field, s: nat)
    requires 2 <= s <= FIELD_HEIGHT - 1
    requires g == ScannedUpTo(f, s)
    ensures EraseFrom(g, s) == ScannedUpTo(f, FIELD_HEIGHT - 1)
    decreases FIELD_HEIGHT - s
  {
    if s < FIELD_HEIGHT - 1 {
      ScannedUpToSplits(f, s);
      if IsFullRow(f[s]) {
        ScanShiftsRow(f, g, s);
        EraseFromClosedForm(f, ShiftDown(g, s), s + 1);
      } else {
        ScanSkipsRow(f, s);
        EraseFromClosedForm(f, g, s + 1);
      }
    }
  }

  /// `erase_line` in closed form, for any number of full rows: rows 0 and 1
  /// stay, then come as many copies of row 1 as there were full rows among
  /// rows 2..19, then the rows of 2..19 that were not full, in their order,
  /// then the floor. Full rows are deleted, but the gap is refilled with
  /// copies of row 1 rather than with empty rows; whether row 1 itself is
  /// full makes no difference.
  lemma ErasedClosedForm(f: Field)
    ensures Erased(f) ==
      f[..2] + Repeat(f[1], FullRowCount(f[2..FIELD_HEIGHT - 1])) +
      NonFullRows(f[2..FIELD_HEIGHT - 1]) + [f[FIELD_HEIGHT - 1]]
  {
    assert ShiftDown(f, 1) == f;
    assert Erased(f) == EraseFrom(f, 2);
    assert f[2..2] == [];
    assert f == ScannedUpTo(f, 2);
    EraseFromClosedForm(f, f, 2);
    assert f[FIELD_HEIGHT - 1..] == [f[FIELD_HEIGHT - 1]];
  }

  /// The shift for row `y` deletes row `y` and repeats row 1 in its place at
  /// the top: rows 0 and 1, then the old rows 1..y-1, then the rows below `y`.
  lemma ShiftDownAsDeletion(f: Field, y: nat)
    requires 1 <= y < FIELD_HEIGHT
    ensures ShiftDown(f, y) == f[..2] + f[1..y] + f[y + 1..]
  {
  }

  /// Every row of the result is a row of the input (rows are copied whole).
  lemma {:induction false} ErasedRowsComeFromInput(f: Field, s: nat)
    ensures forall k :: 0 <= k < FIELD_HEIGHT ==> EraseFrom(f, s)[k] in f
    decreases FIELD_HEIGHT - s
  {
    if s < FIELD_HEIGHT - 1 {
      var g := if IsFullRow(f[s]) then ShiftDown(f, s) else f;
      ErasedRowsComeFromInput(g, s + 1);
      assert forall k :: 0 <= k < FIELD_HEIGHT ==> g[k] in f;
    }
  }

  /// `erase_line` keeps the side walls and keeps a 0/1 field a 0/1 field.
  lemma EraseKeepsWalls(f: Field)
    ensures IsWalled(f) ==> IsWalled(Erased(f))
    ensures IsBinary(f) ==> IsBinary(Erased(f))
  {
    ErasedRowsComeFromInput(f, 1);
    var g := Erased(f);
    forall r | 0 <= r < FIELD_HEIGHT
      ensures exists j :: 0 <= j < FIELD_HEIGHT && g[r] == f[j]
    {
      assert g[r] in f;
    }
  }

  /// Rows 0 and 1 and the floor row 20 are never touched by `erase_line`.
  lemma {:induction false} EraseKeepsFixedRows(f: Field, s: nat)
    ensures EraseFrom(f, s)[0] == f[0] && EraseFrom(f, s)[1] == f[1]
    ensures EraseFrom(f, s)[FIELD_HEIGHT - 1] == f[FIELD_HEIGHT - 1]
    decreases FIELD_HEIGHT - s
  {
    if s < FIELD_HEIGHT - 1 {
      EraseKeepsFixedRows(if IsFullRow(f[s]) then ShiftDown(f, s) else f, s + 1);
    }
  }

  /// Once rows 1..s-1 are not full, the pass from `s` on leaves no full
  /// interior row, provided row 1 (which is never shifted) is not full.
  lemma {:induction false} EraseFromLeavesNoFullRow(f: Field, s: nat)
    requires 1 <= s <= FIELD_HEIGHT - 1 && !IsFullRow(f[1])
    requires forall k :: 1 <= k < s ==> !IsFullRow(f[k])
    ensures forall k :: 1 <= k < FIELD_HEIGHT - 1 ==> !IsFullRow(EraseFrom(f, s)[k])
    decreases FIELD_HEIGHT - s
  {
    if s < FIELD_HEIGHT - 1 {
      var g := if IsFullRow(f[s]) then ShiftDown(f, s) else f;
      assert forall k :: 1 <= k <= s ==> !IsFullRow(g[k]);
      EraseFromLeavesNoFullRow(g, s + 1);
    }
  }

  /// After `erase_line`, no interior row is full, unless row 1 was full.
  lemma EraseLeavesNoFullRow(f: Field)
    requires !IsFullRow(f[1])
    ensures forall k :: 1 <= k < FIELD_HEIGHT - 1 ==> !IsFullRow(Erased(f)[k])
  {
    EraseFromLeavesNoFullRow(f, 1);
  }

  /// A full row 1 is never erased, and clearing any lower row duplicates
  /// row 1 into row 2.
  lemma SecondRowNeverCleared(f: Field, y: nat)
    requires 2 <= y < FIELD_HEIGHT
    ensures IsFullRow(f[1]) ==> IsFullRow(Erased(f)[1])
    ensures ShiftDown(f, y)[1] == f[1] && ShiftDown(f, y)[2] == f[1]
  {
    EraseKeepsFixedRows(f, 1);
  }

  /// The initial field with one cell of row 1 occupied and row 19 full.
  function DuplicationWitness(): Field
  {
    InitialField()[1 := EMPTY_ROW[5 := 1]][19 := FLOOR_ROW]
  }

  /// On that field `erase_line` clears row 19 but leaves the cell of row 1 in
  /// both row 1 and row 2: one occupied cell has become two.
  lemma EraseDuplicatesSecondRow()
    ensures Erased(DuplicationWitness())[1][5] == 1
    ensures Erased(DuplicationWitness())[2][5] == 1
    ensures DuplicationWitness()[2][5] == 0
  {
    var f := DuplicationWitness();
    forall k | 1 <= k < FIELD_HEIGHT - 1 && k != 19 ensures !IsFullRow(f[k]) {
      assert f[k][1] == NONE;
    }
    SingleFullRowShifts(f, 19);
  }

  /// The evidently intended shift: every row 1..y takes the row above it,
  /// so row `y` is deleted and row 0 is repeated at the top.
  function ShiftDownIntended(f: Field, y: nat): Field
    requires y < FIELD_HEIGHT
  {
    seq(FIELD_HEIGHT, k requires 0 <= k < FIELD_HEIGHT => if 1 <= k <= y then f[k - 1] else f[k])
  }

  function EraseFromIntended(f: Field, y: nat): Field
    decreases FIELD_HEIGHT - y
  {
    if y >= FIELD_HEIGHT - 1 then f
    else EraseFromIntended(if IsFullRow(f[y]) then ShiftDownIntended(f, y) else f, y + 1)
  }

  /// The intended shift removes row `y` and nothing else, re-using row 0.
  lemma ShiftDownIntendedDeletes(f: Field, y: nat)
    requires 1 <= y < FIELD_HEIGHT
    ensures ShiftDownIntended(f, y) == f[..1] + f[..y] + f[y + 1..]
  {
  }

  /// With the intended shift, the pass from `s` on leaves no full interior
  /// row whenever the top row 0 (which no block ever reaches) is not full.
  lemma {:induction false} EraseFromIntendedLeavesNoFullRow(f: Field, s: nat)
    requires 1 <= s <= FIELD_HEIGHT - 1 && !IsFullRow(f[0])
    requires forall k :: 1 <= k < s ==> !IsFullRow(f[k])
    ensures forall k :: 1 <= k < FIELD_HEIGHT - 1 ==> !IsFullRow(EraseFromIntended(f, s)[k])
    decreases FIELD_HEIGHT - s
  {
    if s < FIELD_HEIGHT - 1 {
      if IsFullRow(f[s]) {
        var g := ShiftDownIntended(f, s);
        assert g[0] == f[0];
        assert forall k :: 1 <= k <= s ==> g[k] == f[k - 1];
        EraseFromIntendedLeavesNoFullRow(g, s + 1);
      } else {
        EraseFromIntendedLeavesNoFullRow(f, s + 1);
      }
    }
  }

  /// The intended counterpart of `ScannedUpTo`: row 0, one copy of row 0 per
  /// full row found in 1..s-1, the rows of 1..s-1 that are not full, and the
  /// unscanned rows from `s` on.
  function ScannedUpToIntended(f: Field, s: nat): seq<Row>
    requires 1 <= s <= FIELD_HEIGHT - 1
  {
    f[..1] + Repeat(f[0], FullRowCount(f[1..s])) + NonFullRows(f[1..s]) + f[s..]
  }

  /// Deleting the element right after `top + copies + kept` and repeating
  /// `top[0]` at position 1 is one more copy of `top[0]`.
  lemma DeleteAfterTop<T>(g: seq<T>, top: seq<T>, n: nat, kept: seq<T>, x: T, rest: seq<T>)
    requires |top| == 1
    requires g == top + Repeat(top[0], n) + kept + ([x] + rest)
    ensures g[..1] + g[..1 + n + |kept|] + g[1 + n + |kept| + 1..] ==
      top + Repeat(top[0], n + 1) + kept + rest
  {
    var s := 1 + n + |kept|;
    assert g[..1] == top;
    assert g[..s] == [top[0]] + Repeat(top[0], n) + kept;
    assert [top[0]] + Repeat(top[0], n) == Repeat(top[0], n + 1);
    assert g[s + 1..] == rest;
  }

  /// Skipping a row that is not full moves it into the kept rows.
  lemma ScanIntendedSkipsRow(f: Field, s: nat)
    requires 1 <= s < FIELD_HEIGHT - 1 && !IsFullRow(f[s])
    ensures ScannedUpToIntended(f, s) == ScannedUpToIntended(f, s + 1)
  {
    CountNonFullRow(f, 1, s);
    assert f[s..] == [f[s]] + f[s + 1..];
  }

  /// The intended shift of a full row adds one more copy of row 0.
  lemma ScanIntendedShiftsRow(f: Field, g: Field, s: nat)
    requires 1 <= s < FIELD_HEIGHT - 1 && IsFullRow(f[s])
    requires g == ScannedUpToIntended(f, s)
    ensures ShiftDownIntended(g, s) == ScannedUpToIntended(f, s + 1)
  {
    CountFullRow(f, 1, s);
    ShiftDownIntendedDeletes(g, s);
    var n := FullRowCount(f[1..s]);
    var kept := NonFullRows(f[1..s]);
    var rest := f[s + 1..];
    assert 1 + n + |kept| == s;
    assert f[s..] == [f[s]] + rest;
    assert g == f[..1] + Repeat(f[0], n) + kept + ([f[s]] + rest);
    DeleteAfterTop(g, f[..1], n, kept, f[s], rest);
    assert ScannedUpToIntended(f, s + 1) == f[..1] + Repeat(f[0], n + 1) + kept + rest;
  }

  /// Each step of the intended pass keeps the field in the form
  /// `ScannedUpToIntended` describes.
  lemma {:induction false} EraseFromIntendedClosedForm(f: Field, g: Field, s: nat)
    requires 1 <= s <= FIELD_HEIGHT - 1
    requires g == ScannedUpToIntended(f, s)
    ensures EraseFromIntended(g, s) == ScannedUpToIntended(f, FIELD_HEIGHT - 1)
    decreases FIELD_HEIGHT - s
  {
    if s < FIELD_HEIGHT - 1 {
      assert |f[..1] + Repeat(f[0], FullRowCount(f[1..s])) + NonFullRows(f[1..s])| == s;
      assert g[s] == f[s];
      if IsFullRow(f[s]) {
        ScanIntendedShiftsRow(f, g, s);
        EraseFromIntendedClosedForm(f, ShiftDownIntended(g, s), s + 1);
      } else {
        ScanIntendedSkipsRow(f, s);
        EraseFromIntendedClosedForm(f, g, s + 1);
      }
    }
  }

  /// The intended `erase_line` in closed form: every full row among rows
  /// 1..19 is deleted, the rows that are not full keep their order and sink
  /// to the floor, and the gap at the top is refilled with copies of row 0.
  lemma ErasedIntendedClosedForm(f: Field)
    ensures EraseFromIntended(f, 1) ==
      f[..1] + Repeat(f[0], FullRowCount(f[1..FIELD_HEIGHT - 1])) +
      NonFullRows(f[1..FIELD_HEIGHT - 1]) + [f[FIELD_HEIGHT - 1]]
  {
    assert f[1..1] == [];
    assert f == ScannedUpToIntended(f, 1);
    EraseFromIntendedClosedForm(f, f, 1);
    assert f[FIELD_HEIGHT - 1..] == [f[FIELD_HEIGHT - 1]];
  }

  // ---------------------------------------------------------------------
  // The game state

  /// `Game`: the field array, the falling block's position and its kind.
  class Game {
    const field: array<Row>
    var pos: Position
    var block: BlockKind

    /// The field array has the fixed height, keeps its side walls and holds
    /// only 0/1 cells.
    predicate Valid()
      reads this, field
    {
      field.Length == FIELD_HEIGHT && IsWalled(field[..]) && IsBinary(field[..])
    }

    /// `Game::new`, with the random draw in 0..=6 passed in as `draw`.
    constructor (draw: nat)
      ensures Valid() && fresh(field)
      ensures field[..] == InitialField()
      ensures pos == SPAWN
      ensures block == Sample(draw)
    {
      field := new Row[FIELD_HEIGHT](r requires 0 <= r < FIELD_HEIGHT => InitialField()[r]);
      pos := SPAWN;
      block := Sample(draw);
      new;
      assert field[..] == InitialField();
    }

    /// `fix_block`: stamps the block's mask into the field at `pos`.
    method FixBlock()
      requires Valid() && FixInRange(pos, Mask(block))
      modifies field
      ensures Valid()
      ensures field[..] == FixedField(old(field[..]), pos, Mask(block))
      ensures field[..] == old(field[..])
    {
      StampMask(field, pos, Mask(block));
      FixBlockIsNoOp(old(field[..]), pos, block);
    }

    /// `move_block`: commits `newPos` exactly when the block does not collide
    /// there; the field and the block never change. Since the field holds
    /// only 0/1 cells, that is: the block moves unless it is one of I, S, J, T
    /// and overlaps an occupied cell at `newPos`.
    method MoveBlock(newPos: Position)
      requires Valid()
      modifies this`pos
      ensures Valid()
      ensures pos == if Collides(field[..], newPos, block) then old(pos) else newPos
      ensures pos == if Tag(block) % 2 == 1 && CollidesIntended(field[..], newPos, block)
        then old(pos) else newPos
      ensures unchanged(field)
    {
      var hit := IsCollision(field, newPos, block);
      if !hit {
        pos := newPos;
      }
      CollisionOnBinaryField(field[..], newPos, block);
    }
  }
}
