/// Cell tags shared by the field and the shape masks (the `block_kind`
/// constants of the block module). A field cell or a mask cell holds one of
/// these values.
module BlockTag {
  /// The type of a cell value (`BlockColor`, a machine word in the game).
  type BlockColor = nat

  const NONE: BlockColor := 0
  const WALL: BlockColor := 1
  const GHOST: BlockColor := 2
  const I: BlockColor := 3
  const O: BlockColor := 4
  const S: BlockColor := 5
  const Z: BlockColor := 6
  const J: BlockColor := 7
  const L: BlockColor := 8
  const T: BlockColor := 9

  /// All ten tags in the order they are declared.
  const ALL: seq<BlockColor> := [NONE, WALL, GHOST, I, O, S, Z, J, L, T]

  /// The ten tags are pairwise distinct: tag number `i` is `i` itself.
  lemma TagsDistinct()
    ensures |ALL| == 10
    ensures forall i :: 0 <= i < |ALL| ==> ALL[i] == i
    ensures forall i, j :: 0 <= i < j < |ALL| ==> ALL[i] != ALL[j]
  {
  }
}

/// The seven tetromino kinds, their 4x4 masks and the mapping from a drawn
/// integer to a kind.
module Block {
  import opened BlockTag

  datatype BlockKind = I | O | S | Z | J | L | T

  /// A 4x4 mask, row by row.
  type BlockShape = seq<seq<BlockColor>>

  /// `kind as usize`: the declaration order of the enum.
  function Index(k: BlockKind): (r: nat)
    ensures r < 7
  {
    match k
    case I => 0
    case O => 1
    case S => 2
    case Z => 3
    case J => 4
    case L => 5
    case T => 6
  }

  /// The tag constant that the mask of kind `k` is filled with: the entry of
  /// `block_kind` three places after the kind's enum index.
  function Tag(k: BlockKind): (r: BlockColor)
    ensures Index(k) + 3 < |ALL| && r == ALL[Index(k) + 3]
  {
    match k
    case I => BlockTag.I
    case O => BlockTag.O
    case S => BlockTag.S
    case Z => BlockTag.Z
    case J => BlockTag.J
    case L => BlockTag.L
    case T => BlockTag.T
  }

  /// The mask table, indexed by `Index`.
  const BLOCKS: seq<BlockShape> := [
    // I
    [[0, 0, 0, 0], [0, 0, 0, 0], [BlockTag.I, BlockTag.I, BlockTag.I, BlockTag.I], [0, 0, 0, 0]],
    // O
    [[0, 0, 0, 0], [0, BlockTag.O, BlockTag.O, 0], [0, BlockTag.O, BlockTag.O, 0], [0, 0, 0, 0]],
    // S
    [[0, 0, 0, 0], [0, BlockTag.S, BlockTag.S, 0], [BlockTag.S, BlockTag.S, 0, 0], [0, 0, 0, 0]],
    // Z
    [[0, 0, 0, 0], [BlockTag.Z, BlockTag.Z, 0, 0], [0, BlockTag.Z, BlockTag.Z, 0], [0, 0, 0, 0]],
    // J
    [[0, 0, 0, 0], [BlockTag.J, 0, 0, 0], [BlockTag.J, BlockTag.J, BlockTag.J, 0], [0, 0, 0, 0]],
    // L
    [[0, 0, 0, 0], [0, 0, BlockTag.L, 0], [BlockTag.L, BlockTag.L, BlockTag.L, 0], [0, 0, 0, 0]],
    // T
    [[0, 0, 0, 0], [0, BlockTag.T, 0, 0], [BlockTag.T, BlockTag.T, BlockTag.T, 0], [0, 0, 0, 0]]
  ]

  /// A mask has four rows of four cells.
  predicate IsShape(m: BlockShape)
  {
    |m| == 4 && forall y :: 0 <= y < 4 ==> |m[y]| == 4
  }

  /// `BLOCKS[k as usize]`: the mask of kind `k`, always a 4x4 matrix.
  function Mask(k: BlockKind): (m: BlockShape)
    ensures IsShape(m)
  {
    BLOCKS[Index(k)]
  }

  /// The match in `sample`: 0..5 name I, O, S, Z, J, L in enum order and
  /// every other value names T.
  function Sample(n: nat): (k: BlockKind)
    ensures n < 7 ==> Index(k) == n
    ensures n >= 6 ==> k == T
  {
    match n
    case 0 => I
    case 1 => O
    case 2 => S
    case 3 => Z
    case 4 => J
    case 5 => L
    case _ => T
  }

  /// Distinct kinds sit at distinct positions of the table.
  lemma IndexInjective(k: BlockKind, k': BlockKind)
    ensures Index(k) == Index(k') ==> k == k'
  {
  }

  /// `Sample` undoes `Index`, so every kind is reachable from a draw in 0..=6.
  lemma SampleIndexRoundTrip(k: BlockKind)
    ensures Index(k) <= 6 && Sample(Index(k)) == k
  {
  }

  /// The tags follow the enum order, start right after GHOST, and are never
  /// NONE, WALL or GHOST.
  lemma TagFollowsIndex(k: BlockKind)
    ensures Tag(k) == Index(k) + 3
    ensures Tag(k) !in {NONE, WALL, GHOST}
  {
  }

  /// 1 for an occupied cell, 0 for an empty one.
  function Occupied(c: BlockColor): nat
  {
    if c != NONE then 1 else 0
  }

  /// Number of non-zero cells in a row of a mask.
  function RowCells(row: seq<BlockColor>): (n: nat)
    ensures n <= |row|
  {
    if row == [] then 0 else Occupied(row[0]) + RowCells(row[1..])
  }

  /// Number of non-zero cells in a mask.
  function ShapeCells(m: BlockShape): (n: nat)
  {
    if m == [] then 0 else RowCells(m[0]) + ShapeCells(m[1..])
  }

  /// Every mask is a tetromino: exactly four occupied cells.
  lemma MaskHasFourCells(k: BlockKind)
    ensures ShapeCells(Mask(k)) == 4
  {
    var m := Mask(k);
    ShapeCellsOfFourRows(m);
    forall y | 0 <= y < 4 { RowCellsOfFour(m[y]); }
  }

  lemma RowCellsOfFour(row: seq<BlockColor>)
    requires |row| == 4
    ensures RowCells(row) == Occupied(row[0]) + Occupied(row[1]) + Occupied(row[2]) + Occupied(row[3])
  {
    assert row[3..][1..] == [];
    assert RowCells(row[3..]) == Occupied(row[3]);
    assert row[2..][1..] == row[3..];
    assert RowCells(row[2..]) == Occupied(row[2]) + RowCells(row[3..]);
    assert row[1..][1..] == row[2..];
    assert RowCells(row[1..]) == Occupied(row[1]) + RowCells(row[2..]);
  }

  lemma ShapeCellsOfFourRows(m: BlockShape)
    requires |m| == 4
    ensures ShapeCells(m) == RowCells(m[0]) + RowCells(m[1]) + RowCells(m[2]) + RowCells(m[3])
  {
    assert m[3..][1..] == [];
    assert ShapeCells(m[3..]) == RowCells(m[3]);
    assert m[2..][1..] == m[3..];
    assert ShapeCells(m[2..]) == RowCells(m[2]) + ShapeCells(m[3..]);
    assert m[1..][1..] == m[2..];
    assert ShapeCells(m[1..]) == RowCells(m[1]) + ShapeCells(m[2..]);
  }

  /// Every cell of the mask of `k` is either empty or holds `Tag(k)`; in
  /// particular no mask cell is WALL (1) or GHOST (2).
  lemma MaskCellsCarryTag(k: BlockKind)
    ensures forall y, x :: 0 <= y < 4 && 0 <= x < 4 ==>
      Mask(k)[y][x] == NONE || Mask(k)[y][x] == Tag(k)
    ensures forall y, x :: 0 <= y < 4 && 0 <= x < 4 ==>
      Mask(k)[y][x] != WALL && Mask(k)[y][x] != GHOST
  {
  }

  /// The first and the last row of every mask are empty padding.
  lemma MaskPadding(k: BlockKind)
    ensures forall x :: 0 <= x < 4 ==> Mask(k)[0][x] == NONE && Mask(k)[3][x] == NONE
  {
  }

  /// The tag of a kind is odd exactly for I, S, J and T.
  lemma OddTags(k: BlockKind)
    ensures Tag(k) % 2 == 1 <==> k in {I, S, J, T}
  {
  }
}
