/**
  A falling piece (Swift `tetroBlock`): an origin on the grid, a shape and an
  unbounded rotation counter. Pieces are values; moving or rotating one yields
  a new piece.
 */
module Pieces {
  import opened Tables

  datatype Piece = Piece(origin: Pos, shape: Shape, rotation: int)

  /** The offsets of the piece's current orientation (Swift `blocks`). */
  function Blocks(p: Piece): (r: seq<Pos>)
    ensures Footprint(r)
  {
    GetBlocks(p.shape, p.rotation)
  }

  function Translate(origin: Pos, offset: Pos): Pos {
    Pos(origin.row + offset.row, origin.column + offset.column)
  }

  /** The four grid cells the piece covers. */
  function Cells(p: Piece): (r: seq<Pos>)
    ensures |r| == 4 && Distinct(r)
  {
    var b := Blocks(p);
    var o := p.origin;
    TranslateInjective(o, b[0], b[1]);
    TranslateInjective(o, b[0], b[2]);
    TranslateInjective(o, b[0], b[3]);
    TranslateInjective(o, b[1], b[2]);
    TranslateInjective(o, b[1], b[3]);
    TranslateInjective(o, b[2], b[3]);
    [Translate(o, b[0]), Translate(o, b[1]), Translate(o, b[2]), Translate(o, b[3])]
  }

  /** Each covered cell is the origin plus the matching offset. */
  lemma CellsAreTranslatedBlocks(p: Piece)
    ensures forall j | 0 <= j < 4 :: Cells(p)[j] == Translate(p.origin, Blocks(p)[j])
  {
  }

  lemma TranslateInjective(origin: Pos, a: Pos, b: Pos)
    requires a != b
    ensures Translate(origin, a) != Translate(origin, b)
  {
  }

  /** Shifts the origin; shape and rotation are kept, so every covered cell
      moves by the same amount. */
  function MoveBy(p: Piece, row: int, column: int): (r: Piece)
    ensures r.shape == p.shape && r.rotation == p.rotation
    ensures forall i | 0 <= i < 4 ::
      Cells(r)[i] == Pos(Cells(p)[i].row + row, Cells(p)[i].column + column)
  {
    Piece(Pos(p.origin.row + row, p.origin.column + column), p.shape, p.rotation)
  }

  /** Advances the rotation counter by one step; origin and shape are kept. */
  function Rotate(p: Piece, clockwise: bool): (r: Piece)
    ensures r.origin == p.origin && r.shape == p.shape
    ensures r.rotation == p.rotation + (if clockwise then 1 else -1)
  {
    Piece(p.origin, p.shape, p.rotation + (if clockwise then 1 else -1))
  }

  /** The kick candidates for rotating this piece (Swift `getKicks`). */
  function GetKicks(p: Piece, clockwise: bool): (r: seq<Pos>)
    ensures |r| >= 1 && r[0] == Pos(0, 0)
  {
    GetWallKicks(p.shape, p.rotation, clockwise)
  }

  /** A piece showing orientation k of its table has rotation counter
      congruent to k. */
  lemma OrientationIndexOf(p: Piece, k: int)
    requires 0 <= k < RotationCount(p.shape) && Blocks(p) == AllBlocks(p.shape)[k]
    ensures k == p.rotation % RotationCount(p.shape)
  {
    var c := RotationCount(p.shape);
    OrientationsDiffer(p.shape, k, p.rotation % c);
  }

  /** The kicks tried when turning a piece that shows orientation k are the
      kick list of orientation k, the one being left (negated for a
      counter-clockwise turn), not that of the orientation being entered. */
  lemma KicksOfDepartedOrientation(p: Piece, k: int)
    requires 0 <= k < RotationCount(p.shape) && Blocks(p) == AllBlocks(p.shape)[k]
    ensures GetKicks(p, true) == AllWallKicks(p.shape)[k]
    ensures GetKicks(p, false) == NegateAll(AllWallKicks(p.shape)[k])
  {
    OrientationIndexOf(p, k);
    assert GetKicks(p, false) == NegateAll(Kicks(p.shape, RotationIndex(p.rotation, RotationCount(p.shape))));
  }

  /** Turning clockwise shows the next orientation of the table and turning
      counter-clockwise the previous one, wrapping around. */
  lemma RotateStepsOrientation(p: Piece, k: int)
    requires 0 <= k < RotationCount(p.shape) && Blocks(p) == AllBlocks(p.shape)[k]
    ensures Blocks(Rotate(p, true)) == AllBlocks(p.shape)[(k + 1) % RotationCount(p.shape)]
    ensures Blocks(Rotate(p, false)) == AllBlocks(p.shape)[(k + RotationCount(p.shape) - 1) % RotationCount(p.shape)]
  {
    var c := RotationCount(p.shape);
    OrientationIndexOf(p, k);
    var q := p.rotation / c;
    assert p.rotation == q * c + k;
    ModUnique(p.rotation + 1, c, if k + 1 < c then q else q + 1, (k + 1) % c);
    ModUnique(p.rotation - 1, c, if k >= 1 then q else q - 1, (k + c - 1) % c);
  }

  /** The running maximum of `acc` and the rows of `offsets[i..]`, the loop
      computing `rMax` in `makeNewBlock`. */
  function MaxRow(offsets: seq<Pos>, i: nat, acc: int): (r: int)
    requires i <= |offsets|
    decreases |offsets| - i
    ensures r >= acc
    ensures forall j | i <= j < |offsets| :: offsets[j].row <= r
    ensures r == acc || exists j | i <= j < |offsets| :: offsets[j].row == r
  {
    if i == |offsets| then acc
    else MaxRow(offsets, i + 1, if acc >= offsets[i].row then acc else offsets[i].row)
  }

  /** A fresh piece of the given shape (Swift `makeNewBlock`, with the random
      shape passed in): orientation 0 in the centre column, rounding left on an
      even width. Its highest cell lies in the top row (`SpawnTouchesTop`). */
  function MakeNewBlock(shape: Shape, numRow: int, numCol: int): (r: Piece)
    requires numCol >= 1
    ensures r.shape == shape && r.rotation == 0
    ensures 0 <= r.origin.column < numCol
    ensures 0 <= numCol - 1 - 2 * r.origin.column <= 1
  {
    var rMax := MaxRow(GetBlocks(shape, 0), 0, 0);
    Piece(Pos(numRow - 1 - rMax, (numCol - 1) / 2), shape, 0)
  }

  /** Orientation 0 of every shape has a cell in the origin's row. */
  lemma SpawnOrientationReachesRowZero(s: Shape)
    ensures exists j | 0 <= j < 4 :: GetBlocks(s, 0)[j].row == 0
  {
    assert GetBlocks(s, 0) == Orientation(s, 0);
    match s
    case I => assert GetBlocks(s, 0)[0].row == 0;
    case O => assert GetBlocks(s, 0)[0].row == 0;
    case T => assert GetBlocks(s, 0)[0].row == 0;
    case J => assert GetBlocks(s, 0)[1].row == 0;
    case L => assert GetBlocks(s, 0)[0].row == 0;
    case S => assert GetBlocks(s, 0)[0].row == 0;
    case Z => assert GetBlocks(s, 0)[2].row == 0;
  }

  /** When some offset sits in row 0, the `rMax` loop seeded with 0 ends on
      the row of some offset. */
  lemma MaxRowAttained(offsets: seq<Pos>, j0: int)
    requires 0 <= j0 < |offsets| && offsets[j0].row == 0
    ensures exists j | 0 <= j < |offsets| :: offsets[j].row == MaxRow(offsets, 0, 0)
  {
  }

  /** The `rMax` of orientation 0 is the row of one of its offsets. */
  lemma SpawnMaxAttained(shape: Shape)
    ensures var offsets := GetBlocks(shape, 0);
            exists j | 0 <= j < 4 :: offsets[j].row == MaxRow(offsets, 0, 0)
  {
    SpawnOrientationReachesRowZero(shape);
    var offsets := GetBlocks(shape, 0);
    var j0 :| 0 <= j0 < 4 && offsets[j0].row == 0;
    MaxRowAttained(offsets, j0);
  }

  /** A spawned piece lies entirely at or below the top row and touches it. */
  lemma SpawnTouchesTop(shape: Shape, numRow: int, numCol: int)
    requires numCol >= 1
    ensures var p := MakeNewBlock(shape, numRow, numCol);
            (forall j | 0 <= j < 4 :: Cells(p)[j].row <= numRow - 1) &&
            (exists j | 0 <= j < 4 :: Cells(p)[j].row == numRow - 1)
  {
    var p := MakeNewBlock(shape, numRow, numCol);
    var offsets := Blocks(p);
    assert offsets == GetBlocks(shape, 0);
    var rMax := MaxRow(offsets, 0, 0);
    assert p.origin.row == numRow - 1 - rMax;
    CellsAreTranslatedBlocks(p);
    SpawnMaxAttained(shape);
    var j1 :| 0 <= j1 < 4 && offsets[j1].row == rMax;
    assert Cells(p)[j1].row == numRow - 1;
  }

  /** Moving back by the opposite amount restores the piece. */
  lemma MoveByInverse(p: Piece, row: int, column: int)
    ensures MoveBy(MoveBy(p, row, column), -row, -column) == p
  {
  }

  /** Rotating one way and then the other restores the piece exactly. */
  lemma RotateRoundTrip(p: Piece, clockwise: bool)
    ensures Rotate(Rotate(p, clockwise), !clockwise) == p
  {
  }

  /** Four clockwise turns bring every shape back to the same covered cells;
      for O a single turn already does. */
  lemma RotateCycle(p: Piece)
    ensures Cells(Rotate(Rotate(Rotate(Rotate(p, true), true), true), true)) == Cells(p)
    ensures p.shape == O ==> Cells(Rotate(p, true)) == Cells(p)
  {
    var q := Rotate(Rotate(Rotate(Rotate(p, true), true), true), true);
    assert q.rotation == p.rotation + 4;
    GetBlocksPeriodic(p.shape, p.rotation);
    assert Blocks(q) == Blocks(p);
  }
}
