/**
  The playing field of `TetrisModel`: a column-major grid `columns[col][row]`
  of optional shapes, row 0 at the bottom, together with its dimensions.
  Collision testing, locking a piece into the grid and line clearing live here.
 */
module Boards {
  import opened Wrappers
  import opened Tables
  import opened Pieces

  datatype Board = Board(numRow: int, numCol: int, columns: seq<seq<Option<Shape>>>)

  /** At least one row and one column, and every column is `numRow` tall. */
  predicate WellFormed(b: Board) {
    && b.numRow >= 1 && b.numCol >= 1
    && |b.columns| == b.numCol
    && forall c | 0 <= c < |b.columns| :: |b.columns[c]| == b.numRow
  }

  predicate InBounds(b: Board, q: Pos) {
    0 <= q.column < b.numCol && 0 <= q.row < b.numRow
  }

  function At(b: Board, q: Pos): Option<Shape>
    requires WellFormed(b) && InBounds(b, q)
  {
    b.columns[q.column][q.row]
  }

  /** A cell a piece may occupy: on the board and empty. */
  predicate Fits(b: Board, q: Pos)
    requires WellFormed(b)
  {
    InBounds(b, q) && At(b, q).None?
  }

  /** The board a new game starts with. */
  function EmptyBoard(numRow: int, numCol: int): (b: Board)
    requires numRow >= 1 && numCol >= 1
    ensures WellFormed(b) && b.numRow == numRow && b.numCol == numCol
    ensures forall q | InBounds(b, q) :: At(b, q) == None
  {
    Board(numRow, numCol, seq(numCol, _ => seq(numRow, _ => None)))
  }

  /** The loop of `checkBlock` over `offsets[i..]` around `origin`, with its
      early exits. */
  function CheckFrom(b: Board, origin: Pos, offsets: seq<Pos>, i: nat): (r: bool)
    requires WellFormed(b) && i <= |offsets|
    decreases |offsets| - i
    ensures r <==> forall j | i <= j < |offsets| :: Fits(b, Translate(origin, offsets[j]))
  {
    if i == |offsets| then true
    else
      var column := origin.column + offsets[i].column;
      if column < 0 || column >= b.numCol then false
      else
        var row := origin.row + offsets[i].row;
        if row < 0 || row >= b.numRow then false
        else if b.columns[column][row].Some? then false
        else CheckFrom(b, origin, offsets, i + 1)
  }

  /** `checkBlock`: one predicate for both bounds and overlap. */
  function CheckBlock(b: Board, p: Piece): (r: bool)
    requires WellFormed(b)
    ensures r <==> forall j | 0 <= j < 4 :: Fits(b, Cells(p)[j])
  {
    assert forall j | 0 <= j < 4 :: Cells(p)[j] == Translate(p.origin, Blocks(p)[j]);
    CheckFrom(b, p.origin, Blocks(p), 0)
  }

  /** Writes one cell, silently skipping positions off the board. */
  function Write(b: Board, q: Pos, s: Shape): (r: Board)
    requires WellFormed(b)
    ensures WellFormed(r) && r.numRow == b.numRow && r.numCol == b.numCol
    ensures forall x | InBounds(b, x) :: At(r, x) == if x == q then Some(s) else At(b, x)
  {
    if q.row < 0 || q.row >= b.numRow then b
    else if q.column < 0 || q.column >= b.numCol then b
    else b.(columns := b.columns[q.column := b.columns[q.column][q.row := Some(s)]])
  }

  /** The loop of `blockPlaced` over `cells[i..]`. */
  function PlaceFrom(b: Board, cells: seq<Pos>, s: Shape, i: nat): (r: Board)
    requires WellFormed(b) && i <= |cells|
    decreases |cells| - i
    ensures WellFormed(r) && r.numRow == b.numRow && r.numCol == b.numCol
    ensures forall x | InBounds(b, x) ::
      At(r, x) == if x in cells[i..] then Some(s) else At(b, x)
  {
    if i == |cells| then b
    else PlaceFrom(Write(b, cells[i], s), cells, s, i + 1)
  }

  /** Locks a piece into the grid: its in-bounds cells take its shape, every
      other cell keeps its contents. */
  function Place(b: Board, p: Piece): (r: Board)
    requires WellFormed(b)
    ensures WellFormed(r) && r.numRow == b.numRow && r.numCol == b.numCol
    ensures forall x | InBounds(b, x) ::
      At(r, x) == if x in Cells(p) then Some(p.shape) else At(b, x)
  {
    assert Cells(p)[0..] == Cells(p);
    PlaceFrom(b, Cells(p), p.shape, 0)
  }

  /** A row is full when every column holds a block in it. */
  predicate FullRow(b: Board, row: int)
    requires WellFormed(b) && 0 <= row < b.numRow
  {
    forall c | 0 <= c < b.numCol :: b.columns[c][row].Some?
  }

  predicate AnyFull(b: Board)
    requires WellFormed(b)
  {
    exists row | 0 <= row < b.numRow :: FullRow(b, row)
  }

  /** The rows below `n` that survive a line clear: exactly the non-full
      ones, in ascending order. */
  function KeptRows(b: Board, n: int): (r: seq<int>)
    requires WellFormed(b) && 0 <= n <= b.numRow
    ensures |r| <= n
    ensures forall i | 0 <= i < |r| :: 0 <= r[i] < n
  {
    if n == 0 then []
    else KeptRows(b, n - 1) + (if FullRow(b, n - 1) then [] else [n - 1])
  }

  /** The kept rows are exactly the non-full rows below `n`, strictly ascending. */
  lemma {:induction false} KeptRowsExact(b: Board, n: int)
    requires WellFormed(b) && 0 <= n <= b.numRow
    ensures var r := KeptRows(b, n);
            && (forall i | 0 <= i < |r| :: !FullRow(b, r[i]))
            && (forall i, j | 0 <= i < j < |r| :: r[i] < r[j])
            && (forall x | 0 <= x < n && !FullRow(b, x) :: x in r)
  {
    if n > 0 {
      KeptRowsExact(b, n - 1);
    }
  }

  /** The reference result of a line clear: kept row k moves to row k, and the
      rows above the last kept one are empty. */
  function Compact(b: Board): (r: Board)
    requires WellFormed(b)
    ensures WellFormed(r) && r.numRow == b.numRow && r.numCol == b.numCol
  {
    var kept := KeptRows(b, b.numRow);
    Board(b.numRow, b.numCol,
      seq(b.numCol, c requires 0 <= c < b.numCol =>
        seq(b.numRow, k requires 0 <= k < b.numRow =>
          if k < |kept| then b.columns[c][kept[k]] else None)))
  }

  /** The inner loop of `clearLines` that decides whether a row is full. */
  method RowIsFull(b: Board, row: int) returns (lineCleared: bool)
    requires WellFormed(b) && 0 <= row < b.numRow
    ensures lineCleared <==> FullRow(b, row)
  {
    lineCleared := true;
    var col := 0;
    while col < b.numCol
      invariant 0 <= col <= b.numCol
      invariant lineCleared <==> forall c | 0 <= c < col :: b.columns[c][row].Some?
    {
      lineCleared := lineCleared && b.columns[col][row].Some?;
      col := col + 1;
    }
  }

  /** The inner loop of `clearLines` that copies row `row` of the board into
      row `newRow` of the grid under construction, leaving every other cell. */
  method CopyRow(grid: seq<seq<Option<Shape>>>, b: Board, row: int, newRow: int)
    returns (r: seq<seq<Option<Shape>>>)
    requires WellFormed(b) && 0 <= row < b.numRow && 0 <= newRow < b.numRow
    requires |grid| == b.numCol && forall c | 0 <= c < b.numCol :: |grid[c]| == b.numRow
    ensures |r| == b.numCol && forall c | 0 <= c < b.numCol :: |r[c]| == b.numRow
    ensures forall c, k | 0 <= c < b.numCol && 0 <= k < b.numRow ::
      r[c][k] == if k == newRow then b.columns[c][row] else grid[c][k]
  {
    r := grid;
    var col := 0;
    while col < b.numCol
      invariant 0 <= col <= b.numCol
      invariant |r| == b.numCol
      invariant forall c | 0 <= c < b.numCol :: |r[c]| == b.numRow
      invariant forall c, k | 0 <= c < b.numCol && 0 <= k < b.numRow ::
        r[c][k] == if k == newRow && c < col then b.columns[c][row] else grid[c][k]
    {
      r := r[col := r[col][newRow := b.columns[col][row]]];
      col := col + 1;
    }
  }

  /** `clearLines`: scans the rows bottom-up, copying every row that is not
      full into the next free row of a fresh grid; the grid is replaced only if
      some row was full. */
  method ClearLines(b: Board) returns (nb: Board, cleared: bool)
    requires WellFormed(b)
    ensures cleared <==> AnyFull(b)
    ensures nb == if cleared then Compact(b) else b
  {
    var newBoard: seq<seq<Option<Shape>>> := seq(b.numCol, _ => seq(b.numRow, _ => None));
    var updated := false;
    var newRow := 0;
    var row := 0;
    ghost var kept: seq<int> := [];
    while row < b.numRow
      invariant 0 <= row <= b.numRow
      invariant kept == KeptRows(b, row) && newRow == |kept|
      invariant updated <==> exists r | 0 <= r < row :: FullRow(b, r)
      invariant |newBoard| == b.numCol
      invariant forall c | 0 <= c < b.numCol :: |newBoard[c]| == b.numRow
      invariant forall c, k {:trigger newBoard[c][k]} | 0 <= c < b.numCol && 0 <= k < b.numRow ::
        newBoard[c][k] == if k < newRow then b.columns[c][kept[k]] else None
    {
      var lineCleared := RowIsFull(b, row);
      if !lineCleared {
        var grid := CopyRow(newBoard, b, row, newRow);
        forall c, k | 0 <= c < b.numCol && 0 <= k < b.numRow
          ensures grid[c][k] ==
            if k < newRow + 1 then b.columns[c][(kept + [row])[k]] else None
        {
          assert grid[c][k] == if k == newRow then b.columns[c][row] else newBoard[c][k];
          assert newBoard[c][k] == if k < newRow then b.columns[c][kept[k]] else None;
          if k < newRow {
            assert (kept + [row])[k] == kept[k];
          } else if k == newRow {
            assert (kept + [row])[k] == row;
          }
        }
        newBoard := grid;
        newRow := newRow + 1;
        kept := kept + [row];
      }
      updated := updated || lineCleared;
      row := row + 1;
    }
    cleared := updated;
    if updated {
      var expected := Compact(b);
      forall c | 0 <= c < b.numCol
        ensures newBoard[c] == expected.columns[c]
      {
        assert |newBoard[c]| == |expected.columns[c]|;
        forall k | 0 <= k < b.numRow
          ensures newBoard[c][k] == expected.columns[c][k]
        {
          assert expected.columns[c][k] ==
            if k < |kept| then b.columns[c][kept[k]] else None;
        }
      }
      nb := Board(b.numRow, b.numCol, newBoard);
    } else {
      nb := b;
    }
  }

  /** Line clearing keeps exactly the non-full rows, in their original order,
      packs them from the bottom row upwards, and empties every row above. */
  lemma CompactPacksKeptRows(b: Board)
    requires WellFormed(b)
    ensures var r := Compact(b);
            var kept := KeptRows(b, b.numRow);
            && (forall i | 0 <= i < |kept| :: !FullRow(b, kept[i]))
            && (forall i, j | 0 <= i < j < |kept| :: kept[i] < kept[j])
            && (forall x | 0 <= x < b.numRow && !FullRow(b, x) :: x in kept)
            && (forall k, c | 0 <= k < |kept| && 0 <= c < b.numCol ::
                  At(r, Pos(k, c)) == At(b, Pos(kept[k], c)))
            && (forall k, c | |kept| <= k < b.numRow && 0 <= c < b.numCol ::
                  At(r, Pos(k, c)) == None)
  {
    KeptRowsExact(b, b.numRow);
  }

  /** After a line clear no row is full, so a second clear reports nothing. */
  lemma CompactLeavesNoFullRow(b: Board)
    requires WellFormed(b)
    ensures !AnyFull(Compact(b))
  {
    var r := Compact(b);
    var kept := KeptRows(b, b.numRow);
    KeptRowsExact(b, b.numRow);
    forall k | 0 <= k < b.numRow
      ensures !FullRow(r, k)
    {
      if k < |kept| {
        var c :| 0 <= c < b.numCol && b.columns[c][kept[k]].None?;
        assert r.columns[c][k] == b.columns[c][kept[k]];
      } else {
        assert r.columns[0][k] == None;
      }
    }
  }

  /** With no row full every row is kept, in place. */
  lemma {:induction false} KeptRowsAllWhenNoneFull(b: Board, n: int)
    requires WellFormed(b) && 0 <= n <= b.numRow && !AnyFull(b)
    ensures KeptRows(b, n) == seq(n, i => i)
  {
    if n > 0 {
      KeptRowsAllWhenNoneFull(b, n - 1);
      assert !FullRow(b, n - 1);
    }
  }

  /** When no row is full the reference line clear is the identity, matching
      `clearLines` leaving the grid untouched. */
  lemma CompactIdentityWhenNoneFull(b: Board)
    requires WellFormed(b) && !AnyFull(b)
    ensures Compact(b) == b
  {
    var r := Compact(b);
    KeptRowsAllWhenNoneFull(b, b.numRow);
    forall c | 0 <= c < b.numCol
      ensures r.columns[c] == b.columns[c]
    {
    }
  }
}
