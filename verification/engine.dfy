/**
  The game state machine of `TetrisModel`: the grid, the falling piece and the
  tick timer (modelled as a `running` flag), with the player's moves and the
  periodic engine step. The random shape chosen at spawn is a parameter.
 */
module Engine {
  import opened Wrappers
  import opened Tables
  import opened Pieces
  import opened Boards

  datatype Game = Game(board: Board, active: Option<Piece>, running: bool)

  /** What every reachable state satisfies: a well-formed grid; no full row
      while a piece is falling (rows are cleared before the next spawn); and,
      unless the game is over, the falling piece sits on free in-bounds cells. */
  predicate Inv(g: Game) {
    && WellFormed(g.board)
    && (g.active.Some? ==> !AnyFull(g.board))
    && (g.running && g.active.Some? ==> CheckBlock(g.board, g.active.value))
  }

  /** A new game (Swift `init` followed by `resume`): an empty grid, no piece,
      timer running. */
  function NewGame(numRow: int, numCol: int): (g: Game)
    requires numRow >= 1 && numCol >= 1
    ensures Inv(g) && g.running && g.active.None? && !AnyFull(g.board)
    ensures g.board.numRow == numRow && g.board.numCol == numCol
    ensures forall q | InBounds(g.board, q) :: At(g.board, q).None?
  {
    var b := EmptyBoard(numRow, numCol);
    assert !FullRow(b, 0) by {
      assert At(b, Pos(0, 0)).None?;
    }
    assert !AnyFull(b) by {
      forall row | 0 <= row < numRow
        ensures !FullRow(b, row)
      {
        assert At(b, Pos(row, 0)).None?;
      }
    }
    Game(b, None, true)
  }

  /** `blockMove`: the falling piece moves only if the moved piece passes
      `checkBlock`; the result says whether it moved. */
  function BlockMove(g: Game, rowOffset: int, columnOffset: int): (r: (Game, bool))
    requires WellFormed(g.board)
    ensures r.0.board == g.board && r.0.running == g.running
    ensures r.1 <==> g.active.Some? && CheckBlock(g.board, MoveBy(g.active.value, rowOffset, columnOffset))
    ensures r.1 ==> r.0.active == Some(MoveBy(g.active.value, rowOffset, columnOffset))
    ensures !r.1 ==> r.0 == g
  {
    match g.active
    case None => (g, false)
    case Some(p) =>
      var moved := MoveBy(p, rowOffset, columnOffset);
      if CheckBlock(g.board, moved) then (g.(active := Some(moved)), true) else (g, false)
  }

  /** `blockMoveL`: on success every covered cell is one column further left. */
  function BlockMoveL(g: Game): (r: (Game, bool))
    requires WellFormed(g.board)
    ensures r.0.board == g.board && r.0.running == g.running
    ensures r.1 <==> g.active.Some? && CheckBlock(g.board, MoveBy(g.active.value, 0, -1))
    ensures !r.1 ==> r.0 == g
    ensures r.1 ==> g.active.Some? && r.0.active.Some?
    ensures r.1 ==> forall i | 0 <= i < 4 ::
      Cells(r.0.active.value)[i] == Pos(Cells(g.active.value)[i].row, Cells(g.active.value)[i].column - 1)
  {
    BlockMove(g, 0, -1)
  }

  /** `blockMoveR`: on success every covered cell is one column further right. */
  function BlockMoveR(g: Game): (r: (Game, bool))
    requires WellFormed(g.board)
    ensures r.0.board == g.board && r.0.running == g.running
    ensures r.1 <==> g.active.Some? && CheckBlock(g.board, MoveBy(g.active.value, 0, 1))
    ensures !r.1 ==> r.0 == g
    ensures r.1 ==> g.active.Some? && r.0.active.Some?
    ensures r.1 ==> forall i | 0 <= i < 4 ::
      Cells(r.0.active.value)[i] == Pos(Cells(g.active.value)[i].row, Cells(g.active.value)[i].column + 1)
  {
    BlockMove(g, 0, 1)
  }

  /** `blockMoveD`: on success every covered cell is one row lower. */
  function BlockMoveD(g: Game): (r: (Game, bool))
    requires WellFormed(g.board)
    ensures r.0.board == g.board && r.0.running == g.running
    ensures r.1 <==> g.active.Some? && CheckBlock(g.board, MoveBy(g.active.value, -1, 0))
    ensures !r.1 ==> r.0 == g
    ensures r.1 ==> g.active.Some? && r.0.active.Some?
    ensures r.1 ==> forall i | 0 <= i < 4 ::
      Cells(r.0.active.value)[i] == Pos(Cells(g.active.value)[i].row - 1, Cells(g.active.value)[i].column)
  {
    BlockMove(g, -1, 0)
  }

  /** The piece lowered by k rows. */
  function Down(p: Piece, k: int): Piece {
    MoveBy(p, -k, 0)
  }

  /** A piece that passes `checkBlock` has origin row at least -2, because no
      offset lies more than two rows above the origin and every cell is in
      row 0 or higher. */
  lemma ValidOriginRow(b: Board, p: Piece)
    requires WellFormed(b) && CheckBlock(b, p)
    ensures p.origin.row >= -2
  {
    assert Fits(b, Cells(p)[0]);
  }

  /** Repeated one-row drops while the next row down is free (the loop of
      `blockFall`). The result is the piece lowered by some k >= 0 rows, every
      intermediate position was free, and one row further down is not. */
  function Fall(b: Board, p: Piece): (r: Piece)
    requires WellFormed(b)
    decreases p.origin.row + 2
    ensures r.origin.row <= p.origin.row
    ensures r == Down(p, p.origin.row - r.origin.row)
    ensures forall k | 0 < k <= p.origin.row - r.origin.row :: CheckBlock(b, Down(p, k))
    ensures !CheckBlock(b, Down(r, 1))
  {
    var q := Down(p, 1);
    if CheckBlock(b, q) then
      ValidOriginRow(b, q);
      var r := Fall(b, q);
      assert forall k | 1 < k <= p.origin.row - r.origin.row :: Down(p, k) == Down(q, k - 1);
      r
    else p
  }

  /** `blockFall` (the hard drop): lowers the falling piece row by row while
      each next row fits, stopping at the first that does not; it does not
      lock the piece, the next tick's failed gravity step does. */
  function BlockFall(g: Game): (r: Game)
    requires WellFormed(g.board)
    ensures r.board == g.board && r.running == g.running
    ensures g.active.None? ==> r == g
    ensures g.active.Some? ==> r.active.Some?
    ensures g.active.Some? ==>
      var p, q := g.active.value, r.active.value;
      && q.origin.row <= p.origin.row
      && q == Down(p, p.origin.row - q.origin.row)
      && (q == p || CheckBlock(g.board, q))
      && (forall k | 0 < k <= p.origin.row - q.origin.row :: CheckBlock(g.board, Down(p, k)))
      && !CheckBlock(g.board, Down(q, 1))
  {
    match g.active
    case None => g
    case Some(p) => g.(active := Some(Fall(g.board, p)))
  }

  /** The loop of `shade`: `prev` is the last position that passed
      `checkBlock`, `cur` the one being tried. */
  function ShadeFrom(b: Board, prev: Piece, cur: Piece): (r: Piece)
    requires WellFormed(b)
    decreases cur.origin.row + 3
    ensures CheckBlock(b, cur) ==> r == Fall(b, cur)
    ensures !CheckBlock(b, cur) ==> r == prev
  {
    if CheckBlock(b, cur) then
      ValidOriginRow(b, cur);
      ShadeFrom(b, cur, Down(cur, 1))
    else prev
  }

  /** `shade`, the ghost piece: absent without a falling piece; for a valid
      piece, the same piece lowered through rows that all fit, stopping at the
      first blocked row below; an invalid piece is its own shade. */
  function Shade(g: Game): (r: Option<Piece>)
    requires WellFormed(g.board)
    ensures g.active.None? <==> r.None?
    ensures g.active.Some? && !CheckBlock(g.board, g.active.value) ==> r == g.active
    ensures g.active.Some? && CheckBlock(g.board, g.active.value) ==>
      var p, s := g.active.value, r.value;
      && s.origin.row <= p.origin.row
      && s == Down(p, p.origin.row - s.origin.row)
      && CheckBlock(g.board, s)
      && (forall k | 0 < k <= p.origin.row - s.origin.row :: CheckBlock(g.board, Down(p, k)))
      && !CheckBlock(g.board, Down(s, 1))
  {
    match g.active
    case None => None
    case Some(p) => Some(ShadeFrom(g.board, p, p))
  }

  /** A kick applied to a rotated piece. */
  function Kicked(q: Piece, kick: Pos): Piece {
    MoveBy(q, kick.row, kick.column)
  }

  /** For each kick in table order, whether the rotated piece shifted by it
      passes `checkBlock`. */
  function KickFits(b: Board, q: Piece, kicks: seq<Pos>): (r: seq<bool>)
    requires WellFormed(b)
    ensures |r| == |kicks|
    ensures forall j | 0 <= j < |kicks| :: r[j] == CheckBlock(b, Kicked(q, kicks[j]))
  {
    seq(|kicks|, j requires 0 <= j < |kicks| => CheckBlock(b, Kicked(q, kicks[j])))
  }

  /** The index of the first passing kick from `i` on (the loop over `flips`
      in `blockRotation`, which stops at the first success). */
  function FirstFit(fits: seq<bool>, i: nat): (r: Option<nat>)
    requires i <= |fits|
    decreases |fits| - i
    ensures r.Some? ==> i <= r.value < |fits| && fits[r.value] && forall j | i <= j < r.value :: !fits[j]
    ensures r.None? ==> forall j | i <= j < |fits| :: !fits[j]
  {
    if i == |fits| then None
    else if fits[i] then Some(i)
    else FirstFit(fits, i + 1)
  }

  /** `blockRotation`: the rotated piece shifted by the first kick (in table
      order, chosen by the orientation being left) that passes `checkBlock`;
      if none does, nothing changes. */
  function BlockRotation(g: Game, clockwise: bool): (r: Game)
    requires WellFormed(g.board)
    ensures r.board == g.board && r.running == g.running
    ensures g.active.None? ==> r == g
    ensures g.active.Some? ==>
      var p := g.active.value;
      var q := Rotate(p, clockwise);
      var kicks := GetKicks(p, clockwise);
      || (r == g && forall j | 0 <= j < |kicks| :: !CheckBlock(g.board, Kicked(q, kicks[j])))
      || exists i | 0 <= i < |kicks| ::
           && r.active == Some(Kicked(q, kicks[i]))
           && CheckBlock(g.board, Kicked(q, kicks[i]))
           && forall j | 0 <= j < i :: !CheckBlock(g.board, Kicked(q, kicks[j]))
  {
    match g.active
    case None => g
    case Some(p) =>
      var q := Rotate(p, clockwise);
      var kicks := GetKicks(p, clockwise);
      match FirstFit(KickFits(g.board, q, kicks), 0)
      case None => g
      case Some(i) => g.(active := Some(Kicked(q, kicks[i])))
  }

  /** `blockPlaced`: locks the falling piece into the grid. Exactly its
      in-bounds cells take its shape, the rest of the grid is unchanged, and
      no piece is falling afterwards. */
  function BlockPlaced(g: Game): (r: Game)
    requires WellFormed(g.board)
    ensures g.active.None? ==> r == g
    ensures r.active.None? && r.running == g.running
    ensures WellFormed(r.board) && r.board.numRow == g.board.numRow && r.board.numCol == g.board.numCol
    ensures g.active.Some? ==> forall x | InBounds(g.board, x) ::
      At(r.board, x) == if x in Cells(g.active.value) then Some(g.active.value.shape) else At(g.board, x)
  {
    match g.active
    case None => g
    case Some(p) => g.(board := Place(g.board, p), active := None)
  }

  /** `gameEngine`: one tick does exactly one of: clear full rows; spawn a
      piece (stopping the timer if it does not fit); lower the piece one row;
      or lock it. */
  function GameEngine(g: Game, shape: Shape): (r: Game)
    requires WellFormed(g.board)
    ensures WellFormed(r.board)
    ensures AnyFull(g.board) ==>
      r.board == Compact(g.board) && r.active == g.active && r.running == g.running
    ensures !AnyFull(g.board) && g.active.None? ==>
      && r.board == g.board
      && r.active == Some(MakeNewBlock(shape, g.board.numRow, g.board.numCol))
      && (r.running <==> g.running && CheckBlock(g.board, r.active.value))
    ensures !AnyFull(g.board) && g.active.Some? ==> r.running == g.running
    ensures !AnyFull(g.board) && g.active.Some? && CheckBlock(g.board, Down(g.active.value, 1)) ==>
      r.board == g.board && r.active == Some(Down(g.active.value, 1))
    ensures !AnyFull(g.board) && g.active.Some? && !CheckBlock(g.board, Down(g.active.value, 1)) ==>
      r.active.None? && r.board == Place(g.board, g.active.value)
  {
    if AnyFull(g.board) then g.(board := Compact(g.board))
    else match g.active
      case None =>
        var p := MakeNewBlock(shape, g.board.numRow, g.board.numCol);
        g.(active := Some(p), running := g.running && CheckBlock(g.board, p))
      case Some(_) =>
        var (moved, ok) := BlockMoveD(g);
        if ok then moved else BlockPlaced(g)
  }

  /** The timer: the engine runs on a tick only while the game is running. */
  function Tick(g: Game, shape: Shape): (r: Game)
    requires WellFormed(g.board)
    ensures !g.running ==> r == g
    ensures g.running ==> r == GameEngine(g, shape)
    ensures r.running ==> g.running
    ensures g.running && !r.running <==>
      && g.running && !AnyFull(g.board) && g.active.None?
      && !CheckBlock(g.board, MakeNewBlock(shape, g.board.numRow, g.board.numCol))
  {
    if g.running then GameEngine(g, shape) else g
  }

  /** The invariant holds at the start of a game and across every tick. */
  lemma TickPreservesInv(g: Game, shape: Shape)
    requires Inv(g)
    ensures Inv(Tick(g, shape))
  {
    if g.running && AnyFull(g.board) {
      assert g.active.None?;
    }
  }

  /** The player's moves keep the invariant: they never leave a running game
      with a falling piece on an occupied or off-board cell. */
  lemma PlayerMovesPreserveInv(g: Game, rowOffset: int, columnOffset: int, clockwise: bool)
    requires Inv(g)
    ensures Inv(BlockMove(g, rowOffset, columnOffset).0)
    ensures Inv(BlockRotation(g, clockwise))
    ensures Inv(BlockFall(g))
  {
  }

  /** A successful move is undone by the opposite move, which also succeeds. */
  lemma BlockMoveRoundTrip(g: Game, rowOffset: int, columnOffset: int)
    requires Inv(g) && g.running && g.active.Some?
    requires BlockMove(g, rowOffset, columnOffset).1
    ensures BlockMove(BlockMove(g, rowOffset, columnOffset).0, -rowOffset, -columnOffset) == (g, true)
  {
    MoveByInverse(g.active.value, rowOffset, columnOffset);
  }

  /** A piece touching the left wall cannot move left; the state is unchanged. */
  lemma MoveLeftAtWallFails(g: Game)
    requires WellFormed(g.board) && g.active.Some?
    requires exists j | 0 <= j < 4 :: Cells(g.active.value)[j].column == 0
    ensures BlockMoveL(g) == (g, false)
  {
    var p := g.active.value;
    var j :| 0 <= j < 4 && Cells(p)[j].column == 0;
    assert !Fits(g.board, Cells(MoveBy(p, 0, -1))[j]);
  }

  /** A piece touching the right wall cannot move right; the state is unchanged. */
  lemma MoveRightAtWallFails(g: Game)
    requires WellFormed(g.board) && g.active.Some?
    requires exists j | 0 <= j < 4 :: Cells(g.active.value)[j].column == g.board.numCol - 1
    ensures BlockMoveR(g) == (g, false)
  {
    var p := g.active.value;
    var j :| 0 <= j < 4 && Cells(p)[j].column == g.board.numCol - 1;
    assert !Fits(g.board, Cells(MoveBy(p, 0, 1))[j]);
  }

  /** A piece resting on the floor cannot move down; the state is unchanged. */
  lemma MoveDownAtFloorFails(g: Game)
    requires WellFormed(g.board) && g.active.Some?
    requires exists j | 0 <= j < 4 :: Cells(g.active.value)[j].row == 0
    ensures BlockMoveD(g) == (g, false)
  {
    var p := g.active.value;
    var j :| 0 <= j < 4 && Cells(p)[j].row == 0;
    assert !Fits(g.board, Cells(MoveBy(p, -1, 0))[j]);
  }

  /** Rotating one way and then back never leaves a running game's falling
      piece in an invalid place, whatever kicks were applied. */
  lemma RotateThereAndBackStaysValid(g: Game, clockwise: bool)
    requires Inv(g) && g.running && g.active.Some?
    ensures var h := BlockRotation(BlockRotation(g, clockwise), !clockwise);
            h.active.Some? && CheckBlock(h.board, h.active.value)
  {
    PlayerMovesPreserveInv(g, 0, 0, clockwise);
    PlayerMovesPreserveInv(BlockRotation(g, clockwise), 0, 0, !clockwise);
  }

  /** Rotating a valid O piece always succeeds with the zero kick and covers
      the same cells as before. */
  lemma ORotationKeepsCells(g: Game, clockwise: bool)
    requires Inv(g) && g.running && g.active.Some? && g.active.value.shape == O
    ensures var r := BlockRotation(g, clockwise);
            r.active == Some(Rotate(g.active.value, clockwise))
            && Cells(r.active.value) == Cells(g.active.value)
  {
    var p := g.active.value;
    var q := Rotate(p, clockwise);
    assert Blocks(q) == Blocks(p);
    assert Cells(q) == Cells(p);
    var kicks := GetKicks(p, clockwise);
    assert kicks[0] == Pos(0, 0);
    assert Kicked(q, kicks[0]) == q;
  }

  /** The ghost piece is exactly where a hard drop of a valid piece lands. */
  lemma ShadeIsHardDropLanding(g: Game)
    requires WellFormed(g.board) && g.active.Some? && CheckBlock(g.board, g.active.value)
    ensures Shade(g) == BlockFall(g).active
  {
  }

  /** A hard drop does not lock by itself: the next tick of a running game
      finds the gravity step blocked and locks the piece where it landed. */
  lemma HardDropThenTickLocks(g: Game, shape: Shape)
    requires Inv(g) && g.running && g.active.Some?
    ensures var h := BlockFall(g);
            var t := Tick(h, shape);
            && t.active.None? && t.running
            && t.board == Place(g.board, h.active.value)
  {
  }

  /** After a clearing tick, the next tick never clears again. */
  lemma ClearingTickIsNotRepeated(g: Game, shape: Shape)
    requires WellFormed(g.board) && g.running && AnyFull(g.board)
    ensures !AnyFull(Tick(g, shape).board)
  {
    CompactLeavesNoFullRow(g.board);
  }

  /** A new game's first tick spawns the chosen shape, here an I piece lying
      flat in the top row of a 4 x 4 board. */
  lemma FirstTickSpawnsI()
    ensures Tick(NewGame(4, 4), I).active == Some(Piece(Pos(3, 1), I, 0))
  {
    assert MaxRow(GetBlocks(I, 0), 0, 0) == 0;
  }

  /** A piece with a cell off the board fails `checkBlock`. */
  lemma OffBoardFails(b: Board, p: Piece, j: int)
    requires WellFormed(b) && 0 <= j < 4 && !InBounds(b, Cells(p)[j])
    ensures !CheckBlock(b, p)
  {
  }

  /** The upright I orientation (rotation 1) and the I kicks out of rotation 0. */
  lemma UprightIGeometry(origin: Pos)
    ensures Blocks(Piece(origin, I, 1)) == [Pos(-1, 1), Pos(0, 1), Pos(1, 1), Pos(-2, 1)]
    ensures GetKicks(Piece(origin, I, 0), true) ==
      [Pos(0, 0), Pos(0, -2), Pos(0, 1), Pos(-1, -2), Pos(2, -1)]
  {
  }

  /** The first I kick that fits the upright piece turned from the top row of
      an empty 4 x 4 board is the fourth one. */
  lemma FlatIFirstFit(b: Board)
    requires WellFormed(b) && b.numRow == 4 && b.numCol == 4
    requires forall q | InBounds(b, q) :: At(b, q).None?
    ensures FirstFit(KickFits(b, Piece(Pos(3, 1), I, 1), GetKicks(Piece(Pos(3, 1), I, 0), true)), 0) == Some(3)
  {
    var q := Piece(Pos(3, 1), I, 1);
    var kicks := GetKicks(Piece(Pos(3, 1), I, 0), true);
    var fits := KickFits(b, q, kicks);
    UprightIGeometry(Pos(3, 1));
    assert fits[3] by {
      UprightIGeometry(Pos(2, -1));
      assert Cells(Kicked(q, kicks[3])) == [Pos(1, 0), Pos(2, 0), Pos(3, 0), Pos(0, 0)];
    }
    assert !fits[2] by {
      UprightIGeometry(Pos(3, 2));
      OffBoardFails(b, Kicked(q, kicks[2]), 2);
    }
    assert !fits[1] by {
      UprightIGeometry(Pos(3, -1));
      OffBoardFails(b, Kicked(q, kicks[1]), 2);
    }
    assert !fits[0] by {
      OffBoardFails(b, Kicked(q, kicks[0]), 2);
    }
    assert FirstFit(fits, 3) == Some(3);
    assert FirstFit(fits, 1) == Some(3);
  }

  /** Turning that flat I piece clockwise in place would poke above the board;
      the I table's fourth kick (one row down, two columns left) fits it
      against the left wall. */
  lemma IRotationUsesIKicks(g: Game)
    requires WellFormed(g.board) && g.board.numRow == 4 && g.board.numCol == 4
    requires forall q | InBounds(g.board, q) :: At(g.board, q).None?
    requires g.active == Some(Piece(Pos(3, 1), I, 0))
    ensures BlockRotation(g, true).active == Some(Piece(Pos(2, -1), I, 1))
  {
    FlatIFirstFit(g.board);
    UprightIGeometry(Pos(3, 1));
  }

  /** In the same position no kick of the table shared by J, L, S, T and Z
      would fit the turned I piece. */
  lemma SharedKicksWouldRejectI(g: Game)
    requires WellFormed(g.board) && g.board.numRow == 4 && g.board.numCol == 4
    ensures FirstFit(KickFits(g.board, Piece(Pos(3, 1), I, 1), Kicks(T, 0)), 0).None?
  {
    var q := Piece(Pos(3, 1), I, 1);
    var shared := Kicks(T, 0);
    var fits := KickFits(g.board, q, shared);
    assert Blocks(q) == [Pos(-1, 1), Pos(0, 1), Pos(1, 1), Pos(-2, 1)];
    forall j | 0 <= j < 5
      ensures !fits[j]
    {
      var c := Cells(Kicked(q, shared[j]));
      assert !InBounds(g.board, c[2]) || !InBounds(g.board, c[3]);
    }
  }
}
