/**
  The static geometry of the seven tetrominoes: for every shape, its orientations
  (each four cell offsets relative to the piece origin) and, per orientation, the
  ordered list of wall-kick offsets tried by a clockwise rotation.
  Offsets are (row, column); rows grow upwards and columns to the right.
 */
module Tables {

  datatype Shape = I | T | O | J | L | S | Z

  /** A grid offset or grid position (Swift `blockArea`). */
  datatype Pos = Pos(row: int, column: int)

  predicate Distinct(cells: seq<Pos>) {
    forall i, j | 0 <= i < j < |cells| :: cells[i] != cells[j]
  }

  /** An offset within two cells of the origin in both directions. */
  predicate Near(p: Pos) {
    -2 <= p.row <= 2 && -2 <= p.column <= 2
  }

  /** A well-formed orientation: four pairwise distinct cells near the origin.
      Distinctness is spelled out pair by pair rather than through `Distinct`,
      so the predicate stays free of quantifiers and cheap to unfold for the
      table literals. */
  predicate Footprint(c: seq<Pos>) {
    && |c| == 4
    && c[0] != c[1] && c[0] != c[2] && c[0] != c[3]
    && c[1] != c[2] && c[1] != c[3] && c[2] != c[3]
    && Near(c[0]) && Near(c[1]) && Near(c[2]) && Near(c[3])
  }

  /** Number of orientations of a shape: one for O, four for the rest. */
  function RotationCount(s: Shape): nat {
    if s == O then 1 else 4
  }

  /** Orientation k of a shape: entry k of Swift `getAllBlocks`. */
  function Orientation(s: Shape, k: int): (r: seq<Pos>)
    requires 0 <= k < RotationCount(s)
    ensures Footprint(r)
  {
    match s
    case I =>
      if k == 0 then [Pos(0, -1), Pos(0, 0), Pos(0, 1), Pos(0, 2)]
      else if k == 1 then [Pos(-1, 1), Pos(0, 1), Pos(1, 1), Pos(-2, 1)]
      else if k == 2 then [Pos(-1, -1), Pos(-1, 0), Pos(-1, 1), Pos(-1, 2)]
      else [Pos(-1, 0), Pos(0, 0), Pos(1, 0), Pos(-2, 0)]
    case O =>
      [Pos(0, 0), Pos(0, 1), Pos(1, 1), Pos(1, 0)]
    case T =>
      if k == 0 then [Pos(0, -1), Pos(0, 0), Pos(0, 1), Pos(1, 0)]
      else if k == 1 then [Pos(-1, 0), Pos(0, 0), Pos(0, 1), Pos(1, 0)]
      else if k == 2 then [Pos(0, -1), Pos(0, 0), Pos(0, 1), Pos(-1, 0)]
      else [Pos(0, -1), Pos(0, 0), Pos(1, 0), Pos(-1, 0)]
    case J =>
      if k == 0 then [Pos(1, -1), Pos(0, -1), Pos(0, 0), Pos(0, 1)]
      else if k == 1 then [Pos(1, 0), Pos(0, 0), Pos(-1, 0), Pos(1, 1)]
      else if k == 2 then [Pos(-1, 1), Pos(0, -1), Pos(0, 0), Pos(0, 1)]
      else [Pos(1, 0), Pos(0, 0), Pos(-1, 0), Pos(-1, -1)]
    case L =>
      if k == 0 then [Pos(0, -1), Pos(0, 0), Pos(0, 1), Pos(1, 1)]
      else if k == 1 then [Pos(1, 0), Pos(0, 0), Pos(-1, 0), Pos(-1, 1)]
      else if k == 2 then [Pos(0, -1), Pos(0, 0), Pos(0, 1), Pos(-1, -1)]
      else [Pos(1, 0), Pos(0, 0), Pos(-1, 0), Pos(1, -1)]
    case S =>
      if k == 0 then [Pos(0, -1), Pos(0, 0), Pos(1, 0), Pos(1, 1)]
      else if k == 1 then [Pos(1, 0), Pos(0, 0), Pos(0, 1), Pos(-1, 1)]
      else if k == 2 then [Pos(0, 1), Pos(0, 0), Pos(-1, 0), Pos(-1, -1)]
      else [Pos(1, -1), Pos(0, -1), Pos(0, 0), Pos(-1, 0)]
    case Z =>
      if k == 0 then [Pos(1, -1), Pos(1, 0), Pos(0, 0), Pos(0, 1)]
      else if k == 1 then [Pos(1, 1), Pos(0, 1), Pos(0, 0), Pos(-1, 0)]
      else if k == 2 then [Pos(0, -1), Pos(0, 0), Pos(-1, 0), Pos(-1, 1)]
      else [Pos(1, 0), Pos(0, 0), Pos(0, -1), Pos(-1, -1)]
  }

  /** The orientation table of a shape (Swift `getAllBlocks`): O has one
      orientation, every other shape four, each a four-cell footprint. */
  function AllBlocks(s: Shape): (r: seq<seq<Pos>>)
    ensures |r| == RotationCount(s)
    ensures forall k | 0 <= k < |r| :: Footprint(r[k])
  {
    seq(RotationCount(s), k requires 0 <= k < RotationCount(s) => Orientation(s, k))
  }

  /** The clockwise kick candidates out of orientation k: entry k of Swift
      `getAllWallKicks`. I has its own table; J, L, S, Z and T share one. */
  function Kicks(s: Shape, k: int): (r: seq<Pos>)
    requires 0 <= k < RotationCount(s)
    ensures |r| == (if s == O then 1 else 5) && r[0] == Pos(0, 0)
  {
    match s
    case O =>
      [Pos(0, 0)]
    case I =>
      if k == 0 then [Pos(0, 0), Pos(0, -2), Pos(0, 1), Pos(-1, -2), Pos(2, -1)]
      else if k == 1 then [Pos(0, 0), Pos(0, -1), Pos(0, 2), Pos(2, -1), Pos(-1, 2)]
      else if k == 2 then [Pos(0, 0), Pos(0, 2), Pos(0, -1), Pos(1, 2), Pos(-2, -1)]
      else [Pos(0, 0), Pos(0, 1), Pos(0, -2), Pos(-2, 1), Pos(1, -2)]
    case J | L | S | Z | T =>
      if k == 0 then [Pos(0, 0), Pos(0, -1), Pos(1, -1), Pos(0, -2), Pos(-2, -1)]
      else if k == 1 then [Pos(0, 0), Pos(0, 1), Pos(-1, 1), Pos(2, 0), Pos(1, 2)]
      else if k == 2 then [Pos(0, 0), Pos(0, 1), Pos(1, 1), Pos(-2, 0), Pos(-2, 1)]
      else [Pos(0, 0), Pos(0, -1), Pos(-1, -1), Pos(2, 0), Pos(2, -1)]
  }

  /** The kick table of a shape (Swift `getAllWallKicks`): one list per
      orientation, each starting with the zero kick. */
  function AllWallKicks(s: Shape): (r: seq<seq<Pos>>)
    ensures |r| == RotationCount(s)
    ensures forall k | 0 <= k < |r| :: |r[k]| >= 1 && r[k][0] == Pos(0, 0)
  {
    seq(RotationCount(s), k requires 0 <= k < RotationCount(s) => Kicks(s, k))
  }

  /** Swift's `%` on Int: the remainder truncated towards zero, so it takes the
      sign of the dividend (-1 % 4 == -1), unlike Dafny's Euclidean `%`. */
  function SwiftRem(a: int, n: int): (r: int)
    requires n > 0
    ensures -n < r < n
    ensures a >= 0 ==> r >= 0
    ensures a < 0 ==> r <= 0
  {
    if a >= 0 then a % n else -((-a) % n)
  }

  lemma MulAtLeast(d: int, n: int)
    requires d >= 1 && n > 0
    ensures d * n >= n
  {
  }

  lemma MulDistributes(x: int, y: int, n: int)
    ensures (x - y) * n == x * n - y * n
  {
  }

  /** Euclidean division determines the remainder uniquely. */
  lemma ModUnique(a: int, n: int, k: int, m: int)
    requires n > 0 && 0 <= m < n && a == k * n + m
    ensures a % n == m
  {
    var q := a / n;
    assert q * n + a % n == k * n + m;
    MulDistributes(q, k, n);
    MulDistributes(k, q, n);
    if q - k >= 1 {
      MulAtLeast(q - k, n);
    } else if k - q >= 1 {
      MulAtLeast(k - q, n);
    }
  }

  /** The orientation index picked for an arbitrary rotation count: Swift's
      truncated remainder, lifted by `count` when negative. It agrees with the
      Euclidean remainder, so it is always a valid index. */
  function RotationIndex(rotation: int, count: int): (r: int)
    requires count > 0
    ensures 0 <= r < count
    ensures r == rotation % count
  {
    var index := SwiftRem(rotation, count);
    if index < 0 then
      var q := (-rotation) / count;
      assert -rotation == q * count - index;
      ModUnique(rotation, count, -q - 1, index + count);
      index + count
    else if rotation < 0 then
      var q := (-rotation) / count;
      ModUnique(rotation, count, -q, 0);
      index
    else index
  }

  /** The offsets of a shape in a given rotation (Swift `getBlocks`). */
  function GetBlocks(s: Shape, rotation: int): (r: seq<Pos>)
    ensures Footprint(r)
    ensures r == AllBlocks(s)[rotation % RotationCount(s)]
  {
    Orientation(s, RotationIndex(rotation, RotationCount(s)))
  }

  /** Component-wise negation of a kick list (the loop building `counterKicks`). */
  function NegateAll(kicks: seq<Pos>): (r: seq<Pos>)
    ensures |r| == |kicks|
    ensures forall i | 0 <= i < |r| :: r[i].row == -kicks[i].row && r[i].column == -kicks[i].column
  {
    if |kicks| == 0 then [] else [Pos(-kicks[0].row, -kicks[0].column)] + NegateAll(kicks[1..])
  }

  /** The kick candidates for rotating a shape out of a given rotation: the
      clockwise list as tabled, or its negation for a counter-clockwise turn. */
  function GetWallKicks(s: Shape, rotation: int, clockwise: bool): (r: seq<Pos>)
    ensures |r| == (if s == O then 1 else 5) && r[0] == Pos(0, 0)
    ensures clockwise ==> r == AllWallKicks(s)[rotation % RotationCount(s)]
  {
    var kicks := Kicks(s, RotationIndex(rotation, RotationCount(s)));
    if clockwise then kicks else NegateAll(kicks)
  }

  /** Rotations that differ by the orientation count select the same offsets;
      in particular rotation -1 selects the last orientation. */
  lemma GetBlocksPeriodic(s: Shape, rotation: int)
    ensures GetBlocks(s, rotation + RotationCount(s)) == GetBlocks(s, rotation)
    ensures GetBlocks(s, -1) == GetBlocks(s, RotationCount(s) - 1)
  {
    RotationIndexPeriodic(rotation, RotationCount(s));
  }

  /** Adding the count does not change the orientation index, and -1 maps to
      the last index. */
  lemma RotationIndexPeriodic(rotation: int, count: int)
    requires count > 0
    ensures RotationIndex(rotation + count, count) == RotationIndex(rotation, count)
    ensures RotationIndex(-1, count) == count - 1
  {
    var q := rotation / count;
    ModUnique(rotation + count, count, q + 1, rotation % count);
    ModUnique(-1, count, -1, count - 1);
  }

  /** The orientations of a shape are pairwise different, so a piece's offsets
      determine its orientation index. */
  lemma OrientationsDiffer(s: Shape, k1: int, k2: int)
    requires 0 <= k1 < RotationCount(s) && 0 <= k2 < RotationCount(s)
    ensures Orientation(s, k1) == Orientation(s, k2) ==> k1 == k2
  {
  }

  /** Counter-clockwise kicks are exactly the clockwise kicks negated, in the same order. */
  lemma CounterKicksNegateClockwise(s: Shape, rotation: int)
    ensures var cw := GetWallKicks(s, rotation, true);
            var ccw := GetWallKicks(s, rotation, false);
            |ccw| == |cw| &&
            forall i | 0 <= i < |cw| :: ccw[i] == Pos(-cw[i].row, -cw[i].column)
  {
  }

  /** The I tetromino kicks differently from the other four-orientation shapes. */
  lemma IKicksDiffer(s: Shape, k: int)
    requires s != I && s != O && 0 <= k < 4
    ensures Kicks(I, k) != Kicks(s, k)
  {
    assert Kicks(I, k)[1] != Kicks(s, k)[1];
  }
}
