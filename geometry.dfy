// Pieces, squares and moves of the 8x8 Lines of Action board: the value
// types that Board and MachinePlayer are written against.

module Pieces {

  /** Option, standing in for a Java reference that may be null. */
  datatype Option<+T> = None | Some(value: T)

  /** Contents of a square, and the side to move (never EMP for the latter). */
  datatype Piece = WP | BP | EMP

  /** The other side; EMP is its own opposite. */
  function Opposite(p: Piece): (q: Piece)
    ensures p == WP ==> q == BP
    ensures p == BP ==> q == WP
    ensures p == EMP ==> q == EMP
  {
    match p
    case WP => BP
    case BP => WP
    case EMP => EMP
  }
}

module Squares {
  import opened Pieces

  const BOARD_SIZE: int := 8

  /** True iff (col, row) names a square of the board. */
  predicate Exists(col: int, row: int) {
    0 <= col < BOARD_SIZE && 0 <= row < BOARD_SIZE
  }

  datatype Coord = Coord(col: int, row: int)

  /** A square: a pair of coordinates on the board. */
  type Square = c: Coord | Exists(c.col, c.row) witness Coord(0, 0)

  /** Position of a square in the 64-cell board array. */
  function Index(sq: Square): (k: int)
    ensures 0 <= k < 64
  {
    sq.row * BOARD_SIZE + sq.col
  }

  /** The square stored at board position k. */
  function SquareAt(k: int): (sq: Square)
    requires 0 <= k < 64
    ensures Index(sq) == k
  {
    Coord(k % BOARD_SIZE, k / BOARD_SIZE)
  }

  lemma SquareAtIndex(sq: Square)
    ensures SquareAt(Index(sq)) == sq
  {
  }

  lemma IndexInjective(a: Square, b: Square)
    ensures Index(a) == Index(b) ==> a == b
  {
    SquareAtIndex(a);
    SquareAtIndex(b);
  }

  function Abs(x: int): nat { if x < 0 then -x else x }

  function Sign(x: int): int { if x > 0 then 1 else if x < 0 then -1 else 0 }

  function Max(a: int, b: int): int { if a >= b then a else b }

  /** A unit step in one of the eight compass directions. */
  datatype Dir = Dir(dc: int, dr: int)

  predicate IsCompass(d: Dir) {
    -1 <= d.dc <= 1 && -1 <= d.dr <= 1 && (d.dc != 0 || d.dr != 0)
  }

  function Reverse(d: Dir): Dir { Dir(-d.dc, -d.dr) }

  /** k times the unit u (u in {-1, 0, 1}), written without multiplication. */
  function Scale(k: int, u: int): int { if u > 0 then k else if u < 0 then -k else 0 }

  /** The coordinates reached from sq after k steps in direction d. */
  function Offset(sq: Coord, d: Dir, k: int): Coord {
    Coord(sq.col + Scale(k, d.dc), sq.row + Scale(k, d.dr))
  }

  /** The square k steps from sq in direction d, or None when that is off the board. */
  function MoveDest(sq: Square, d: Dir, k: int): (r: Option<Square>)
    ensures r.Some? <==> Exists(Offset(sq, d, k).col, Offset(sq, d, k).row)
    ensures r.Some? ==> r.value == Offset(sq, d, k)
  {
    var c := Offset(sq, d, k);
    if Exists(c.col, c.row) then Some(c) else None
  }

  /** Chebyshev distance. */
  function Distance(from: Square, to: Square): (n: nat)
    ensures n <= 7
    ensures n == 0 <==> from == to
  {
    Max(Abs(to.col - from.col), Abs(to.row - from.row))
  }

  /** True iff from and to lie on one row, column or diagonal. */
  predicate Aligned(from: Square, to: Square) {
    var dc, dr := to.col - from.col, to.row - from.row;
    dc == 0 || dr == 0 || Abs(dc) == Abs(dr)
  }

  /** The compass direction from `from` towards `to`, or None when the two
   *  squares are equal or not on a common line. */
  function Direction(from: Square, to: Square): (d: Option<Dir>)
    ensures d.Some? <==> from != to && Aligned(from, to)
    ensures d.Some? ==> IsCompass(d.value)
  {
    if from == to || !Aligned(from, to) then None
    else Some(Dir(Sign(to.col - from.col), Sign(to.row - from.row)))
  }

  /** Distance(from, to) steps along Direction(from, to) lead from `from` to `to`. */
  lemma DirectionReaches(from: Square, to: Square)
    requires Direction(from, to).Some?
    ensures Offset(from, Direction(from, to).value, Distance(from, to)) == to
  {
  }

  /** The direction back from `to` to `from` is the reverse one. */
  lemma DirectionReverse(from: Square, to: Square)
    requires Direction(from, to).Some?
    ensures Direction(to, from) == Some(Reverse(Direction(from, to).value))
    ensures Distance(to, from) == Distance(from, to)
  {
  }

  /** A geometrically possible move: a straight line of length 1..7. */
  predicate IsValidMove(from: Square, to: Square) {
    Direction(from, to).Some?
  }

  lemma ValidMoveDistance(from: Square, to: Square)
    requires IsValidMove(from, to)
    ensures 1 <= Distance(from, to) <= 7
  {
  }

  /** Offsets along one line compose. */
  lemma OffsetStep(sq: Coord, d: Dir, k: int)
    requires IsCompass(d)
    ensures Offset(Offset(sq, d, k), d, 1) == Offset(sq, d, k + 1)
  {
  }

  /** Squares that share a side or a corner. */
  predicate Touching(a: Square, b: Square) {
    a != b && Abs(a.col - b.col) <= 1 && Abs(a.row - b.row) <= 1
  }

  /** The eight compass directions, north first and clockwise. */
  const Compass: seq<Dir> :=
    [Dir(0, 1), Dir(1, 1), Dir(1, 0), Dir(1, -1), Dir(0, -1), Dir(-1, -1), Dir(-1, 0), Dir(-1, 1)]

  function AdjacentFrom(sq: Square, i: nat): seq<Square>
    requires i <= |Compass|
    decreases |Compass| - i
  {
    if i == |Compass| then []
    else match MoveDest(sq, Compass[i], 1)
      case Some(s) => [s] + AdjacentFrom(sq, i + 1)
      case None => AdjacentFrom(sq, i + 1)
  }

  /** Position in Compass of the unit step (dc, dr). */
  function CompassIndex(dc: int, dr: int): (i: nat)
    requires IsCompass(Dir(dc, dr))
    ensures i < |Compass| && Compass[i] == Dir(dc, dr)
  {
    if dc == 0 && dr == 1 then 0
    else if dc == 1 && dr == 1 then 1
    else if dc == 1 && dr == 0 then 2
    else if dc == 1 && dr == -1 then 3
    else if dc == 0 && dr == -1 then 4
    else if dc == -1 && dr == -1 then 5
    else if dc == -1 && dr == 0 then 6
    else 7
  }

  /** The squares touching sq, as its neighbour list. */
  function Adjacent(sq: Square): (r: seq<Square>)
    ensures forall s :: s in r <==> Touching(sq, s)
  {
    forall s ensures s in AdjacentFrom(sq, 0) <==> Touching(sq, s) {
      AdjacentIff(sq, s);
    }
    AdjacentFrom(sq, 0)
  }

  lemma AdjacentIff(sq: Square, s: Square)
    ensures s in AdjacentFrom(sq, 0) <==> Touching(sq, s)
  {
    if Touching(sq, s) {
      var i := CompassIndex(s.col - sq.col, s.row - sq.row);
      assert Offset(sq, Compass[i], 1) == s;
      AdjacentHas(sq, 0, i);
    } else {
      AdjacentOnly(sq, 0, s);
    }
  }

  lemma AdjacentHas(sq: Square, i: nat, j: nat)
    requires i <= j < |Compass| && MoveDest(sq, Compass[j], 1).Some?
    ensures MoveDest(sq, Compass[j], 1).value in AdjacentFrom(sq, i)
    decreases j - i
  {
    if i < j {
      AdjacentHas(sq, i + 1, j);
    }
  }

  lemma AdjacentOnly(sq: Square, i: nat, s: Square)
    requires i <= |Compass| && !Touching(sq, s)
    ensures s !in AdjacentFrom(sq, i)
    decreases |Compass| - i
  {
    if i < |Compass| {
      AdjacentOnly(sq, i + 1, s);
    }
  }
}

module Moves {
  import opened Pieces
  import opened Squares

  /** A move from one square to another, flagged when it captures. */
  datatype Move = Move(from: Square, to: Square, isCapture: bool)

  /** The same move, flagged as a capture. */
  function CaptureMove(m: Move): (r: Move)
    ensures r.from == m.from && r.to == m.to && r.isCapture
  {
    m.(isCapture := true)
  }

  /** Entry [i][j][0] of the move table: the non-capturing move from the
   *  square at index i to the square at index j, when that is a straight
   *  line, and None (null) otherwise. */
  function MoveTable(i: int, j: int): (r: Option<Move>)
    requires 0 <= i < 64 && 0 <= j < 64
    ensures r.Some? <==> IsValidMove(SquareAt(i), SquareAt(j))
    ensures r.Some? ==> r.value == Move(SquareAt(i), SquareAt(j), false)
  {
    if IsValidMove(SquareAt(i), SquareAt(j)) then Some(Move(SquareAt(i), SquareAt(j), false)) else None
  }
}
