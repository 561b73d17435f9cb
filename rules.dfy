// The Board of Lines of Action as a value: its fields, and what each of
// Board's operations does to them.  The Board class in board.dfy is proved
// to change its fields exactly as these functions say; the properties of the
// game rules are proved here, once, about the functions.

module Rules {
  import opened Pieces
  import opened Squares
  import opened Moves
  import opened Regions

  /** DEFAULT_MOVE_LIMIT, stored as it is by initialize (see README). */
  const DEFAULT_MOVE_LIMIT: int := 60

  /** Every field of a Board: the 64 cells, the side on move, the unretracted
   *  moves, the move limit, the cached winner (winner None is Java's null)
   *  and the cached region sizes with the flag saying they were computed. */
  datatype BoardState = BoardState(
    cells: seq<Piece>,
    turn: Piece,
    moves: seq<Move>,
    moveLimit: int,
    winnerKnown: bool,
    winner: Option<Piece>,
    subsetsInitialized: bool,
    whiteSizes: seq<int>,
    blackSizes: seq<int>)

  /** Invariants every reachable Board keeps. */
  predicate WellFormed(s: BoardState) {
    |s.cells| == 64 && s.turn != EMP && (s.winnerKnown <==> s.winner.Some?)
  }

  /** The region cache, when marked as computed, holds the sizes of the current cells. */
  ghost predicate RegionsFresh(s: BoardState)
    requires |s.cells| == 64
  {
    s.subsetsInitialized ==>
      s.whiteSizes == RegionSizes(s.cells, WP) && s.blackSizes == RegionSizes(s.cells, BP)
  }

  function PieceAt(s: BoardState, sq: Square): Piece
    requires |s.cells| == 64
  {
    s.cells[Index(sq)]
  }

  function MovesMade(s: BoardState): nat {
    |s.moves|
  }

  // ---------------------------------------------------------------- legality

  /** The square i steps from `from` along d holds the opponent of turn. */
  predicate OpponentAt(cells: seq<Piece>, turn: Piece, from: Square, d: Dir, i: int)
    requires |cells| == 64
  {
    var c := Offset(from, d, i);
    Exists(c.col, c.row) && cells[Index(c)] == Opposite(turn)
  }

  /** Some square strictly between from and to holds an opposing piece. */
  predicate Blocked(cells: seq<Piece>, turn: Piece, from: Square, to: Square)
    requires |cells| == 64 && IsValidMove(from, to)
  {
    var d := Direction(from, to).value;
    exists i :: 0 < i < Distance(from, to) && OpponentAt(cells, turn, from, d, i)
  }

  /** The square at c is on the board and holds a piece. */
  predicate Occupied(cells: seq<Piece>, c: Coord)
    requires |cells| == 64
  {
    Exists(c.col, c.row) && cells[Index(c)] != EMP
  }

  /** Number of occupied squares among the first k steps from sq along d. */
  function RayPieces(cells: seq<Piece>, sq: Square, d: Dir, k: nat): nat
    requires |cells| == 64
    decreases |cells| + k
  {
    if k == 0 then 0
    else RayPieces(cells, sq, d, k - 1) + (if Occupied(cells, Offset(sq, d, k)) then 1 else 0)
  }

  /** Once a ray has left the board it stays off it, and no ray from a
   *  square stays on the board for eight steps. */
  lemma OffBoardStays(sq: Square, d: Dir, k: int, j: int)
    requires IsCompass(d) && 0 <= k <= j
    ensures !Exists(Offset(sq, d, k).col, Offset(sq, d, k).row) ==> !Exists(Offset(sq, d, j).col, Offset(sq, d, j).row)
    ensures j >= 8 ==> !Exists(Offset(sq, d, j).col, Offset(sq, d, j).row)
  {
  }

  /** Steps past the first off-board one add nothing to a ray's count. */
  lemma {:induction false} RayStable(cells: seq<Piece>, sq: Square, d: Dir, k: nat, n: nat)
    requires |cells| == 64 && IsCompass(d) && 1 <= k <= n
    requires !Exists(Offset(sq, d, k).col, Offset(sq, d, k).row)
    ensures RayPieces(cells, sq, d, n) == RayPieces(cells, sq, d, k - 1)
    decreases n
  {
    OffBoardStays(sq, d, k, n);
    if n > k {
      RayStable(cells, sq, d, k, n - 1);
    }
  }

  /** Steps from any square to past the board's edge, less one. */
  const RAY_STEPS: nat := BOARD_SIZE - 1

  /** Pieces on the whole line of action through `from` (towards and away
   *  from `to`, to both edges), counting `from` itself. */
  function LinePieces(cells: seq<Piece>, from: Square, to: Square): int
    requires |cells| == 64 && IsValidMove(from, to)
  {
    var d := Direction(from, to).value;
    1 + RayPieces(cells, from, Reverse(d), RAY_STEPS) + RayPieces(cells, from, d, RAY_STEPS)
  }

  /** isLegal(from, to): the rules of a Lines of Action move. */
  predicate Legal(s: BoardState, from: Square, to: Square)
    requires WellFormed(s)
  {
    && Exists(from.col, from.row) && Exists(to.col, to.row)
    && PieceAt(s, from) == s.turn
    && PieceAt(s, to) != s.turn
    && IsValidMove(from, to)
    && !Blocked(s.cells, s.turn, from, to)
    && LinePieces(s.cells, from, to) == Distance(from, to)
  }

  /** isLegal(move): a move flagged as a capture must land on an opposing piece. */
  predicate LegalMove(s: BoardState, m: Move)
    requires WellFormed(s)
  {
    (m.isCapture ==> PieceAt(s, m.to) == Opposite(s.turn)) && Legal(s, m.from, m.to)
  }

  /** Entry [i][j][0] of the move table, kept when it is a legal move of s. */
  function EntryIf(s: BoardState, i: int, j: int): seq<Move>
    requires WellFormed(s) && 0 <= i < 64 && 0 <= j < 64
  {
    match MoveTable(i, j)
    case Some(m) => if LegalMove(s, m) then [m] else []
    case None => []
  }

  /** Entries [i][0] .. [i][j-1] that are legal moves of s, in order. */
  function RowIf(s: BoardState, i: int, j: int): seq<Move>
    requires WellFormed(s) && 0 <= i < 64 && 0 <= j <= 64
    decreases |s.cells| + j
  {
    if j == 0 then [] else RowIf(s, i, j - 1) + EntryIf(s, i, j - 1)
  }

  /** Entries of rows 0 .. i-1 that are legal moves of s, row by row. */
  function RowsIf(s: BoardState, i: int): seq<Move>
    requires WellFormed(s) && 0 <= i <= 64
    decreases |s.cells| + i
  {
    if i == 0 then [] else RowsIf(s, i - 1) + RowIf(s, i - 1, 64)
  }

  /** legalMoves(). */
  function AllLegalMoves(s: BoardState): seq<Move>
    requires WellFormed(s)
  {
    RowsIf(s, 64)
  }

  /** The enumeration order: by origin index, then by destination index. */
  predicate Precedes(a: Move, b: Move) {
    Index(a.from) < Index(b.from) || (Index(a.from) == Index(b.from) && Index(a.to) < Index(b.to))
  }

  predicate InOrder(ms: seq<Move>) {
    forall a, b :: 0 <= a < b < |ms| ==> Precedes(ms[a], ms[b])
  }

  /** The moves table entry [i][j][0] stands for. */
  lemma EntryIfExact(s: BoardState, i: int, j: int)
    requires WellFormed(s) && 0 <= i < 64 && 0 <= j < 64
    ensures |EntryIf(s, i, j)| <= 1
    ensures forall m :: m in EntryIf(s, i, j) <==>
      !m.isCapture && IsValidMove(m.from, m.to) && LegalMove(s, m) && Index(m.from) == i && Index(m.to) == j
  {
    forall m ensures m in EntryIf(s, i, j) <==>
      !m.isCapture && IsValidMove(m.from, m.to) && LegalMove(s, m) && Index(m.from) == i && Index(m.to) == j
    {
      SquareAtIndex(m.from);
      SquareAtIndex(m.to);
    }
  }

  lemma {:induction false} RowIfExact(s: BoardState, i: int, j: int)
    requires WellFormed(s) && 0 <= i < 64 && 0 <= j <= 64
    ensures forall m :: m in RowIf(s, i, j) <==>
      !m.isCapture && IsValidMove(m.from, m.to) && LegalMove(s, m) && Index(m.from) == i && Index(m.to) < j
    ensures InOrder(RowIf(s, i, j))
    decreases j
  {
    if j > 0 {
      RowIfExact(s, i, j - 1);
      EntryIfExact(s, i, j - 1);
      var prev, e := RowIf(s, i, j - 1), EntryIf(s, i, j - 1);
      forall a, b | 0 <= a < b < |prev + e| ensures Precedes((prev + e)[a], (prev + e)[b]) {
        if b >= |prev| {
          assert (prev + e)[a] in prev && (prev + e)[b] in e;
        }
      }
    }
  }

  /** The first i rows hold exactly the non-capturing moves from the first i
   *  squares that are legal in s. */
  lemma {:induction false} RowsIfExact(s: BoardState, i: int)
    requires WellFormed(s) && 0 <= i <= 64
    ensures forall m :: m in RowsIf(s, i) <==> !m.isCapture && IsValidMove(m.from, m.to) && LegalMove(s, m) && Index(m.from) < i
    decreases i
  {
    if i > 0 {
      RowsIfExact(s, i - 1);
      RowIfExact(s, i - 1, 64);
    }
  }

  /** The first i rows list their moves in enumeration order. */
  lemma {:induction false} RowsIfInOrder(s: BoardState, i: int)
    requires WellFormed(s) && 0 <= i <= 64
    ensures InOrder(RowsIf(s, i))
    decreases i
  {
    if i > 0 {
      RowsIfInOrder(s, i - 1);
      RowsIfExact(s, i - 1);
      RowIfExact(s, i - 1, 64);
      var prev, e := RowsIf(s, i - 1), RowIf(s, i - 1, 64);
      forall a, b | 0 <= a < b < |prev + e| ensures Precedes((prev + e)[a], (prev + e)[b]) {
        if b >= |prev| {
          if a >= |prev| {
            assert (prev + e)[a] == e[a - |prev|] && (prev + e)[b] == e[b - |prev|];
          } else {
            assert (prev + e)[a] in prev && (prev + e)[b] in e;
          }
        }
      }
    }
  }

  /** One more entry of row i, on top of the rows before it. */
  lemma RowIfStep(s: BoardState, i: int, j: int)
    requires WellFormed(s) && 0 <= i < 64 && 0 <= j < 64
    ensures RowsIf(s, i) + RowIf(s, i, j + 1) == (RowsIf(s, i) + RowIf(s, i, j)) + EntryIf(s, i, j)
  {
  }

  /** legalMoves() holds every legal non-capturing move and no other move. */
  lemma LegalMovesExact(s: BoardState)
    requires WellFormed(s)
    ensures forall m :: m in AllLegalMoves(s) <==> !m.isCapture && LegalMove(s, m)
  {
    RowsIfExact(s, 64);
  }

  /** legalMoves() lists each move once, ordered by origin square and then
   *  destination square. */
  lemma LegalMovesInOrder(s: BoardState)
    requires WellFormed(s)
    ensures InOrder(AllLegalMoves(s))
  {
    RowsIfInOrder(s, 64);
  }

  // ---------------------------------------------------------------- regions and winner

  /** computeRegions(): recompute the region cache unless it is marked computed. */
  ghost function WithRegions(s: BoardState): (r: BoardState)
    requires WellFormed(s)
    ensures WellFormed(r) && r.subsetsInitialized
    ensures r.cells == s.cells && r.turn == s.turn && r.moves == s.moves && r.moveLimit == s.moveLimit
    ensures r.winnerKnown == s.winnerKnown && r.winner == s.winner
    ensures !s.subsetsInitialized ==> RegionsFresh(r)
    ensures RegionsFresh(s) ==> RegionsFresh(r)
    ensures s.subsetsInitialized ==> r == s
  {
    if s.subsetsInitialized then s
    else s.(subsetsInitialized := true,
            whiteSizes := RegionSizes(s.cells, WP),
            blackSizes := RegionSizes(s.cells, BP))
  }

  /** The cached list for side (getRegionSizes answers WP's for WP, BP's otherwise). */
  function SizesFor(s: BoardState, side: Piece): seq<int> {
    if side == WP then s.whiteSizes else s.blackSizes
  }

  /** The winner cache set to side. */
  function Decided(s: BoardState, side: Piece): BoardState {
    s.(winnerKnown := true, winner := Some(side))
  }

  /** winner(): the cached winner, or, when not known, the move-limit tie
   *  overwritten by a white win, overwritten by a black win. */
  ghost function WinnerOf(s: BoardState): (r: (Option<Piece>, BoardState))
    requires WellFormed(s)
    ensures WellFormed(r.1) && r.0 == r.1.winner
    ensures !s.winnerKnown ==> r.1.subsetsInitialized
    ensures r.1.cells == s.cells && r.1.turn == s.turn && r.1.moves == s.moves
    ensures r.1.moveLimit == s.moveLimit
    ensures RegionsFresh(s) ==> RegionsFresh(r.1)
    ensures s.winnerKnown ==> r == (s.winner, s)
  {
    if s.winnerKnown then (s.winner, s)
    else
      var s1 := if MovesMade(s) >= s.moveLimit then Decided(s, EMP) else s;
      var s2 := WithRegions(s1);
      var s3 := if |s2.whiteSizes| == 1 then Decided(s2, WP) else s2;
      var s4 := WithRegions(s3);
      var s5 := if |s4.blackSizes| == 1 then Decided(s4, BP) else s4;
      (s5.winner, s5)
  }

  /** The precedence of winner(), stated as first match wins: black
   *  contiguity, then white contiguity, then the move limit. */
  ghost function Outcome(cells: seq<Piece>, movesMade: int, moveLimit: int): Option<Piece>
    requires |cells| == 64
  {
    if |RegionSizes(cells, BP)| == 1 then Some(BP)
    else if |RegionSizes(cells, WP)| == 1 then Some(WP)
    else if movesMade >= moveLimit then Some(EMP)
    else None
  }

  /** With a fresh region cache and no cached winner, winner() follows
   *  Outcome; asking again gives the same answer and changes nothing. */
  lemma WinnerRule(s: BoardState)
    requires WellFormed(s) && RegionsFresh(s) && !s.winnerKnown
    ensures WinnerOf(s).0 == Outcome(s.cells, MovesMade(s), s.moveLimit)
    ensures WinnerOf(WinnerOf(s).1) == WinnerOf(s)
    ensures WinnerOf(s).0 == None ==> !WinnerOf(s).1.winnerKnown
  {
  }

  /** gameOver(). */
  ghost predicate GameOver(s: BoardState)
    requires WellFormed(s)
  {
    WinnerOf(s).0.Some?
  }

  // ---------------------------------------------------------------- moves

  /** m moves one of the mover's pieces to a different square that the
   *  mover does not occupy, flagged as a capture only onto an opposing
   *  piece: all that makeMove's effect depends on. */
  predicate Movable(s: BoardState, m: Move)
    requires WellFormed(s)
  {
    && m.from != m.to
    && PieceAt(s, m.from) == s.turn
    && PieceAt(s, m.to) != s.turn
    && (m.isCapture ==> PieceAt(s, m.to) == Opposite(s.turn))
  }

  lemma LegalIsMovable(s: BoardState, m: Move)
    requires WellFormed(s) && LegalMove(s, m)
    ensures Movable(s, m)
  {
  }

  /** The cells after the piece on `from` moves to `to`. */
  function MovedCells(cells: seq<Piece>, from: Square, to: Square): (r: seq<Piece>)
    requires |cells| == 64 && from != to
    ensures |r| == 64 && r[Index(to)] == cells[Index(from)] && r[Index(from)] == EMP
    ensures forall k :: 0 <= k < 64 && k != Index(from) && k != Index(to) ==> r[k] == cells[k]
  {
    IndexInjective(from, to);
    cells[Index(to) := cells[Index(from)]][Index(from) := EMP]
  }

  /** makeMove(m), for a legal m. */
  ghost function Played(s: BoardState, m: Move): (r: BoardState)
    requires WellFormed(s) && Movable(s, m)
    ensures WellFormed(r) && RegionsFresh(r) && r.subsetsInitialized
    ensures r.cells == MovedCells(s.cells, m.from, m.to)
    ensures PieceAt(r, m.to) == s.turn && PieceAt(r, m.from) == EMP
    ensures forall k :: 0 <= k < 64 && k != Index(m.from) && k != Index(m.to) ==> r.cells[k] == s.cells[k]
    ensures r.turn == Opposite(s.turn)
    ensures MovesMade(r) == MovesMade(s) + 1 && r.moves[..MovesMade(s)] == s.moves
    ensures r.moves[MovesMade(s)].from == m.from && r.moves[MovesMade(s)].to == m.to
    ensures r.moves[MovesMade(s)].isCapture <==> PieceAt(s, m.to) == Opposite(s.turn)
    ensures r.moveLimit == s.moveLimit
  {
    // both contiguity tests go through computeRegions(); the second finds it done
    Settled(WithRegions(Recorded(s, m)), s.turn).(turn := Opposite(s.turn))
  }

  /** The first half of makeMove: the move, flagged as a capture when it
   *  lands on an opposing piece, is recorded and the piece is moved; the
   *  region cache is marked stale. */
  function Recorded(s: BoardState, m: Move): (r: BoardState)
    requires WellFormed(s) && Movable(s, m)
    ensures WellFormed(r) && !r.subsetsInitialized
    ensures r.cells == MovedCells(s.cells, m.from, m.to)
    ensures r.turn == s.turn && r.moveLimit == s.moveLimit
    ensures r.winnerKnown == s.winnerKnown && r.winner == s.winner
    ensures MovesMade(r) == MovesMade(s) + 1 && r.moves[..MovesMade(s)] == s.moves
    ensures r.moves[MovesMade(s)].from == m.from && r.moves[MovesMade(s)].to == m.to
    ensures r.moves[MovesMade(s)].isCapture <==> PieceAt(s, m.to) == Opposite(s.turn)
  {
    var mv := if PieceAt(s, m.to) == Opposite(s.turn) then CaptureMove(m) else m;
    s.(moves := s.moves + [mv], cells := MovedCells(s.cells, m.from, m.to), subsetsInitialized := false)
  }

  /** The winner test of makeMove: the mover wins if its pieces are
   *  contiguous, else the opponent if theirs are. */
  function Settled(s: BoardState, mover: Piece): (r: BoardState)
    ensures r.cells == s.cells && r.turn == s.turn && r.moves == s.moves && r.moveLimit == s.moveLimit
    ensures r.subsetsInitialized == s.subsetsInitialized
    ensures r.whiteSizes == s.whiteSizes && r.blackSizes == s.blackSizes
    ensures WellFormed(s) ==> WellFormed(r)
    ensures r.winner == if |SizesFor(s, mover)| == 1 then Some(mover)
                        else if |SizesFor(s, Opposite(mover))| == 1 then Some(Opposite(mover))
                        else s.winner
  {
    if |SizesFor(s, mover)| == 1 then Decided(s, mover)
    else if |SizesFor(s, Opposite(mover))| == 1 then Decided(s, Opposite(mover))
    else s
  }

  /** After makeMove, the cached winner is the mover if its pieces are now
   *  contiguous, else the opponent if theirs are, else what it was. */
  lemma PlayedWinner(s: BoardState, m: Move)
    requires WellFormed(s) && Movable(s, m)
    ensures var r := Played(s, m);
      r.winner ==
        if |RegionSizes(r.cells, s.turn)| == 1 then Some(s.turn)
        else if |RegionSizes(r.cells, Opposite(s.turn))| == 1 then Some(Opposite(s.turn))
        else s.winner
  {
    var r := Played(s, m);
    assert SizesFor(r, s.turn) == RegionSizes(r.cells, s.turn);
    assert SizesFor(r, Opposite(s.turn)) == RegionSizes(r.cells, Opposite(s.turn));
  }

  /** The cells after taking back the last move m: the piece goes back from
   *  m.to to m.from, and m.to gets the captured piece back or is emptied. */
  function UndoCells(cells: seq<Piece>, m: Move): seq<Piece>
    requires |cells| == 64
  {
    var c1 := cells[Index(m.from) := cells[Index(m.to)]];
    if m.isCapture then c1[Index(m.to) := Opposite(c1[Index(m.from)])]
    else c1[Index(m.to) := EMP]
  }

  /** retract(), corrected (see README, Findings): the destination of a
   *  non-capturing move is emptied and the region cache is recomputed. */
  ghost function Retracted(s: BoardState): (r: BoardState)
    requires WellFormed(s) && MovesMade(s) > 0
    ensures WellFormed(r) && RegionsFresh(r) && r.subsetsInitialized && !r.winnerKnown
    ensures r.moves == s.moves[..MovesMade(s) - 1] && r.turn == Opposite(s.turn)
    ensures r.moveLimit == s.moveLimit
    ensures r.cells == UndoCells(s.cells, s.moves[MovesMade(s) - 1])
  {
    WithRegions(Unrecorded(s)).(turn := Opposite(s.turn), winnerKnown := false, winner := None)
  }

  /** The first half of the corrected retract(): the last move is dropped
   *  from the record and its cells are restored; the cache is marked stale. */
  function Unrecorded(s: BoardState): (r: BoardState)
    requires WellFormed(s) && MovesMade(s) > 0
    ensures WellFormed(r) && !r.subsetsInitialized
    ensures r.moves == s.moves[..MovesMade(s) - 1]
    ensures r.turn == s.turn && r.moveLimit == s.moveLimit
    ensures r.cells == UndoCells(s.cells, s.moves[MovesMade(s) - 1])
  {
    var m := s.moves[MovesMade(s) - 1];
    s.(moves := s.moves[..MovesMade(s) - 1], cells := UndoCells(s.cells, m), subsetsInitialized := false)
  }

  /** The cells after retract() as the source writes it: a non-capturing
   *  move leaves its piece on m.to as well. */
  function UndoCellsAsWritten(cells: seq<Piece>, m: Move): seq<Piece>
    requires |cells| == 64
  {
    var c1 := cells[Index(m.from) := cells[Index(m.to)]];
    if m.isCapture then c1[Index(m.to) := Opposite(c1[Index(m.from)])] else c1
  }

  /** retract() as written: computeRegions() finds the flag still set and keeps the old cache. */
  ghost function RetractedAsWritten(s: BoardState): (r: BoardState)
    requires WellFormed(s) && MovesMade(s) > 0
    ensures WellFormed(r) && !r.winnerKnown
    ensures r.cells == UndoCellsAsWritten(s.cells, s.moves[MovesMade(s) - 1])
    ensures s.subsetsInitialized ==> r.subsetsInitialized && r.whiteSizes == s.whiteSizes && r.blackSizes == s.blackSizes
  {
    var m := s.moves[MovesMade(s) - 1];
    var s1 := s.(moves := s.moves[..MovesMade(s) - 1], cells := UndoCellsAsWritten(s.cells, m));
    WithRegions(s1).(turn := Opposite(s.turn), winnerKnown := false, winner := None)
  }

  /** Undoing a move, with the capture flag set exactly when it took a
   *  piece, restores every cell. */
  lemma UndoMoved(cells: seq<Piece>, m: Move)
    requires |cells| == 64 && m.from != m.to
    requires cells[Index(m.from)] != EMP && cells[Index(m.to)] != cells[Index(m.from)]
    requires m.isCapture <==> cells[Index(m.to)] == Opposite(cells[Index(m.from)])
    ensures UndoCells(MovedCells(cells, m.from, m.to), m) == cells
  {
    var u := UndoCells(MovedCells(cells, m.from, m.to), m);
    IndexInjective(m.from, m.to);
    forall k | 0 <= k < 64 ensures u[k] == cells[k] { }
  }

  /** makeMove then (corrected) retract gives back the cells, the side to
   *  move, the history and the limit; a board whose caches are computed and
   *  current comes back exactly. */
  lemma MakeRetract(s: BoardState, m: Move)
    requires WellFormed(s) && Movable(s, m)
    ensures var r := Retracted(Played(s, m));
      r.cells == s.cells && r.turn == s.turn && r.moves == s.moves && r.moveLimit == s.moveLimit
    ensures RegionsFresh(s) && s.subsetsInitialized && !s.winnerKnown ==> Retracted(Played(s, m)) == s
  {
    var p := Played(s, m);
    var last := p.moves[MovesMade(s)];
    assert p.moves[MovesMade(p) - 1] == last;
    assert last == Move(m.from, m.to, last.isCapture);
    UndoMoved(s.cells, last);
  }

  /** Finding: retract() as written puts the mover's piece back on m.from but
   *  leaves it on m.to too, after any non-capturing move. */
  lemma RetractAsWrittenDuplicates(s: BoardState, m: Move)
    requires WellFormed(s) && Movable(s, m) && PieceAt(s, m.to) == EMP
    ensures var r := RetractedAsWritten(Played(s, m));
      PieceAt(r, m.from) == s.turn && PieceAt(r, m.to) == s.turn && r.cells != s.cells
  {
    var p := Played(s, m);
    var last := p.moves[MovesMade(s)];
    assert p.moves[MovesMade(p) - 1] == last;
    IndexInjective(m.from, m.to);
    var r := RetractedAsWritten(p);
    assert r.cells[Index(m.to)] != s.cells[Index(m.to)];
  }

  /** Moving a piece changes the piece sets only at the two squares involved. */
  lemma MovedSets(cells: seq<Piece>, from: Square, to: Square, p: Piece)
    requires |cells| == 64 && from != to
    ensures var r := MovedCells(cells, from, to);
      PieceSet(r, p) ==
        (PieceSet(cells, p) - {Index(from), Index(to)})
        + (if cells[Index(from)] == p then {Index(to)} else {})
        + (if p == EMP then {Index(from)} else {})
  {
  }

  /** Finding: after a capture is retracted as written, the region cache is
   *  still marked computed but describes the position before the retraction:
   *  its sizes for the captured side add up to one piece fewer than the board holds. */
  lemma RetractAsWrittenStale(s: BoardState, m: Move)
    requires WellFormed(s) && Movable(s, m) && PieceAt(s, m.to) == Opposite(s.turn)
    ensures var r := RetractedAsWritten(Played(s, m));
      r.cells == s.cells && r.subsetsInitialized && !RegionsFresh(r)
  {
    var p := Played(s, m);
    var last := p.moves[MovesMade(s)];
    assert p.moves[MovesMade(p) - 1] == last;
    assert last == Move(m.from, m.to, true);
    UndoMoved(s.cells, last);
    var r := RetractedAsWritten(p);
    assert r.cells == s.cells;
    MovedCounts(s.cells, m.from, m.to, s.turn);
    var o := Opposite(s.turn);
    assert Sum(SizesFor(r, o)) == PieceCount(p.cells, o);
    assert Sum(RegionSizes(r.cells, o)) == PieceCount(s.cells, o);
  }

  /** Moving a t piece keeps the count of t pieces and removes at most one opposing piece. */
  lemma MovedCounts(cells: seq<Piece>, from: Square, to: Square, t: Piece)
    requires |cells| == 64 && from != to && t != EMP
    requires cells[Index(from)] == t && cells[Index(to)] != t
    ensures PieceCount(MovedCells(cells, from, to), t) == PieceCount(cells, t)
    ensures var o := Opposite(t);
      PieceCount(MovedCells(cells, from, to), o) ==
        PieceCount(cells, o) - (if cells[Index(to)] == o then 1 else 0)
  {
    MoverCount(cells, from, to, t);
    OpponentCount(cells, from, to, t);
  }

  lemma MoverCount(cells: seq<Piece>, from: Square, to: Square, t: Piece)
    requires |cells| == 64 && from != to && t != EMP
    requires cells[Index(from)] == t && cells[Index(to)] != t
    ensures PieceCount(MovedCells(cells, from, to), t) == PieceCount(cells, t)
  {
    var A := PieceSet(cells, t);
    MovedSets(cells, from, to, t);
    assert PieceSet(MovedCells(cells, from, to), t) == A - {Index(from)} + {Index(to)};
  }

  lemma OpponentCount(cells: seq<Piece>, from: Square, to: Square, t: Piece)
    requires |cells| == 64 && from != to && t != EMP
    requires cells[Index(from)] == t && cells[Index(to)] != t
    ensures var o := Opposite(t);
      PieceCount(MovedCells(cells, from, to), o) ==
        PieceCount(cells, o) - (if cells[Index(to)] == o then 1 else 0)
  {
    var o := Opposite(t);
    var A := PieceSet(cells, o);
    MovedSets(cells, from, to, o);
    if cells[Index(to)] == o {
      assert PieceSet(MovedCells(cells, from, to), o) == A - {Index(to)};
    } else {
      assert PieceSet(MovedCells(cells, from, to), o) == A;
    }
  }

  lemma PlayedCounts(s: BoardState, m: Move)
    requires WellFormed(s) && Movable(s, m)
    ensures PieceCount(Played(s, m).cells, s.turn) == PieceCount(s.cells, s.turn)
    ensures PieceCount(Played(s, m).cells, Opposite(s.turn)) ==
      PieceCount(s.cells, Opposite(s.turn)) - (if PieceAt(s, m.to) == Opposite(s.turn) then 1 else 0)
  {
    MovedCounts(s.cells, m.from, m.to, s.turn);
  }

  // ---------------------------------------------------------------- initial position

  /** INITIAL_PIECES, bottom row first. */
  const INITIAL_PIECES: seq<seq<Piece>> := [
    [EMP, BP,  BP,  BP,  BP,  BP,  BP,  EMP],
    [WP,  EMP, EMP, EMP, EMP, EMP, EMP, WP ],
    [WP,  EMP, EMP, EMP, EMP, EMP, EMP, WP ],
    [WP,  EMP, EMP, EMP, EMP, EMP, EMP, WP ],
    [WP,  EMP, EMP, EMP, EMP, EMP, EMP, WP ],
    [WP,  EMP, EMP, EMP, EMP, EMP, EMP, WP ],
    [WP,  EMP, EMP, EMP, EMP, EMP, EMP, WP ],
    [EMP, BP,  BP,  BP,  BP,  BP,  BP,  EMP]
  ]

  predicate IsGrid(contents: seq<seq<Piece>>) {
    |contents| == 8 && forall i :: 0 <= i < 8 ==> |contents[i]| == 8
  }

  /** Row-major flattening: cell row*8+col is contents[row][col]. */
  function Flatten(contents: seq<seq<Piece>>): (cells: seq<Piece>)
    requires IsGrid(contents)
    ensures |cells| == 64
    ensures forall sq: Square :: cells[Index(sq)] == contents[sq.row][sq.col]
  {
    seq(64, k requires 0 <= k < 64 => contents[k / 8][k % 8])
  }

  /** initialize(contents, side). */
  function Initialized(contents: seq<seq<Piece>>, side: Piece): (r: BoardState)
    requires IsGrid(contents) && side != EMP
    ensures WellFormed(r) && RegionsFresh(r)
  {
    BoardState(Flatten(contents), side, [], DEFAULT_MOVE_LIMIT, false, None, false, [], [])
  }

  /** The standard starting position, black to move. */
  function InitialBoard(): BoardState {
    Initialized(INITIAL_PIECES, BP)
  }

  lemma InitialCell(sq: Square)
    ensures PieceAt(InitialBoard(), sq) == INITIAL_PIECES[sq.row][sq.col]
  {
  }

  /** Column b of the starting position: black at both ends, empty between. */
  lemma InitialColumnB()
    ensures var c := InitialBoard().cells;
      c[1] == BP && c[57] == BP &&
      c[9] == EMP && c[17] == EMP && c[25] == EMP && c[33] == EMP && c[41] == EMP && c[49] == EMP
  {
    InitialCell(Coord(1, 0));
    InitialCell(Coord(1, 1));
    InitialCell(Coord(1, 2));
    InitialCell(Coord(1, 3));
    InitialCell(Coord(1, 4));
    InitialCell(Coord(1, 5));
    InitialCell(Coord(1, 6));
    InitialCell(Coord(1, 7));
  }

  /** One more step along a ray adds one exactly when it lands on a piece. */
  lemma RayStep(c: seq<Piece>, sq: Square, d: Dir, k: nat, n: nat, occupied: bool)
    requires |c| == 64 && RayPieces(c, sq, d, k) == n && Occupied(c, Offset(sq, d, k + 1)) == occupied
    ensures RayPieces(c, sq, d, k + 1) == n + (if occupied then 1 else 0)
  {
  }

  /** Column b seen from b1: the one black piece at b8 lies ahead. */
  lemma NorthFromB1(c: seq<Piece>)
    requires |c| == 64 && c[57] == BP
    requires c[9] == EMP && c[17] == EMP && c[25] == EMP && c[33] == EMP && c[41] == EMP && c[49] == EMP
    ensures RayPieces(c, Coord(1, 0), Dir(0, 1), RAY_STEPS) == 1
  {
    BetweenB1B8(c);
    RayStep(c, Coord(1, 0), Dir(0, 1), 6, 0, true);
  }

  /** A ray whose first k squares are all empty or off the board counts no pieces. */
  lemma {:induction false} EmptyRay(c: seq<Piece>, sq: Square, d: Dir, k: nat)
    requires |c| == 64
    requires forall j {:trigger Offset(sq, d, j)} :: 1 <= j <= k ==> !Occupied(c, Offset(sq, d, j))
    ensures RayPieces(c, sq, d, k) == 0
  {
    if k > 0 {
      EmptyRay(c, sq, d, k - 1);
      assert !Occupied(c, Offset(sq, d, k));
    }
  }

  /** b2 to b7 are empty. */
  lemma BetweenB1B8(c: seq<Piece>)
    requires |c| == 64
    requires c[9] == EMP && c[17] == EMP && c[25] == EMP && c[33] == EMP && c[41] == EMP && c[49] == EMP
    ensures RayPieces(c, Coord(1, 0), Dir(0, 1), 6) == 0
  {
    forall j | 1 <= j <= 6
      ensures !Occupied(c, Offset(Coord(1, 0), Dir(0, 1), j))
    {
      assert Offset(Coord(1, 0), Dir(0, 1), j) == Coord(1, j);
      assert j == 1 || j == 2 || j == 3 || j == 4 || j == 5 || j == 6;
    }
    EmptyRay(c, Coord(1, 0), Dir(0, 1), 6);
  }

  /** Nothing lies south of the first row. */
  lemma SouthFromB1(c: seq<Piece>)
    requires |c| == 64
    ensures RayPieces(c, Coord(1, 0), Dir(0, -1), RAY_STEPS) == 0
  {
    forall j | 1 <= j <= RAY_STEPS
      ensures !Occupied(c, Offset(Coord(1, 0), Dir(0, -1), j))
    {
      assert Offset(Coord(1, 0), Dir(0, -1), j) == Coord(1, -j);
    }
    EmptyRay(c, Coord(1, 0), Dir(0, -1), RAY_STEPS);
  }

  /** The line count of a move, from its direction. */
  lemma LineAlong(c: seq<Piece>, from: Square, to: Square, d: Dir)
    requires |c| == 64 && Direction(from, to) == Some(d)
    ensures LinePieces(c, from, to) ==
      1 + RayPieces(c, from, Reverse(d), RAY_STEPS) + RayPieces(c, from, d, RAY_STEPS)
  {
  }

  /** A two-square move is blocked only by the square it jumps. */
  lemma NotBlockedShort(c: seq<Piece>, turn: Piece, from: Square, to: Square, d: Dir)
    requires |c| == 64 && Direction(from, to) == Some(d) && Distance(from, to) == 2
    requires !OpponentAt(c, turn, from, d, 1)
    ensures !Blocked(c, turn, from, to)
  {
  }

  /** The line of b1-b3 holds two pieces when column b holds black only at its ends. */
  lemma LineB1B3(c: seq<Piece>)
    requires |c| == 64 && c[57] == BP
    requires c[9] == EMP && c[17] == EMP && c[25] == EMP && c[33] == EMP && c[41] == EMP && c[49] == EMP
    ensures LinePieces(c, Coord(1, 0), Coord(1, 2)) == 2
  {
    LineAlong(c, Coord(1, 0), Coord(1, 2), Dir(0, 1));
    NorthFromB1(c);
    SouthFromB1(c);
  }

  /** No opposing piece stands on b2 when it is empty. */
  lemma NotBlockedB1B3(c: seq<Piece>, turn: Piece)
    requires |c| == 64 && c[9] == EMP && turn != EMP
    ensures !Blocked(c, turn, Coord(1, 0), Coord(1, 2))
  {
    NotBlockedShort(c, turn, Coord(1, 0), Coord(1, 2), Dir(0, 1));
  }

  /** b1-b3 is legal for black whenever column b holds black only at its ends. */
  lemma B1B3Legal(s: BoardState)
    requires WellFormed(s) && s.turn == BP && s.cells[1] == BP && s.cells[57] == BP
    requires s.cells[9] == EMP && s.cells[17] == EMP && s.cells[25] == EMP && s.cells[33] == EMP
    requires s.cells[41] == EMP && s.cells[49] == EMP
    ensures LegalMove(s, Move(Coord(1, 0), Coord(1, 2), false))
  {
    LineB1B3(s.cells);
    NotBlockedB1B3(s.cells, s.turn);
  }

  /** b1-b3 is a legal first move for black in the starting position. */
  lemma FirstMoveLegal()
    ensures LegalMove(InitialBoard(), Move(Coord(1, 0), Coord(1, 2), false))
  {
    InitialColumnB();
    B1B3Legal(InitialBoard());
  }

  /** Finding witness: in the starting position, b1-b3 followed by retract()
   *  as written leaves black pieces on both b1 and b3. */
  lemma FirstMoveRetractAsWritten()
    ensures var m := Move(Coord(1, 0), Coord(1, 2), false);
      LegalMove(InitialBoard(), m) &&
      PieceAt(RetractedAsWritten(Played(InitialBoard(), m)), Coord(1, 2)) == BP &&
      PieceAt(InitialBoard(), Coord(1, 2)) == EMP
  {
    var m := Move(Coord(1, 0), Coord(1, 2), false);
    FirstMoveLegal();
    InitialColumnB();
    RetractAsWrittenDuplicates(InitialBoard(), m);
  }
}
