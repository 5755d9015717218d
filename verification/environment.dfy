/** The Connect-Four game engine: a 6x7 grid of cells, the side to move and
    the game status. The engine is modelled as an immutable value, so cloning
    a state is copying it and a drop returns the new state. */
module Environment {
  import opened Wrappers

  /** One enumeration serves as cell contents (Blank, Red, Yellow) and as
      game status (Red and Yellow for a win, Draw, Ongoing). */
  datatype Status = Blank | Red | Yellow | Draw | Ongoing

  const Rows: int := 6
  const Cols: int := 7

  /** Row 0 is the top row; pieces fall towards row Rows - 1. */
  type Board = seq<seq<Status>>

  predicate WellFormed(b: Board) {
    |b| == Rows && forall r :: 0 <= r < Rows ==> |b[r]| == Cols
  }

  predicate InBounds(r: int, c: int) {
    0 <= r < Rows && 0 <= c < Cols
  }

  predicate IsPlayer(p: Status) {
    p == Red || p == Yellow
  }

  predicate AllBlank(b: Board)
    requires WellFormed(b)
  {
    forall r, c :: 0 <= r < Rows && 0 <= c < Cols ==> b[r][c] == Blank
  }

  datatype Env = Env(board: Board, currentPlayer: Status, gameStatus: Status)

  // ---------------------------------------------------------------------
  // Construction and copying
  // ---------------------------------------------------------------------

  /** A new game: an all-blank board, Yellow to move, the game ongoing. */
  function Initial(): (e: Env)
    ensures WellFormed(e.board)
    ensures AllBlank(e.board)
    ensures e.currentPlayer == Yellow && e.gameStatus == Ongoing
  {
    Env(seq(Rows, _ => seq(Cols, _ => Blank)), Yellow, Ongoing)
  }

  /** A copy with the same board, side to move and status. Since an Env is a
      value, nothing done to the copy can reach the original. */
  function Clone(e: Env): (c: Env)
    ensures c.board == e.board
    ensures c.currentPlayer == e.currentPlayer
    ensures c.gameStatus == e.gameStatus
  {
    Env(e.board, e.currentPlayer, e.gameStatus)
  }

  // ---------------------------------------------------------------------
  // Legal moves
  // ---------------------------------------------------------------------

  predicate Ascending(s: seq<int>) {
    forall i, j :: 0 <= i < j < |s| ==> s[i] < s[j]
  }

  /** The columns whose top cell is blank, in ascending order. */
  function ValidMoves(b: Board): (moves: seq<int>)
    requires WellFormed(b)
    ensures Ascending(moves)
    ensures forall c {:trigger c in moves} :: c in moves <==> 0 <= c < Cols && b[0][c] == Blank
  {
    ValidFrom(b, 0)
  }

  /** The comprehension over range(Cols), starting at column `start`. */
  function ValidFrom(b: Board, start: nat): (moves: seq<int>)
    requires WellFormed(b) && start <= Cols
    ensures forall i :: 0 <= i < |moves| ==> start <= moves[i] < Cols
    ensures Ascending(moves)
    ensures forall c {:trigger c in moves} :: c in moves <==> start <= c < Cols && b[0][c] == Blank
    decreases Cols - start
  {
    if start == Cols then []
    else if b[0][start] == Blank then [start] + ValidFrom(b, start + 1)
    else ValidFrom(b, start + 1)
  }

  predicate TopFull(b: Board)
    requires WellFormed(b)
  {
    forall c :: 0 <= c < Cols ==> b[0][c] != Blank
  }

  lemma NoMovesIffTopFull(b: Board)
    requires WellFormed(b)
    ensures |ValidMoves(b)| == 0 <==> TopFull(b)
  {
    if !TopFull(b) {
      var c :| 0 <= c < Cols && b[0][c] == Blank;
      assert c in ValidMoves(b);
    }
  }

  // ---------------------------------------------------------------------
  // Turn switching
  // ---------------------------------------------------------------------

  /** The other colour: Yellow after Red, Red after anything else. The same
      rule gives the agent's notion of the opponent. */
  function Opponent(p: Status): (q: Status)
    ensures IsPlayer(q)
    ensures IsPlayer(p) ==> q != p
  {
    if p == Red then Yellow else Red
  }

  lemma OpponentInvolution(p: Status)
    requires IsPlayer(p)
    ensures Opponent(Opponent(p)) == p
  {
  }

  // ---------------------------------------------------------------------
  // Win detection
  // ---------------------------------------------------------------------

  /** The four line orientations examined through the placed cell. */
  datatype Orientation = Horizontal | Vertical | DiagonalDownRight | DiagonalDownLeft

  /** The row and column `k` steps from (row, col) along orientation `o`;
      negative `k` walks the opposite way. */
  function RowAt(o: Orientation, row: int, k: int): (r: int) {
    if o == Horizontal then row else row + k
  }

  function ColAt(o: Orientation, col: int, k: int): (c: int) {
    match o
    case Horizontal => col + k
    case Vertical => col
    case DiagonalDownRight => col + k
    case DiagonalDownLeft => col - k
  }

  /** The cell `k` steps along `o` is on the board and holds `p`. */
  predicate Holds(b: Board, row: int, col: int, o: Orientation, k: int, p: Status)
    requires WellFormed(b)
  {
    InBounds(RowAt(o, row, k), ColAt(o, col, k)) && b[RowAt(o, row, k)][ColAt(o, col, k)] == p
  }

  /** A cell on the board is fewer than Cols steps away. */
  lemma HoldsNear(b: Board, row: int, col: int, o: Orientation, k: int, p: Status)
    requires WellFormed(b) && InBounds(row, col) && Holds(b, row, col, o, k, p)
    ensures -Cols < k < Cols
  {
  }

  function Signed(forward: bool, k: int): (s: int) {
    if forward then k else -k
  }

  /** Number of consecutive cells holding `p`, starting `k` steps from
      (row, col) and walking forward or backward along `o` until a mismatch
      or the board's edge. */
  function Reach(b: Board, row: int, col: int, o: Orientation, forward: bool, k: nat, p: Status): (n: nat)
    requires WellFormed(b) && InBounds(row, col)
    decreases Cols - k
  {
    if Holds(b, row, col, o, Signed(forward, k), p) then
      1 + Reach(b, row, col, o, forward, k + 1, p)
    else
      0
  }

  /** Every cell the run covers holds `p`. */
  lemma {:induction false} ReachCovers(b: Board, row: int, col: int, o: Orientation, forward: bool, k: nat, p: Status)
    requires WellFormed(b) && InBounds(row, col)
    ensures forall j :: k <= j < k + Reach(b, row, col, o, forward, k, p) ==> Holds(b, row, col, o, Signed(forward, j), p)
    decreases Cols - k
  {
    if Holds(b, row, col, o, Signed(forward, k), p) {
      HoldsNear(b, row, col, o, Signed(forward, k), p);
      ReachCovers(b, row, col, o, forward, k + 1, p);
    }
  }

  /** The cell just past the run is off the board or holds something else. */
  lemma {:induction false} ReachStops(b: Board, row: int, col: int, o: Orientation, forward: bool, k: nat, p: Status)
    requires WellFormed(b) && InBounds(row, col)
    ensures !Holds(b, row, col, o, Signed(forward, k + Reach(b, row, col, o, forward, k, p)), p)
    decreases Cols - k
  {
    if Holds(b, row, col, o, Signed(forward, k), p) {
      HoldsNear(b, row, col, o, Signed(forward, k), p);
      ReachStops(b, row, col, o, forward, k + 1, p);
      assert k + Reach(b, row, col, o, forward, k, p) == k + 1 + Reach(b, row, col, o, forward, k + 1, p);
    }
  }

  /** The run through (row, col) along `o`: the cell itself plus the matching
      cells on both sides. */
  function LineLength(b: Board, row: int, col: int, o: Orientation): (n: nat)
    requires WellFormed(b) && InBounds(row, col)
    ensures n >= 1
  {
    var p := b[row][col];
    1 + Reach(b, row, col, o, true, 1, p) + Reach(b, row, col, o, false, 1, p)
  }

  /** Reference definition: four consecutive cells along `o`, one of them
      (row, col), all hold `p`. */
  ghost predicate FourInLine(b: Board, row: int, col: int, o: Orientation, p: Status)
    requires WellFormed(b)
  {
    exists k :: 0 <= k <= 3 && WindowFrom(b, row, col, o, k, p)
  }

  /** The four cells from `k` steps back to `3 - k` steps forward all hold `p`. */
  ghost predicate WindowFrom(b: Board, row: int, col: int, o: Orientation, k: int, p: Status)
    requires WellFormed(b)
  {
    forall j :: -k <= j <= 3 - k ==> Holds(b, row, col, o, j, p)
  }

  ghost predicate ConnectsFour(b: Board, row: int, col: int, p: Status)
    requires WellFormed(b)
  {
    || FourInLine(b, row, col, Horizontal, p)
    || FourInLine(b, row, col, Vertical, p)
    || FourInLine(b, row, col, DiagonalDownRight, p)
    || FourInLine(b, row, col, DiagonalDownLeft, p)
  }

  lemma LineLengthSpec(b: Board, row: int, col: int, o: Orientation)
    requires WellFormed(b) && InBounds(row, col)
    ensures LineLength(b, row, col, o) >= 4 <==> FourInLine(b, row, col, o, b[row][col])
  {
    if LineLength(b, row, col, o) >= 4 {
      LongRunHasWindow(b, row, col, o);
    }
    if FourInLine(b, row, col, o, b[row][col]) {
      var k: int :| 0 <= k <= 3 && WindowFrom(b, row, col, o, k, b[row][col]);
      WindowGivesLongRun(b, row, col, o, k);
    }
  }

  /** A run of four or more through the cell contains a window of four
      that includes the cell: take up to three cells behind it. */
  lemma LongRunHasWindow(b: Board, row: int, col: int, o: Orientation)
    requires WellFormed(b) && InBounds(row, col)
    requires LineLength(b, row, col, o) >= 4
    ensures FourInLine(b, row, col, o, b[row][col])
  {
    var p := b[row][col];
    ReachCovers(b, row, col, o, true, 1, p);
    ReachCovers(b, row, col, o, false, 1, p);
    var g := Reach(b, row, col, o, false, 1, p);
    var k: int := if g < 3 then g else 3;
    forall j: int | -k <= j <= 3 - k
      ensures Holds(b, row, col, o, j, p)
    {
      if j > 0 {
        assert Holds(b, row, col, o, Signed(true, j), p);
      } else if j < 0 {
        assert Holds(b, row, col, o, Signed(false, -j), p);
      }
    }
    assert WindowFrom(b, row, col, o, k, p);
  }

  /** A window of four through the cell forces the runs on either side to
      cover it, since each run stops only at a mismatch or the edge. */
  lemma WindowGivesLongRun(b: Board, row: int, col: int, o: Orientation, k: int)
    requires WellFormed(b) && InBounds(row, col) && 0 <= k <= 3
    requires WindowFrom(b, row, col, o, k, b[row][col])
    ensures LineLength(b, row, col, o) >= 4
  {
    var p := b[row][col];
    ReachStops(b, row, col, o, true, 1, p);
    ReachStops(b, row, col, o, false, 1, p);
    var f := Reach(b, row, col, o, true, 1, p);
    var g := Reach(b, row, col, o, false, 1, p);
    assert f >= 3 - k;
    assert g >= k;
  }

  /** The status after a piece lands on (row, col): the piece's colour if
      some orientation through the cell has a run of four or more, otherwise
      Draw if the top row is full, otherwise the previous status. */
  function CheckGameStatus(b: Board, row: int, col: int, previous: Status): (s: Status)
    requires WellFormed(b) && InBounds(row, col)
    ensures s == b[row][col] || s == Draw || s == previous
  {
    var player := b[row][col];
    if || LineLength(b, row, col, Horizontal) >= 4
       || LineLength(b, row, col, Vertical) >= 4
       || LineLength(b, row, col, DiagonalDownRight) >= 4
       || LineLength(b, row, col, DiagonalDownLeft) >= 4
    then player
    else if |ValidMoves(b)| == 0 then Draw
    else previous
  }

  lemma WinDetection(b: Board, row: int, col: int, previous: Status)
    requires WellFormed(b) && InBounds(row, col)
    ensures CheckGameStatus(b, row, col, previous)
         == if ConnectsFour(b, row, col, b[row][col]) then b[row][col]
            else if TopFull(b) then Draw
            else previous
  {
    LineLengthSpec(b, row, col, Horizontal);
    LineLengthSpec(b, row, col, Vertical);
    LineLengthSpec(b, row, col, DiagonalDownRight);
    LineLengthSpec(b, row, col, DiagonalDownLeft);
    NoMovesIffTopFull(b);
  }

  // ---------------------------------------------------------------------
  // Dropping a piece
  // ---------------------------------------------------------------------

  /** Scans column `col` from `row` towards the top, as the reversed row loop
      of a drop does, and answers the first blank row met. */
  function ScanForBlank(b: Board, col: int, row: int): (r: Option<nat>)
    requires WellFormed(b) && 0 <= col < Cols && -1 <= row < Rows
    ensures r.Some? ==> r.value <= row && b[r.value][col] == Blank
    ensures r.Some? ==> forall k :: r.value < k <= row ==> b[k][col] != Blank
    ensures r.None? ==> forall k :: 0 <= k <= row ==> b[k][col] != Blank
    decreases row + 1
  {
    if row < 0 then None
    else if b[row][col] == Blank then Some(row)
    else ScanForBlank(b, col, row - 1)
  }

  /** `row` is the lowest blank cell of column `col` (largest row index). */
  predicate IsLanding(b: Board, col: int, row: int)
    requires WellFormed(b) && 0 <= col < Cols
  {
    && 0 <= row < Rows
    && b[row][col] == Blank
    && forall k :: row < k < Rows ==> b[k][col] != Blank
  }

  function LandingRow(b: Board, col: int): (row: nat)
    requires WellFormed(b) && 0 <= col < Cols && b[0][col] == Blank
    ensures IsLanding(b, col, row)
  {
    ScanForBlank(b, col, Rows - 1).value
  }

  /** Drops the side to move's piece into `col`. Answers false, and the state
      unchanged, when the column is not a legal move; otherwise the piece
      lands, the status is updated and the turn passes. A terminal status does
      not stop the drop. */
  function DropPiece(e: Env, col: int): (r: (bool, Env))
    requires WellFormed(e.board)
    ensures r.0 <==> col in ValidMoves(e.board)
    ensures r.0 <==> 0 <= col < Cols && e.board[0][col] == Blank
    ensures !r.0 ==> r.1 == e
    ensures WellFormed(r.1.board)
    ensures r.0 ==> r.1.currentPlayer == Opponent(e.currentPlayer)
  {
    if col !in ValidMoves(e.board) then (false, e)
    else
      match ScanForBlank(e.board, col, Rows - 1)
      case None => (false, e)
      case Some(row) =>
        var board := e.board[row := e.board[row][col := e.currentPlayer]];
        var status := CheckGameStatus(board, row, col, e.gameStatus);
        (true, Env(board, Opponent(e.currentPlayer), status))
  }

  /** A legal drop puts the mover's piece on the landing cell of the column
      and changes no other cell. */
  lemma DropLands(e: Env, col: int)
    requires WellFormed(e.board) && 0 <= col < Cols && e.board[0][col] == Blank
    ensures var after := DropPiece(e, col).1;
            var row := LandingRow(e.board, col);
            && after.board[row][col] == e.currentPlayer
            && forall i, j {:trigger after.board[i][j]} :: InBounds(i, j) && (i != row || j != col) ==> after.board[i][j] == e.board[i][j]
  {
  }

  /** Blank is a cell value only: with a colour to move, a drop never makes
      Blank the game status, which stays a winning colour, Draw or Ongoing. */
  lemma StatusNeverBlank(e: Env, col: int)
    requires WellFormed(e.board) && IsPlayer(e.currentPlayer) && e.gameStatus != Blank
    ensures var s := DropPiece(e, col).1.gameStatus;
            IsPlayer(s) || s == Draw || s == Ongoing
  {
    if DropPiece(e, col).0 {
      DropLands(e, col);
    }
  }

  /** The status after a successful drop, in terms of the reference win
      predicate; a finished game never returns to Ongoing. */
  lemma DropStatus(e: Env, col: int)
    requires WellFormed(e.board) && 0 <= col < Cols && e.board[0][col] == Blank
    ensures var after := DropPiece(e, col).1;
            var row := LandingRow(e.board, col);
            after.gameStatus
              == if ConnectsFour(after.board, row, col, e.currentPlayer) then e.currentPlayer
                 else if TopFull(after.board) then Draw
                 else e.gameStatus
    ensures IsPlayer(e.currentPlayer) && e.gameStatus != Ongoing ==>
              DropPiece(e, col).1.gameStatus != Ongoing
  {
    var row := LandingRow(e.board, col);
    var board := e.board[row := e.board[row][col := e.currentPlayer]];
    WinDetection(board, row, col, e.gameStatus);
  }

  // ---------------------------------------------------------------------
  // Piece count and gravity
  // ---------------------------------------------------------------------

  function CountPieces(cells: seq<Status>): (n: nat)
    ensures n <= |cells|
  {
    if |cells| == 0 then 0
    else (if cells[0] != Blank then 1 else 0) + CountPieces(cells[1..])
  }

  function Pieces(b: Board): (n: nat)
    ensures (forall r :: 0 <= r < |b| ==> |b[r]| <= Cols) ==> n <= Cols * |b|
  {
    if |b| == 0 then 0 else CountPieces(b[0]) + Pieces(b[1..])
  }

  lemma {:induction false} CountPiecesUpdate(cells: seq<Status>, j: nat, p: Status)
    requires j < |cells| && cells[j] == Blank && p != Blank
    ensures CountPieces(cells[j := p]) == CountPieces(cells) + 1
  {
    if j > 0 {
      assert cells[j := p][1..] == cells[1..][j - 1 := p];
      CountPiecesUpdate(cells[1..], j - 1, p);
    } else {
      assert cells[j := p][1..] == cells[1..];
    }
  }

  lemma {:induction false} PiecesUpdate(b: Board, i: nat, cells: seq<Status>)
    requires i < |b| && CountPieces(cells) == CountPieces(b[i]) + 1
    ensures Pieces(b[i := cells]) == Pieces(b) + 1
  {
    if i > 0 {
      assert b[i := cells][1..] == b[1..][i - 1 := cells];
      PiecesUpdate(b[1..], i - 1, cells);
    } else {
      assert b[i := cells][1..] == b[1..];
    }
  }

  /** A successful drop adds exactly one piece, so a game has at most
      Rows * Cols successful drops. */
  lemma DropAddsOnePiece(e: Env, col: int)
    requires WellFormed(e.board) && IsPlayer(e.currentPlayer)
    requires DropPiece(e, col).0
    ensures Pieces(DropPiece(e, col).1.board) == Pieces(e.board) + 1
    ensures Pieces(e.board) < Rows * Cols
  {
    var row := LandingRow(e.board, col);
    var cells := e.board[row][col := e.currentPlayer];
    CountPiecesUpdate(e.board[row], col, e.currentPlayer);
    PiecesUpdate(e.board, row, cells);
    assert DropPiece(e, col).1.board == e.board[row := cells];
  }

  /** True when row `r` of column `c` rests on the floor or on a piece. */
  predicate Supported(b: Board, r: int, c: int)
    requires WellFormed(b) && InBounds(r, c)
  {
    r == Rows - 1 || b[r + 1][c] != Blank
  }

  /** Gravity: no piece has a blank cell directly below it. */
  ghost predicate Settled(b: Board)
    requires WellFormed(b)
  {
    forall r, c :: InBounds(r, c) && b[r][c] != Blank ==> Supported(b, r, c)
  }

  lemma DropKeepsSettled(e: Env, col: int)
    requires WellFormed(e.board) && Settled(e.board) && IsPlayer(e.currentPlayer)
    ensures Settled(DropPiece(e, col).1.board)
  {
    var after := DropPiece(e, col).1;
    if DropPiece(e, col).0 {
      DropLands(e, col);
      var row := LandingRow(e.board, col);
      forall r, c | InBounds(r, c) && after.board[r][c] != Blank
        ensures Supported(after.board, r, c)
      {
        if r == row && c == col {
          assert r == Rows - 1 || e.board[r + 1][c] != Blank;
        } else {
          assert Supported(e.board, r, c);
        }
      }
    }
  }

  // ---------------------------------------------------------------------
  // The state invariant the search relies on
  // ---------------------------------------------------------------------

  /** A well-formed state whose side to move is a colour and whose ongoing
      status always comes with a legal move. */
  predicate Playable(e: Env) {
    && WellFormed(e.board)
    && IsPlayer(e.currentPlayer)
    && (e.gameStatus == Ongoing ==> |ValidMoves(e.board)| > 0)
  }

  /** Any drop, legal or not, from a playable state leads to a playable
      state: a drop that leaves the status Ongoing found a non-full top row. */
  lemma DropKeepsPlayable(e: Env, col: int)
    requires Playable(e)
    ensures Playable(DropPiece(e, col).1)
  {
  }

  lemma {:induction false} EmptyCellsNoPieces(cells: seq<Status>)
    requires forall i :: 0 <= i < |cells| ==> cells[i] == Blank
    ensures CountPieces(cells) == 0
  {
    if |cells| > 0 {
      EmptyCellsNoPieces(cells[1..]);
    }
  }

  lemma {:induction false} EmptyBoardNoPieces(b: Board)
    requires forall r, c :: 0 <= r < |b| && 0 <= c < |b[r]| ==> b[r][c] == Blank
    ensures Pieces(b) == 0
  {
    if |b| > 0 {
      EmptyCellsNoPieces(b[0]);
      EmptyBoardNoPieces(b[1..]);
    }
  }

  lemma InitialState()
    ensures Playable(Initial())
    ensures Settled(Initial().board)
    ensures Pieces(Initial().board) == 0
    ensures forall c :: c in ValidMoves(Initial().board) <==> 0 <= c < Cols
  {
    var b := Initial().board;
    assert 0 in ValidMoves(b);
    EmptyBoardNoPieces(b);
  }
}
