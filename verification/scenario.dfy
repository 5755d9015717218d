/** A worked game: Yellow fills the bottom row from the left, and only the
    fourth piece ends the game. */
module Scenario {
  import opened Environment

  /** The first `k` cells of the bottom row hold Yellow; every other cell
      is blank. */
  predicate YellowPrefix(b: Board, k: int)
    requires WellFormed(b)
  {
    forall r, c :: 0 <= r < Rows && 0 <= c < Cols ==> b[r][c] == (if r == Rows - 1 && c < k then Yellow else Blank)
  }

  /** The two ends of a window of four lie three steps apart, too far for
      both to be among at most three Yellow cells of the bottom row. */
  lemma EndsTooFarApart(b: Board, k: int, row: int, col: int, o: Orientation, s: int)
    requires WellFormed(b) && YellowPrefix(b, k) && k <= 3
    ensures !(Holds(b, row, col, o, -s, Yellow) && Holds(b, row, col, o, 3 - s, Yellow))
  {
  }

  /** At most three Yellow pieces on the bottom row make no line of four. */
  lemma ShortPrefixNoFour(b: Board, k: int, row: int, col: int)
    requires WellFormed(b) && YellowPrefix(b, k) && k <= 3
    ensures !ConnectsFour(b, row, col, Yellow)
  {
    forall o: Orientation, s: int | 0 <= s <= 3
      ensures !WindowFrom(b, row, col, o, s, Yellow)
    {
      EndsTooFarApart(b, k, row, col, o, s);
    }
  }

  /** With Yellow to move, a drop into column `k` is legal and extends the
      Yellow prefix of the bottom row by one cell. */
  lemma PrefixDrop(e: Env, k: int)
    requires WellFormed(e.board) && YellowPrefix(e.board, k) && 0 <= k < Cols
    requires e.currentPlayer == Yellow
    ensures DropPiece(e, k).0
    ensures YellowPrefix(DropPiece(e, k).1.board, k + 1)
  {
    assert e.board[0][k] == Blank && e.board[Rows - 1][k] == Blank;
    assert LandingRow(e.board, k) == Rows - 1;
    DropLands(e, k);
  }

  /** Up to the third Yellow piece on the bottom row, a drop neither wins
      nor fills the top row, so the status does not change. */
  lemma ShortPrefixKeepsStatus(e: Env, k: int)
    requires WellFormed(e.board) && YellowPrefix(e.board, k) && 0 <= k < 3
    requires e.currentPlayer == Yellow
    ensures DropPiece(e, k).1.gameStatus == e.gameStatus
  {
    PrefixDrop(e, k);
    var after := DropPiece(e, k).1;
    assert e.board[0][k] == Blank && e.board[Rows - 1][k] == Blank;
    assert LandingRow(e.board, k) == Rows - 1;
    DropStatus(e, k);
    ShortPrefixNoFour(after.board, k + 1, Rows - 1, k);
    assert after.board[0][Cols - 1] == Blank;
  }

  /** A drop into column `k` is legal, extends the Yellow prefix, and up to
      the third piece leaves the status unchanged. */
  lemma ExtendPrefix(e: Env, k: int)
    requires WellFormed(e.board) && YellowPrefix(e.board, k) && 0 <= k < Cols
    requires e.currentPlayer == Yellow
    ensures DropPiece(e, k).0
    ensures YellowPrefix(DropPiece(e, k).1.board, k + 1)
    ensures k < 3 ==> DropPiece(e, k).1.gameStatus == e.gameStatus
  {
    PrefixDrop(e, k);
    if k < 3 {
      ShortPrefixKeepsStatus(e, k);
    }
  }

  /** The fourth Yellow piece on the bottom row completes a line of four. */
  lemma FourthPieceWins(e: Env)
    requires WellFormed(e.board) && YellowPrefix(e.board, 3) && e.currentPlayer == Yellow
    ensures DropPiece(e, 3).1.gameStatus == Yellow
  {
    ExtendPrefix(e, 3);
    var after := DropPiece(e, 3).1;
    assert LandingRow(e.board, 3) == Rows - 1;
    assert WindowFrom(after.board, Rows - 1, 3, Horizontal, 3, Yellow);
    DropStatus(e, 3);
  }

  /** Yellow, put back on move before each drop, plays columns 0, 1, 2 and
      3 of a new game: every drop is legal, the game stays ongoing through
      the third drop, and the fourth drop wins for Yellow. */
  lemma BottomRowWin()
    ensures var e1 := DropPiece(Initial(), 0).1.(currentPlayer := Yellow);
            var e2 := DropPiece(e1, 1).1.(currentPlayer := Yellow);
            var e3 := DropPiece(e2, 2).1.(currentPlayer := Yellow);
            && DropPiece(Initial(), 0).0 && DropPiece(e1, 1).0 && DropPiece(e2, 2).0 && DropPiece(e3, 3).0
            && e1.gameStatus == Ongoing && e2.gameStatus == Ongoing && e3.gameStatus == Ongoing
            && DropPiece(e3, 3).1.gameStatus == Yellow
  {
    var e0 := Initial();
    ExtendPrefix(e0, 0);
    var e1 := DropPiece(e0, 0).1.(currentPlayer := Yellow);
    ExtendPrefix(e1, 1);
    var e2 := DropPiece(e1, 1).1.(currentPlayer := Yellow);
    ExtendPrefix(e2, 2);
    var e3 := DropPiece(e2, 2).1.(currentPlayer := Yellow);
    ExtendPrefix(e3, 3);
    FourthPieceWins(e3);
  }
}
