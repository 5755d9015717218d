/** The agents: the search robot (immediate win, immediate block, then a
    depth-4 minimax with alpha-beta pruning) and the random robot. A random
    choice is modelled by an oracle index `pick` into the legal-move list. */
module Agents {
  import opened Wrappers
  import opened Environment

  /** Search values: the minimax leaves give finite values, and the two
      infinities are the initial best value and the initial alpha/beta. */
  datatype Score = NegInf | Fin(n: int) | PosInf

  /** a > b, with -inf below every integer and +inf above. */
  predicate Greater(a: Score, b: Score) {
    match (a, b)
    case (PosInf, _) => b != PosInf
    case (Fin(x), Fin(y)) => x > y
    case (Fin(_), NegInf) => true
    case (_, _) => false
  }

  /** Built-in max/min keep their first argument unless the second is
      strictly better. */
  function Max(a: Score, b: Score): (m: Score)
    ensures !Greater(a, m) && !Greater(b, m)
    ensures m == a || m == b
  {
    if Greater(b, a) then b else a
  }

  function Min(a: Score, b: Score): (m: Score)
    ensures !Greater(m, a) && !Greater(m, b)
    ensures m == a || m == b
  {
    if Greater(a, b) then b else a
  }

  // ---------------------------------------------------------------------
  // Minimax with alpha-beta pruning
  // ---------------------------------------------------------------------

  /** The search: a depth cut-off or a finished game gives value 0 and no
      move; otherwise the legal moves are tried in ascending order. */
  function Minimax(e: Env, depth: nat, alpha: Score, beta: Score, maximizing: bool): (r: (Score, Option<int>))
    requires WellFormed(e.board)
    ensures depth == 0 || e.gameStatus != Ongoing ==> r == (Fin(0), None)
    ensures r.1.Some? ==> r.1.value in ValidMoves(e.board)
    decreases depth, 1
  {
    if depth == 0 || e.gameStatus != Ongoing then (Fin(0), None)
    else
      var moves := ValidMoves(e.board);
      var best := if maximizing then NegInf else PosInf;
      Search(e, moves, depth, alpha, beta, maximizing, best, None)
  }

  /** The loop over the remaining `moves`, carrying the best value and move
      so far and the current alpha and beta. A child must be strictly better
      to replace the best move, and the loop stops once alpha >= beta. */
  function Search(e: Env, moves: seq<int>, depth: nat, alpha: Score, beta: Score, maximizing: bool,
                  best: Score, bestMove: Option<int>): (r: (Score, Option<int>))
    requires WellFormed(e.board) && depth > 0
    ensures r.1.Some? ==> r.1 == bestMove || r.1.value in moves
    decreases depth, 0, |moves|
  {
    if |moves| == 0 then (best, bestMove)
    else
      var move := moves[0];
      var child := DropPiece(Clone(e), move).1;
      var value := Minimax(child, depth - 1, alpha, beta, !maximizing).0;
      var improves := if maximizing then Greater(value, best) else Greater(best, value);
      var best' := if improves then value else best;
      var bestMove' := if improves then Some(move) else bestMove;
      var alpha' := if maximizing then Max(alpha, best') else alpha;
      var beta' := if maximizing then beta else Min(beta, best');
      if !Greater(beta', alpha') then (best', bestMove')
      else Search(e, moves[1..], depth, alpha', beta', maximizing, best', bestMove')
  }

  /** The leaves never consult a heuristic, so on a playable state every
      value is 0, and a search that expands the root picks its lowest legal
      column, whatever the window. */
  lemma MinimaxIsBlind(e: Env, depth: nat, alpha: Score, beta: Score, maximizing: bool)
    requires Playable(e)
    ensures Minimax(e, depth, alpha, beta, maximizing).0 == Fin(0)
    ensures depth > 0 && e.gameStatus == Ongoing ==>
              Minimax(e, depth, alpha, beta, maximizing).1 == Some(ValidMoves(e.board)[0])
  {
    MinimaxValueIsZero(e, depth, alpha, beta, maximizing);
    if depth > 0 && e.gameStatus == Ongoing {
      SearchTakesFirst(e, ValidMoves(e.board), depth, alpha, beta, maximizing, if maximizing then NegInf else PosInf);
    }
  }

  lemma {:induction false} MinimaxValueIsZero(e: Env, depth: nat, alpha: Score, beta: Score, maximizing: bool)
    requires Playable(e)
    ensures Minimax(e, depth, alpha, beta, maximizing).0 == Fin(0)
    decreases depth, 2
  {
    if depth > 0 && e.gameStatus == Ongoing {
      SearchTakesFirst(e, ValidMoves(e.board), depth, alpha, beta, maximizing, if maximizing then NegInf else PosInf);
    }
  }

  /** From an initial best value that 0 beats, the first child (worth 0)
      becomes the best move and is then kept. */
  lemma {:induction false} SearchTakesFirst(e: Env, moves: seq<int>, depth: nat, alpha: Score, beta: Score,
                                            maximizing: bool, start: Score)
    requires Playable(e) && depth > 0
    requires if maximizing then Greater(Fin(0), start) else Greater(start, Fin(0))
    ensures |moves| > 0 ==> Search(e, moves, depth, alpha, beta, maximizing, start, None) == (Fin(0), Some(moves[0]))
    decreases depth, 1
  {
    if |moves| > 0 {
      ChildIsZero(e, moves[0], depth - 1, alpha, beta, !maximizing);
      var value := Minimax(DropPiece(Clone(e), moves[0]).1, depth - 1, alpha, beta, !maximizing).0;
      assert value == Fin(0);
      var alpha' := if maximizing then Max(alpha, Fin(0)) else alpha;
      var beta' := if maximizing then beta else Min(beta, Fin(0));
      if Greater(beta', alpha') {
        SearchKeepsFirst(e, moves[1..], depth, alpha', beta', maximizing, moves[0]);
        assert Search(e, moves, depth, alpha, beta, maximizing, start, None)
            == Search(e, moves[1..], depth, alpha', beta', maximizing, Fin(0), Some(moves[0]));
      }
    }
  }

  /** Once the best value is 0, no later child (all worth 0) is strictly
      better, so the first move found is kept. */
  lemma {:induction false} SearchKeepsFirst(e: Env, moves: seq<int>, depth: nat, alpha: Score, beta: Score,
                                            maximizing: bool, first: int)
    requires Playable(e) && depth > 0
    ensures Search(e, moves, depth, alpha, beta, maximizing, Fin(0), Some(first)) == (Fin(0), Some(first))
    decreases depth, 0, |moves|
  {
    if |moves| > 0 {
      ChildIsZero(e, moves[0], depth - 1, alpha, beta, !maximizing);
      var value := Minimax(DropPiece(Clone(e), moves[0]).1, depth - 1, alpha, beta, !maximizing).0;
      assert value == Fin(0) && !Greater(value, Fin(0)) && !Greater(Fin(0), value);
      var alpha' := if maximizing then Max(alpha, Fin(0)) else alpha;
      var beta' := if maximizing then beta else Min(beta, Fin(0));
      if Greater(beta', alpha') {
        SearchKeepsFirst(e, moves[1..], depth, alpha', beta', maximizing, first);
        assert Search(e, moves, depth, alpha, beta, maximizing, Fin(0), Some(first))
            == Search(e, moves[1..], depth, alpha', beta', maximizing, Fin(0), Some(first));
      }
    }
  }

  /** Any child of a playable state is playable, so its value is 0. */
  lemma {:induction false} ChildIsZero(e: Env, move: int, depth: nat, alpha: Score, beta: Score, maximizing: bool)
    requires Playable(e)
    ensures Minimax(DropPiece(Clone(e), move).1, depth, alpha, beta, maximizing).0 == Fin(0)
    decreases depth, 3
  {
    DropKeepsPlayable(Clone(e), move);
    MinimaxValueIsZero(DropPiece(Clone(e), move).1, depth, alpha, beta, maximizing);
  }

  // ---------------------------------------------------------------------
  // Unpruned reference search
  // ---------------------------------------------------------------------

  /** The same search with the same tie-break but without alpha-beta
      pruning: every legal move is tried. */
  function PlainMinimax(e: Env, depth: nat, maximizing: bool): (r: (Score, Option<int>))
    requires WellFormed(e.board)
    ensures depth == 0 || e.gameStatus != Ongoing ==> r == (Fin(0), None)
    ensures r.1.Some? ==> r.1.value in ValidMoves(e.board)
    decreases depth, 1
  {
    if depth == 0 || e.gameStatus != Ongoing then (Fin(0), None)
    else PlainSearch(e, ValidMoves(e.board), depth, maximizing, if maximizing then NegInf else PosInf, None)
  }

  function PlainSearch(e: Env, moves: seq<int>, depth: nat, maximizing: bool,
                       best: Score, bestMove: Option<int>): (r: (Score, Option<int>))
    requires WellFormed(e.board) && depth > 0
    ensures r.1.Some? ==> r.1 == bestMove || r.1.value in moves
    decreases depth, 0, |moves|
  {
    if |moves| == 0 then (best, bestMove)
    else
      var value := PlainMinimax(DropPiece(Clone(e), moves[0]).1, depth - 1, !maximizing).0;
      var improves := if maximizing then Greater(value, best) else Greater(best, value);
      PlainSearch(e, moves[1..], depth, maximizing,
                  if improves then value else best,
                  if improves then Some(moves[0]) else bestMove)
  }

  lemma PlainMinimaxIsBlind(e: Env, depth: nat, maximizing: bool)
    requires Playable(e)
    ensures PlainMinimax(e, depth, maximizing).0 == Fin(0)
    ensures depth > 0 && e.gameStatus == Ongoing ==>
              PlainMinimax(e, depth, maximizing).1 == Some(ValidMoves(e.board)[0])
  {
    PlainMinimaxValueIsZero(e, depth, maximizing);
    if depth > 0 && e.gameStatus == Ongoing {
      PlainSearchTakesFirst(e, ValidMoves(e.board), depth, maximizing, if maximizing then NegInf else PosInf);
    }
  }

  lemma {:induction false} PlainMinimaxValueIsZero(e: Env, depth: nat, maximizing: bool)
    requires Playable(e)
    ensures PlainMinimax(e, depth, maximizing).0 == Fin(0)
    decreases depth, 2
  {
    if depth > 0 && e.gameStatus == Ongoing {
      PlainSearchTakesFirst(e, ValidMoves(e.board), depth, maximizing, if maximizing then NegInf else PosInf);
    }
  }

  lemma {:induction false} PlainSearchTakesFirst(e: Env, moves: seq<int>, depth: nat, maximizing: bool, start: Score)
    requires Playable(e) && depth > 0
    requires if maximizing then Greater(Fin(0), start) else Greater(start, Fin(0))
    ensures |moves| > 0 ==> PlainSearch(e, moves, depth, maximizing, start, None) == (Fin(0), Some(moves[0]))
    decreases depth, 1
  {
    if |moves| > 0 {
      PlainChildIsZero(e, moves[0], depth - 1, !maximizing);
      var value := PlainMinimax(DropPiece(Clone(e), moves[0]).1, depth - 1, !maximizing).0;
      assert value == Fin(0);
      PlainSearchKeepsFirst(e, moves[1..], depth, maximizing, moves[0]);
      assert PlainSearch(e, moves, depth, maximizing, start, None)
          == PlainSearch(e, moves[1..], depth, maximizing, Fin(0), Some(moves[0]));
    }
  }

  lemma {:induction false} PlainSearchKeepsFirst(e: Env, moves: seq<int>, depth: nat, maximizing: bool, first: int)
    requires Playable(e) && depth > 0
    ensures PlainSearch(e, moves, depth, maximizing, Fin(0), Some(first)) == (Fin(0), Some(first))
    decreases depth, 0, |moves|
  {
    if |moves| > 0 {
      PlainChildIsZero(e, moves[0], depth - 1, !maximizing);
      var value := PlainMinimax(DropPiece(Clone(e), moves[0]).1, depth - 1, !maximizing).0;
      assert value == Fin(0) && !Greater(value, Fin(0)) && !Greater(Fin(0), value);
      PlainSearchKeepsFirst(e, moves[1..], depth, maximizing, first);
      assert PlainSearch(e, moves, depth, maximizing, Fin(0), Some(first))
          == PlainSearch(e, moves[1..], depth, maximizing, Fin(0), Some(first));
    }
  }

  lemma {:induction false} PlainChildIsZero(e: Env, move: int, depth: nat, maximizing: bool)
    requires Playable(e)
    ensures PlainMinimax(DropPiece(Clone(e), move).1, depth, maximizing).0 == Fin(0)
    decreases depth, 3
  {
    DropKeepsPlayable(Clone(e), move);
    PlainMinimaxValueIsZero(DropPiece(Clone(e), move).1, depth, maximizing);
  }

  /** On playable states pruning changes neither the value nor the move. */
  lemma PruningPreservesResult(e: Env, depth: nat, alpha: Score, beta: Score, maximizing: bool)
    requires Playable(e)
    ensures Minimax(e, depth, alpha, beta, maximizing) == PlainMinimax(e, depth, maximizing)
  {
    MinimaxIsBlind(e, depth, alpha, beta, maximizing);
    PlainMinimaxIsBlind(e, depth, maximizing);
  }

  // ---------------------------------------------------------------------
  // The search robot's move
  // ---------------------------------------------------------------------

  /** Dropping into `m` on a copy whose side to move is `mover` succeeds and
      leaves the status equal to `mover`. */
  predicate WinsFor(e: Env, mover: Status, m: int)
    requires WellFormed(e.board)
  {
    var r := DropPiece(Clone(e).(currentPlayer := mover), m);
    r.0 && r.1.gameStatus == mover
  }

  /** The first of `moves` that wins for `mover`. */
  function FirstWinning(e: Env, mover: Status, moves: seq<int>): (r: Option<int>)
    requires WellFormed(e.board) && Ascending(moves)
    ensures r.Some? ==> r.value in moves && WinsFor(e, mover, r.value)
    ensures r.Some? ==> forall m :: m in moves && m < r.value ==> !WinsFor(e, mover, m)
    ensures r.None? ==> forall m :: m in moves ==> !WinsFor(e, mover, m)
  {
    if |moves| == 0 then None
    else if WinsFor(e, mover, moves[0]) then Some(moves[0])
    else FirstWinning(e, mover, moves[1..])
  }

  /** Picks the entry at the oracle's index; an empty list has nothing to
      pick from and raises, modelled as None. */
  function RandomChoice(moves: seq<int>, pick: nat): (r: Option<int>)
    ensures r.Some? <==> |moves| > 0
    ensures r.Some? ==> r.value in moves
  {
    if |moves| == 0 then None else Some(moves[pick % |moves|])
  }

  /** The search robot's move: the lowest winning column, else the lowest
      column where the opponent would win, else the minimax move unless it
      is column 0 (which the `or` fallback treats as no move), else a random
      legal column. None models the error raised with no legal column. */
  function GetAction(e: Env, pick: nat): (r: Option<int>)
    requires WellFormed(e.board)
    ensures r.None? <==> |ValidMoves(e.board)| == 0
    ensures r.Some? ==> r.value in ValidMoves(e.board)
    ensures (exists m :: m in ValidMoves(e.board) && WinsFor(e, e.currentPlayer, m)) ==>
              && r.Some?
              && WinsFor(e, e.currentPlayer, r.value)
              && forall m :: m in ValidMoves(e.board) && m < r.value ==> !WinsFor(e, e.currentPlayer, m)
    ensures (forall m :: m in ValidMoves(e.board) ==> !WinsFor(e, e.currentPlayer, m)) &&
            (exists m :: m in ValidMoves(e.board) && WinsFor(e, Opponent(e.currentPlayer), m)) ==>
              && r.Some?
              && WinsFor(e, Opponent(e.currentPlayer), r.value)
              && forall m :: m in ValidMoves(e.board) && m < r.value ==> !WinsFor(e, Opponent(e.currentPlayer), m)
  {
    var moves := ValidMoves(e.board);
    match FirstWinning(e, e.currentPlayer, moves)
    case Some(m) => Some(m)
    case None =>
      match FirstWinning(e, Opponent(e.currentPlayer), moves)
      case Some(m) => Some(m)
      case None =>
        var best := Minimax(Clone(e), 4, NegInf, PosInf, true).1;
        if best.Some? && best.value != 0 then best
        else RandomChoice(moves, pick)
  }

  /** With no winning and no blocking column, a playable ongoing state gets
      its lowest legal column, unless that column is 0: then the answer is
      the random choice. */
  lemma GetActionFallback(e: Env, pick: nat)
    requires Playable(e) && e.gameStatus == Ongoing
    requires forall m :: m in ValidMoves(e.board) ==> !WinsFor(e, e.currentPlayer, m)
    requires forall m :: m in ValidMoves(e.board) ==> !WinsFor(e, Opponent(e.currentPlayer), m)
    ensures var first := ValidMoves(e.board)[0];
            GetAction(e, pick) == if first != 0 then Some(first) else RandomChoice(ValidMoves(e.board), pick)
  {
    MinimaxIsBlind(Clone(e), 4, NegInf, PosInf, true);
  }

  /** A finished game with no winning or blocking column gets the random
      choice: the search returns no move. */
  lemma GetActionOnFinishedGame(e: Env, pick: nat)
    requires WellFormed(e.board) && e.gameStatus != Ongoing
    requires forall m :: m in ValidMoves(e.board) ==> !WinsFor(e, e.currentPlayer, m)
    requires forall m :: m in ValidMoves(e.board) ==> !WinsFor(e, Opponent(e.currentPlayer), m)
    ensures GetAction(e, pick) == RandomChoice(ValidMoves(e.board), pick)
  {
    var moves := ValidMoves(e.board);
    assert FirstWinning(e, e.currentPlayer, moves).None?;
    assert FirstWinning(e, Opponent(e.currentPlayer), moves).None?;
    assert Minimax(Clone(e), 4, NegInf, PosInf, true).1.None?;
  }

  /** On an ongoing state, a winning column for `mover` is exactly one whose
      landing cell completes four in a row for `mover`. */
  lemma WinsForMeansConnectsFour(e: Env, mover: Status, m: int)
    requires WellFormed(e.board) && e.gameStatus == Ongoing && IsPlayer(mover)
    requires 0 <= m < Cols && e.board[0][m] == Blank
    ensures var after := DropPiece(Clone(e).(currentPlayer := mover), m).1;
            WinsFor(e, mover, m) <==> ConnectsFour(after.board, LandingRow(e.board, m), m, mover)
  {
    DropStatus(Clone(e).(currentPlayer := mover), m);
  }

  // ---------------------------------------------------------------------
  // The random robot
  // ---------------------------------------------------------------------

  /** Some legal column, or None when the top row is full. */
  function RandomAction(e: Env, pick: nat): (r: Option<int>)
    requires WellFormed(e.board)
    ensures r.Some? <==> exists c :: 0 <= c < Cols && e.board[0][c] == Blank
    ensures r.Some? ==> 0 <= r.value < Cols && e.board[0][r.value] == Blank
  {
    var moves := ValidMoves(e.board);
    assert forall c :: 0 <= c < Cols && e.board[0][c] == Blank ==> c in moves;
    RandomChoice(moves, pick)
  }
}
