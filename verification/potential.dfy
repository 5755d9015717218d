/** The search robot's window counter: how many length-4 lines of the board
    hold exactly `target` of a player's pieces with every other cell blank. */
module Potential {
  import opened Environment

  /** The four window directions, each read from its anchor cell: along a
      row, down a column, down-right, and up-right. */
  datatype Direction = Across | Down | DownRight | UpRight

  datatype Window = Window(dir: Direction, row: int, col: int)

  /** All four cells of the window lie on the board. */
  predicate Fits(w: Window) {
    match w.dir
    case Across => 0 <= w.row < Rows && 0 <= w.col && w.col + 3 < Cols
    case Down => 0 <= w.row && w.row + 3 < Rows && 0 <= w.col < Cols
    case DownRight => 0 <= w.row && w.row + 3 < Rows && 0 <= w.col && w.col + 3 < Cols
    case UpRight => 3 <= w.row < Rows && 0 <= w.col && w.col + 3 < Cols
  }

  /** The `i`-th cell of the window. */
  function Cell(b: Board, w: Window, i: int): (x: Status)
    requires WellFormed(b) && Fits(w) && 0 <= i < 4
  {
    match w.dir
    case Across => b[w.row][w.col + i]
    case Down => b[w.row + i][w.col]
    case DownRight => b[w.row + i][w.col + i]
    case UpRight => b[w.row - i][w.col + i]
  }

  function Line(b: Board, w: Window): (line: seq<Status>)
    requires WellFormed(b) && Fits(w)
    ensures |line| == 4
  {
    [Cell(b, w, 0), Cell(b, w, 1), Cell(b, w, 2), Cell(b, w, 3)]
  }

  /** How many cells of `line` hold `x`. */
  function Occurrences(line: seq<Status>, x: Status): (n: nat)
    ensures n <= |line|
  {
    if |line| == 0 then 0
    else (if line[0] == x then 1 else 0) + Occurrences(line[1..], x)
  }

  /** Every cell is either blank or a piece, so the blanks and the pieces
      of a line add up to its length. */
  lemma {:induction false} BlanksAndPieces(line: seq<Status>)
    ensures Occurrences(line, Blank) + CountPieces(line) == |line|
  {
    if |line| > 0 {
      BlanksAndPieces(line[1..]);
    }
  }

  /** The window holds `target` of `player`'s pieces and blanks elsewhere. */
  predicate Qualifies(line: seq<Status>, player: Status, target: int) {
    var mine := Occurrences(line, player);
    mine + Occurrences(line, Blank) == 4 && mine == target
  }

  /** For a colour other than Blank, the two counts cover the line exactly
      when every cell holds that colour or Blank. */
  lemma {:induction false} TwoValuesCover(line: seq<Status>, p: Status)
    requires p != Blank
    ensures Occurrences(line, p) + Occurrences(line, Blank) <= |line|
    ensures Occurrences(line, p) + Occurrences(line, Blank) == |line|
            <==> forall i :: 0 <= i < |line| ==> line[i] == p || line[i] == Blank
  {
    if |line| > 0 {
      TwoValuesCover(line[1..], p);
      assert forall i :: 1 <= i < |line| ==> line[i] == line[1..][i - 1];
    }
  }

  /** A window of four qualifies for a colour exactly when it holds `target`
      pieces of that colour and blanks elsewhere. Asked about Blank itself,
      the blanks are counted twice, so only a window with exactly two blanks
      qualifies, and only for a target of 2. */
  lemma QualifiesMeans(line: seq<Status>, player: Status, target: int)
    requires |line| == 4
    ensures player != Blank ==>
              (Qualifies(line, player, target)
               <==> (forall i :: 0 <= i < 4 ==> line[i] == player || line[i] == Blank)
                    && Occurrences(line, player) == target)
    ensures player == Blank ==>
              (Qualifies(line, player, target) <==> Occurrences(line, Blank) == 2 && target == 2)
  {
    if player != Blank {
      TwoValuesCover(line, player);
    }
  }

  /** The windows in the order the four nested loops visit them: rows then
      columns across, columns then rows down, and the two diagonals. */
  function Windows(): (ws: seq<Window>)
    ensures |ws| == 24 + 21 + 12 + 12
    ensures forall i :: 0 <= i < |ws| ==> Fits(ws[i])
  {
    seq(Rows * (Cols - 3), i => Window(Across, i / (Cols - 3), i % (Cols - 3)))
    + seq(Cols * (Rows - 3), i => Window(Down, i % (Rows - 3), i / (Rows - 3)))
    + seq((Rows - 3) * (Cols - 3), i => Window(DownRight, i / (Cols - 3), i % (Cols - 3)))
    + seq((Rows - 3) * (Cols - 3), i => Window(UpRight, 3 + i / (Cols - 3), i % (Cols - 3)))
  }

  function CountQualifying(b: Board, ws: seq<Window>, player: Status, target: int): (n: nat)
    requires WellFormed(b) && forall i :: 0 <= i < |ws| ==> Fits(ws[i])
    ensures n <= |ws|
  {
    if |ws| == 0 then 0
    else (if Qualifies(Line(b, ws[0]), player, target) then 1 else 0)
         + CountQualifying(b, ws[1..], player, target)
  }

  /** The number of windows, over all four directions, holding exactly
      `target` of `player`'s pieces and blanks elsewhere: at most the 69
      windows a 6x7 board has. */
  function CountPotential(b: Board, player: Status, target: int): (n: nat)
    requires WellFormed(b)
    ensures n <= 69
  {
    CountQualifying(b, Windows(), player, target)
  }

  // ---------------------------------------------------------------------
  // Properties
  // ---------------------------------------------------------------------

  lemma {:induction false} OccurrencesOfThree(line: seq<Status>, x: Status, y: Status, z: Status)
    requires x != y && y != z && x != z
    ensures Occurrences(line, x) + Occurrences(line, y) + Occurrences(line, z) <= |line|
  {
    if |line| > 0 {
      OccurrencesOfThree(line[1..], x, y, z);
    }
  }

  /** No window counts for two different (player, target) pairs when the
      players differ and each needs at least one piece, or when the player is
      the same and the targets differ. */
  predicate Exclusive(p: Status, t: int, q: Status, u: int) {
    || (p == q && t != u)
    || (p != q && p != Blank && q != Blank && t >= 1 && u >= 1)
  }

  lemma ExclusiveLine(line: seq<Status>, p: Status, t: int, q: Status, u: int)
    requires |line| == 4 && Exclusive(p, t, q, u)
    ensures !(Qualifies(line, p, t) && Qualifies(line, q, u))
  {
    if p != q {
      OccurrencesOfThree(line, p, q, Blank);
    }
  }

  lemma {:induction false} ExclusiveCounts(b: Board, ws: seq<Window>, p: Status, t: int, q: Status, u: int)
    requires WellFormed(b) && forall i :: 0 <= i < |ws| ==> Fits(ws[i])
    requires Exclusive(p, t, q, u)
    ensures CountQualifying(b, ws, p, t) + CountQualifying(b, ws, q, u) <= |ws|
  {
    if |ws| > 0 {
      ExclusiveLine(Line(b, ws[0]), p, t, q, u);
      ExclusiveCounts(b, ws[1..], p, t, q, u);
    }
  }

  /** A window is counted for at most one of two exclusive queries, so
      their counts together never exceed the number of windows. */
  lemma PotentialsShareWindows(b: Board, p: Status, t: int, q: Status, u: int)
    requires WellFormed(b) && Exclusive(p, t, q, u)
    ensures CountPotential(b, p, t) + CountPotential(b, q, u) <= 69
  {
    ExclusiveCounts(b, Windows(), p, t, q, u);
  }

  lemma {:induction false} BlankLineCounts(line: seq<Status>, x: Status)
    requires forall i :: 0 <= i < |line| ==> line[i] == Blank
    ensures Occurrences(line, x) == if x == Blank then |line| else 0
  {
    if |line| > 0 {
      BlankLineCounts(line[1..], x);
    }
  }

  lemma {:induction false} CountOnBlankBoard(b: Board, ws: seq<Window>, player: Status, target: int)
    requires WellFormed(b) && AllBlank(b) && forall i :: 0 <= i < |ws| ==> Fits(ws[i])
    ensures CountQualifying(b, ws, player, target)
         == if target == 0 && player != Blank then |ws| else 0
  {
    if |ws| > 0 {
      var line := Line(b, ws[0]);
      BlankLineCounts(line, player);
      BlankLineCounts(line, Blank);
      CountOnBlankBoard(b, ws[1..], player, target);
    }
  }

  /** An empty board has no window with a piece in it; for a colour, every
      window counts as holding zero pieces. */
  lemma BlankBoardPotential(b: Board, player: Status, target: int)
    requires WellFormed(b) && AllBlank(b)
    ensures target >= 1 ==> CountPotential(b, player, target) == 0
    ensures target == 0 && player != Blank ==> CountPotential(b, player, target) == 69
  {
    CountOnBlankBoard(b, Windows(), player, target);
  }

  // ---------------------------------------------------------------------
  // The loops visit every window exactly once
  // ---------------------------------------------------------------------

  /** Where the loops visit a window that fits: the inverse of the
      enumeration. */
  function Position(w: Window): (i: int)
    requires Fits(w)
    ensures 0 <= i < |Windows()|
  {
    var across := Rows * (Cols - 3);
    var down := Cols * (Rows - 3);
    var diagonal := (Rows - 3) * (Cols - 3);
    match w.dir
    case Across => w.row * (Cols - 3) + w.col
    case Down => across + w.col * (Rows - 3) + w.row
    case DownRight => across + down + w.row * (Cols - 3) + w.col
    case UpRight => across + down + diagonal + (w.row - 3) * (Cols - 3) + w.col
  }

  /** Every window that fits is visited, at its position. */
  lemma WindowsComplete(w: Window)
    requires Fits(w)
    ensures w in Windows()
    ensures Windows()[Position(w)] == w
  {
    var ws := Windows();
    match w.dir
    case Across =>
      Split(w.row, w.col, Cols - 3);
      assert ws[Position(w)] == w;
    case Down =>
      Split(w.col, w.row, Rows - 3);
      assert ws[Position(w)] == w;
    case DownRight =>
      Split(w.row, w.col, Cols - 3);
      assert ws[Position(w)] == w;
    case UpRight =>
      Split(w.row - 3, w.col, Cols - 3);
      assert ws[Position(w)] == w;
  }

  /** The window visited at index `i` sits at position `i`. */
  lemma PositionOfVisited(i: int)
    requires 0 <= i < |Windows()|
    ensures Position(Windows()[i]) == i
  {
    var across := Rows * (Cols - 3);
    var down := Cols * (Rows - 3);
    var diagonal := (Rows - 3) * (Cols - 3);
    var k := if i < across then i
             else if i < across + down then i - across
             else if i < across + down + diagonal then i - across - down
             else i - across - down - diagonal;
    var d := if across <= i < across + down then Rows - 3 else Cols - 3;
    assert k / d * d + k % d == k;
  }


  /** Division by `d` recovers the quotient and remainder it was built from. */
  lemma Split(q: int, r: int, d: int)
    requires 0 <= q && 0 <= r < d && (d == 3 || d == 4)
    ensures (q * d + r) / d == q && (q * d + r) % d == r
  {
    if d == 3 {
      assert q * d + r == 3 * q + r;
    } else {
      assert q * d + r == 4 * q + r;
    }
  }

  /** No window is visited twice. */
  lemma WindowsDistinct()
    ensures Distinct(Windows())
  {
    var ws := Windows();
    forall i, j | 0 <= i < j < |ws|
      ensures ws[i] != ws[j]
    {
      PositionOfVisited(i);
      PositionOfVisited(j);
    }
  }

  predicate Distinct(ws: seq<Window>) {
    forall i, j :: 0 <= i < j < |ws| ==> ws[i] != ws[j]
  }

  /** Reference definition: the set of windows on the board, in any
      direction, holding `target` of `player`'s pieces and blanks elsewhere. */
  ghost function QualifyingWindows(b: Board, player: Status, target: int): set<Window>
    requires WellFormed(b)
  {
    set d: Direction, r: int, c: int | 0 <= r < Rows && 0 <= c < Cols && Fits(Window(d, r, c))
                                        && Qualifies(Line(b, Window(d, r, c)), player, target)
      :: Window(d, r, c)
  }

  /** The members of `good` that `ws` visits. */
  ghost function Among(ws: seq<Window>, good: set<Window>): set<Window> {
    set w | w in ws && w in good
  }

  /** Counting the qualifying windows of a repetition-free list is taking
      the size of the set of windows it visits that qualify. */
  lemma {:induction false} CountIsCardinality(b: Board, ws: seq<Window>, player: Status, target: int, good: set<Window>)
    requires WellFormed(b) && (forall i :: 0 <= i < |ws| ==> Fits(ws[i])) && Distinct(ws)
    requires forall i :: 0 <= i < |ws| ==> (ws[i] in good <==> Qualifies(Line(b, ws[i]), player, target))
    ensures CountQualifying(b, ws, player, target) == |Among(ws, good)|
  {
    if |ws| == 0 {
      assert Among(ws, good) == {};
    } else {
      var head, tail := ws[0], ws[1..];
      assert ws == [head] + tail;
      assert Distinct(tail);
      CountIsCardinality(b, tail, player, target, good);
      assert head !in tail;
      if head in good {
        assert Among(ws, good) == Among(tail, good) + {head};
      } else {
        assert Among(ws, good) == Among(tail, good);
      }
    }
  }

  /** The count is the number of distinct qualifying windows. */
  lemma PotentialCountsWindows(b: Board, player: Status, target: int)
    requires WellFormed(b)
    ensures CountPotential(b, player, target) == |QualifyingWindows(b, player, target)|
  {
    var ws := Windows();
    var good := QualifyingWindows(b, player, target);
    WindowsDistinct();
    forall i | 0 <= i < |ws|
      ensures ws[i] in good <==> Qualifies(Line(b, ws[i]), player, target)
    {
      var w := ws[i];
      assert w == Window(w.dir, w.row, w.col);
    }
    CountIsCardinality(b, ws, player, target, good);
    forall w | w in good
      ensures w in Among(ws, good)
    {
      WindowsComplete(w);
    }
    assert Among(ws, good) == good;
  }
}
