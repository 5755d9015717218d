# Connect Four engine and search robot, in Dafny

This project models the core of a Connect-Four playing system. The game
engine (`Environment`) keeps a 6x7 board, the side to move and the game
status. It lists the legal columns, drops a piece and detects wins and draws
through the placed cell. The search robot (`StudentRobot`) picks a move:
first an immediate win, then an immediate block, then the result of a
depth-4 minimax with alpha-beta pruning. The random robot picks any legal
column. The robot also has a window counter (`_count_potential`), which is
modelled as well.

The engine is an immutable `Env` value. A drop returns a pair: the boolean
the source returns, and the new state. Cloning a state copies the value.

Modules:

- `Wrappers` (`wrappers.dfy`): `Option`. It stands for Python's `None` and
  for the `IndexError` that `random.choice` raises on an empty list.
- `Environment` (`environment.dfy`): the board, legal moves, turn switching,
  win and draw detection and `drop_piece`. It also holds the invariants
  around them: piece count, gravity, and `Playable`. `Playable` means the
  board is well formed, the side to move is a colour, and an ongoing game
  has a legal move.
- `Agents` (`agents.dfy`):
  - `Minimax` and its loop `Search`.
  - An unpruned reference search, `PlainMinimax`.
  - `GetAction` for the search robot and `RandomAction` for the random
    robot.
- `Potential` (`potential.dfy`): `_count_potential`. Its reference definition
  is the set of qualifying windows.
- `Scenario` (`scenario.dfy`): a worked game. Yellow fills the bottom row
  from the left, and the fourth piece wins.

Some behaviour of the code is easy to misread. The model follows the code:

- A drop on a finished game is not refused. The piece lands, the status is
  recomputed and the turn passes. The status never goes back to Ongoing:
  see `DropStatus`.
- Minimax leaves are worth 0. The heuristic `evaluate` is never called. So
  on every playable state the search is worth 0, and on a playable ongoing
  state searched to depth 1 or more it returns the lowest legal column
  (`MinimaxIsBlind`). On playable states pruning changes nothing
  (`PruningPreservesResult`).
- The robot combines the two results as `best_move or random.choice(...)`.
  Column 0 is falsy there, so a minimax answer of column 0 falls through to
  the random choice (`GetActionFallback`).

Modelling choices:

- Python's `float('inf')` sentinels become `Score = NegInf | Fin(n) | PosInf`.
- Built-in `max` and `min` keep their first argument on ties.
- A random choice is an oracle index `pick` into the list:
  `moves[pick % |moves|]`.

## Model

| member | source | states |
|---|---|---|
| Environment.Initial | Environment.py:12-17 | a new game has a 6x7 all-blank board, Yellow to move, status Ongoing |
| Environment.InitialState | Environment.py:12-20 | the initial state is playable and settled, holds no piece, and every column 0..6 is a legal move |
| Environment.Clone | Environment.py:65-70 | the copy has the same board, side to move and status as the original (as values it cannot alias the original) |
| Environment.ValidMoves | Environment.py:19-20 | the legal moves are ascending, and a column is among them iff it is in 0..6 and its top cell is blank |
| Environment.NoMovesIffTopFull | Environment.py:19-20 | there are no legal moves exactly when every top-row cell is occupied |
| Environment.Opponent | Environment.py:34-35 | switching gives a colour, and a different one from any colour it is given |
| Environment.OpponentInvolution | Environment.py:34-35 | switching twice from a colour gives the same colour back |
| Environment.StatusNeverBlank | Environment.py:4-9 | one enumeration holds both cell contents and game status; with a colour to move, a drop leaves the game status a winning colour, Draw or Ongoing, never Blank |
| Environment.ReachCovers | Environment.py:49-57 | every cell the outward walk `Reach` counts lies on the board and holds the player's colour |
| Environment.ReachStops | Environment.py:51-57 | the walk `Reach` stops only at the board's edge or at a cell of another colour, so the run it counts is maximal |
| Environment.LineLengthSpec | Environment.py:47-58 | the count `LineLength` through the placed cell reaches 4 iff four consecutive cells along that orientation, one being the placed cell, all hold its colour |
| Environment.LongRunHasWindow | Environment.py:47-58 | a count of 4 or more yields a window of four matching cells that contains the placed cell |
| Environment.WindowGivesLongRun | Environment.py:47-58 | a window of four matching cells through the placed cell forces the count to 4 or more |
| Environment.CheckGameStatus | Environment.py:37-63 | the new status is the placed cell's colour, Draw, or the previous status |
| Environment.WinDetection | Environment.py:37-63 | the status is the player's colour iff some orientation has four in a row through the placed cell; otherwise Draw iff the top row is full; otherwise unchanged |
| Environment.ScanForBlank | Environment.py:26-27 | the bottom-up scan finds a blank cell with no blank cell below it in the column, or reports that the scanned cells are all occupied |
| Environment.LandingRow | Environment.py:26-28 | in a column with a blank top cell, the piece lands on the lowest blank cell |
| Environment.DropPiece | Environment.py:22-32 | a drop succeeds iff the column is legal, so the final `return False` after the scan is unreachable; a failed drop leaves the state unchanged; a successful drop passes the turn to the other colour; the board stays 6x7 |
| Environment.DropLands | Environment.py:26-28 | a legal drop puts the mover's colour on the landing cell and changes no other cell |
| Environment.DropStatus | Environment.py:26-31 | after a legal drop the status is the mover's colour iff the landing cell completes four in a row, else Draw iff the top row is full, else the old status; a finished game never becomes Ongoing again |
| Environment.DropAddsOnePiece | Environment.py:26-31 | a legal drop adds exactly one piece, and is only possible while the board holds fewer than 42 pieces |
| Environment.DropKeepsSettled | Environment.py:26-28 | any drop keeps gravity: no piece has a blank cell directly below it |
| Environment.DropKeepsPlayable | Environment.py:22-63 | any drop, legal or not, from a playable state gives a playable state (an ongoing game always has a legal move) |
| Agents.Max | Agents.py:47 | the result is one of the two arguments and neither argument is above it |
| Agents.Min | Agents.py:53 | the result is one of the two arguments and neither argument is below it |
| Agents.Minimax | Agents.py:30-58 | a depth cut-off or a finished game gives (0, None); any move returned is a legal column of the state searched |
| Agents.Search | Agents.py:38-58 | the move the loop returns is the best move it started with or one of the moves it was given |
| Agents.MinimaxIsBlind | Agents.py:30-58 | on a playable state the value is 0, and a search that expands the root returns its lowest legal column, for every alpha-beta window |
| Agents.MinimaxValueIsZero | Agents.py:31-53 | every value the search computes on a playable state is 0, since all leaves are 0 |
| Agents.ChildIsZero | Agents.py:38-49 | the value of any child of a playable state is 0 |
| Agents.SearchTakesFirst | Agents.py:38-56 | on a playable state and a non-empty move list, from an initial best value that 0 strictly beats, the first child becomes the best move, and the loop ends with (0, first move) |
| Agents.SearchKeepsFirst | Agents.py:42-56 | once the best value is 0, no later child is strictly better, so the loop keeps the move it has |
| Agents.PlainMinimax | Agents.py:30-58 | the unpruned search: a cut-off or finished game gives (0, None); any move returned is legal |
| Agents.PlainSearch | Agents.py:38-58 | the unpruned loop returns the best move it started with or one of its moves |
| Agents.PlainMinimaxIsBlind | Agents.py:30-58 | on a playable state the unpruned search is worth 0, and on an ongoing one searched to depth 1 or more it picks the lowest legal column |
| Agents.PlainMinimaxValueIsZero | Agents.py:31-53 | every unpruned value on a playable state is 0 |
| Agents.PlainChildIsZero | Agents.py:38-49 | every child of a playable state is worth 0 in the unpruned search |
| Agents.PlainSearchTakesFirst | Agents.py:38-53 | on a playable state and a non-empty move list, from an initial best value that 0 strictly beats, the unpruned loop takes its first move and ends with (0, first move) |
| Agents.PlainSearchKeepsFirst | Agents.py:42-53 | the unpruned loop keeps a move of value 0 to the end |
| Agents.PruningPreservesResult | Agents.py:55-56 | on playable states the alpha-beta cut-off changes neither the value nor the move |
| Agents.FirstWinning | Agents.py:13-24 | the scan answers the lowest listed column whose drop (with the given side to move on a copy) succeeds and wins for that side, or None when no listed column does |
| Agents.RandomChoice | Agents.py:28 | an entry exists iff the list is non-empty, and it is one of the list's entries |
| Agents.GetAction | Agents.py:9-28 | no move iff no legal column; any move is legal; if some column wins now, the lowest winning column is returned; otherwise, if the opponent could win somewhere, the lowest such column is returned |
| Agents.GetActionFallback | Agents.py:26-28 | on a playable ongoing state with no win and no block, the move is the lowest legal column, unless that is column 0, in which case it is the random choice |
| Agents.GetActionOnFinishedGame | Agents.py:26-32 | on a finished game with no win and no block, the search gives no move and the answer is the random choice |
| Agents.WinsForMeansConnectsFour | Agents.py:13-23 | the test `WinsFor` used by both the win scan and the block scan: on an ongoing state, a column wins for a colour iff its landing cell completes four in a row for that colour |
| Agents.RandomAction | Agents.py:127-129 | a move exists iff some top cell is blank, and the move is a column with a blank top cell |
| Potential.Occurrences | Agents.py:93-94 | the number of cells holding a value is at most the line's length |
| Potential.BlanksAndPieces | Agents.py:93-94 | the blanks of a line and its pieces together make up the whole line |
| Potential.TwoValuesCover | Agents.py:93-95 | for a colour other than Blank, that colour's count plus the blank count reaches the line's length iff every cell holds one of the two |
| Potential.QualifiesMeans | Agents.py:92-96 | `Qualifies`: a window qualifies for a colour iff it holds exactly `target` of that colour's pieces and blanks elsewhere; asked about Blank, only a window with two blanks qualifies, for a target of 2 |
| Potential.Windows | Agents.py:89-123 | the four loops visit 24 + 21 + 12 + 12 windows, each of which fits on the board |
| Potential.WindowsComplete | Agents.py:89-123 | every window of four that fits on the board, in any of the four directions, is visited, at the index `Position` gives it |
| Potential.PositionOfVisited | Agents.py:89-123 | `Position` inverts the loops' order: the window visited at index i has position i |
| Potential.WindowsDistinct | Agents.py:89-123 | no window is visited twice |
| Potential.CountPotential | Agents.py:85-125 | the count is at most 69, the number of windows on a 6x7 board |
| Potential.CountIsCardinality | Agents.py:95-96 | `CountQualifying` along a repetition-free list of windows gives the size of the set of qualifying windows it visits |
| Potential.PotentialCountsWindows | Agents.py:85-125 | the count equals the number of distinct board windows holding exactly `target` of the player's pieces and blanks elsewhere |
| Potential.ExclusiveLine | Agents.py:93-95 | one window cannot qualify for two different targets of the same player, nor for two different colours with at least one piece each |
| Potential.ExclusiveCounts | Agents.py:85-125 | two exclusive queries together count no more windows than the list has |
| Potential.PotentialsShareWindows | Agents.py:85-125 | the counts of two exclusive queries add up to at most 69 |
| Potential.BlankBoardPotential | Agents.py:85-125 | on an empty board a target of 1 or more counts 0 windows, and a target of 0 for a colour counts all 69 |
| Scenario.PrefixDrop | Environment.py:22-32 | with Yellow to move and the bottom row's left cells Yellow, the next drop is legal and extends the row by one Yellow cell |
| Scenario.ShortPrefixKeepsStatus | Environment.py:37-63 | the first, second and third Yellow pieces of the row neither win nor fill the top row, so the status is unchanged |
| Scenario.ExtendPrefix | Environment.py:22-63 | with Yellow to move and the bottom row's left cells Yellow, the next drop is legal, extends the row, and leaves the status unchanged before the fourth piece |
| Scenario.FourthPieceWins | Environment.py:47-60 | the fourth Yellow piece on the bottom row sets the status to Yellow |
| Scenario.ShortPrefixNoFour | Environment.py:47-60 | three or fewer Yellow pieces on the bottom row contain no line of four |
| Scenario.BottomRowWin | Environment.py:12-63 | from a new game, Yellow dropping into columns 0, 1, 2, 3 (put back on move each time) makes four legal drops; the game stays ongoing for three and is won by Yellow on the fourth |

## Left out

- `evaluate` (Agents.py:60-83) is not modelled. Its first line indexes the
  environment object as a dictionary, which the environment does not
  support. The search never calls it. Its window counter
  `_count_potential` is modelled.
- `print_board` and the simulation driver `RunSimulation.py` are not part of
  this model. They are printing and the trial loop.
- The `Robot` base class only raises `NotImplementedError`. The two robots
  are modelled as plain functions.
- Randomness is an oracle index `pick`, not a distribution. The model does
  not state that every legal column can be chosen with some probability.
- Clone: the model copies a value. The claim that mutating a clone never
  affects the original holds by construction, not as a stated property.
- Minimax: the ±infinity float sentinels are the `Score` datatype. Only the
  comparisons the search makes are modelled, not floating-point arithmetic.
- The board is a sequence of sequences, not a numpy array. Its 6x7 shape is
  the `WellFormed` precondition, which every engine call in the source
  meets.
- RandomChoice: an empty list is `None` rather than a raised `IndexError`.
  The same holds for `GetAction` and `RandomAction` when the top row is full.
