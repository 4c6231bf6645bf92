# Fox and Geese rules engine in Dafny

This project models the rules engine of a browser Fox and Geese game.
The board is a 9x9 cross. Its four 3x3 corners are unplayable (`' '`), and every other cell
is vacant (`'-'`), a goose (`'G'`) or the fox (`'F'`). Eighteen geese start in rows 0-2 of
columns 3-5 and on all of row 3, and the fox starts at `[7][4]`. The fox moves one cell in any of
eight directions, or jumps two cells along a row, a column or a diagonal over a goose. A jumped
goose is kicked out. A goose only steps one cell. The fox wins once 10 geese have been kicked
out, and the geese win when the fox cannot move.

Files:

- `board.dfy`, module `Board`. This is `GameBoard`: the cells, positions `[row, col]`,
  `createBoard` written as its three loops and its final write, the board snapshot, and the
  facts about counting cells that the invariants rest on.
- `rules.dfy`, module `Rules`. The rules as functions on board values:
  - the four ordered checks of `logicValidMove`, then the fox's and the geese's rule;
  - what `movePiece` does to the board;
  - the list of fox destinations that `checkWin` builds.

  It also holds the lemmas tying the rules to each other. For example, `checkWin`'s list is
  exactly the set of moves the fox's rule accepts.
- `input.dfy`, module `Input`. `sanitizeValidInput`, with its regular expressions written as
  predicates, and `String.split` and `Number` modelled on the strings that reach them.
- `engine.dfy`, module `Logic`. The class `FoxAndGeese`:
  - the board, the player to move, the kicked geese, the move history, the cached fox position
    and the cached fox destinations, as fields;
  - the constructor, `toDict`/`fromDict`, `resetGame` and the `findFoxPosition` scan;
  - `movePiece`, the turn entry points `foxMove`/`geeseMove`, and `checkWin` with its two
    loops.

  The class invariant `Consistent` (built on `Playable`) holds for every game played from the
  start. It says: one fox, `' '` on the corners and only there, and, when the geese are to move,
  the cached position is the fox's cell. Every turn played through the entry point of the side to
  move keeps it: `foxMove` with the fox to move, `geeseMove` either way. `foxMove` called with the
  geese to move caches the goose's end cell as the fox's, as the source does, and then the
  invariant may fail.

`GameStatus` is a datatype instead of numeric codes. The player symbols `'F'`/`'G'` are the
datatype `Player`. `null` or `undefined` results (no fox found, a rejected move) are `Option.None`.

## Model

| member | source | states |
|---|---|---|
| `Board.GameBoard.CreateBoard` | module_board.js:23-54 | the board built is the starting layout, cell by cell: the fox at [7][4], geese on rows 0-2 of columns 3-5 and all of row 3, ' ' on the corners, '-' elsewhere |
| `Board.GameBoard.constructor` | module_board.js:4-6 | a new board holds the starting layout |
| `Board.InitialLayout` | module_board.js:25-50 | on the starting board a cell is ' ' exactly when both its row and its column lie outside 3..5; a cell holds a goose exactly on the goose rows and columns; the fox is at [7][4] and nowhere else |
| `Board.InitialCounts` | module_board.js:39-50 | the starting board holds 18 geese and exactly one fox |
| `Board.GameBoard.FromDict` | module_board.js:9-20 | a board rebuilt from a snapshot holds the snapshot's cells, so toDict after fromDict gives the snapshot back |
| `Board.CountSet` | module_logic.js:243-244 | overwriting one cell changes the count of a symbol by exactly what left and what arrived |
| `Board.CountOneUnique` | module_logic.js:82-91 | on a board with one fox, two fox cells are the same cell |
| `Rules.LogicValidMove` | module_logic.js:198-235 | the result is VALID or NOT_VALID; an end off the board, a '-' start, a goose on the end, or start equal to end are each refused |
| `Rules.FoxMoveRule` | module_logic.js:164-187 | with the fox to move, a move is accepted exactly when the start holds the fox and the end is one of the destinations checkWin lists from the start |
| `Rules.GooseMoveRule` | module_logic.js:189-196 | with the geese to move, a move is accepted exactly when the end is on the board and vacant, the start holds a goose, and the end is one step away in one of the eight directions |
| `Rules.GeeseNeverJump` | module_logic.js:189-196 | every goose move spanning two cells is refused |
| `Rules.KnightShapeRejected` | module_logic.js:164-196 | moves shaped (2,1) or (1,2) are refused for either side |
| `Rules.MoveEffect` | module_logic.js:241-256 | after an accepted move the end holds the start's piece and the start is '-'. The start held the mover's piece and the end was '-'. A capture happens exactly on a fox move spanning two cells, and then the midpoint, a goose distinct from start and end, becomes '-'. No other cell changes |
| `Rules.MovePreservesCounts` | module_logic.js:241-256 | an accepted move keeps the number of foxes and removes exactly the kicked geese |
| `Rules.MovePreservesCorners` | module_logic.js:241-256 | an accepted move neither creates nor overwrites a ' ' cell, so ' ' exactly on the corners survives it |
| `Rules.MoveKeepsLayout` | module_logic.js:241-256 | one fox and the corner layout survive an accepted move; after a fox move the fox is on the end cell, and after a goose move it is where it was |
| `Rules.StepMovesMember` | module_logic.js:314-319 | a cell is in the first loop's list exactly when some direction steps onto it and that cell is on the board and '-' |
| `Rules.JumpMovesMember` | module_logic.js:321-327 | a cell is in the second loop's list exactly when some jump lands on it, on the board and '-', over a goose |
| `Rules.StepMovesExtend` | module_logic.js:314-319 | one more direction appends its cell, when open, at the end of the first loop's list |
| `Rules.JumpMovesExtend` | module_logic.js:321-327 | one more jump appends its landing cell, when open, at the end of the second loop's list |
| `Rules.JumpOpenAt` | module_logic.js:322-324 | for an even offset, the loop's test (landing cell on the board and '-', halfway cell a goose) is the jump being open, and it never indexes off the board |
| `Rules.JumpsAreEven` | module_logic.js:307-310 | every jump offset is even, so `foxPos + d / 2` is a whole cell |
| `Rules.StepIndex` | module_logic.js:303-306 | every single step (dr, dc) other than (0, 0) is one of the eight directions, at a named index |
| `Rules.DirectionsAreSteps` | module_logic.js:303-310 | each direction moves at most one cell on each axis and moves at all; the jump with the same index is twice that direction |
| `Rules.PotentialMovesMember` | module_logic.js:312-327 | a cell is in checkWin's list exactly when some direction reaches it by an open step or an open jump |
| `Rules.StepIsFoxMove` | module_logic.js:314-319 | a step the first loop lists is a move isValidFoxMove accepts |
| `Rules.JumpIsFoxMove` | module_logic.js:321-327 | a jump the second loop lists is a move isValidFoxMove accepts |
| `Rules.PotentialMoveIsFoxMove` | module_logic.js:312-327 | every cell checkWin lists is a move the fox's rule accepts |
| `Rules.FoxMoveIsPotentialMove` | module_logic.js:164-187 | every move the fox's rule accepts is in checkWin's list |
| `Rules.PotentialMovesAreFoxMoves` | module_logic.js:312-329 | from the fox's cell, checkWin's list holds exactly the moves isValidFoxMove accepts |
| `Rules.FoxCellNotPotentialMove` | module_logic.js:335-337 | the fox's own cell is never listed, so the "single move equals the fox's position" test of checkWin never holds |
| `Rules.GeeseWinIffFoxStuck` | module_logic.js:331-337 | checkWin's GEESE_WIN condition holds exactly when the fox has no valid move anywhere on the board |
| `Input.SanitizeValidInput` | module_logic.js:93-96 | the result is VALID_INPUT or NOT_VALID_INPUT, and the commands save, exit and undo are always accepted |
| `Input.SplitAtSeparator` | module_logic.js:121 | splitting `x + sep + y`, where `x` has no separator, gives `x` followed by the split of `y` |
| `Input.SplitNoSeparator` | module_logic.js:103 | a string without the separator splits into itself |
| `Input.SplitPair` | module_logic.js:121 | "a,b" of digit runs splits at its comma into a and b, and holds no '-' |
| `Input.JoinPairs` | module_logic.js:116-121 | two "a,b" pieces joined by a dash have the goose shape and split back into the two pieces, each into its two digit runs |
| `Input.GeeseInputPieces` | module_logic.js:116-121 | "a,b-c,d" of digit runs has the goose shape and splits into the two halves and then into its four runs |
| `Input.SanitizeFoxInput` | module_logic.js:98-114 | with the fox to move, a non-command input is accepted exactly when it is digit ',' digit with neither digit 9 |
| `Input.SanitizeGeeseParts` | module_logic.js:121-129 | once "a,b-c,d" is split into its four digit runs, it is accepted exactly when b is at most 8 |
| `Input.SanitizeGeeseInput` | module_logic.js:116-132 | with the geese to move, "a,b-c,d" of digit runs is accepted exactly when b is at most 8; a, c and d are not checked |
| `Input.SanitizeRejectsOtherShapes` | module_logic.js:98-118 | a non-command input that does not have the shape for the player to move is refused |
| `Input.SanitizeValidInputCorrected` | module_logic.js:125 | the corrected check answers VALID_INPUT or NOT_VALID_INPUT |
| `Input.SanitizeGeeseInputCorrected` | module_logic.js:125 | with the geese to move, the corrected check accepts "a,b-c,d" exactly when all four numbers are at most 8 |
| `Input.SanitizeGeesePartsCorrected` | module_logic.js:125 | once "a,b-c,d" is split into four numbers, the corrected check accepts it exactly when all four are at most 8 |
| `Input.CorrectedIsStricter` | module_logic.js:125 | whatever the corrected check accepts, the check as written accepts too |
| `Input.SanitizeAcceptsOffBoardStart` | module_logic.js:125 | "9,0-0,0" with the geese to move is accepted as written and refused by the corrected check |
| `Logic.FoxScanFindsTheFox` | module_logic.js:82-91 | on a board with exactly one fox, the scan answers that fox's cell |
| `Logic.FoxMoveKeepsPlayable` | module_logic.js:260-265 | an accepted fox move on a playable board leaves it playable, with the geese to move and the fox on the end cell |
| `Logic.GeeseTurnKeepsPlayable` | module_logic.js:270-273 | a move accepted through geeseMove on a playable board leaves it playable with the fox to move; a goose move leaves the fox and the cached position unchanged |
| `Logic.FoxAndGeese.constructor` | module_logic.js:20-27 | the game takes the given board (or a new starting board) and the given fields; the cached fox position is the first fox in the column-by-column scan, or none |
| `Logic.FoxAndGeese.NewGame` | module_logic.js:20-25 | a default game has a fresh board holding the starting layout cell by cell (so 18 geese) and is consistent: fox to move, no kicks, no history, no cached destinations, fox cached at [7][4] |
| `Logic.FoxAndGeese.FromDict` | module_logic.js:61-73 | toDict of a game rebuilt from a snapshot gives the snapshot back; the fox position is found by the scan; a snapshot with one fox and the corner layout gives a consistent game, with the scanned fox cell as the cached position (the source caches it as the text "row,col", see Left out) |
| `Logic.FoxAndGeese.ResetGame` | module_logic.js:75-80 | a fresh starting board, fox to move, no kicks, empty history; the cached position and destinations are left as they were, and the game is consistent whenever a position was cached |
| `Logic.FoxAndGeese.FindFoxPosition` | module_logic.js:82-91 | the answer is the first fox in column-major order, or none when the board holds no fox |
| `Logic.FoxAndGeese.MovePiece` | module_logic.js:237-258 | a refused move changes nothing. An accepted one gives a board that is the move's effect on the old board, history plus exactly [start, end], kicks plus 1 on a capture and 0 otherwise, and the fox's new cell cached when the fox moved. The player and the destination cache are untouched |
| `Logic.FoxAndGeese.CheckWin` | module_logic.js:297-340 | at 10 or more kicks FOX_WIN, with the destination cache untouched. Otherwise the cache becomes checkWin's list from the cached fox position, and the answer is GEESE_WIN when the list is empty (or is just the fox's own cell), ONGOING otherwise |
| `Logic.FoxAndGeese.FoxMove` | module_logic.js:260-268 | a refused move changes nothing and reports nothing. An accepted one plays the move, caches the end as the fox position, gives the turn to the geese, and reports FOX_WIN exactly when the kicks reach 10, else FOX_MOVING. A consistent game with the fox to move stays consistent |
| `Logic.FoxAndGeese.GeeseMove` | module_logic.js:270-276 | a refused move changes nothing and reports nothing. An accepted one plays the move and gives the turn to the fox. Below 10 kicks it reports GEESE_WIN exactly when checkWin's list from the cached fox is empty (or just the fox's cell), else GOOSE_MOVING; at 10 or more it reports GOOSE_MOVING. Consistency is kept, and after a goose move the cached position is still the fox's cell |

## Left out

- game.js is not part of this model: drawing, the DOM, sounds, menus, saving over the network,
  the click-to-cell arithmetic and its own copy of the player to move.
- `printBoard` (console output) and `currentPlayersMove` (text splitting and dispatch) are not
  modelled.
- Aliasing: `toDict` and `fromDict` share the board array and the `moveHistory` array with the
  snapshot. So a later write to the board, or the `push` of `movePiece` (module_logic.js:242),
  also changes a snapshot taken earlier and any game built from it. Here the board and the
  history are sequence values, so a snapshot is a copy, and later writes to one are not seen
  by the other.
- The cached fox position is a string `"row,col"` after the constructor or `fromDict`
  (module_logic.js:25, 86), and an array only after a fox move (module_logic.js:247, 263).
  Here it is always a position.
- Logic.FoxAndGeese.FromDict, Logic.FoxAndGeese.GeeseMove: in the source, a game built by the
  constructor or `fromDict` with the geese to move keeps the text cache through its first goose
  move, because a goose move never refreshes the cache (module_logic.js:246-248, 272).
  - `checkWin` then reads `foxPos[1]`, the character `","`. Every column it computes
    (`"," + dy`) is NaN in the bounds tests (module_logic.js:315-316, 322-324).
  - So no destination is listed, and that move reports GEESE_WIN whatever the board
    (module_logic.js:331-332), unless 10 geese are already out.
  - The model caches the scanned cell instead. Its `GeeseMove` reports GEESE_WIN only when the
    fox has no move from that cell. So the model does not reproduce this spurious win of the
    first goose move after a load with the geese to move.
- The constructor's last parameter `validMoves` is never passed by any caller. The model always
  starts with no cached destinations.
- `logicValidMove` with a player other than `'F'` or `'G'` (its final `return`) cannot happen:
  `Player` has only the two sides.
- `sanitizeValidInput` on a non-string input is not modelled, because inputs are strings here.
- JavaScript's `Number` gives Infinity for a digit run whose value rounds past
  `Number.MAX_VALUE` (about 1.8e308), and `Number.isInteger` refuses Infinity.
  `Input.ToNumber` gives the exact value instead, so a start row that large is accepted here
  and refused by the source. Precision loss above 2^53 does not change any comparison with 0
  or 8.
- `Input.SanitizeValidInput` takes the player to move as a parameter instead of reading the
  game's field.
- `KICK_OUT_GEESE` is never returned by the engine. It is kept only as a constructor of
  `GameStatus`.
- Rules.LogicValidMove: requires the start to be on the board. The source bounds-checks only
  the end; every caller passes a clicked cell.
- Logic.FoxAndGeese.MovePiece, Logic.FoxAndGeese.FoxMove: require the start to be on the board,
  for the same reason.
- Logic.FoxAndGeese.GeeseMove: requires the start to be on the board. It also requires a cached
  fox position whenever it would reach `checkWin`. In the source that case indexes `null` and
  throws, and the model does not carry that exception.
- Logic.FoxAndGeese.CheckWin: requires a cached fox position below 10 kicks. In the source a
  `null` position throws.
- Logic.FoxAndGeese.FromDict, Logic.FoxAndGeese.constructor: require the board to be 9x9. The
  source does not validate a snapshot's or a caller's board.

## Findings

| source | as written | input that shows it | evidently intended | confidence | as-written member | corrected member |
|---|---|---|---|---|---|---|
| module_logic.js:125 | with the geese to move, the check is `start[0] >= 0 && start[1] <= 8`. The start row is never bounded above, and the end is not checked at all | `"9,0-0,0"` with the geese to move is VALID_INPUT, though row 9 is off the board | every number of `r,c-r,c` in 0..8, as the fox branch requires of its two | medium, not executed | `Input.SanitizeAcceptsOffBoardStart` | `Input.SanitizeGeeseInputCorrected` |
