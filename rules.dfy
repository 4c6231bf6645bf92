/** The move rules of FoxAndGeese (module_logic.js), stated on board values:
    the ordered legality checks of logicValidMove, the effect of movePiece,
    and the list of fox destinations that checkWin enumerates. */
module Rules {
  import opened Board

  /** Whose turn it is: the symbols 'F' and 'G' of currentPlayer. */
  datatype Player = FoxSide | GeeseSide

  /** The GameStatus codes. */
  datatype GameStatus =
    | GooseMoving | FoxMoving | KickOutGeese | FoxWin | GeeseWin
    | ValidInput | NotValidInput | ValidPosition | NotValidPosition | Ongoing

  /** One entry of moveHistory: [start, end]. */
  datatype Move = Move(start: Pos, end: Pos)

  function Abs(x: int): nat {
    if x < 0 then -x else x
  }

  /** The midpoint of a two-cell jump: ((sx + ex) / 2, (sy + ey) / 2). */
  function Mid(s: Pos, e: Pos): Pos {
    Pos((s.row + e.row) / 2, (s.col + e.col) / 2)
  }

  lemma MidInBounds(s: Pos, e: Pos)
    requires InBounds(s) && InBounds(e)
    ensures InBounds(Mid(s, e))
  {
  }

  // ---------------------------------------------------------------------
  // The check helpers; each holds when the corresponding source helper
  // answers NOT_VALID_POSITION.

  /** Only the end is checked against the board's size. */
  predicate IsOutOfTheBoard(e: Pos) {
    !InBounds(e)
  }

  predicate IsNotPlayersPosition(g: Grid, s: Pos)
    requires IsGrid(g) && InBounds(s)
  {
    At(g, s) == Empty
  }

  predicate IsPositionOccupiedByGoose(g: Grid, e: Pos)
    requires IsGrid(g) && InBounds(e)
  {
    At(g, e) == Goose
  }

  predicate IsTheSamePosition(s: Pos, e: Pos) {
    s == e
  }

  /** The fox's rule: from the fox's cell to a vacant cell, either one step in
      any of the eight directions, or two cells along a row, a column or a
      diagonal over a goose. */
  predicate IsValidFoxMove(g: Grid, s: Pos, e: Pos)
    requires IsGrid(g) && InBounds(s) && InBounds(e)
  {
    MidInBounds(s, e);
    At(g, s) == Fox && At(g, e) == Empty &&
    ((Abs(e.row - s.row) <= 1 && Abs(e.col - s.col) <= 1) ||
     (if Abs(e.row - s.row) == 2 && Abs(e.col - s.col) == 2 then
        At(g, Mid(s, e)) == Goose && At(g, e) == Empty
      else if Abs(e.row - s.row) == 2 && e.col == s.col then
        At(g, Pos((s.row + e.row) / 2, s.col)) == Goose && At(g, e) == Empty
      else if Abs(e.col - s.col) == 2 && e.row == s.row then
        At(g, Pos(s.row, (s.col + e.col) / 2)) == Goose && At(g, e) == Empty
      else
        false))
  }

  /** The geese's rule: one step in any of the eight directions to a vacant cell. */
  predicate IsValidGooseMove(g: Grid, s: Pos, e: Pos)
    requires IsGrid(g) && InBounds(s) && InBounds(e)
  {
    At(g, s) == Goose && At(g, e) == Empty &&
    Abs(e.row - s.row) <= 1 && Abs(e.col - s.col) <= 1
  }

  /** logicValidMove: the four ordered checks, then the rule of the player to
      move. The start is not bounds-checked by the source; its callers only
      pass cells of the board. */
  function LogicValidMove(g: Grid, player: Player, s: Pos, e: Pos): (r: GameStatus)
    requires IsGrid(g) && InBounds(s)
    ensures r == ValidPosition || r == NotValidPosition
    ensures IsOutOfTheBoard(e) ==> r == NotValidPosition
    ensures InBounds(e) && (At(g, s) == Empty || At(g, e) == Goose || s == e) ==> r == NotValidPosition
  {
    if IsOutOfTheBoard(e) then NotValidPosition
    else if IsNotPlayersPosition(g, s) then NotValidPosition
    else if IsPositionOccupiedByGoose(g, e) then NotValidPosition
    else if IsTheSamePosition(s, e) then NotValidPosition
    else match player
      case FoxSide => if IsValidFoxMove(g, s, e) then ValidPosition else NotValidPosition
      case GeeseSide => if IsValidGooseMove(g, s, e) then ValidPosition else NotValidPosition
  }

  // ---------------------------------------------------------------------
  // The eight directions of checkWin, and the fox's reach described by them

  /** The single-step directions, in checkWin's order. */
  const Directions: seq<(int, int)> :=
    [(-1, 0), (1, 0), (0, -1), (0, 1), (-1, -1), (1, 1), (-1, 1), (1, -1)]

  /** The jump directions, in checkWin's order. */
  const JumpDirections: seq<(int, int)> :=
    [(-2, 0), (2, 0), (0, -2), (0, 2), (-2, -2), (2, 2), (-2, 2), (2, -2)]

  function Shift(p: Pos, d: (int, int)): Pos {
    Pos(p.row + d.0, p.col + d.1)
  }

  /** The cell a jump in direction `d` passes over: foxPos + d / 2. */
  function Halfway(p: Pos, d: (int, int)): Pos {
    Pos(p.row + d.0 / 2, p.col + d.1 / 2)
  }

  /** A step from `f` in direction `d` lands on a vacant cell of the board. */
  predicate StepOpen(g: Grid, f: Pos, d: (int, int))
    requires IsGrid(g) && InBounds(f)
  {
    InBounds(Shift(f, d)) && At(g, Shift(f, d)) == Empty
  }

  /** A jump from `f` in direction `d` lands on a vacant cell of the board over a goose. */
  predicate JumpOpen(g: Grid, f: Pos, d: (int, int))
    requires IsGrid(g) && InBounds(f)
  {
    InBounds(Shift(f, d)) &&
    (assert InBounds(Halfway(f, d)); At(g, Halfway(f, d)) == Goose) &&
    At(g, Shift(f, d)) == Empty
  }

  /** The destinations of the first loop of checkWin over `dirs`, in order. */
  function StepMoves(g: Grid, f: Pos, dirs: seq<(int, int)>): seq<Pos>
    requires IsGrid(g) && InBounds(f)
  {
    if dirs == [] then []
    else
      var d := dirs[|dirs| - 1];
      StepMoves(g, f, dirs[..|dirs| - 1]) + (if StepOpen(g, f, d) then [Shift(f, d)] else [])
  }

  /** The destinations of the second loop of checkWin over `jumps`, in order. */
  function JumpMoves(g: Grid, f: Pos, jumps: seq<(int, int)>): seq<Pos>
    requires IsGrid(g) && InBounds(f)
  {
    if jumps == [] then []
    else
      var d := jumps[|jumps| - 1];
      JumpMoves(g, f, jumps[..|jumps| - 1]) + (if JumpOpen(g, f, d) then [Shift(f, d)] else [])
  }

  /** One more direction adds its destination, if open, at the end. */
  lemma StepMovesExtend(g: Grid, f: Pos, dirs: seq<(int, int)>, i: int)
    requires IsGrid(g) && InBounds(f) && 0 <= i < |dirs|
    ensures StepMoves(g, f, dirs[..i + 1]) ==
            StepMoves(g, f, dirs[..i]) + (if StepOpen(g, f, dirs[i]) then [Shift(f, dirs[i])] else [])
  {
    assert dirs[..i + 1][..i] == dirs[..i];
  }

  lemma JumpMovesExtend(g: Grid, f: Pos, jumps: seq<(int, int)>, i: int)
    requires IsGrid(g) && InBounds(f) && 0 <= i < |jumps|
    ensures JumpMoves(g, f, jumps[..i + 1]) ==
            JumpMoves(g, f, jumps[..i]) + (if JumpOpen(g, f, jumps[i]) then [Shift(f, jumps[i])] else [])
  {
    assert jumps[..i + 1][..i] == jumps[..i];
  }

  /** Every jump offset is even, so its halfway cell is a whole cell. */
  lemma JumpsAreEven(i: int)
    requires 0 <= i < |JumpDirections|
    ensures JumpDirections[i].0 % 2 == 0 && JumpDirections[i].1 % 2 == 0
  {
    assert i in {0, 1, 2, 3, 4, 5, 6, 7};
  }

  /** A jump by an even offset is open exactly when its landing cell is on
      the board and vacant and the cell it passes over holds a goose; a
      landing cell on the board has its halfway cell on the board too. */
  lemma JumpOpenAt(g: Grid, f: Pos, d: (int, int))
    requires IsGrid(g) && InBounds(f) && d.0 % 2 == 0 && d.1 % 2 == 0
    ensures InBounds(Shift(f, d)) ==> InBounds(Halfway(f, d))
    ensures JumpOpen(g, f, d) <==>
              InBounds(Shift(f, d)) &&
              g[Halfway(f, d).row][Halfway(f, d).col] == Goose && g[Shift(f, d).row][Shift(f, d).col] == Empty
  {
  }

  /** The list checkWin stores in validMoves for a fox at `f`. */
  function PotentialMoves(g: Grid, f: Pos): seq<Pos>
    requires IsGrid(g) && InBounds(f)
  {
    StepMoves(g, f, Directions) + JumpMoves(g, f, JumpDirections)
  }

  lemma {:induction false} StepMovesMember(g: Grid, f: Pos, dirs: seq<(int, int)>, p: Pos)
    requires IsGrid(g) && InBounds(f)
    ensures p in StepMoves(g, f, dirs) <==>
            exists i :: 0 <= i < |dirs| && p == Shift(f, dirs[i]) && StepOpen(g, f, dirs[i])
  {
    if dirs != [] {
      var n := |dirs| - 1;
      StepMovesMember(g, f, dirs[..n], p);
      if p in StepMoves(g, f, dirs) && p !in StepMoves(g, f, dirs[..n]) {
        assert p == Shift(f, dirs[n]) && StepOpen(g, f, dirs[n]);
      }
      if exists i :: 0 <= i < |dirs| && p == Shift(f, dirs[i]) && StepOpen(g, f, dirs[i]) {
        var i :| 0 <= i < |dirs| && p == Shift(f, dirs[i]) && StepOpen(g, f, dirs[i]);
        if i < n {
          assert dirs[..n][i] == dirs[i];
        }
      }
    }
  }

  lemma {:induction false} JumpMovesMember(g: Grid, f: Pos, jumps: seq<(int, int)>, p: Pos)
    requires IsGrid(g) && InBounds(f)
    ensures p in JumpMoves(g, f, jumps) <==>
            exists i :: 0 <= i < |jumps| && p == Shift(f, jumps[i]) && JumpOpen(g, f, jumps[i])
  {
    if jumps != [] {
      var n := |jumps| - 1;
      JumpMovesMember(g, f, jumps[..n], p);
      if p in JumpMoves(g, f, jumps) && p !in JumpMoves(g, f, jumps[..n]) {
        assert p == Shift(f, jumps[n]) && JumpOpen(g, f, jumps[n]);
      }
      if exists i :: 0 <= i < |jumps| && p == Shift(f, jumps[i]) && JumpOpen(g, f, jumps[i]) {
        var i :| 0 <= i < |jumps| && p == Shift(f, jumps[i]) && JumpOpen(g, f, jumps[i]);
        if i < n {
          assert jumps[..n][i] == jumps[i];
        }
      }
    }
  }

  /** The index in Directions of a single step (dr, dc). */
  function StepIndex(dr: int, dc: int): (i: nat)
    requires -1 <= dr <= 1 && -1 <= dc <= 1 && (dr, dc) != (0, 0)
    ensures i < |Directions| && Directions[i] == (dr, dc)
  {
    if (dr, dc) == (-1, 0) then 0 else if (dr, dc) == (1, 0) then 1
    else if (dr, dc) == (0, -1) then 2 else if (dr, dc) == (0, 1) then 3
    else if (dr, dc) == (-1, -1) then 4 else if (dr, dc) == (1, 1) then 5
    else if (dr, dc) == (-1, 1) then 6 else 7
  }

  /** Every single step moves by at most one cell on each axis, and moves. */
  lemma DirectionsAreSteps(i: int)
    requires 0 <= i < |Directions|
    ensures -1 <= Directions[i].0 <= 1 && -1 <= Directions[i].1 <= 1
    ensures Directions[i] != (0, 0)
    ensures JumpDirections[i] == (2 * Directions[i].0, 2 * Directions[i].1)
  {
    assert i in {0, 1, 2, 3, 4, 5, 6, 7};
  }

  /** checkWin's list, seen through the directions: a destination is listed
      exactly when some direction reaches it by a step or by a jump. */
  lemma PotentialMovesMember(g: Grid, f: Pos, p: Pos)
    requires IsGrid(g) && InBounds(f)
    ensures p in PotentialMoves(g, f) <==>
            exists i :: 0 <= i < |Directions| &&
              ((p == Shift(f, Directions[i]) && StepOpen(g, f, Directions[i])) ||
               (p == Shift(f, JumpDirections[i]) && JumpOpen(g, f, JumpDirections[i])))
  {
    StepMovesMember(g, f, Directions, p);
    JumpMovesMember(g, f, JumpDirections, p);
  }

  lemma StepIsFoxMove(g: Grid, f: Pos, d: (int, int))
    requires IsGrid(g) && InBounds(f) && At(g, f) == Fox
    requires -1 <= d.0 <= 1 && -1 <= d.1 <= 1
    requires StepOpen(g, f, d)
    ensures InBounds(Shift(f, d)) && IsValidFoxMove(g, f, Shift(f, d))
  {
  }

  lemma JumpIsFoxMove(g: Grid, f: Pos, d: (int, int))
    requires IsGrid(g) && InBounds(f) && At(g, f) == Fox
    requires -1 <= d.0 <= 1 && -1 <= d.1 <= 1 && d != (0, 0)
    requires JumpOpen(g, f, (2 * d.0, 2 * d.1))
    ensures InBounds(Shift(f, (2 * d.0, 2 * d.1))) && IsValidFoxMove(g, f, Shift(f, (2 * d.0, 2 * d.1)))
  {
    var p := Shift(f, (2 * d.0, 2 * d.1));
    assert Halfway(f, (2 * d.0, 2 * d.1)) == Shift(f, d);
    MidInBounds(f, p);
    assert Mid(f, p) == Shift(f, d);
    if d.0 == 0 {
      assert Pos(f.row, (f.col + p.col) / 2) == Shift(f, d);
    } else if d.1 == 0 {
      assert Pos((f.row + p.row) / 2, f.col) == Shift(f, d);
    }
  }

  /** A listed destination is one the fox's rule accepts from `f`. */
  lemma PotentialMoveIsFoxMove(g: Grid, f: Pos, p: Pos)
    requires IsGrid(g) && InBounds(f) && At(g, f) == Fox
    requires p in PotentialMoves(g, f)
    ensures InBounds(p) && IsValidFoxMove(g, f, p)
  {
    PotentialMovesMember(g, f, p);
    var i :| 0 <= i < |Directions| &&
      ((p == Shift(f, Directions[i]) && StepOpen(g, f, Directions[i])) ||
       (p == Shift(f, JumpDirections[i]) && JumpOpen(g, f, JumpDirections[i])));
    DirectionsAreSteps(i);
    var d := Directions[i];
    if p == Shift(f, d) && StepOpen(g, f, d) {
      StepIsFoxMove(g, f, d);
    } else {
      JumpIsFoxMove(g, f, d);
    }
  }

  /** A destination the fox's rule accepts from `f` is listed. */
  lemma FoxMoveIsPotentialMove(g: Grid, f: Pos, p: Pos)
    requires IsGrid(g) && InBounds(f) && InBounds(p)
    requires IsValidFoxMove(g, f, p)
    ensures p in PotentialMoves(g, f)
  {
    var dr, dc := p.row - f.row, p.col - f.col;
    assert p != f;
    if Abs(dr) <= 1 && Abs(dc) <= 1 {
      var i := StepIndex(dr, dc);
      assert p == Shift(f, Directions[i]) && StepOpen(g, f, Directions[i]);
    } else {
      MidInBounds(f, p);
      assert (dr == 0 || Abs(dr) == 2) && (dc == 0 || Abs(dc) == 2);
      assert At(g, Mid(f, p)) == Goose;
      var i := StepIndex(dr / 2, dc / 2);
      DirectionsAreSteps(i);
      assert JumpDirections[i] == (dr, dc);
      assert Halfway(f, JumpDirections[i]) == Mid(f, p);
      assert p == Shift(f, JumpDirections[i]) && JumpOpen(g, f, JumpDirections[i]);
    }
    PotentialMovesMember(g, f, p);
  }

  /** checkWin's list from the fox's cell holds exactly the destinations the
      fox's rule accepts. */
  lemma PotentialMovesAreFoxMoves(g: Grid, f: Pos, p: Pos)
    requires IsGrid(g) && InBounds(f) && At(g, f) == Fox
    ensures p in PotentialMoves(g, f) <==> InBounds(p) && IsValidFoxMove(g, f, p)
  {
    if p in PotentialMoves(g, f) {
      PotentialMoveIsFoxMove(g, f, p);
    }
    if InBounds(p) && IsValidFoxMove(g, f, p) {
      FoxMoveIsPotentialMove(g, f, p);
    }
  }

  /** The fox's own cell is never in checkWin's list, so its test "a single
      move equal to the fox's position" never holds. */
  lemma FoxCellNotPotentialMove(g: Grid, f: Pos)
    requires IsGrid(g) && InBounds(f)
    ensures f !in PotentialMoves(g, f)
  {
    PotentialMovesMember(g, f, f);
    forall i | 0 <= i < |Directions|
      ensures f != Shift(f, Directions[i]) && f != Shift(f, JumpDirections[i])
    {
      DirectionsAreSteps(i);
    }
  }

  /** With the fox to move, logicValidMove accepts a move exactly when the
      start holds the fox and the end is in checkWin's list from the start. */
  lemma FoxMoveRule(g: Grid, s: Pos, e: Pos)
    requires IsGrid(g) && InBounds(s)
    ensures LogicValidMove(g, FoxSide, s, e) == ValidPosition <==>
            At(g, s) == Fox && e in PotentialMoves(g, s)
  {
    if At(g, s) == Fox {
      PotentialMovesAreFoxMoves(g, s, e);
    }
  }

  /** With the geese to move, logicValidMove accepts a move exactly when a
      goose steps in one of the eight directions onto a vacant cell. */
  lemma GooseMoveRule(g: Grid, s: Pos, e: Pos)
    requires IsGrid(g) && InBounds(s)
    ensures LogicValidMove(g, GeeseSide, s, e) == ValidPosition <==>
            InBounds(e) && At(g, s) == Goose && At(g, e) == Empty &&
            exists i :: 0 <= i < |Directions| && e == Shift(s, Directions[i])
  {
    if InBounds(e) && At(g, s) == Goose && At(g, e) == Empty {
      if exists i :: 0 <= i < |Directions| && e == Shift(s, Directions[i]) {
        var i :| 0 <= i < |Directions| && e == Shift(s, Directions[i]);
        DirectionsAreSteps(i);
      }
      if LogicValidMove(g, GeeseSide, s, e) == ValidPosition {
        var i := StepIndex(e.row - s.row, e.col - s.col);
        assert e == Shift(s, Directions[i]);
      }
    }
  }

  /** A goose never moves two cells: every such goose move is rejected. */
  lemma GeeseNeverJump(g: Grid, s: Pos, e: Pos)
    requires IsGrid(g) && InBounds(s)
    requires Abs(e.row - s.row) == 2 || Abs(e.col - s.col) == 2
    ensures LogicValidMove(g, GeeseSide, s, e) == NotValidPosition
  {
  }

  /** Moves shaped like (2, 1) or (1, 2) are rejected for either side. */
  lemma KnightShapeRejected(g: Grid, player: Player, s: Pos, e: Pos)
    requires IsGrid(g) && InBounds(s)
    requires (Abs(e.row - s.row) == 2 && Abs(e.col - s.col) == 1) ||
             (Abs(e.row - s.row) == 1 && Abs(e.col - s.col) == 2)
    ensures LogicValidMove(g, player, s, e) == NotValidPosition
  {
  }

  // ---------------------------------------------------------------------
  // The effect of movePiece on the board

  /** movePiece treats a move as a jump when either axis spans two cells. */
  predicate SpansTwo(s: Pos, e: Pos) {
    Abs(s.row - e.row) == 2 || Abs(s.col - e.col) == 2
  }

  /** The board once the piece at `s` is copied to `e` and `s` is cleared. */
  function Relocated(g: Grid, s: Pos, e: Pos): Grid
    requires IsGrid(g) && InBounds(s) && InBounds(e)
  {
    Set(Set(g, e, At(g, s)), s, Empty)
  }

  /** The move kicks out a goose: it spans two cells and, after the piece
      has moved, a goose stands on the midpoint. */
  predicate Captures(g: Grid, s: Pos, e: Pos)
    requires IsGrid(g) && InBounds(s) && InBounds(e)
  {
    MidInBounds(s, e);
    SpansTwo(s, e) && At(Relocated(g, s, e), Mid(s, e)) == Goose
  }

  /** The board after movePiece applies an accepted move. */
  function AfterMove(g: Grid, s: Pos, e: Pos): Grid
    requires IsGrid(g) && InBounds(s) && InBounds(e)
  {
    MidInBounds(s, e);
    if Captures(g, s, e) then Set(Relocated(g, s, e), Mid(s, e), Empty) else Relocated(g, s, e)
  }

  /** The geese kicked out by a move: one for a capture, none otherwise. */
  function Kicked(g: Grid, s: Pos, e: Pos): nat
    requires IsGrid(g) && InBounds(s) && InBounds(e)
  {
    if Captures(g, s, e) then 1 else 0
  }

  /** An accepted move carries the moving piece from start to end and clears
      the start; it kicks out a goose exactly when it is a two-cell fox jump,
      and then that goose stood on the midpoint and its cell is cleared; no
      other cell changes. */
  lemma MoveEffect(g: Grid, player: Player, s: Pos, e: Pos)
    requires IsGrid(g) && InBounds(s)
    requires LogicValidMove(g, player, s, e) == ValidPosition
    ensures InBounds(e) && InBounds(Mid(s, e))
    ensures At(AfterMove(g, s, e), e) == At(g, s) && At(AfterMove(g, s, e), s) == Empty
    ensures At(g, s) == (if player == FoxSide then Fox else Goose) && At(g, e) == Empty
    ensures Captures(g, s, e) <==> player == FoxSide && SpansTwo(s, e)
    ensures Captures(g, s, e) ==>
              Mid(s, e) != s && Mid(s, e) != e &&
              At(g, Mid(s, e)) == Goose && At(AfterMove(g, s, e), Mid(s, e)) == Empty
    ensures forall q :: InBounds(q) && q != s && q != e && (Captures(g, s, e) ==> q != Mid(s, e)) ==>
              At(AfterMove(g, s, e), q) == At(g, q)
  {
    MidInBounds(s, e);
    if player == FoxSide && SpansTwo(s, e) {
      var m := Mid(s, e);
      if Abs(e.row - s.row) == 2 && Abs(e.col - s.col) == 2 {
      } else if Abs(e.row - s.row) == 2 {
        assert e.col == s.col;
        assert Pos((s.row + e.row) / 2, s.col) == m;
      } else {
        assert e.row == s.row;
        assert Pos(s.row, (s.col + e.col) / 2) == m;
      }
      assert At(g, m) == Goose;
      assert m != s && m != e;
    }
  }

  /** Moving a piece onto a vacant cell keeps the number of every kind of
      piece. */
  lemma RelocatedCounts(g: Grid, s: Pos, e: Pos, v: Cell)
    requires IsGrid(g) && InBounds(s) && InBounds(e) && s != e
    requires At(g, e) == Empty && v != Empty
    ensures Count(Relocated(g, s, e), v) == Count(g, v)
  {
    var g1 := Set(g, e, At(g, s));
    CountSet(g, e, At(g, s), v);
    assert At(g1, s) == At(g, s);
    CountSet(g1, s, Empty, v);
  }

  /** An accepted move keeps the number of foxes and removes exactly the
      kicked geese. */
  lemma MovePreservesCounts(g: Grid, player: Player, s: Pos, e: Pos)
    requires IsGrid(g) && InBounds(s)
    requires LogicValidMove(g, player, s, e) == ValidPosition
    ensures InBounds(e)
    ensures Count(AfterMove(g, s, e), Fox) == Count(g, Fox)
    ensures Count(AfterMove(g, s, e), Goose) + Kicked(g, s, e) == Count(g, Goose)
  {
    MoveEffect(g, player, s, e);
    RelocatedCounts(g, s, e, Fox);
    RelocatedCounts(g, s, e, Goose);
    if Captures(g, s, e) {
      CountSet(Relocated(g, s, e), Mid(s, e), Empty, Fox);
      CountSet(Relocated(g, s, e), Mid(s, e), Empty, Goose);
    }
  }


  /** An accepted move neither creates nor overwrites a ' ' cell, so it keeps
      every corner ' ' and every other cell playable. */
  lemma MovePreservesCorners(g: Grid, player: Player, s: Pos, e: Pos)
    requires IsGrid(g) && InBounds(s) && CornersInvalid(g)
    requires LogicValidMove(g, player, s, e) == ValidPosition
    ensures InBounds(e) && CornersInvalid(AfterMove(g, s, e))
  {
    MoveEffect(g, player, s, e);
  }

  /** An accepted move keeps a board with one fox and ' ' exactly on the
      corners; a fox move leaves the fox on the end cell, and a goose move
      leaves the fox where it was. */
  lemma MoveKeepsLayout(g: Grid, player: Player, s: Pos, e: Pos, f: Pos)
    requires IsGrid(g) && InBounds(s) && InBounds(f)
    requires LogicValidMove(g, player, s, e) == ValidPosition
    requires Count(g, Fox) == 1 && CornersInvalid(g)
    ensures InBounds(e) && Count(AfterMove(g, s, e), Fox) == 1 && CornersInvalid(AfterMove(g, s, e))
    ensures player == FoxSide ==> At(AfterMove(g, s, e), e) == Fox
    ensures player == GeeseSide && At(g, f) == Fox ==> At(AfterMove(g, s, e), f) == Fox
  {
    MoveEffect(g, player, s, e);
    MovePreservesCounts(g, player, s, e);
    MovePreservesCorners(g, player, s, e);
  }

  /** The fox at `f` has no valid move anywhere on the board. */
  ghost predicate FoxStuck(g: Grid, f: Pos)
    requires IsGrid(g) && InBounds(f)
  {
    forall p :: InBounds(p) ==> !IsValidFoxMove(g, f, p)
  }

  /** The geese have won (no destination, or only the fox's own cell, in
      the enumeration) exactly when the fox has no valid move at all. */
  lemma GeeseWinIffFoxStuck(g: Grid, f: Pos)
    requires IsGrid(g) && InBounds(f) && At(g, f) == Fox
    ensures (|PotentialMoves(g, f)| == 0 ||
             (|PotentialMoves(g, f)| == 1 && PotentialMoves(g, f)[0] == f))
            <==> FoxStuck(g, f)
  {
    var moves := PotentialMoves(g, f);
    FoxCellNotPotentialMove(g, f);
    forall p | InBounds(p)
      ensures p in moves <==> IsValidFoxMove(g, f, p)
    {
      PotentialMovesAreFoxMoves(g, f, p);
    }
    if |moves| != 0 {
      assert moves[0] in moves;
      PotentialMovesAreFoxMoves(g, f, moves[0]);
    }
  }
}
