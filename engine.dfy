/** The FoxAndGeese game state (module_logic.js): the board, whose turn it
    is, the geese kicked out so far, the moves played, the cached fox
    position and the cached list of fox destinations; with the turn entry
    points, win detection and the snapshot round trip. */
module Logic {
  import opened Wrappers
  import opened Board
  import opened Rules

  /** What FoxAndGeese.toDict produces and FoxAndGeese.fromDict consumes. */
  datatype GameDict = GameDict(gameBoard: BoardDict, currentPlayer: Player, geeseKicked: nat, moveHistory: seq<Move>)

  /** The fox wins once this many geese have been kicked out. */
  const FoxWinKicks := 10

  /** Column-major order, the order in which findFoxPosition visits cells. */
  predicate ScannedBefore(a: Pos, b: Pos) {
    a.col < b.col || (a.col == b.col && a.row < b.row)
  }

  /** `pos` is what findFoxPosition answers for `g`: the first fox cell in
      column-major order, or None when the board holds no fox. */
  ghost predicate IsFoxScan(g: Grid, pos: Option<Pos>)
    requires IsGrid(g)
  {
    match pos
    case None => forall q :: InBounds(q) ==> At(g, q) != Fox
    case Some(p) =>
      InBounds(p) && At(g, p) == Fox &&
      forall q :: InBounds(q) && ScannedBefore(q, p) ==> At(g, q) != Fox
  }

  /** On a board with exactly one fox the scan finds that fox. */
  lemma FoxScanFindsTheFox(g: Grid, pos: Option<Pos>, q: Pos)
    requires IsGrid(g) && Count(g, Fox) == 1 && IsFoxScan(g, pos)
    requires InBounds(q) && At(g, q) == Fox
    ensures pos == Some(q)
  {
    if pos.None? {
      CountPositive(g, q, Fox);
    } else {
      CountOneUnique(g, pos.value, q, Fox);
    }
  }

  /** What every game played from the start keeps: one fox, the corners and
      only they ' ', a cached fox position on the board, and when the geese
      are to move that position is the fox's cell. (After resetGame the cache
      may lag behind while the fox is to move: the fox's next move refreshes
      it.) */
  ghost predicate Playable(g: Grid, player: Player, last: Option<Pos>) {
    IsGrid(g) && Count(g, Fox) == 1 && CornersInvalid(g) &&
    last.Some? && InBounds(last.value) && (player == GeeseSide ==> At(g, last.value) == Fox)
  }

  /** A fox move accepted on a playable board leaves it playable with the
      geese to move and the fox cached on the end cell. */
  lemma FoxMoveKeepsPlayable(g: Grid, s: Pos, e: Pos, last: Option<Pos>)
    requires IsGrid(g) && InBounds(s) && LogicValidMove(g, FoxSide, s, e) == ValidPosition
    requires Playable(g, FoxSide, last)
    ensures InBounds(e) && Playable(AfterMove(g, s, e), GeeseSide, Some(e))
  {
    MoveKeepsLayout(g, FoxSide, s, e, s);
  }

  /** A move accepted on a playable board and played through geeseMove
      leaves it playable with the fox to move; a goose move leaves the fox,
      and the cache, where they were. */
  lemma GeeseTurnKeepsPlayable(g: Grid, player: Player, s: Pos, e: Pos, last: Option<Pos>)
    requires IsGrid(g) && InBounds(s) && LogicValidMove(g, player, s, e) == ValidPosition
    requires Playable(g, player, last)
    ensures InBounds(e) && Playable(AfterMove(g, s, e), FoxSide, if At(g, s) == Fox then Some(e) else last)
    ensures player == GeeseSide ==> At(g, s) != Fox && At(AfterMove(g, s, e), last.value) == Fox
  {
    MoveKeepsLayout(g, player, s, e, last.value);
    MoveEffect(g, player, s, e);
  }

  class FoxAndGeese {
    var gameBoard: GameBoard
    var currentPlayer: Player
    var geeseKicked: nat
    var moveHistory: seq<Move>
    /** The cached fox position (null when no fox was found). */
    var lastState: Option<Pos>
    /** The fox destinations checkWin last enumerated (null until then). */
    var validMoves: Option<seq<Pos>>

    ghost predicate Valid()
      reads this, gameBoard
    {
      IsGrid(gameBoard.board) && (lastState.Some? ==> InBounds(lastState.value))
    }

    /** What every game played from the start keeps (see Playable). */
    ghost predicate Consistent()
      reads this, gameBoard
    {
      Valid() && Playable(gameBoard.board, currentPlayer, lastState)
    }

    /** A game on the given board, or on a new board when none is given; the
        fox position is found by scanning the board. */
    constructor (gameBoard: GameBoard?, currentPlayer: Player, geeseKicked: nat, moveHistory: seq<Move>)
      requires gameBoard != null ==> IsGrid(gameBoard.board)
      ensures Valid()
      ensures gameBoard != null ==> this.gameBoard == gameBoard
      ensures gameBoard == null ==> fresh(this.gameBoard) && IsInitial(this.gameBoard.board)
      ensures this.currentPlayer == currentPlayer && this.geeseKicked == geeseKicked
      ensures this.moveHistory == moveHistory && validMoves == None
      ensures IsFoxScan(this.gameBoard.board, lastState)
    {
      var board: GameBoard;
      if gameBoard != null {
        board := gameBoard;
      } else {
        board := new GameBoard();
      }
      this.gameBoard := board;
      this.currentPlayer := currentPlayer;
      this.geeseKicked := geeseKicked;
      this.moveHistory := moveHistory;
      lastState := None;
      validMoves := None;
      new;
      lastState := FindFoxPosition();
    }

    /** A new game: the starting layout, consistent, with 18 geese and the fox
        cached at [7][4]. */
    static method NewGame() returns (game: FoxAndGeese)
      ensures fresh(game) && fresh(game.gameBoard) && game.Consistent()
      ensures IsInitial(game.gameBoard.board) && Count(game.gameBoard.board, Goose) == 18
      ensures game.currentPlayer == FoxSide && game.geeseKicked == 0 && game.moveHistory == []
      ensures game.lastState == Some(FoxStart) && game.validMoves == None
    {
      game := new FoxAndGeese(null, FoxSide, 0, []);
      InitialLayout(game.gameBoard.board);
      InitialCounts(game.gameBoard.board);
      FoxScanFindsTheFox(game.gameBoard.board, game.lastState, FoxStart);
    }

    function ToDict(): GameDict
      reads this, gameBoard
    {
      GameDict(gameBoard.ToDict(), currentPlayer, geeseKicked, moveHistory)
    }

    /** Restores a game from a snapshot: toDict of the result is the snapshot,
        and the fox position is found again by scanning the board. */
    static method FromDict(data: GameDict) returns (game: FoxAndGeese)
      requires IsGrid(data.gameBoard.board)
      ensures fresh(game) && fresh(game.gameBoard) && game.Valid()
      ensures game.ToDict() == data && game.validMoves == None
      ensures IsFoxScan(data.gameBoard.board, game.lastState)
      ensures Count(data.gameBoard.board, Fox) == 1 && CornersInvalid(data.gameBoard.board) ==>
                game.Consistent()
    {
      var board := GameBoard.FromDict(data.gameBoard);
      game := new FoxAndGeese(board, data.currentPlayer, data.geeseKicked, data.moveHistory);
      if Count(data.gameBoard.board, Fox) == 1 {
        if game.lastState.None? {
          CountZero(data.gameBoard.board, Fox);
        }
      }
    }

    /** A new board, the fox to move, no kicks and no history. The cached fox
        position and destinations are left as they were. */
    method ResetGame()
      requires Valid()
      modifies this
      ensures fresh(gameBoard) && IsInitial(gameBoard.board)
      ensures currentPlayer == FoxSide && geeseKicked == 0 && moveHistory == []
      ensures lastState == old(lastState) && validMoves == old(validMoves)
      ensures Valid() && (lastState.Some? ==> Consistent())
    {
      gameBoard := new GameBoard();
      currentPlayer := FoxSide;
      geeseKicked := 0;
      moveHistory := [];
      InitialLayout(gameBoard.board);
      InitialCounts(gameBoard.board);
    }

    /** findFoxPosition: scans the columns left to right and each column top
        to bottom for the fox. */
    method FindFoxPosition() returns (pos: Option<Pos>)
      requires IsGrid(gameBoard.board)
      ensures IsFoxScan(gameBoard.board, pos)
    {
      var board := gameBoard.board;
      var x := 0;
      while x < |board|
        invariant 0 <= x <= |board|
        invariant forall q :: InBounds(q) && q.col < x ==> At(board, q) != Fox
      {
        var y := 0;
        while y < |board[x]|
          invariant 0 <= y <= |board[x]|
          invariant forall q :: InBounds(q) && q.col < x ==> At(board, q) != Fox
          invariant forall q :: InBounds(q) && q.col == x && q.row < y ==> At(board, q) != Fox
        {
          if board[y][x] == Fox {
            return Some(Pos(y, x));
          }
          y := y + 1;
        }
        x := x + 1;
      }
      return None;
    }

    /** movePiece: plays the move if logicValidMove accepts it, and does
        nothing otherwise. */
    method MovePiece(s: Pos, e: Pos)
      requires Valid() && InBounds(s)
      modifies this, gameBoard
      ensures Valid() && gameBoard == old(gameBoard)
      ensures currentPlayer == old(currentPlayer) && validMoves == old(validMoves)
      ensures old(LogicValidMove(gameBoard.board, currentPlayer, s, e)) != ValidPosition ==>
                unchanged(this) && unchanged(gameBoard)
      ensures old(LogicValidMove(gameBoard.board, currentPlayer, s, e)) == ValidPosition ==>
                InBounds(e) &&
                gameBoard.board == AfterMove(old(gameBoard.board), s, e) &&
                moveHistory == old(moveHistory) + [Move(s, e)] &&
                geeseKicked == old(geeseKicked) + Kicked(old(gameBoard.board), s, e) &&
                lastState == (if old(At(gameBoard.board, s)) == Fox then Some(e) else old(lastState))
    {
      if LogicValidMove(gameBoard.board, currentPlayer, s, e) == ValidPosition {
        ghost var before := gameBoard.board;
        MoveEffect(before, currentPlayer, s, e);
        moveHistory := moveHistory + [Move(s, e)];
        gameBoard.board := Set(gameBoard.board, e, At(gameBoard.board, s));
        gameBoard.board := Set(gameBoard.board, s, Empty);

        if At(gameBoard.board, e) == Fox {
          lastState := Some(e);
        }

        if Abs(s.row - e.row) == 2 || Abs(s.col - e.col) == 2 {
          var mid := Mid(s, e);
          if At(gameBoard.board, mid) == Goose {
            gameBoard.board := Set(gameBoard.board, mid, Empty);
            geeseKicked := geeseKicked + 1;
          }
        }
      }
    }

    /** checkWin: the fox wins at 10 kicks (validMoves untouched); otherwise
        the fox's destinations from the cached position are enumerated into
        validMoves, and the geese win when there are none. */
    method CheckWin() returns (status: GameStatus)
      requires Valid()
      requires geeseKicked < FoxWinKicks ==> lastState.Some?
      modifies this`validMoves
      ensures geeseKicked >= FoxWinKicks ==> status == FoxWin && validMoves == old(validMoves)
      ensures geeseKicked < FoxWinKicks ==>
                validMoves == Some(PotentialMoves(gameBoard.board, lastState.value)) &&
                var moves := validMoves.value;
                status == (if |moves| == 0 || (|moves| == 1 && moves[0] == lastState.value)
                           then GeeseWin else Ongoing)
    {
      if geeseKicked >= FoxWinKicks {
        return FoxWin;
      }
      var foxPos := lastState.value;
      var board := gameBoard.board;
      var potentialMoves: seq<Pos> := [];
      for i := 0 to |Directions|
        invariant potentialMoves == StepMoves(board, foxPos, Directions[..i])
      {
        var to := Shift(foxPos, Directions[i]);
        StepMovesExtend(board, foxPos, Directions, i);
        if 0 <= to.row < Size && 0 <= to.col < Size && board[to.row][to.col] == Empty {
          potentialMoves := potentialMoves + [to];
        }
      }
      assert Directions[..|Directions|] == Directions;
      ghost var steps := potentialMoves;
      for i := 0 to |JumpDirections|
        invariant potentialMoves == steps + JumpMoves(board, foxPos, JumpDirections[..i])
      {
        ghost var prefix := JumpMoves(board, foxPos, JumpDirections[..i]);
        var d := JumpDirections[i];
        JumpsAreEven(i);
        var mid, to := Halfway(foxPos, d), Shift(foxPos, d);
        JumpOpenAt(board, foxPos, d);
        JumpMovesExtend(board, foxPos, JumpDirections, i);
        if 0 <= to.row < Size && 0 <= to.col < Size && board[mid.row][mid.col] == Goose && board[to.row][to.col] == Empty {
          assert steps + (prefix + [to]) == potentialMoves + [to];
          potentialMoves := potentialMoves + [to];
        }
      }
      assert JumpDirections[..|JumpDirections|] == JumpDirections;
      validMoves := Some(potentialMoves);

      if |potentialMoves| == 0 {
        return GeeseWin;
      }
      if |potentialMoves| == 1 && lastState.value == potentialMoves[0] {
        return GeeseWin;
      }
      return Ongoing;
    }
    /** foxMove: when logicValidMove accepts the move, plays it, caches the
        end as the fox position, hands the turn to the geese and reports
        FOX_WIN at 10 kicks, FOX_MOVING otherwise; a rejected move changes
        nothing and reports nothing. */
    method FoxMove(s: Pos, e: Pos) returns (status: Option<GameStatus>)
      requires Valid() && InBounds(s)
      modifies this, gameBoard
      ensures Valid() && gameBoard == old(gameBoard)
      ensures old(LogicValidMove(gameBoard.board, currentPlayer, s, e)) != ValidPosition ==>
                status == None && unchanged(this) && unchanged(gameBoard)
      ensures old(LogicValidMove(gameBoard.board, currentPlayer, s, e)) == ValidPosition ==>
                InBounds(e) &&
                gameBoard.board == AfterMove(old(gameBoard.board), s, e) &&
                moveHistory == old(moveHistory) + [Move(s, e)] &&
                geeseKicked == old(geeseKicked) + Kicked(old(gameBoard.board), s, e) &&
                currentPlayer == GeeseSide && lastState == Some(e) &&
                status == Some(if geeseKicked >= FoxWinKicks then FoxWin else FoxMoving) &&
                validMoves == (if geeseKicked >= FoxWinKicks then old(validMoves)
                               else Some(PotentialMoves(gameBoard.board, e)))
      ensures old(Consistent()) && old(currentPlayer) == FoxSide ==> Consistent()
    {
      if LogicValidMove(gameBoard.board, currentPlayer, s, e) == ValidPosition {
        ghost var before := gameBoard.board;
        ghost var player := currentPlayer;
        ghost var wasConsistent := Consistent() && player == FoxSide;
        if wasConsistent {
          FoxMoveKeepsPlayable(before, s, e, lastState);
        }
        MovePiece(s, e);
        lastState := Some(e);
        currentPlayer := GeeseSide;
        assert wasConsistent ==> Consistent();
        var _ := FindFoxPosition();
        var win := CheckWin();
        status := Some(if win == FoxWin then FoxWin else FoxMoving);
      } else {
        status := None;
      }
    }

    /** geeseMove: when logicValidMove accepts the move, plays it, hands the
        turn to the fox and reports GEESE_WIN when checkWin does, GOOSE_MOVING
        otherwise; a rejected move changes nothing and reports nothing. */
    method GeeseMove(s: Pos, e: Pos) returns (status: Option<GameStatus>)
      requires Valid() && InBounds(s)
      requires (LogicValidMove(gameBoard.board, currentPlayer, s, e) == ValidPosition &&
                geeseKicked < FoxWinKicks && At(gameBoard.board, s) != Fox) ==> lastState.Some?
      modifies this, gameBoard
      ensures Valid() && gameBoard == old(gameBoard)
      ensures old(LogicValidMove(gameBoard.board, currentPlayer, s, e)) != ValidPosition ==>
                status == None && unchanged(this) && unchanged(gameBoard)
      ensures old(LogicValidMove(gameBoard.board, currentPlayer, s, e)) == ValidPosition ==>
                InBounds(e) &&
                gameBoard.board == AfterMove(old(gameBoard.board), s, e) &&
                moveHistory == old(moveHistory) + [Move(s, e)] &&
                geeseKicked == old(geeseKicked) + Kicked(old(gameBoard.board), s, e) &&
                currentPlayer == FoxSide &&
                lastState == (if old(At(gameBoard.board, s)) == Fox then Some(e) else old(lastState))
      ensures old(LogicValidMove(gameBoard.board, currentPlayer, s, e)) == ValidPosition &&
              geeseKicked >= FoxWinKicks ==>
                status == Some(GooseMoving) && validMoves == old(validMoves)
      ensures old(LogicValidMove(gameBoard.board, currentPlayer, s, e)) == ValidPosition &&
              geeseKicked < FoxWinKicks ==>
                lastState.Some? &&
                validMoves == Some(PotentialMoves(gameBoard.board, lastState.value)) &&
                var moves := validMoves.value;
                status == Some(if |moves| == 0 || (|moves| == 1 && moves[0] == lastState.value)
                               then GeeseWin else GooseMoving)
      ensures old(Consistent()) ==> Consistent()
      ensures old(Consistent()) && old(currentPlayer) == GeeseSide ==>
                lastState == old(lastState) && At(gameBoard.board, lastState.value) == Fox
    {
      if LogicValidMove(gameBoard.board, currentPlayer, s, e) == ValidPosition {
        ghost var before := gameBoard.board;
        ghost var player := currentPlayer;
        ghost var last := lastState;
        ghost var wasConsistent := Consistent();
        if wasConsistent {
          GeeseTurnKeepsPlayable(before, player, s, e, last);
        }
        MovePiece(s, e);
        currentPlayer := FoxSide;
        assert wasConsistent ==> Consistent();
        var win := CheckWin();
        status := Some(if win == GeeseWin then GeeseWin else GooseMoving);
      } else {
        status := None;
      }
    }
  }
}
