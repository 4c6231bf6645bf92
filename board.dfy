/** The 9x9 cross-shaped board of Fox and Geese (module_board.js): the cell
    symbols, the starting layout built by createBoard, the board's snapshot
    and the counting facts the rest of the model relies on. */
module Board {

  /** The four cell symbols of the board: ' ' (a corner cell that is never
      playable), '-' (a vacant playable cell), 'G' (a goose) and 'F' (the fox). */
  datatype Cell = Invalid | Empty | Goose | Fox

  /** A position [row, col]; the board is indexed board[row][col]. */
  datatype Pos = Pos(row: int, col: int)

  /** The board as rows of cells. */
  type Grid = seq<seq<Cell>>

  const Size := 9

  /** A well-formed board: 9 rows of 9 cells. */
  predicate IsGrid(g: Grid) {
    |g| == Size && forall r :: 0 <= r < Size ==> |g[r]| == Size
  }

  predicate InBounds(p: Pos) {
    0 <= p.row < Size && 0 <= p.col < Size
  }

  function At(g: Grid, p: Pos): Cell
    requires IsGrid(g) && InBounds(p)
  {
    g[p.row][p.col]
  }

  /** The board with the single cell at `p` overwritten by `v`. */
  function Set(g: Grid, p: Pos, v: Cell): (h: Grid)
    requires IsGrid(g) && InBounds(p)
    ensures IsGrid(h)
    ensures forall q :: InBounds(q) ==> At(h, q) == if q == p then v else At(g, q)
  {
    g[p.row := g[p.row][p.col := v]]
  }

  // ---------------------------------------------------------------------
  // Counting cells

  function CountRow(row: seq<Cell>, v: Cell): nat {
    multiset(row)[v]
  }

  /** How many cells of the board hold `v`. */
  function Count(g: Grid, v: Cell): nat {
    if g == [] then 0 else CountRow(g[0], v) + Count(g[1..], v)
  }

  lemma CountRowUpdate(row: seq<Cell>, c: int, x: Cell, v: Cell)
    requires 0 <= c < |row|
    ensures CountRow(row[c := x], v)
            == CountRow(row, v) - (if row[c] == v then 1 else 0) + (if x == v then 1 else 0)
  {
  }

  lemma {:induction false} CountUpdateRow(g: Grid, r: int, row: seq<Cell>, v: Cell)
    requires 0 <= r < |g|
    ensures Count(g[r := row], v) == Count(g, v) - CountRow(g[r], v) + CountRow(row, v)
  {
    if r == 0 {
      assert g[r := row][1..] == g[1..];
    } else {
      assert g[r := row][1..] == g[1..][r - 1 := row];
      CountUpdateRow(g[1..], r - 1, row, v);
    }
  }

  /** Overwriting one cell changes each count by at most one, as expected. */
  lemma CountSet(g: Grid, p: Pos, x: Cell, v: Cell)
    requires IsGrid(g) && InBounds(p)
    ensures Count(Set(g, p, x), v)
            == Count(g, v) - (if At(g, p) == v then 1 else 0) + (if x == v then 1 else 0)
  {
    CountRowUpdate(g[p.row], p.col, x, v);
    CountUpdateRow(g, p.row, g[p.row][p.col := x], v);
  }

  lemma CountRowPositive(row: seq<Cell>, c: int, v: Cell)
    requires 0 <= c < |row| && row[c] == v
    ensures CountRow(row, v) >= 1
  {
    assert v in row;
  }

  lemma {:induction false} CountPositiveRows(g: Grid, r: int, c: int, v: Cell)
    requires 0 <= r < |g| && 0 <= c < |g[r]| && g[r][c] == v
    ensures Count(g, v) >= 1
  {
    if r == 0 {
      CountRowPositive(g[0], c, v);
    } else {
      CountPositiveRows(g[1..], r - 1, c, v);
    }
  }

  /** A cell holding `v` is counted. */
  lemma CountPositive(g: Grid, p: Pos, v: Cell)
    requires IsGrid(g) && InBounds(p) && At(g, p) == v
    ensures Count(g, v) >= 1
  {
    CountPositiveRows(g, p.row, p.col, v);
  }

  /** When `v` is counted exactly once, at most one cell holds it. */
  lemma CountOneUnique(g: Grid, p: Pos, q: Pos, v: Cell)
    requires IsGrid(g) && InBounds(p) && InBounds(q)
    requires Count(g, v) == 1 && At(g, p) == v && At(g, q) == v
    ensures p == q
  {
    if p != q {
      var other := if v == Empty then Invalid else Empty;
      CountSet(g, p, other, v);
      CountPositive(Set(g, p, other), q, v);
    }
  }

  lemma CountRowZero(row: seq<Cell>, v: Cell)
    requires forall c :: 0 <= c < |row| ==> row[c] != v
    ensures CountRow(row, v) == 0
  {
    assert v !in row;
  }

  lemma {:induction false} CountZeroRows(g: Grid, v: Cell)
    requires forall r, c :: 0 <= r < |g| && 0 <= c < |g[r]| ==> g[r][c] != v
    ensures Count(g, v) == 0
  {
    if g != [] {
      CountRowZero(g[0], v);
      CountZeroRows(g[1..], v);
    }
  }

  /** A board on which no cell holds `v` counts no `v`. */
  lemma CountZero(g: Grid, v: Cell)
    requires IsGrid(g)
    requires forall p :: InBounds(p) ==> At(g, p) != v
    ensures Count(g, v) == 0
  {
    forall r, c | 0 <= r < |g| && 0 <= c < |g[r]|
      ensures g[r][c] != v
    {
      assert At(g, Pos(r, c)) == g[r][c];
    }
    CountZeroRows(g, v);
  }

  // ---------------------------------------------------------------------
  // The starting layout

  /** Rows and columns 3..5 form the arms of the cross. */
  predicate InBand(i: int) {
    3 <= i <= 5
  }

  /** The four 3x3 corner blocks: neither the row nor the column is in the band. */
  predicate IsCorner(r: int, c: int) {
    !InBand(r) && !InBand(c)
  }

  /** Where the geese start: rows 0..2 of columns 3..5, and the whole of row 3. */
  predicate IsGooseStart(r: int, c: int) {
    (0 <= r <= 2 && InBand(c)) || r == 3
  }

  const FoxStart := Pos(7, 4)

  /** The starting layout, cell by cell: the fox at [7][4], the geese where
      IsGooseStart says, the corners unplayable and every other cell vacant. */
  ghost predicate IsInitial(g: Grid) {
    IsGrid(g) &&
    forall p :: InBounds(p) ==>
      At(g, p) == if p == FoxStart then Fox
                  else if IsGooseStart(p.row, p.col) then Goose
                  else if IsCorner(p.row, p.col) then Invalid
                  else Empty
  }

  /** Every corner cell, and only those, is ' '. */
  ghost predicate CornersInvalid(g: Grid)
    requires IsGrid(g)
  {
    forall p :: InBounds(p) ==> (At(g, p) == Invalid <==> IsCorner(p.row, p.col))
  }

  /** The starting layout as each piece sees it. */
  lemma InitialLayout(g: Grid)
    requires IsInitial(g)
    ensures CornersInvalid(g)
    ensures forall p :: InBounds(p) ==> (At(g, p) == Goose <==> IsGooseStart(p.row, p.col))
    ensures forall p :: InBounds(p) ==> (At(g, p) == Fox <==> p == FoxStart)
  {
  }

  const CornerRowWithGeese := [Invalid, Invalid, Invalid, Goose, Goose, Goose, Invalid, Invalid, Invalid]
  const CornerRowEmpty := [Invalid, Invalid, Invalid, Empty, Empty, Empty, Invalid, Invalid, Invalid]
  const CornerRowWithFox := [Invalid, Invalid, Invalid, Empty, Fox, Empty, Invalid, Invalid, Invalid]
  const FullRow := [Goose, Goose, Goose, Goose, Goose, Goose, Goose, Goose, Goose]
  const FullRowEmpty := [Empty, Empty, Empty, Empty, Empty, Empty, Empty, Empty, Empty]

  /** Row r of the starting layout. */
  function StartRow(r: int): seq<Cell> {
    if r <= 2 then CornerRowWithGeese
    else if r == 3 then FullRow
    else if r <= 5 then FullRowEmpty
    else if r == 7 then CornerRowWithFox
    else CornerRowEmpty
  }

  lemma InitialRows(g: Grid)
    requires IsInitial(g)
    ensures forall r :: 0 <= r < Size ==> g[r] == StartRow(r)
  {
    forall r | 0 <= r < Size
      ensures g[r] == StartRow(r)
    {
      forall c | 0 <= c < Size
        ensures g[r][c] == StartRow(r)[c]
      {
        assert At(g, Pos(r, c)) == g[r][c];
      }
    }
  }

  lemma GeeseRowCounts()
    ensures CountRow(CornerRowWithGeese, Goose) == 3 && CountRow(CornerRowWithGeese, Fox) == 0
  {
  }

  lemma FullRowCounts()
    ensures CountRow(FullRow, Goose) == 9 && CountRow(FullRow, Fox) == 0
  {
  }

  lemma EmptyRowCounts()
    ensures CountRow(FullRowEmpty, Goose) == 0 && CountRow(FullRowEmpty, Fox) == 0
    ensures CountRow(CornerRowEmpty, Goose) == 0 && CountRow(CornerRowEmpty, Fox) == 0
  {
  }

  lemma FoxRowCounts()
    ensures CountRow(CornerRowWithFox, Goose) == 0 && CountRow(CornerRowWithFox, Fox) == 1
  {
  }

  lemma RowCounts(r: int)
    ensures CountRow(StartRow(r), Goose) == (if r <= 2 then 3 else if r == 3 then 9 else 0)
    ensures CountRow(StartRow(r), Fox) == (if r == 7 then 1 else 0)
  {
    if r <= 2 {
      GeeseRowCounts();
    } else if r == 3 {
      FullRowCounts();
    } else if r == 7 {
      FoxRowCounts();
    } else {
      EmptyRowCounts();
    }
  }

  /** Counting from row k on: row k plus the rows after it. */
  lemma CountSuffix(g: Grid, k: int, v: Cell)
    requires 0 <= k < |g|
    ensures Count(g[k..], v) == CountRow(g[k], v) + Count(g[k + 1..], v)
  {
    assert g[k..][1..] == g[k + 1..];
  }

  /** Adds up the per-row counts of the starting layout. */
  lemma StartingRowsCounts(g: Grid)
    requires |g| == Size
    requires forall r :: 0 <= r < Size ==> CountRow(g[r], Goose) == (if r <= 2 then 3 else if r == 3 then 9 else 0)
    requires forall r :: 0 <= r < Size ==> CountRow(g[r], Fox) == (if r == 7 then 1 else 0)
    ensures Count(g, Goose) == 18 && Count(g, Fox) == 1
  {
    var k := 9;
    assert g[9..] == [];
    while k > 0
      invariant 0 <= k <= 9
      invariant Count(g[k..], Goose) == (if k <= 3 then 9 + 3 * (3 - k) else 0)
      invariant Count(g[k..], Fox) == (if k <= 7 then 1 else 0)
    {
      k := k - 1;
      CountSuffix(g, k, Goose);
      CountSuffix(g, k, Fox);
    }
    assert g[0..] == g;
  }

  /** The starting board holds 18 geese and exactly one fox. */
  lemma InitialCounts(g: Grid)
    requires IsInitial(g)
    ensures Count(g, Goose) == 18
    ensures Count(g, Fox) == 1
  {
    InitialRows(g);
    forall r | 0 <= r < Size
      ensures CountRow(g[r], Goose) == (if r <= 2 then 3 else if r == 3 then 9 else 0)
      ensures CountRow(g[r], Fox) == (if r == 7 then 1 else 0)
    {
      RowCounts(r);
    }
    StartingRowsCounts(g);
  }

  // ---------------------------------------------------------------------
  // The stages of createBoard

  /** After i passes of createBoard's first loop: '-' on the first i cells
      of rows 3..5 and of columns 3..5, ' ' elsewhere. */
  ghost predicate LinesUpTo(g: Grid, i: int)
    requires IsGrid(g)
  {
    forall p :: InBounds(p) ==>
      At(g, p) == if (InBand(p.row) && p.col < i) || (InBand(p.col) && p.row < i) then Empty else Invalid
  }

  lemma LinesStep(g: Grid, i: int)
    requires IsGrid(g) && 0 <= i < Size && LinesUpTo(g, i)
    ensures var h := Set(Set(Set(Set(Set(Set(g, Pos(3, i), Empty), Pos(4, i), Empty), Pos(5, i), Empty),
                         Pos(i, 3), Empty), Pos(i, 4), Empty), Pos(i, 5), Empty);
            IsGrid(h) && LinesUpTo(h, i + 1)
  {
  }

  /** After i passes of the second loop: geese on columns 3..i-1 of rows 0..2. */
  ghost predicate GeeseColumnsUpTo(g: Grid, i: int)
    requires IsGrid(g)
  {
    forall p :: InBounds(p) ==>
      At(g, p) == if 0 <= p.row <= 2 && 3 <= p.col < i then Goose
                  else if IsCorner(p.row, p.col) then Invalid
                  else Empty
  }

  lemma LinesDone(g: Grid)
    requires IsGrid(g) && LinesUpTo(g, Size)
    ensures GeeseColumnsUpTo(g, 3)
  {
  }

  lemma GeeseColumnsStep(g: Grid, i: int)
    requires IsGrid(g) && 3 <= i < 6 && GeeseColumnsUpTo(g, i)
    ensures var h := Set(Set(Set(g, Pos(0, i), Goose), Pos(1, i), Goose), Pos(2, i), Goose);
            IsGrid(h) && GeeseColumnsUpTo(h, i + 1)
  {
  }

  /** After i passes of the third loop: geese also on the first i cells of row 3. */
  ghost predicate GeeseRowUpTo(g: Grid, i: int)
    requires IsGrid(g)
  {
    forall p :: InBounds(p) ==>
      At(g, p) == if (p.row == 3 && p.col < i) || (0 <= p.row <= 2 && InBand(p.col)) then Goose
                  else if IsCorner(p.row, p.col) then Invalid
                  else Empty
  }

  lemma GeeseColumnsDone(g: Grid)
    requires IsGrid(g) && GeeseColumnsUpTo(g, 6)
    ensures GeeseRowUpTo(g, 0)
  {
  }

  lemma GeeseRowStep(g: Grid, i: int)
    requires IsGrid(g) && 0 <= i < Size && GeeseRowUpTo(g, i)
    ensures IsGrid(Set(g, Pos(3, i), Goose)) && GeeseRowUpTo(Set(g, Pos(3, i), Goose), i + 1)
  {
  }

  /** Placing the fox on the finished board gives the starting layout. */
  lemma FoxPlaced(g: Grid)
    requires IsGrid(g) && GeeseRowUpTo(g, Size)
    ensures IsInitial(Set(g, FoxStart, Fox))
  {
  }

  // ---------------------------------------------------------------------
  // The GameBoard class

  /** What GameBoard.toDict produces and GameBoard.fromDict consumes. */
  datatype BoardDict = BoardDict(board: Grid)

  class GameBoard {
    var board: Grid

    /** A new board holds the starting layout. */
    constructor ()
      ensures IsInitial(board)
    {
      var initial := CreateBoard();
      board := initial;
    }

    /** Builds the starting layout: everything ' ', then the arms of the
        cross '-', then the geese in rows 0..2 of columns 3..5, then the
        whole of row 3 geese, and finally the fox at [7][4]. */
    static method CreateBoard() returns (board: Grid)
      ensures IsInitial(board)
    {
      board := seq(Size, _ => seq(Size, _ => Invalid));
      assert LinesUpTo(board, 0);
      for i := 0 to Size
        invariant IsGrid(board) && LinesUpTo(board, i)
      {
        LinesStep(board, i);
        board := Set(board, Pos(3, i), Empty);
        board := Set(board, Pos(4, i), Empty);
        board := Set(board, Pos(5, i), Empty);
        board := Set(board, Pos(i, 3), Empty);
        board := Set(board, Pos(i, 4), Empty);
        board := Set(board, Pos(i, 5), Empty);
      }
      LinesDone(board);
      for i := 3 to 6
        invariant IsGrid(board) && GeeseColumnsUpTo(board, i)
      {
        GeeseColumnsStep(board, i);
        board := Set(board, Pos(0, i), Goose);
        board := Set(board, Pos(1, i), Goose);
        board := Set(board, Pos(2, i), Goose);
      }
      GeeseColumnsDone(board);
      for i := 0 to Size
        invariant IsGrid(board) && GeeseRowUpTo(board, i)
      {
        GeeseRowStep(board, i);
        board := Set(board, Pos(3, i), Goose);
      }
      FoxPlaced(board);
      board := Set(board, FoxStart, Fox);
    }

    function ToDict(): BoardDict
      reads this
    {
      BoardDict(board)
    }

    /** Rebuilds a board from a snapshot; toDict of the result is the snapshot. */
    static method FromDict(data: BoardDict) returns (obj: GameBoard)
      ensures fresh(obj)
      ensures obj.board == data.board && obj.ToDict() == data
    {
      obj := new GameBoard();
      obj.board := data.board;
    }
  }
}
