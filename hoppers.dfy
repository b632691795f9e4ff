/** The Hoppers board state (HoppersConfig.java): an immutable rectangular grid of cells, '.'
    empty, 'R' a red frog, 'G' a green frog, anything else water, with the list of frog
    positions in row-major order. A frog jumps over a green frog onto an empty cell, and
    the green frog it jumps over leaves the board. */
module Hoppers {
  import opened Common

  const Empty: char := '.'
  const Red: char := 'R'
  const Green: char := 'G'

  predicate IsFrog(ch: char)
  {
    ch == Green || ch == Red
  }

  datatype HoppersConfig = HoppersConfig(row: int, column: int, board: seq<seq<char>>, frogs: seq<Coord>)

  // ---------------------------------------------------------------- the grid

  predicate OnGrid(board: seq<seq<char>>, p: Coord)
  {
    0 <= p.row < |board| && 0 <= p.col < |board[p.row]|
  }

  /** The frog cells among the first `n` cells of row `r`, left to right. */
  function RowFrogs(cells: seq<char>, r: int, n: nat): seq<Coord>
    requires n <= |cells|
  {
    if n == 0 then []
    else RowFrogs(cells, r, n - 1) + (if IsFrog(cells[n - 1]) then [Coord(r, n - 1)] else [])
  }

  /** The frog cells of the first `m` rows, in row-major order. */
  function FrogsUpTo(board: seq<seq<char>>, m: nat): seq<Coord>
    requires m <= |board|
  {
    if m == 0 then []
    else FrogsUpTo(board, m - 1) + RowFrogs(board[m - 1], m - 1, |board[m - 1]|)
  }

  function Frogs(board: seq<seq<char>>): seq<Coord>
  {
    FrogsUpTo(board, |board|)
  }

  /** A well-formed state: `row` rows of `column` cells each, and the frog list derived
      from the cells as both constructors build it. */
  predicate Valid(cfg: HoppersConfig)
  {
    && cfg.row == |cfg.board|
    && cfg.column >= 0
    && (forall r :: 0 <= r < |cfg.board| ==> |cfg.board[r]| == cfg.column)
    && cfg.frogs == Frogs(cfg.board)
  }

  /** Row-major order of positions. */
  predicate Before(p: Coord, q: Coord)
  {
    p.row < q.row || (p.row == q.row && p.col < q.col)
  }

  lemma {:induction false} RowFrogsExact(cells: seq<char>, r: int, n: nat)
    requires n <= |cells|
    ensures forall p :: p in RowFrogs(cells, r, n) <==> p.row == r && 0 <= p.col < n && IsFrog(cells[p.col])
    ensures forall i, j :: 0 <= i < j < |RowFrogs(cells, r, n)| ==>
              RowFrogs(cells, r, n)[i].col < RowFrogs(cells, r, n)[j].col
  {
    if n > 0 {
      RowFrogsExact(cells, r, n - 1);
    }
  }

  lemma {:induction false} FrogsUpToExact(board: seq<seq<char>>, m: nat)
    requires m <= |board|
    ensures forall p :: p in FrogsUpTo(board, m) <==> p.row < m && OnGrid(board, p) && IsFrog(board[p.row][p.col])
    ensures forall i, j :: 0 <= i < j < |FrogsUpTo(board, m)| ==> Before(FrogsUpTo(board, m)[i], FrogsUpTo(board, m)[j])
  {
    if m > 0 {
      FrogsUpToExact(board, m - 1);
      var prev, last := FrogsUpTo(board, m - 1), RowFrogs(board[m - 1], m - 1, |board[m - 1]|);
      RowFrogsExact(board[m - 1], m - 1, |board[m - 1]|);
      assert FrogsUpTo(board, m) == prev + last;
      forall i, j | 0 <= i < j < |prev + last|
        ensures Before((prev + last)[i], (prev + last)[j])
      {
        if j < |prev| {
        } else if i < |prev| {
          assert prev[i] in prev && last[j - |prev|] in last;
        } else {
          assert last[i - |prev|] in last && last[j - |prev|] in last;
        }
      }
    }
  }

  /** The frog list holds exactly the 'R' and 'G' cells, in strictly increasing row-major
      order (so without repetition). */
  lemma FrogsExact(board: seq<seq<char>>)
    ensures forall p :: p in Frogs(board) <==> OnGrid(board, p) && IsFrog(board[p.row][p.col])
    ensures forall i, j :: 0 <= i < j < |Frogs(board)| ==> Before(Frogs(board)[i], Frogs(board)[j])
  {
    FrogsUpToExact(board, |board|);
  }

  // ---------------------------------------------------------------- cell tests

  /** `insideBounds(row, column)`. */
  function InsideBounds(cfg: HoppersConfig, row: int, column: int): (b: bool)
    ensures b <==> 0 <= row < cfg.row && 0 <= column < cfg.column
  {
    if row >= cfg.row || row < 0 then false
    else column < cfg.column && column >= 0
  }

  predicate Inside(cfg: HoppersConfig, p: Coord)
  {
    InsideBounds(cfg, p.row, p.col)
  }

  lemma InsideOnGrid(cfg: HoppersConfig, p: Coord)
    requires Valid(cfg)
    ensures Inside(cfg, p) <==> OnGrid(cfg.board, p)
  {
  }

  function Cell(cfg: HoppersConfig, p: Coord): char
    requires Valid(cfg) && Inside(cfg, p)
  {
    cfg.board[p.row][p.col]
  }

  /** `emptySpace`: the cell holds '.'; the source reads the board unchecked. */
  predicate EmptySpace(cfg: HoppersConfig, p: Coord)
    requires Valid(cfg) && Inside(cfg, p)
  {
    Cell(cfg, p) == Empty
  }

  /** `greenFrog`: the cell holds 'G'. */
  predicate GreenFrog(cfg: HoppersConfig, p: Coord)
    requires Valid(cfg) && Inside(cfg, p)
  {
    Cell(cfg, p) == Green
  }

  // ---------------------------------------------------------------- the jump table

  /** The eight (row, column) offsets of a landing cell from the jumping frog. */
  const Offsets: set<(int, int)> := {(2, 2), (-2, -2), (-2, 2), (2, -2), (0, 4), (0, -4), (-4, 0), (4, 0)}

  /** `makeMove(row, col)`: each landing cell mapped to the cell jumped over. */
  function MakeMove(row: int, col: int): map<Coord, Coord>
  {
    map[
      Coord(row + 2, col + 2) := Coord(row + 1, col + 1),
      Coord(row - 2, col - 2) := Coord(row - 1, col - 1),
      Coord(row - 2, col + 2) := Coord(row - 1, col + 1),
      Coord(row + 2, col - 2) := Coord(row + 1, col - 1),
      Coord(row, col + 4) := Coord(row, col + 2),
      Coord(row, col - 4) := Coord(row, col - 2),
      Coord(row - 4, col) := Coord(row - 2, col),
      Coord(row + 4, col) := Coord(row + 2, col)
    ]
  }

  /** `makeMove` as the source writes it: eight `put`s into an empty map. */
  method BuildMoves(row: int, col: int) returns (moves: map<Coord, Coord>)
    ensures moves == MakeMove(row, col)
  {
    moves := map[];
    moves := moves[Coord(row + 2, col + 2) := Coord(row + 1, col + 1)];
    moves := moves[Coord(row - 2, col - 2) := Coord(row - 1, col - 1)];
    moves := moves[Coord(row - 2, col + 2) := Coord(row - 1, col + 1)];
    moves := moves[Coord(row + 2, col - 2) := Coord(row + 1, col - 1)];
    moves := moves[Coord(row, col + 4) := Coord(row, col + 2)];
    moves := moves[Coord(row, col - 4) := Coord(row, col - 2)];
    moves := moves[Coord(row - 4, col) := Coord(row - 2, col)];
    moves := moves[Coord(row + 4, col) := Coord(row + 2, col)];
  }

  /** The table has eight distinct landing cells, one per offset: four diagonal at two
      cells and four straight at four cells; the cell jumped over is always the exact
      midpoint of the frog and its landing cell. */
  lemma MakeMoveTable(row: int, col: int)
    ensures |MakeMove(row, col)| == 8
    ensures MakeMove(row, col).Keys == set o | o in Offsets :: Coord(row + o.0, col + o.1)
    ensures forall d :: d in MakeMove(row, col) ==>
              2 * MakeMove(row, col)[d].row == row + d.row && 2 * MakeMove(row, col)[d].col == col + d.col
  {
    var keys := MoveKeys(row, col);
    MakeMoveKeys(row, col);
    DistinctCard(keys);
    MakeMoveMidpoints(row, col);
  }

  function MoveKeys(row: int, col: int): seq<Coord>
  {
    [Coord(row + 2, col + 2), Coord(row - 2, col - 2), Coord(row - 2, col + 2), Coord(row + 2, col - 2),
     Coord(row, col + 4), Coord(row, col - 4), Coord(row - 4, col), Coord(row + 4, col)]
  }

  lemma MakeMoveKeys(row: int, col: int)
    ensures MakeMove(row, col).Keys == set k | k in MoveKeys(row, col)
    ensures MakeMove(row, col).Keys == set o | o in Offsets :: Coord(row + o.0, col + o.1)
  {
  }

  lemma MakeMoveMidpoints(row: int, col: int)
    ensures forall d :: d in MakeMove(row, col) ==>
              2 * MakeMove(row, col)[d].row == row + d.row && 2 * MakeMove(row, col)[d].col == col + d.col
  {
  }

  /** A frog and its landing cell on the board put the jumped-over cell on the board. */
  lemma MidpointInside(cfg: HoppersConfig, f: Coord, d: Coord)
    requires Inside(cfg, f) && d in MakeMove(f.row, f.col) && Inside(cfg, d)
    ensures Inside(cfg, MakeMove(f.row, f.col)[d])
  {
    MakeMoveTable(f.row, f.col);
  }

  /** The test `getNeighbors` applies to the frog at `f` and the landing cell `d`: the
      landing cell is on the board and empty, and the cell jumped over holds a green frog. */
  predicate CanJump(cfg: HoppersConfig, f: Coord, d: Coord)
    requires Valid(cfg) && Inside(cfg, f)
  {
    && d in MakeMove(f.row, f.col)
    && InsideBounds(cfg, d.row, d.col)
    && EmptySpace(cfg, d)
    && (MidpointInside(cfg, f, d); GreenFrog(cfg, MakeMove(f.row, f.col)[d]))
  }

  datatype Checked<T> = Value(value: T) | IndexOutOfBounds

  /** `validJump(move, jumped)` as written: false for a null or off-board `jumped`;
      otherwise `emptySpace(move) && greenFrog(jumped)`, where `emptySpace` indexes the
      board at `move` without a bounds check and throws when `move` is off the board. */
  function ValidJump(cfg: HoppersConfig, move: Coord, jumped: Option<Coord>): (r: Checked<bool>)
    requires Valid(cfg)
    ensures r.IndexOutOfBounds? <==> jumped.Some? && Inside(cfg, jumped.value) && !Inside(cfg, move)
  {
    if jumped.Some? && InsideBounds(cfg, jumped.value.row, jumped.value.col) then
      if InsideBounds(cfg, move.row, move.col) then
        Value(EmptySpace(cfg, move) && GreenFrog(cfg, jumped.value))
      else
        IndexOutOfBounds
    else
      Value(false)
  }

  /** `validJump` as evidently intended: a destination off the board is no valid jump. */
  predicate LegalJump(cfg: HoppersConfig, move: Coord, jumped: Option<Coord>)
    requires Valid(cfg)
  {
    && jumped.Some? && InsideBounds(cfg, jumped.value.row, jumped.value.col)
    && InsideBounds(cfg, move.row, move.col)
    && EmptySpace(cfg, move) && GreenFrog(cfg, jumped.value)
  }

  /** Where the source's `validJump` returns, it returns the corrected verdict. */
  lemma ValidJumpAgrees(cfg: HoppersConfig, move: Coord, jumped: Option<Coord>)
    requires Valid(cfg)
    ensures ValidJump(cfg, move, jumped).Value? ==> ValidJump(cfg, move, jumped).value == LegalJump(cfg, move, jumped)
  {
  }

  /** For the landing cell a selection names and the midpoint `makeMove` gives for it,
      the corrected `validJump` is exactly the test `getNeighbors` applies. */
  lemma LegalJumpIsCanJump(cfg: HoppersConfig, initial: Coord, move: Coord)
    requires Valid(cfg) && Inside(cfg, initial)
    ensures LegalJump(cfg, move, Get(MakeMove(initial.row, initial.col), move)) <==> CanJump(cfg, initial, move)
  {
    if move in MakeMove(initial.row, initial.col) && Inside(cfg, move) {
      MidpointInside(cfg, initial, move);
    }
  }

  /** The board on which a click on the red frog at (0, 0) and then on (0, 4) makes
      `validJump` read past the end of the row: the midpoint (0, 2) is on the board. */
  const OffEdgeBoard: HoppersConfig := HoppersConfig(1, 3, [['R', '.', 'G']], [Coord(0, 0), Coord(0, 2)])

  lemma ValidJumpThrowsOffEdge()
    ensures Valid(OffEdgeBoard)
    ensures Get(MakeMove(0, 0), Coord(0, 4)) == Some(Coord(0, 2))
    ensures ValidJump(OffEdgeBoard, Coord(0, 4), Some(Coord(0, 2))).IndexOutOfBounds?
    ensures !LegalJump(OffEdgeBoard, Coord(0, 4), Some(Coord(0, 2)))
  {
    var b := OffEdgeBoard.board;
    assert RowFrogs(b[0], 0, 3) == [Coord(0, 0), Coord(0, 2)] by {
      assert RowFrogs(b[0], 0, 1) == [Coord(0, 0)];
      assert RowFrogs(b[0], 0, 2) == [Coord(0, 0)];
    }
    assert Frogs(b) == FrogsUpTo(b, 0) + RowFrogs(b[0], 0, 3);
  }

  // ---------------------------------------------------------------- applying a jump

  /** The cells with `p` overwritten by `x`; a position off the grid changes nothing. */
  function SetCell(board: seq<seq<char>>, p: Coord, x: char): seq<seq<char>>
  {
    if OnGrid(board, p) then board[p.row := board[p.row][p.col := x]] else board
  }

  lemma SetCellShape(board: seq<seq<char>>, p: Coord, x: char)
    ensures |SetCell(board, p, x)| == |board|
    ensures forall r :: 0 <= r < |board| ==> |SetCell(board, p, x)[r]| == |board[r]|
    ensures forall q :: OnGrid(board, q) ==>
              SetCell(board, p, x)[q.row][q.col] == if q == p then x else board[q.row][q.col]
  {
  }

  /** The cells after the private constructor's three writes: the origin emptied, the
      mover's symbol at the landing cell, the jumped-over cell emptied, in that order. */
  function JumpBoard(board: seq<seq<char>>, ch: char, now: Coord, jumped: Coord, initial: Coord): seq<seq<char>>
  {
    SetCell(SetCell(SetCell(board, initial, Empty), now, ch), jumped, Empty)
  }

  /** The state `makeJump(ch, now, jumped, initial)` builds. */
  function Jump(cfg: HoppersConfig, ch: char, now: Coord, jumped: Coord, initial: Coord): HoppersConfig
    requires Valid(cfg) && Inside(cfg, now) && Inside(cfg, jumped) && Inside(cfg, initial)
  {
    var b := JumpBoard(cfg.board, ch, now, jumped, initial);
    HoppersConfig(cfg.row, cfg.column, b, Frogs(b))
  }

  /** A jump keeps the dimensions and a well-formed state; the jumped-over cell and the
      origin become empty, the landing cell holds the mover's symbol, no other cell
      changes. (The source board is a value and is left as it was.) */
  lemma JumpEffect(cfg: HoppersConfig, ch: char, now: Coord, jumped: Coord, initial: Coord)
    requires Valid(cfg) && Inside(cfg, now) && Inside(cfg, jumped) && Inside(cfg, initial)
    ensures var j := Jump(cfg, ch, now, jumped, initial);
      && Valid(j) && j.row == cfg.row && j.column == cfg.column
      && forall p :: Inside(cfg, p) ==>
           Cell(j, p) == if p == jumped then Empty else if p == now then ch else if p == initial then Empty else Cell(cfg, p)
  {
    JumpBoardShape(cfg.board, ch, now, jumped, initial);
    var b1 := SetCell(cfg.board, initial, Empty);
    SetCellShape(cfg.board, initial, Empty);
    var b2 := SetCell(b1, now, ch);
    SetCellShape(b1, now, ch);
    SetCellShape(b2, jumped, Empty);
  }

  lemma JumpBoardShape(board: seq<seq<char>>, ch: char, now: Coord, jumped: Coord, initial: Coord)
    ensures |JumpBoard(board, ch, now, jumped, initial)| == |board|
    ensures forall r :: 0 <= r < |board| ==> |JumpBoard(board, ch, now, jumped, initial)[r]| == |board[r]|
  {
  }

  /** The private constructor behind `makeJump`: it copies the cells, writes the three
      cells and rebuilds the frog list with a row-major scan. */
  method MakeJump(cfg: HoppersConfig, ch: char, now: Coord, jumped: Coord, initial: Coord) returns (result: HoppersConfig)
    requires Valid(cfg) && Inside(cfg, now) && Inside(cfg, jumped) && Inside(cfg, initial)
    ensures result == Jump(cfg, ch, now, jumped, initial)
  {
    var board := JumpBoard(cfg.board, ch, now, jumped, initial);
    JumpBoardShape(cfg.board, ch, now, jumped, initial);
    var frogs := ScanFrogs(board, cfg.row, cfg.column);
    result := HoppersConfig(cfg.row, cfg.column, board, frogs);
  }

  /** The row-major scan of the constructor that collects every red or green cell. */
  method ScanFrogs(board: seq<seq<char>>, row: int, column: int) returns (frogs: seq<Coord>)
    requires row == |board| && forall r :: 0 <= r < |board| ==> |board[r]| == column
    ensures frogs == Frogs(board)
  {
    frogs := [];
    var r := 0;
    while r < row
      invariant 0 <= r <= row
      invariant frogs == FrogsUpTo(board, r)
    {
      var c := 0;
      while c < column
        invariant 0 <= c <= column
        invariant frogs == FrogsUpTo(board, r) + RowFrogs(board[r], r, c)
      {
        if board[r][c] == Red || board[r][c] == Green {
          frogs := frogs + [Coord(r, c)];
        }
        c := c + 1;
      }
      r := r + 1;
    }
  }

  // ---------------------------------------------------------------- counting cells

  function RowCount(cells: seq<char>, x: char): nat
  {
    if cells == [] then 0 else (if cells[0] == x then 1 else 0) + RowCount(cells[1..], x)
  }

  function Count(board: seq<seq<char>>, x: char): nat
  {
    if board == [] then 0 else RowCount(board[0], x) + Count(board[1..], x)
  }

  function Greens(cfg: HoppersConfig): nat
  {
    Count(cfg.board, Green)
  }

  function Reds(cfg: HoppersConfig): nat
  {
    Count(cfg.board, Red)
  }

  lemma {:induction false} RowCountUpdate(cells: seq<char>, c: nat, y: char, x: char)
    requires c < |cells|
    ensures RowCount(cells[c := y], x) == RowCount(cells, x) - (if cells[c] == x then 1 else 0) + (if y == x then 1 else 0)
  {
    if c > 0 {
      assert cells[c := y][1..] == cells[1..][c - 1 := y];
      RowCountUpdate(cells[1..], c - 1, y, x);
    } else {
      assert cells[c := y][1..] == cells[1..];
    }
  }

  lemma {:induction false} CountUpdateRow(board: seq<seq<char>>, r: nat, cells: seq<char>, x: char)
    requires r < |board|
    ensures Count(board[r := cells], x) == Count(board, x) - RowCount(board[r], x) + RowCount(cells, x)
  {
    if r > 0 {
      assert board[r := cells][1..] == board[1..][r - 1 := cells];
      CountUpdateRow(board[1..], r - 1, cells, x);
    } else {
      assert board[r := cells][1..] == board[1..];
    }
  }

  /** Writing one cell changes the count of a symbol by what left and what arrived. */
  lemma CountSetCell(board: seq<seq<char>>, p: Coord, y: char, x: char)
    requires OnGrid(board, p)
    ensures Count(SetCell(board, p, y), x) ==
              Count(board, x) - (if board[p.row][p.col] == x then 1 else 0) + (if y == x then 1 else 0)
  {
    CountUpdateRow(board, p.row, board[p.row][p.col := y], x);
    RowCountUpdate(board[p.row], p.col, y, x);
  }

  /** A legal jump of a frog removes exactly one green frog and no red frog. */
  lemma JumpCounts(cfg: HoppersConfig, f: Coord, d: Coord)
    requires Valid(cfg) && Inside(cfg, f) && IsFrog(Cell(cfg, f)) && CanJump(cfg, f, d)
    ensures Greens(JumpFrom(cfg, f, d)) == Greens(cfg) - 1 && Reds(JumpFrom(cfg, f, d)) == Reds(cfg)
  {
    MidpointInside(cfg, f, d);
    MakeMoveTable(f.row, f.col);
    var mid, ch := MakeMove(f.row, f.col)[d], Cell(cfg, f);
    var b1 := SetCell(cfg.board, f, Empty);
    SetCellShape(cfg.board, f, Empty);
    var b2 := SetCell(b1, d, ch);
    SetCellShape(b1, d, ch);
    assert f != d && mid != d && mid != f;
    forall x | x == Green || x == Red
      ensures Count(SetCell(b2, mid, Empty), x) == Count(cfg.board, x) - (if x == Green then 1 else 0)
    {
      CountSetCell(cfg.board, f, Empty, x);
      CountSetCell(b1, d, ch, x);
      CountSetCell(b2, mid, Empty, x);
    }
  }

  // ---------------------------------------------------------------- the goal

  /** No cell holds a green frog. */
  predicate Solved(cfg: HoppersConfig)
  {
    forall r, c :: 0 <= r < |cfg.board| && 0 <= c < |cfg.board[r]| ==> cfg.board[r][c] != Green
  }

  lemma {:induction false} RowCountZero(cells: seq<char>, x: char)
    ensures RowCount(cells, x) == 0 <==> forall c :: 0 <= c < |cells| ==> cells[c] != x
  {
    if cells != [] {
      RowCountZero(cells[1..], x);
      assert forall c :: 1 <= c < |cells| ==> cells[c] == cells[1..][c - 1];
    }
  }

  lemma {:induction false} CountZero(board: seq<seq<char>>, x: char)
    ensures Count(board, x) == 0 <==> forall r, c :: 0 <= r < |board| && 0 <= c < |board[r]| ==> board[r][c] != x
  {
    if board != [] {
      CountZero(board[1..], x);
      RowCountZero(board[0], x);
      assert forall r :: 1 <= r < |board| ==> board[r] == board[1..][r - 1];
    }
  }

  /** The goal test is "no green frog is left". */
  lemma SolvedIffNoGreens(cfg: HoppersConfig)
    ensures Solved(cfg) <==> Greens(cfg) == 0
  {
    CountZero(cfg.board, Green);
  }

  /** `isSolution`: a row-major scan that stops at the first green frog. */
  method IsSolution(cfg: HoppersConfig) returns (solved: bool)
    requires Valid(cfg)
    ensures solved <==> Solved(cfg)
  {
    for r := 0 to cfg.row
      invariant forall r', c :: 0 <= r' < r && 0 <= c < |cfg.board[r']| ==> cfg.board[r'][c] != Green
    {
      for c := 0 to cfg.column
        invariant forall c' :: 0 <= c' < c ==> cfg.board[r][c'] != Green
      {
        if cfg.board[r][c] == Green {
          return false;
        }
      }
    }
    return true;
  }

  // ---------------------------------------------------------------- neighbours

  lemma FrogsOnBoard(cfg: HoppersConfig)
    requires Valid(cfg)
    ensures forall i :: 0 <= i < |cfg.frogs| ==> Inside(cfg, cfg.frogs[i]) && IsFrog(Cell(cfg, cfg.frogs[i]))
  {
    FrogsExact(cfg.board);
    assert forall i :: 0 <= i < |cfg.frogs| ==> cfg.frogs[i] in Frogs(cfg.board);
  }

  /** The landing cells open to the frog at `f`. */
  function LegalDests(cfg: HoppersConfig, f: Coord): set<Coord>
    requires Valid(cfg) && Inside(cfg, f)
  {
    set d | d in MakeMove(f.row, f.col).Keys && CanJump(cfg, f, d)
  }

  /** The state after the frog at `f` jumps to `d`, keeping its colour. */
  function JumpFrom(cfg: HoppersConfig, f: Coord, d: Coord): HoppersConfig
    requires Valid(cfg) && Inside(cfg, f) && CanJump(cfg, f, d)
  {
    MidpointInside(cfg, f, d);
    Jump(cfg, Cell(cfg, f), d, MakeMove(f.row, f.col)[d], f)
  }

  function FrogJumps(cfg: HoppersConfig, f: Coord): set<HoppersConfig>
    requires Valid(cfg) && Inside(cfg, f)
  {
    set d | d in LegalDests(cfg, f) :: JumpFrom(cfg, f, d)
  }

  /** The jumps of the frog at `f`; every listed frog is on the board (`FrogsOnBoard`). */
  function JumpsOf(cfg: HoppersConfig, f: Coord): set<HoppersConfig>
    requires Valid(cfg)
  {
    if Inside(cfg, f) then FrogJumps(cfg, f) else {}
  }

  function DestCount(cfg: HoppersConfig, f: Coord): nat
    requires Valid(cfg)
  {
    if Inside(cfg, f) then |LegalDests(cfg, f)| else 0
  }

  /** The neighbours produced by the first `i` frogs of the list. */
  function NeighborsUpTo(cfg: HoppersConfig, i: nat): set<HoppersConfig>
    requires Valid(cfg) && i <= |cfg.frogs|
  {
    if i == 0 then {} else NeighborsUpTo(cfg, i - 1) + JumpsOf(cfg, cfg.frogs[i - 1])
  }

  /** The number of neighbours `getNeighbors` generates for the first `i` frogs: one per
      frog and legal landing cell. */
  function JumpCountUpTo(cfg: HoppersConfig, i: nat): nat
    requires Valid(cfg) && i <= |cfg.frogs|
  {
    if i == 0 then 0 else JumpCountUpTo(cfg, i - 1) + DestCount(cfg, cfg.frogs[i - 1])
  }

  function Neighbors(cfg: HoppersConfig): set<HoppersConfig>
    requires Valid(cfg)
  {
    NeighborsUpTo(cfg, |cfg.frogs|)
  }

  function JumpCount(cfg: HoppersConfig): nat
    requires Valid(cfg)
  {
    JumpCountUpTo(cfg, |cfg.frogs|)
  }

  /** The states reached by the frog at `f` through the landing cells `ds`. */
  function JumpsVia(cfg: HoppersConfig, f: Coord, ds: set<Coord>): set<HoppersConfig>
    requires Valid(cfg) && Inside(cfg, f) && ds <= LegalDests(cfg, f)
  {
    set d | d in ds :: JumpFrom(cfg, f, d)
  }

  lemma JumpsViaAdd(cfg: HoppersConfig, f: Coord, ds: set<Coord>, d: Coord)
    requires Valid(cfg) && Inside(cfg, f) && ds <= LegalDests(cfg, f) && d in LegalDests(cfg, f)
    ensures JumpsVia(cfg, f, ds + {d}) == JumpsVia(cfg, f, ds) + {JumpFrom(cfg, f, d)}
  {
  }

  /** The inner loop of `getNeighbors` for one frog: one state per landing cell of the
      jump table that passes the test, the landing cells visited in unspecified order. */
  method FrogNeighbors(cfg: HoppersConfig, frog: Coord) returns (neighbor: seq<HoppersConfig>)
    requires Valid(cfg) && Inside(cfg, frog)
    ensures (set n | n in neighbor) == FrogJumps(cfg, frog)
    ensures |neighbor| == |LegalDests(cfg, frog)|
  {
    var ch := cfg.board[frog.row][frog.col];
    var coordinates := BuildMoves(frog.row, frog.col);
    var todo := coordinates.Keys;
    ghost var done: set<Coord> := {};
    neighbor := [];
    while todo != {}
      invariant todo <= coordinates.Keys
      invariant done == LegalDests(cfg, frog) - todo
      invariant (set n | n in neighbor) == JumpsVia(cfg, frog, done)
      invariant |neighbor| == |done|
      decreases |todo|
    {
      var coord :| coord in todo;
      if CanJump(cfg, frog, coord) {
        MidpointInside(cfg, frog, coord);
        var next := MakeJump(cfg, ch, coord, coordinates[coord], frog);
        VisitLegal(cfg, frog, todo, done, coord, neighbor, next);
        neighbor := neighbor + [next];
        done := done + {coord};
      } else {
        VisitIllegal(cfg, frog, todo, done, coord);
      }
      todo := todo - {coord};
    }
  }

  lemma SeqSetAppend<T>(s: seq<T>, x: T)
    ensures (set y | y in s + [x]) == (set y | y in s) + {x}
  {
  }

  lemma VisitLegal(cfg: HoppersConfig, frog: Coord, todo: set<Coord>, done: set<Coord>, coord: Coord,
                   neighbor: seq<HoppersConfig>, next: HoppersConfig)
    requires Valid(cfg) && Inside(cfg, frog) && coord in todo && done == LegalDests(cfg, frog) - todo
    requires todo <= MakeMove(frog.row, frog.col).Keys && CanJump(cfg, frog, coord)
    requires (set n | n in neighbor) == JumpsVia(cfg, frog, done) && |neighbor| == |done|
    requires next == JumpFrom(cfg, frog, coord)
    ensures done + {coord} == LegalDests(cfg, frog) - (todo - {coord})
    ensures (set n | n in neighbor + [next]) == JumpsVia(cfg, frog, done + {coord})
    ensures |neighbor + [next]| == |done + {coord}|
  {
    JumpsViaAdd(cfg, frog, done, coord);
    SeqSetAppend(neighbor, next);
  }

  lemma VisitIllegal(cfg: HoppersConfig, frog: Coord, todo: set<Coord>, done: set<Coord>, coord: Coord)
    requires Valid(cfg) && Inside(cfg, frog) && coord in todo && done == LegalDests(cfg, frog) - todo
    requires !CanJump(cfg, frog, coord)
    ensures done == LegalDests(cfg, frog) - (todo - {coord})
  {
  }

  /** `getNeighbors`: for every frog of the list, every legal jump. */
  method GetNeighbors(cfg: HoppersConfig) returns (neighbor: seq<HoppersConfig>)
    requires Valid(cfg)
    ensures (set n | n in neighbor) == Neighbors(cfg)
    ensures |neighbor| == JumpCount(cfg)
  {
    neighbor := [];
    var i := 0;
    while i < |cfg.frogs|
      invariant 0 <= i <= |cfg.frogs|
      invariant (set n | n in neighbor) == NeighborsUpTo(cfg, i)
      invariant |neighbor| == JumpCountUpTo(cfg, i)
    {
      FrogsOnBoard(cfg);
      var more := FrogNeighbors(cfg, cfg.frogs[i]);
      NeighborsGrow(cfg, i, neighbor, more);
      neighbor := neighbor + more;
      i := i + 1;
    }
  }

  /** Appending the jumps of the next frog of the list extends the neighbours so far. */
  lemma NeighborsGrow(cfg: HoppersConfig, i: nat, neighbor: seq<HoppersConfig>, more: seq<HoppersConfig>)
    requires Valid(cfg) && i < |cfg.frogs| && Inside(cfg, cfg.frogs[i])
    requires (set n | n in neighbor) == NeighborsUpTo(cfg, i) && |neighbor| == JumpCountUpTo(cfg, i)
    requires (set n | n in more) == FrogJumps(cfg, cfg.frogs[i]) && |more| == |LegalDests(cfg, cfg.frogs[i])|
    ensures (set n | n in neighbor + more) == NeighborsUpTo(cfg, i + 1)
    ensures |neighbor + more| == JumpCountUpTo(cfg, i + 1)
  {
    SeqSetConcat(neighbor, more);
  }

  lemma SubsetOfUnion<T>(a: set<T>, b: set<T>, c: set<T>)
    requires a <= b
    ensures a <= b + c
  {
  }

  lemma SeqSetConcat<T>(a: seq<T>, b: seq<T>)
    ensures (set n | n in a + b) == (set n | n in a) + (set n | n in b)
  {
  }

  /** Every neighbour comes from a legal jump of a listed frog, is well formed with the
      same dimensions, and has one green frog fewer and as many red frogs. */
  lemma {:induction false} NeighborsUpToSound(cfg: HoppersConfig, i: nat)
    requires Valid(cfg) && i <= |cfg.frogs|
    ensures forall n :: n in NeighborsUpTo(cfg, i) ==>
        && (exists k, d :: 0 <= k < i && Inside(cfg, cfg.frogs[k]) && CanJump(cfg, cfg.frogs[k], d) && n == JumpFrom(cfg, cfg.frogs[k], d))
        && Valid(n) && n.row == cfg.row && n.column == cfg.column
        && Greens(n) == Greens(cfg) - 1 && Reds(n) == Reds(cfg)
  {
    FrogsOnBoard(cfg);
    if i > 0 {
      NeighborsUpToSound(cfg, i - 1);
      var f := cfg.frogs[i - 1];
      forall n | n in FrogJumps(cfg, f)
        ensures exists k, d :: 0 <= k < i && Inside(cfg, cfg.frogs[k]) && CanJump(cfg, cfg.frogs[k], d) && n == JumpFrom(cfg, cfg.frogs[k], d)
        ensures Valid(n) && n.row == cfg.row && n.column == cfg.column
        ensures Greens(n) == Greens(cfg) - 1 && Reds(n) == Reds(cfg)
      {
        var d :| d in LegalDests(cfg, f) && n == JumpFrom(cfg, f, d);
        MidpointInside(cfg, f, d);
        JumpEffect(cfg, Cell(cfg, f), d, MakeMove(f.row, f.col)[d], f);
        JumpCounts(cfg, f, d);
      }
    }
  }

  lemma NeighborsSound(cfg: HoppersConfig)
    requires Valid(cfg)
    ensures forall n :: n in Neighbors(cfg) ==>
        && (exists k, d :: 0 <= k < |cfg.frogs| && Inside(cfg, cfg.frogs[k]) && CanJump(cfg, cfg.frogs[k], d) && n == JumpFrom(cfg, cfg.frogs[k], d))
        && Valid(n) && n.row == cfg.row && n.column == cfg.column
        && Greens(n) == Greens(cfg) - 1 && Reds(n) == Reds(cfg)
  {
    NeighborsUpToSound(cfg, |cfg.frogs|);
  }

  /** Every legal jump of a listed frog yields a neighbour. */
  lemma {:induction false} NeighborsComplete(cfg: HoppersConfig, k: nat, d: Coord)
    requires Valid(cfg) && k < |cfg.frogs|
    requires Inside(cfg, cfg.frogs[k]) && CanJump(cfg, cfg.frogs[k], d)
    ensures JumpFrom(cfg, cfg.frogs[k], d) in Neighbors(cfg)
  {
    FrogsOnBoard(cfg);
    NeighborsUpToMono(cfg, k + 1, |cfg.frogs|);
    assert d in LegalDests(cfg, cfg.frogs[k]);
  }

  lemma {:induction false} NeighborsUpToMono(cfg: HoppersConfig, i: nat, j: nat)
    requires Valid(cfg) && i <= j <= |cfg.frogs|
    ensures NeighborsUpTo(cfg, i) <= NeighborsUpTo(cfg, j)
    decreases j - i
  {
    if i < j {
      NeighborsUpToMono(cfg, i, j - 1);
      SubsetOfUnion(NeighborsUpTo(cfg, i), NeighborsUpTo(cfg, j - 1), JumpsOf(cfg, cfg.frogs[j - 1]));
    }
  }

  /** A jump made by selecting a frog and a landing cell that passes the corrected
      `validJump` is one of the moves `getNeighbors` offers. */
  lemma SelectedJumpIsNeighbor(cfg: HoppersConfig, initial: Coord, move: Coord)
    requires Valid(cfg) && Inside(cfg, initial) && IsFrog(Cell(cfg, initial))
    requires LegalJump(cfg, move, Get(MakeMove(initial.row, initial.col), move))
    ensures Jump(cfg, Cell(cfg, initial), move, MakeMove(initial.row, initial.col)[move], initial) in Neighbors(cfg)
  {
    LegalJumpIsCanJump(cfg, initial, move);
    FrogsExact(cfg.board);
    var k :| 0 <= k < |cfg.frogs| && cfg.frogs[k] == initial;
    FrogsOnBoard(cfg);
    NeighborsComplete(cfg, k, move);
  }

  // ---------------------------------------------------------------- equality and hashing

  /** `equals`: cell-by-cell equality of the boards. */
  predicate Equals(a: HoppersConfig, b: HoppersConfig)
  {
    a.board == b.board
  }

  /** For well-formed states of the same dimensions, `equals` is structural equality:
      the frog list cannot tell equal boards apart. */
  lemma EqualsIsEquality(a: HoppersConfig, b: HoppersConfig)
    requires Valid(a) && Valid(b) && a.column == b.column
    ensures Equals(a, b) <==> a == b
  {
  }

  /** The sum of the coordinates' hash codes, in 32-bit arithmetic, over a frog list;
      `Coordinates.hashCode` is a parameter. */
  function HashSum(frogs: seq<Coord>, coordHash: Coord -> int32): int32
  {
    if frogs == [] then 0
    else Wrap32(HashSum(frogs[..|frogs| - 1], coordHash) + coordHash(frogs[|frogs| - 1]))
  }

  /** `hashCode`: a loop summing the hash codes of the frog list. */
  method HashCode(cfg: HoppersConfig, coordHash: Coord -> int32) returns (hash: int32)
    ensures hash == HashSum(cfg.frogs, coordHash)
  {
    hash := 0;
    for i := 0 to |cfg.frogs|
      invariant hash == HashSum(cfg.frogs[..i], coordHash)
    {
      assert cfg.frogs[..i + 1][..i] == cfg.frogs[..i];
      hash := Wrap32(hash + coordHash(cfg.frogs[i]));
    }
    assert cfg.frogs[..|cfg.frogs|] == cfg.frogs;
  }

  /** Equal boards hash equally, because the hash reads only the derived frog list. */
  lemma HashConsistent(a: HoppersConfig, b: HoppersConfig, coordHash: Coord -> int32)
    requires Valid(a) && Valid(b) && Equals(a, b)
    ensures HashSum(a.frogs, coordHash) == HashSum(b.frogs, coordHash)
  {
  }

  // ---------------------------------------------------------------- the reachable states

  /** Every state reachable from `cfg` by jumps; finite because each jump removes a green frog. */
  ghost function Reach(cfg: HoppersConfig): set<HoppersConfig>
    requires Valid(cfg)
    decreases Greens(cfg)
  {
    NeighborsSound(cfg);
    {cfg} + set n, m | n in Neighbors(cfg) && m in Reach(n) :: m
  }

  /** The reachable states are well formed, share the dimensions, and are closed under moves. */
  lemma {:induction false} ReachClosed(cfg: HoppersConfig)
    requires Valid(cfg)
    ensures cfg in Reach(cfg)
    ensures forall x :: x in Reach(cfg) ==>
              Valid(x) && x.row == cfg.row && x.column == cfg.column && Neighbors(x) <= Reach(cfg)
    decreases Greens(cfg)
  {
    NeighborsSound(cfg);
    forall x | x in Reach(cfg)
      ensures Valid(x) && x.row == cfg.row && x.column == cfg.column && Neighbors(x) <= Reach(cfg)
    {
      if x == cfg {
        forall n | n in Neighbors(cfg) ensures n in Reach(cfg) {
          assert n in Reach(n);
        }
      } else {
        var n :| n in Neighbors(cfg) && x in Reach(n);
        ReachClosed(n);
        assert Reach(n) <= Reach(cfg);
      }
    }
  }
}
