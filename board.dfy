// The `Board` struct of src/board.rs as a class over a 6x7 array, updated
// in place by `InsertAt` like the source's `insert_at`.  Every method is
// proved to compute the functions of evaluation.dfy and rules.dfy on the
// board's snapshot.  `Valid()` (gravity, and while the game is undecided
// an open column and no complete line) is kept by `InsertAt`, the one
// update the source offers, and by `Land`, its success branch; `Put` and
// `UpdateOutcome` are the steps inside `Land` and keep only `Coherent()`.
module Boards {
  import opened Pieces
  import opened Evaluation
  import opened Rules

  class Board {
    /** board_state[y][x] of the source is cells[y, x]: row y (0 at the top), column x. */
    const cells: array2<Cell>
    var outcome: Option<GameOutcome>
    var currentTurn: Piece
    /** The grid the array holds, as a value; every update of `cells` updates it too. */
    ghost var grid: Grid

    /** The array is 6x7 and holds exactly `grid`. */
    ghost predicate Coherent()
      reads this`grid, cells
    {
      cells.Length0 == ROWS && cells.Length1 == COLS && WellFormed(grid) &&
      forall r, c :: OnGrid(c, r) ==> cells[r, c] == grid[r][c]
    }

    /** The board as a value: its grid, outcome and turn. */
    ghost function Snapshot(): State
      reads this
    {
      State(grid, outcome, currentTurn)
    }

    /** What every board built by `new` and `InsertAt` satisfies. */
    ghost predicate Valid()
      reads this, cells
    {
      Coherent() && Reachable(Snapshot())
    }

    /** src/board.rs `Board::new`: the empty board, Yellow to move. */
    constructor()
      ensures Valid() && fresh(cells)
      ensures Snapshot() == Initial()
    {
      cells := new Cell[ROWS, COLS]((r, c) => None);
      grid := EmptyGrid();
      outcome := None;
      currentTurn := Yellow;
      new;
      InitialReachable();
    }

    /** The derived `clone` of the source: a board with its own array holding the same position. */
    constructor Copy(other: Board)
      requires other.Coherent()
      ensures Coherent() && (other.Valid() ==> Valid()) && fresh(cells)
      ensures Snapshot() == other.Snapshot()
    {
      cells := new Cell[ROWS, COLS]((r, c) reads other, other.cells
                                      requires 0 <= r < other.cells.Length0 && 0 <= c < other.cells.Length1 =>
                                      other.cells[r, c]);
      grid := other.grid;
      outcome := other.outcome;
      currentTurn := other.currentTurn;
    }

    /**
     * src/board.rs `is_slot_empty`: the top cell of column col (0-based) is
     * empty, which under gravity means the column still has room.
     */
    function IsSlotEmpty(col: int): (b: bool)
      requires Coherent() && 0 <= col < COLS
      reads this, cells
      ensures b <==> TopEmpty(grid, col)
      ensures Gravity(grid) ==> (b <==> exists r :: 0 <= r < ROWS && grid[r][col] == None)
    {
      cells[0, col] == None
    }

    /**
     * src/board.rs `insert_at` for a 1-based column: the board becomes the
     * successful result of `Insert`, or stays as it was when `Insert`
     * reports an error; a valid board stays valid either way.
     */
    method InsertAt(col: int) returns (r: Result<(), InsertionError>)
      requires Coherent() && 1 <= col <= COLS
      modifies this, cells
      ensures Coherent() && (old(Valid()) ==> Valid())
      ensures Insert(old(Snapshot()), col).Ok? ==>
                r == Ok(()) && Snapshot() == Insert(old(Snapshot()), col).value
      ensures Insert(old(Snapshot()), col).Err? ==>
                r == Err(Insert(old(Snapshot()), col).error) && Snapshot() == old(Snapshot())
    {
      ghost var s := Snapshot();
      if outcome.Some? {
        InsertAfterGameEnd(s, col);
        return Err(GameFinished);
      }
      var y := 0;
      while y < ROWS - 1 && cells[y + 1, col - 1].None?
        invariant 0 <= y < ROWS
        invariant DropRow(s.grid, col - 1, y) == DropRow(s.grid, col - 1, 0)
        decreases ROWS - y
      {
        y := y + 1;
      }
      if cells[y, col - 1].None? {
        Land(y, col);
      } else {
        InsertFilled(s, col, y);
        return Err(FilledSlot);
      }
      return Ok(());
    }

    /**
     * The success branch of `insert_at`: the mover's piece goes to the drop
     * row y of the column, the outcome is updated, and the turn passes
     * unless the game has just ended.  A valid board stays valid.
     */
    method Land(y: int, col: int)
      requires Coherent() && 1 <= col <= COLS && outcome.None?
      requires y == DropRow(grid, col - 1, 0) && grid[y][col - 1].None?
      modifies cells, this
      ensures Coherent() && (old(Valid()) ==> Valid())
      ensures Insert(old(Snapshot()), col).Ok? && Snapshot() == Insert(old(Snapshot()), col).value
    {
      ghost var s := Snapshot();
      Put(y, col, currentTurn);
      UpdateOutcome();
      if outcome.None? {
        currentTurn := Flip(currentTurn);
      }
      InsertPlaces(s, col, y);
      if Reachable(s) {
        InsertKeepsReachable(s, col);
      }
    }

    /**
     * The cell assignment of `insert_at`: row y of the 1-based column col
     * now holds p and nothing else changes.  It keeps `Coherent()` only: the
     * piece may complete a line that the outcome does not yet record.
     */
    method Put(y: int, col: int, p: Piece)
      requires Coherent() && OnGrid(col - 1, y)
      modifies cells, this`grid
      ensures Coherent()
      ensures grid == old(grid)[y := old(grid)[y][col - 1 := Some(p)]]
    {
      var c := col - 1;
      cells[y, c] := Some(p);
      grid := grid[y := grid[y][c := Some(p)]];
      forall r, k | OnGrid(k, r)
        ensures cells[r, k] == grid[r][k]
      {
        if r != y || k != c {
          assert cells[r, k] == old(cells[r, k]);
        }
      }
    }

    /** src/board.rs `update_outcome`: the outcome becomes the one `UpdateOutcome` gives for the snapshot. */
    method UpdateOutcome()
      requires Coherent()
      modifies this`outcome
      ensures Snapshot() == Rules.UpdateOutcome(old(Snapshot()))
    {
      if outcome.Some? {
        return;
      }
      ghost var s := Snapshot();
      var open := exists c | 0 <= c < COLS :: IsSlotEmpty(c);
      assert open <==> AnyOpen(s.grid) by {
        if open {
          var c :| 0 <= c < COLS && IsSlotEmpty(c);
          assert TopEmpty(s.grid, c);
        }
        if AnyOpen(s.grid) {
          var c :| 0 <= c < COLS && TopEmpty(s.grid, c);
          assert IsSlotEmpty(c);
        }
      }
      if !open {
        outcome := Some(Draw);
      }
      ghost var d := Snapshot();
      assert d == if !AnyOpen(s.grid) then s.(outcome := Some(Draw)) else s;
      var total := GetTotalScore();
      assert total == TotalScore(d);
      if total == MAX_GAME_SCORE {
        outcome := Some(Winner(Yellow));
      } else if total == -MAX_GAME_SCORE {
        outcome := Some(Winner(Red));
      }
    }

    /** src/board.rs `get_valid_moves`: the open columns, 1-based, centre first. */
    method GetValidMoves() returns (moves: seq<int>)
      requires Coherent()
      ensures moves == ValidMoves(grid)
    {
      ghost var g := grid;
      var order := CentreOrder();
      moves := [];
      for i := 0 to |order|
        invariant moves == MovesOf(g, order[..i])
      {
        assert order[..i + 1] == order[..i] + [order[i]];
        MovesOfSnoc(g, order[..i], order[i]);
        if IsSlotEmpty(order[i]) {
          moves := moves + [order[i] + 1];
        }
      }
      assert order[..|order|] == order;
    }

    /**
     * src/board.rs `score`: the value of the line of four cells from (x, y)
     * in steps of (dx, dy), from Yellow's point of view.
     */
    method Score(x: int, y: int, dx: int, dy: int) returns (r: int)
      requires Coherent() && InBounds(Line(x, y, dx, dy))
      ensures r == LineScore(Snapshot(), Line(x, y, dx, dy))
    {
      if outcome.Some? && outcome.value.Winner? {
        return MAX_GAME_SCORE * AsInt(outcome.value.piece);
      }
      ghost var l := Line(x, y, dx, dy);
      ghost var cs := Cells(grid, l);
      var cx, cy := x, y;
      var yellow, red := 0, 0;
      for i := 0 to 4
        invariant cx == x + i * dx && cy == y + i * dy
        invariant yellow == Count(cs[..i], Yellow) && red == Count(cs[..i], Red)
      {
        CellAt(grid, l, i);
        CountSnoc(cs[..i], cs[i], Yellow);
        CountSnoc(cs[..i], cs[i], Red);
        assert cs[..i + 1] == cs[..i] + [cs[i]];
        if cells[cy, cx] == Some(Yellow) {
          yellow := yellow + 1;
        } else if cells[cy, cx] == Some(Red) {
          red := red + 1;
        }
        NextCell(x, i, dx);
        NextCell(y, i, dy);
        cx := cx + dx;
        cy := cy + dy;
      }
      assert cs[..4] == cs;
      if yellow == 4 {
        return MAX_GAME_SCORE;
      } else if red == 4 {
        return -MAX_GAME_SCORE;
      }
      return yellow - red;
    }

    /**
     * One loop nest of src/board.rs `get_total_score`: score the lines from
     * (x, y) with step (dx, dy) for rows y0..y1-1 and columns 0..w-1, in
     * order, and stop at the first one worth a sentinel.  Given the scores
     * of those lines row by row (bs), the result is their scan: the
     * sentinel met (stop), or the block's sum.
     */
    method ScoreBlock(y0: int, y1: int, w: nat, dx: int, dy: int) returns (stop: bool, part: int)
      requires Coherent() && y0 <= y1 && BlockOnGrid(y0, y1, w, dx, dy)
      ensures SweepFrom(Snapshot(), BlockLines(y0, y1, w, dx, dy), 0) == if stop then Stopped(part) else Running(part)
    {
      ghost var s := Snapshot();
      ghost var bs := BlockScan(s, y0, y1, w, dx, dy);
      part := 0;
      for y := y0 to y1
        invariant ScanRows(bs, 0) == ScanRows(bs[y - y0..], part)
      {
        ghost var j := y - y0;
        ghost var row := bs[j];
        assert |row| == w;
        ScanRowsStep(bs, j, part);
        for x := 0 to w
          invariant ScanRows(bs, 0) == Resume(Scan(row[x..], part), bs[j + 1..])
        {
          BlockInBounds(y0, y1, w, dx, dy, x, y);
          var score := Score(x, y, dx, dy);
          assert score == row[x];
          ghost var x1 := x + 1;
          var next := part + score;
          ScanStep(row, x, x1, part, next);
          if score == MAX_GAME_SCORE {
            BlockSweep(s, y0, y1, w, dx, dy, bs);
            return true, score;
          }
          if score == -MAX_GAME_SCORE {
            BlockSweep(s, y0, y1, w, dx, dy, bs);
            return true, score;
          }
          part := next;
        }
        assert row[w..] == [];
      }
      assert bs[y1 - y0..] == [];
      BlockSweep(s, y0, y1, w, dx, dy, bs);
      return false, part;
    }

    /**
     * src/board.rs `get_total_score`: the static evaluation from Yellow's
     * point of view.  The source's four loop nests (horizontal, vertical,
     * and the two diagonals) are the four calls of `ScoreBlock`; a sentinel
     * from any of them is returned at once.
     */
    method GetTotalScore() returns (r: int)
      requires Coherent()
      ensures r == TotalScore(Snapshot())
    {
      TotalScoreByBlocks(Snapshot());
      var stop, hor := ScoreBlock(0, 6, 4, 1, 0);
      if stop {
        return hor;
      }
      var vert;
      stop, vert := ScoreBlock(0, 3, 7, 0, 1);
      if stop {
        return vert;
      }
      var diag1;
      stop, diag1 := ScoreBlock(0, 3, 4, 1, 1);
      if stop {
        return diag1;
      }
      var diag2;
      stop, diag2 := ScoreBlock(3, 6, 4, 1, -1);
      if stop {
        return diag2;
      }
      return hor + vert + diag1 + diag2;
    }
  }
}
