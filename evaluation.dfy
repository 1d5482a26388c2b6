// The static evaluator of src/board.rs (`score` and `get_total_score`),
// stated as pure functions over a snapshot of the board.  The class in
// board.dfy computes the same values with the source's loops.
module Evaluation {
  import opened Pieces

  const ROWS: int := 6
  const COLS: int := 7

  type Cell = Option<Piece>

  /** grid[row][col]; row 0 is the top of the board and row 5 the floor. */
  type Grid = seq<seq<Cell>>

  /** Everything a board holds: the grid, the outcome (if decided) and whose turn it is. */
  datatype State = State(grid: Grid, outcome: Option<GameOutcome>, turn: Piece)

  predicate WellFormed(g: Grid)
  {
    |g| == ROWS && forall r :: 0 <= r < ROWS ==> |g[r]| == COLS
  }

  predicate OnGrid(x: int, y: int)
  {
    0 <= x < COLS && 0 <= y < ROWS
  }

  /** The four cells (x, y), (x+dx, y+dy), (x+2dx, y+2dy), (x+3dx, y+3dy); x is the column, y the row. */
  datatype Line = Line(x: int, y: int, dx: int, dy: int)

  /** Both ends on the grid; the two middle cells then are too. */
  predicate InBounds(l: Line)
  {
    OnGrid(l.x, l.y) && OnGrid(l.x + 3 * l.dx, l.y + 3 * l.dy)
  }

  /** The cell in column x, row y; a position off the grid reads as empty. */
  function CellOf(g: Grid, x: int, y: int): Cell
    requires WellFormed(g)
  {
    if OnGrid(x, y) then g[y][x] else None
  }

  function Cells(g: Grid, l: Line): (cs: seq<Cell>)
    requires WellFormed(g)
    ensures |cs| == 4
  {
    [CellOf(g, l.x, l.y), CellOf(g, l.x + l.dx, l.y + l.dy),
     CellOf(g, l.x + 2 * l.dx, l.y + 2 * l.dy), CellOf(g, l.x + 3 * l.dx, l.y + 3 * l.dy)]
  }

  /** The i-th cell of a line is (x + i*dx, y + i*dy), on the grid. */
  lemma CellAt(g: Grid, l: Line, i: int)
    requires WellFormed(g) && InBounds(l) && 0 <= i < 4
    ensures OnGrid(l.x + i * l.dx, l.y + i * l.dy)
    ensures Cells(g, l)[i] == g[l.y + i * l.dy][l.x + i * l.dx]
  {
    if i == 0 {
    } else if i == 1 {
    } else if i == 2 {
    } else {
    }
  }

  /**
   * Stepping from the i-th cell of a line to the next adds the step once
   * more.  The product i * d is not linear, so the loop of `Score` is handed
   * this step rather than left to find it.
   */
  lemma NextCell(x: int, i: int, d: int)
    ensures x + (i + 1) * d == x + i * d + d
  {
  }

  /** How many of the cells hold piece p. */
  function Count(cs: seq<Cell>, p: Piece): (n: nat)
    ensures n <= |cs|
  {
    if cs == [] then 0 else (if cs[0] == Some(p) then 1 else 0) + Count(cs[1..], p)
  }

  /** All four cells of the line hold p. */
  predicate Complete(g: Grid, l: Line, p: Piece)
    requires WellFormed(g)
  {
    forall i :: 0 <= i < 4 ==> Cells(g, l)[i] == Some(p)
  }

  /** The board already records a winner, which overrides every line. */
  predicate Decided(s: State)
  {
    s.outcome.Some? && s.outcome.value.Winner?
  }

  /**
   * The value of one line from Yellow's point of view (src/board.rs
   * `score`): never beyond the sentinels, and away from them the number of
   * Yellow cells minus the number of Red ones.
   */
  function LineScore(s: State, l: Line): (r: int)
    requires WellFormed(s.grid)
    ensures -MAX_GAME_SCORE <= r <= MAX_GAME_SCORE
    ensures !Decided(s) && !IsSentinel(r) ==> r == Count(Cells(s.grid, l), Yellow) - Count(Cells(s.grid, l), Red)
  {
    if Decided(s) then MAX_GAME_SCORE * AsInt(s.outcome.value.piece)
    else
      var cs := Cells(s.grid, l);
      var yellow := Count(cs, Yellow);
      var red := Count(cs, Red);
      if yellow == 4 then MAX_GAME_SCORE
      else if red == 4 then -MAX_GAME_SCORE
      else yellow - red
  }

  lemma {:induction false} CountAll(cs: seq<Cell>, p: Piece)
    ensures Count(cs, p) == |cs| <==> forall i :: 0 <= i < |cs| ==> cs[i] == Some(p)
  {
    if cs != [] {
      CountAll(cs[1..], p);
      if Count(cs, p) == |cs| {
        forall i | 0 <= i < |cs| ensures cs[i] == Some(p) {
          if i > 0 { assert cs[i] == cs[1..][i - 1]; }
        }
      }
      if forall i :: 0 <= i < |cs| ==> cs[i] == Some(p) {
        forall i | 0 <= i < |cs| - 1 ensures cs[1..][i] == Some(p) {
          assert cs[1..][i] == cs[i + 1];
        }
      }
    }
  }

  /** Counting one more cell at the end (the order `score` visits the cells in). */
  lemma {:induction false} CountSnoc(cs: seq<Cell>, c: Cell, p: Piece)
    ensures Count(cs + [c], p) == Count(cs, p) + (if c == Some(p) then 1 else 0)
  {
    if cs != [] {
      assert (cs + [c])[1..] == cs[1..] + [c];
      CountSnoc(cs[1..], c, p);
    }
  }

  lemma {:induction false} CountBoth(cs: seq<Cell>)
    ensures Count(cs, Yellow) + Count(cs, Red) <= |cs|
  {
    if cs != [] { CountBoth(cs[1..]); }
  }

  /**
   * Without a recorded winner a line scores +MAX exactly when it is four
   * Yellow, -MAX exactly when it is four Red, and otherwise yellow - red,
   * which lies in [-3, 3].  A recorded winner overrides every line.
   */
  lemma LineScoreMeaning(s: State, l: Line)
    requires WellFormed(s.grid)
    ensures Decided(s) ==> LineScore(s, l) == MAX_GAME_SCORE * AsInt(s.outcome.value.piece)
    ensures !Decided(s) ==> (LineScore(s, l) == MAX_GAME_SCORE <==> Complete(s.grid, l, Yellow))
    ensures !Decided(s) ==> (LineScore(s, l) == -MAX_GAME_SCORE <==> Complete(s.grid, l, Red))
    ensures !Decided(s) && !Complete(s.grid, l, Yellow) && !Complete(s.grid, l, Red) ==>
              -3 <= LineScore(s, l) <= 3
  {
    var cs := Cells(s.grid, l);
    CountAll(cs, Yellow);
    CountAll(cs, Red);
    CountBoth(cs);
    if Complete(s.grid, l, Yellow) {
      assert cs[0] == Some(Yellow);
      assert !Complete(s.grid, l, Red);
    }
  }

  /** The lines starting at columns 0..w-1 of row y with step (dx, dy): one pass of an inner loop of `get_total_score`. */
  function RowLines(y: int, w: nat, dx: int, dy: int): (ls: seq<Line>)
    ensures |ls| == w
    ensures forall x :: 0 <= x < w ==> ls[x] == Line(x, y, dx, dy)
  {
    seq(w, x => Line(x, y, dx, dy))
  }

  /** The lines of rows y0..y1-1, row by row: one loop nest of `get_total_score`. */
  function BlockLines(y0: int, y1: int, w: nat, dx: int, dy: int): seq<Line>
    decreases y1 - y0
  {
    if y0 >= y1 then [] else RowLines(y0, w, dx, dy) + BlockLines(y0 + 1, y1, w, dx, dy)
  }

  lemma {:induction false} BlockLinesLength(y0: int, y1: int, w: nat, dx: int, dy: int)
    requires y0 <= y1
    ensures |BlockLines(y0, y1, w, dx, dy)| == (y1 - y0) * w
    decreases y1 - y0
  {
    if y0 < y1 {
      BlockLinesLength(y0 + 1, y1, w, dx, dy);
    }
  }

  /**
   * The first and last rows and columns of a block, and the cells three
   * steps on from them, lie on the grid; so every line of the block does
   * (BlockInBounds).
   */
  predicate BlockOnGrid(y0: int, y1: int, w: nat, dx: int, dy: int)
  {
    0 <= y0 && y1 <= ROWS && 0 <= y0 + 3 * dy && y1 + 3 * dy <= ROWS && 0 <= dx && w + 3 * dx <= COLS
  }

  lemma BlockInBounds(y0: int, y1: int, w: nat, dx: int, dy: int, x: int, y: int)
    requires BlockOnGrid(y0, y1, w, dx, dy) && 0 <= x < w && y0 <= y < y1
    ensures InBounds(Line(x, y, dx, dy))
  {
  }

  /**
   * The k-th of the 69 lines in the order `get_total_score` visits them:
   * 24 horizontal, 21 vertical (stepping down from rows 0..2), 12
   * diagonals stepping right and down, 12 stepping right and up from rows
   * 3..5; each group row by row.
   */
  function LineAt(k: int): (l: Line)
    ensures 0 <= k < 69 ==> InBounds(l)
  {
    if k < 24 then Line(k % 4, k / 4, 1, 0)
    else if k < 45 then Line((k - 24) % 7, (k - 24) / 7, 0, 1)
    else if k < 57 then Line((k - 45) % 4, (k - 45) / 4, 1, 1)
    else Line((k - 57) % 4, 3 + (k - 57) / 4, 1, -1)
  }

  function Lines(): (ls: seq<Line>)
    ensures |ls| == 69 && forall k :: 0 <= k < 69 ==> InBounds(ls[k])
  {
    seq(69, LineAt)
  }

  /** The line at column x of row y0 + q of a block, counted row by row. */
  lemma {:induction false} BlockLinesAt(y0: int, y1: int, w: nat, dx: int, dy: int, q: int, x: int)
    requires y0 <= y1 && 0 <= q < y1 - y0 && 0 <= x < w
    ensures 0 <= q * w + x < |BlockLines(y0, y1, w, dx, dy)|
    ensures BlockLines(y0, y1, w, dx, dy)[q * w + x] == Line(x, y0 + q, dx, dy)
    decreases y1 - y0
  {
    BlockLinesLength(y0, y1, w, dx, dy);
    if q > 0 {
      BlockLinesAt(y0 + 1, y1, w, dx, dy, q - 1, x);
      assert q * w + x == w + ((q - 1) * w + x);
    }
  }

  /** The lines are the four loop nests of `get_total_score`, one after another. */
  lemma LinesByBlocks()
    ensures Lines() == BlockLines(0, 6, 4, 1, 0) + (BlockLines(0, 3, 7, 0, 1) + (BlockLines(0, 3, 4, 1, 1) + BlockLines(3, 6, 4, 1, -1)))
  {
    var h, v, f, r := BlockLines(0, 6, 4, 1, 0), BlockLines(0, 3, 7, 0, 1), BlockLines(0, 3, 4, 1, 1), BlockLines(3, 6, 4, 1, -1);
    BlockLinesLength(0, 6, 4, 1, 0);
    BlockLinesLength(0, 3, 7, 0, 1);
    BlockLinesLength(0, 3, 4, 1, 1);
    BlockLinesLength(3, 6, 4, 1, -1);
    var all := h + (v + (f + r));
    forall k | 0 <= k < 69
      ensures Lines()[k] == all[k]
    {
      if k < 24 {
        BlockLinesAt(0, 6, 4, 1, 0, k / 4, k % 4);
      } else if k < 45 {
        BlockLinesAt(0, 3, 7, 0, 1, (k - 24) / 7, (k - 24) % 7);
      } else if k < 57 {
        BlockLinesAt(0, 3, 4, 1, 1, (k - 45) / 4, (k - 45) % 4);
      } else {
        BlockLinesAt(3, 6, 4, 1, -1, (k - 57) / 4, (k - 57) % 4);
      }
    }
  }

  /** A line score that stands for a decided line (or a recorded winner). */
  predicate IsSentinel(v: int)
  {
    v == MAX_GAME_SCORE || v == -MAX_GAME_SCORE
  }

  /** How far an evaluation has got: stopped at a sentinel, or still summing. */
  datatype Sweep = Stopped(value: int) | Running(sum: int)

  /** The number an evaluation returns. */
  function Finish(w: Sweep): int
  {
    match w
    case Stopped(v) => v
    case Running(t) => t
  }

  /** An evaluation whose running sum is then added onto a sum already made. */
  function Shift(w: Sweep, acc: int): Sweep
  {
    match w
    case Stopped(v) => w
    case Running(t) => Running(acc + t)
  }

  /** Evaluating one run of lines after another. */
  function Then(first: Sweep, next: Sweep): Sweep
  {
    match first
    case Stopped(v) => first
    case Running(t) => Shift(next, t)
  }

  /**
   * Sum the line scores onto acc in order, stopping at the first line whose
   * score is a sentinel; that score is then the result.
   */
  function SweepFrom(s: State, ls: seq<Line>, acc: int): (w: Sweep)
    requires WellFormed(s.grid)
    ensures w.Stopped? ==> IsSentinel(w.value)
    ensures Decided(s) && ls != [] ==> w == Stopped(MAX_GAME_SCORE * AsInt(s.outcome.value.piece))
    decreases |ls|
  {
    if ls == [] then Running(acc)
    else
      var sc := LineScore(s, ls[0]);
      if IsSentinel(sc) then Stopped(sc)
      else SweepFrom(s, ls[1..], acc + sc)
  }

  /** The static evaluation of a board from Yellow's point of view (src/board.rs `get_total_score`). */
  function TotalScore(s: State): (r: int)
    requires WellFormed(s.grid)
    ensures Decided(s) ==> r == MAX_GAME_SCORE * AsInt(s.outcome.value.piece)
  {
    Finish(SweepFrom(s, Lines(), 0))
  }

  /** A sweep over two runs of lines is the sweep of the first, then of the second from zero. */
  lemma {:induction false} SweepAppend(s: State, a: seq<Line>, b: seq<Line>, acc: int)
    requires WellFormed(s.grid)
    ensures SweepFrom(s, a + b, acc) == Then(SweepFrom(s, a, acc), SweepFrom(s, b, 0))
    decreases |a|
  {
    if a == [] {
      assert a + b == b;
      SweepShift(s, b, acc);
    } else {
      assert (a + b)[0] == a[0] && (a + b)[1..] == a[1..] + b;
      SweepAppend(s, a[1..], b, acc + LineScore(s, a[0]));
    }
  }

  /** The starting sum only shifts the running sum. */
  lemma {:induction false} SweepShift(s: State, ls: seq<Line>, acc: int)
    requires WellFormed(s.grid)
    ensures SweepFrom(s, ls, acc) == Shift(SweepFrom(s, ls, 0), acc)
    decreases |ls|
  {
    if ls != [] {
      var sc := LineScore(s, ls[0]);
      SweepShift(s, ls[1..], acc + sc);
      SweepShift(s, ls[1..], sc);
    }
  }

  /** The evaluation is the four loop nests of `get_total_score`, one after another. */
  lemma TotalScoreByBlocks(s: State)
    requires WellFormed(s.grid)
    ensures TotalScore(s) ==
            Finish(Then(SweepFrom(s, BlockLines(0, 6, 4, 1, 0), 0),
                   Then(SweepFrom(s, BlockLines(0, 3, 7, 0, 1), 0),
                   Then(SweepFrom(s, BlockLines(0, 3, 4, 1, 1), 0),
                        SweepFrom(s, BlockLines(3, 6, 4, 1, -1), 0)))))
  {
    var h, v, f, r := BlockLines(0, 6, 4, 1, 0), BlockLines(0, 3, 7, 0, 1), BlockLines(0, 3, 4, 1, 1), BlockLines(3, 6, 4, 1, -1);
    LinesByBlocks();
    SweepAppend(s, h, v + (f + r), 0);
    SweepAppend(s, v, f + r, 0);
    SweepAppend(s, f, r, 0);
  }

  /** The scores of the lines, in order. */
  function ScoresOf(s: State, ls: seq<Line>): (r: seq<int>)
    requires WellFormed(s.grid)
    ensures |r| == |ls| && forall i :: 0 <= i < |ls| ==> r[i] == LineScore(s, ls[i])
  {
    seq(|ls|, i requires 0 <= i < |ls| => LineScore(s, ls[i]))
  }

  /** The scores of a block, row by row. */
  function BlockScores(s: State, y0: int, y1: int, w: nat, dx: int, dy: int): (bs: seq<seq<int>>)
    requires WellFormed(s.grid) && y0 <= y1
    ensures |bs| == y1 - y0
    ensures forall i :: 0 <= i < y1 - y0 ==> bs[i] == ScoresOf(s, RowLines(y0 + i, w, dx, dy))
  {
    seq(y1 - y0, i requires 0 <= i < y1 - y0 => ScoresOf(s, RowLines(y0 + i, w, dx, dy)))
  }

  /** The sweep over scores already computed. */
  function Scan(scores: seq<int>, acc: int): Sweep
    decreases |scores|
  {
    if scores == [] then Running(acc)
    else if IsSentinel(scores[0]) then Stopped(scores[0])
    else Scan(scores[1..], acc + scores[0])
  }

  /** The sweep over rows of computed scores. */
  function ScanRows(rows: seq<seq<int>>, acc: int): Sweep
    decreases |rows|, 1
  {
    if rows == [] then Running(acc) else Resume(Scan(rows[0], acc), rows[1..])
  }

  /** A sweep that goes on into the rows still to scan unless it has stopped. */
  function Resume(w: Sweep, rows: seq<seq<int>>): Sweep
    decreases |rows|, 2
  {
    match w
    case Stopped(v) => w
    case Running(t) => ScanRows(rows, t)
  }

  /**
   * One step of the scan at position x, with x1 the next position and acc1
   * the sum it carries on with.  x1 and acc1 are parameters equal to x + 1
   * and acc + scores[x] so that the loop of `Boards.Board.ScoreBlock` can
   * pass the variables it holds; stated with the sums themselves, the
   * verifier matches them against the loop's variables only very slowly.
   */
  lemma ScanStep(scores: seq<int>, x: int, x1: int, acc: int, acc1: int)
    requires 0 <= x < |scores| && x1 == x + 1 && acc1 == acc + scores[x]
    ensures Scan(scores[x..], acc) ==
            if IsSentinel(scores[x]) then Stopped(scores[x]) else Scan(scores[x1..], acc1)
  {
    assert scores[x..][0] == scores[x] && scores[x..][1..] == scores[x + 1..];
  }

  lemma ScanRowsStep(rows: seq<seq<int>>, i: int, acc: int)
    requires 0 <= i < |rows|
    ensures ScanRows(rows[i..], acc) == Resume(Scan(rows[i], acc), rows[i + 1..])
  {
    assert rows[i..][0] == rows[i] && rows[i..][1..] == rows[i + 1..];
  }

  /** Sweeping lines is scanning their scores. */
  lemma {:induction false} SweepScores(s: State, ls: seq<Line>, acc: int)
    requires WellFormed(s.grid)
    ensures SweepFrom(s, ls, acc) == Scan(ScoresOf(s, ls), acc)
    decreases |ls|
  {
    if ls != [] {
      assert ScoresOf(s, ls)[1..] == ScoresOf(s, ls[1..]);
      SweepScores(s, ls[1..], acc + LineScore(s, ls[0]));
    }
  }

  /** Without its first row, a block's scores are those of the block one row lower down. */
  lemma BlockScoresTail(s: State, y0: int, y: int, y1: int, w: nat, dx: int, dy: int)
    requires WellFormed(s.grid) && y0 < y1 && y == y0 + 1
    ensures BlockScores(s, y0, y1, w, dx, dy)[1..] == BlockScores(s, y, y1, w, dx, dy)
  {
    var a, b := BlockScores(s, y0, y1, w, dx, dy)[1..], BlockScores(s, y, y1, w, dx, dy);
    forall i | 0 <= i < |b|
      ensures a[i] == b[i]
    {
      assert y0 + (i + 1) == y + i;
    }
  }

  /** Sweeping a block of lines is scanning its rows of scores. */
  lemma {:induction false} SweepBlock(s: State, y0: int, y1: int, w: nat, dx: int, dy: int, acc: int)
    requires WellFormed(s.grid) && y0 <= y1
    ensures SweepFrom(s, BlockLines(y0, y1, w, dx, dy), acc) == ScanRows(BlockScores(s, y0, y1, w, dx, dy), acc)
    decreases y1 - y0
  {
    if y0 < y1 {
      var y := y0 + 1;
      var row, below := RowLines(y0, w, dx, dy), BlockLines(y, y1, w, dx, dy);
      SweepAppend(s, row, below, acc);
      SweepScores(s, row, acc);
      BlockScoresTail(s, y0, y, y1, w, dx, dy);
      var first := SweepFrom(s, row, acc);
      if first.Running? {
        var sum := first.sum;
        SweepBlock(s, y, y1, w, dx, dy, sum);
        SweepShift(s, below, sum);
      }
    }
  }

  /**
   * The scores of a block as rows of numbers: entry [y - y0][x] is the
   * score of the line starting at column x of row y.  Only these facts are
   * given out, so that a loop over the block does not carry the sweep.
   */
  lemma BlockScan(s: State, y0: int, y1: int, w: nat, dx: int, dy: int) returns (bs: seq<seq<int>>)
    requires WellFormed(s.grid) && y0 <= y1
    ensures |bs| == y1 - y0 && forall i :: 0 <= i < |bs| ==> |bs[i]| == w
    ensures forall x, y {:trigger LineScore(s, Line(x, y, dx, dy))} ::
              y0 <= y < y1 && 0 <= x < w ==> bs[y - y0][x] == LineScore(s, Line(x, y, dx, dy))
  {
    bs := BlockScores(s, y0, y1, w, dx, dy);
  }

  /** Rows of numbers with those facts scan the way the block's lines sweep. */
  lemma BlockSweep(s: State, y0: int, y1: int, w: nat, dx: int, dy: int, bs: seq<seq<int>>)
    requires WellFormed(s.grid) && y0 <= y1
    requires |bs| == y1 - y0 && forall i :: 0 <= i < |bs| ==> |bs[i]| == w
    requires forall x, y {:trigger LineScore(s, Line(x, y, dx, dy))} ::
               y0 <= y < y1 && 0 <= x < w ==> bs[y - y0][x] == LineScore(s, Line(x, y, dx, dy))
    ensures SweepFrom(s, BlockLines(y0, y1, w, dx, dy), 0) == ScanRows(bs, 0)
  {
    var scores := BlockScores(s, y0, y1, w, dx, dy);
    forall i | 0 <= i < |bs|
      ensures bs[i] == scores[i]
    {
      forall x | 0 <= x < w
        ensures bs[i][x] == scores[i][x]
      {
        assert bs[(y0 + i) - y0][x] == LineScore(s, Line(x, y0 + i, dx, dy));
      }
    }
    assert bs == scores;
    SweepBlock(s, y0, y1, w, dx, dy, 0);
  }

  /** Some line of the board is four times p. */
  predicate HasLine(g: Grid, p: Piece)
    requires WellFormed(g)
  {
    exists k :: 0 <= k < 69 && Complete(g, Lines()[k], p)
  }

  lemma {:induction false} SweepNoLine(s: State, ls: seq<Line>, acc: int)
    requires WellFormed(s.grid) && !Decided(s)
    requires forall k :: 0 <= k < |ls| ==> !Complete(s.grid, ls[k], Yellow) && !Complete(s.grid, ls[k], Red)
    ensures SweepFrom(s, ls, acc).Running? && acc - 3 * |ls| <= SweepFrom(s, ls, acc).sum <= acc + 3 * |ls|
  {
    if ls != [] {
      LineScoreMeaning(s, ls[0]);
      SweepNoLine(s, ls[1..], acc + LineScore(s, ls[0]));
    }
  }

  lemma {:induction false} SweepSomeLine(s: State, ls: seq<Line>, acc: int, k: int)
    requires WellFormed(s.grid) && !Decided(s)
    requires 0 <= k < |ls| && (Complete(s.grid, ls[k], Yellow) || Complete(s.grid, ls[k], Red))
    ensures SweepFrom(s, ls, acc).Stopped? && IsSentinel(SweepFrom(s, ls, acc).value)
  {
    LineScoreMeaning(s, ls[0]);
    if k > 0 && !IsSentinel(LineScore(s, ls[0])) {
      SweepSomeLine(s, ls[1..], acc + LineScore(s, ls[0]), k - 1);
    }
  }

  lemma {:induction false} SweepOneColour(s: State, ls: seq<Line>, acc: int, p: Piece, k: int)
    requires WellFormed(s.grid) && !Decided(s)
    requires 0 <= k < |ls| && Complete(s.grid, ls[k], p)
    requires forall j :: 0 <= j < |ls| ==> !Complete(s.grid, ls[j], Flip(p))
    ensures SweepFrom(s, ls, acc) == Stopped(MAX_GAME_SCORE * AsInt(p))
  {
    LineScoreMeaning(s, ls[0]);
    if k > 0 && !IsSentinel(LineScore(s, ls[0])) {
      SweepOneColour(s, ls[1..], acc + LineScore(s, ls[0]), p, k - 1);
    }
  }

  /**
   * The evaluation is the sentinel of the recorded winner if there is one;
   * otherwise it is a sentinel exactly when some line is complete, and a
   * value of absolute value at most 69 * 3 = 207 when none is.
   */
  lemma TotalScoreMeaning(s: State)
    requires WellFormed(s.grid)
    ensures Decided(s) ==> TotalScore(s) == MAX_GAME_SCORE * AsInt(s.outcome.value.piece)
    ensures !Decided(s) ==>
              ((TotalScore(s) == MAX_GAME_SCORE || TotalScore(s) == -MAX_GAME_SCORE) <==>
               (HasLine(s.grid, Yellow) || HasLine(s.grid, Red)))
    ensures !Decided(s) && !HasLine(s.grid, Yellow) && !HasLine(s.grid, Red) ==> -207 <= TotalScore(s) <= 207
    ensures -MAX_GAME_SCORE <= TotalScore(s) <= MAX_GAME_SCORE
  {
    var ls := Lines();
    if Decided(s) {
      LineScoreMeaning(s, ls[0]);
    } else if HasLine(s.grid, Yellow) || HasLine(s.grid, Red) {
      var k :| 0 <= k < 69 && (Complete(s.grid, ls[k], Yellow) || Complete(s.grid, ls[k], Red));
      SweepSomeLine(s, ls, 0, k);
    } else {
      SweepNoLine(s, ls, 0);
    }
  }

  /**
   * The static evaluation never leaves the band between the two sentinels:
   * the last clause of `TotalScoreMeaning` on its own, for proofs that need
   * only the bound and would be slowed by the other clauses.
   */
  lemma TotalScoreBounds(s: State)
    requires WellFormed(s.grid)
    ensures -MAX_GAME_SCORE <= TotalScore(s) <= MAX_GAME_SCORE
  {
    TotalScoreMeaning(s);
  }

  /** A line of one colour and none of the other makes the evaluation that colour's sentinel. */
  lemma TotalScoreWinner(s: State, p: Piece)
    requires WellFormed(s.grid) && !Decided(s)
    requires HasLine(s.grid, p) && !HasLine(s.grid, Flip(p))
    ensures TotalScore(s) == MAX_GAME_SCORE * AsInt(p)
  {
    var ls := Lines();
    var k :| 0 <= k < 69 && Complete(s.grid, ls[k], p);
    SweepOneColour(s, ls, 0, p, k);
  }

  /** The evaluation reads the outcome only to see whether it names a winner: a draw counts as no outcome. */
  lemma TotalScoreIgnoresDraw(s: State)
    requires WellFormed(s.grid)
    ensures TotalScore(s.(outcome := Some(Draw))) == TotalScore(s.(outcome := None))
  {
    var d, n := s.(outcome := Some(Draw)), s.(outcome := None);
    SweepSameLines(d, n, Lines(), 0);
  }

  lemma {:induction false} SweepSameLines(s: State, t: State, ls: seq<Line>, acc: int)
    requires WellFormed(s.grid)
    requires s.grid == t.grid && !Decided(s) && !Decided(t)
    ensures SweepFrom(s, ls, acc) == SweepFrom(t, ls, acc)
  {
    if ls != [] {
      SweepSameLines(s, t, ls[1..], acc + LineScore(s, ls[0]));
    }
  }
}
