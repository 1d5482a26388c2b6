// The rules of src/board.rs stated on snapshots: the gravity drop of
// `insert_at`, the outcome update of `update_outcome` and the move list of
// `get_valid_moves`.  The class in board.dfy is proved to compute exactly
// these functions.
module Rules {
  import opened Pieces
  import opened Evaluation

  /** The top cell of column c (0-based) is empty (src/board.rs `is_slot_empty`). */
  predicate TopEmpty(g: Grid, c: int)
    requires WellFormed(g) && 0 <= c < COLS
  {
    g[0][c] == None
  }

  /** Some column can still take a piece. */
  predicate AnyOpen(g: Grid)
    requires WellFormed(g)
  {
    exists c :: 0 <= c < COLS && TopEmpty(g, c)
  }

  /** Gravity: every cell below an occupied cell of the same column is occupied. */
  predicate Gravity(g: Grid)
    requires WellFormed(g)
  {
    forall r, k, c :: 0 <= r <= k < ROWS && 0 <= c < COLS && g[r][c].Some? ==> g[k][c].Some?
  }

  /**
   * What every board built by `Board::new` and `insert_at` satisfies:
   * gravity, and while the game is open, a column with room and no
   * complete line (`update_outcome` records a winner as soon as one appears).
   */
  predicate Reachable(s: State)
  {
    WellFormed(s.grid) && Gravity(s.grid) &&
    (s.outcome.None? ==> AnyOpen(s.grid) && !HasLine(s.grid, Yellow) && !HasLine(s.grid, Red))
  }

  function EmptyGrid(): (g: Grid)
    ensures WellFormed(g)
  {
    seq(ROWS, r => seq(COLS, c => None))
  }

  /** The board `Board::new` creates: empty, Yellow to move, no outcome. */
  function Initial(): (t: State)
    ensures WellFormed(t.grid) && t.outcome == None && t.turn == Yellow
    ensures forall r, c :: OnGrid(c, r) ==> t.grid[r][c] == None
  {
    State(EmptyGrid(), None, Yellow)
  }

  /**
   * The drop loop of `insert_at`: starting at row y, move down while the
   * cell below is empty.  It stops on the floor or above an occupied cell,
   * and every cell it passed through below y is empty.
   */
  function DropRow(g: Grid, c: int, y: int): (r: int)
    requires WellFormed(g) && 0 <= c < COLS && 0 <= y < ROWS
    ensures y <= r < ROWS
    ensures r == ROWS - 1 || g[r + 1][c].Some?
    ensures forall k :: y < k <= r ==> g[k][c] == None
    decreases ROWS - y
  {
    if y < ROWS - 1 && g[y + 1][c] == None then DropRow(g, c, y + 1) else y
  }

  /** Place the mover's piece at (row y, column c). */
  function Place(s: State, y: int, c: int): (t: State)
    requires WellFormed(s.grid) && OnGrid(c, y)
    ensures WellFormed(t.grid) && t.outcome == s.outcome && t.turn == s.turn
    ensures t.grid[y][c] == Some(s.turn)
    ensures forall r, k :: OnGrid(k, r) && (r != y || k != c) ==> t.grid[r][k] == s.grid[r][k]
  {
    s.(grid := s.grid[y := s.grid[y][c := Some(s.turn)]])
  }

  /**
   * src/board.rs `update_outcome`: nothing once an outcome is set; otherwise
   * a full top row makes a draw, which a sentinel evaluation then replaces
   * by the winner.
   */
  function UpdateOutcome(s: State): (t: State)
    requires WellFormed(s.grid)
    ensures t.grid == s.grid && t.turn == s.turn
  {
    if s.outcome.Some? then s
    else
      var d := if !AnyOpen(s.grid) then s.(outcome := Some(Draw)) else s;
      var total := TotalScore(d);
      if total == MAX_GAME_SCORE then d.(outcome := Some(Winner(Yellow)))
      else if total == -MAX_GAME_SCORE then d.(outcome := Some(Winner(Red)))
      else d
  }

  /** src/board.rs `insert_at` for a 1-based column. */
  function Insert(s: State, col: int): (r: Result<State, InsertionError>)
    requires WellFormed(s.grid) && 1 <= col <= COLS
    ensures r.Ok? ==> WellFormed(r.value.grid)
    ensures s.outcome.None? && TopEmpty(s.grid, col - 1) ==> r.Ok?
  {
    if s.outcome.Some? then Err(GameFinished)
    else
      var c := col - 1;
      var y := DropRow(s.grid, c, 0);
      if s.grid[y][c].Some? then Err(FilledSlot)
      else
        var u := UpdateOutcome(Place(s, y, c));
        Ok(if u.outcome.None? then u.(turn := Flip(u.turn)) else u)
  }

  // ---------------------------------------------------------------------
  // Insertion

  /** In an open game with room at the drop row, `insert_at` places, updates the outcome and passes the turn unless the game ended. */
  lemma InsertPlaces(s: State, col: int, y: int)
    requires WellFormed(s.grid) && 1 <= col <= COLS && s.outcome.None?
    requires y == DropRow(s.grid, col - 1, 0) && s.grid[y][col - 1].None?
    ensures Insert(s, col).Ok?
    ensures var u := UpdateOutcome(Place(s, y, col - 1));
            Insert(s, col).value == if u.outcome.None? then u.(turn := Flip(u.turn)) else u
  {
  }

  /** In an open game, a column whose drop row is taken is refused as full. */
  lemma InsertFilled(s: State, col: int, y: int)
    requires WellFormed(s.grid) && 1 <= col <= COLS && s.outcome.None?
    requires y == DropRow(s.grid, col - 1, 0) && s.grid[y][col - 1].Some?
    ensures Insert(s, col) == Err(FilledSlot)
  {
  }

  /** A finished game refuses every column, whatever the grid. */
  lemma InsertAfterGameEnd(s: State, col: int)
    requires WellFormed(s.grid) && 1 <= col <= COLS && s.outcome.Some?
    ensures Insert(s, col) == Err(GameFinished)
  {
  }

  /** Under gravity a column whose top cell is occupied is full, and `insert_at` reports it. */
  lemma InsertFullColumn(s: State, col: int)
    requires WellFormed(s.grid) && Gravity(s.grid) && 1 <= col <= COLS
    requires s.outcome.None? && !TopEmpty(s.grid, col - 1)
    ensures Insert(s, col) == Err(FilledSlot)
    ensures forall r :: 0 <= r < ROWS ==> s.grid[r][col - 1].Some?
  {
    assert s.grid[1][col - 1].Some?;
  }

  /**
   * A successful insertion changes exactly one cell: the lowest empty cell
   * of the column (everything below it is occupied, everything above it is
   * empty), which now holds the piece of the player who was to move.
   */
  lemma InsertDropsToLowestEmpty(s: State, col: int) returns (y: int)
    requires WellFormed(s.grid) && Gravity(s.grid) && 1 <= col <= COLS
    requires s.outcome.None? && TopEmpty(s.grid, col - 1)
    ensures Insert(s, col).Ok?
    ensures 0 <= y < ROWS && s.grid[y][col - 1] == None
    ensures forall k :: y < k < ROWS ==> s.grid[k][col - 1].Some?
    ensures forall k :: 0 <= k < y ==> s.grid[k][col - 1] == None
    ensures Insert(s, col).value.grid[y][col - 1] == Some(s.turn)
    ensures forall r, c :: OnGrid(c, r) && (r, c) != (y, col - 1) ==>
              Insert(s, col).value.grid[r][c] == s.grid[r][c]
  {
    var c := col - 1;
    y := DropRow(s.grid, c, 0);
    var t := Insert(s, col).value;
    assert t.grid == Place(s, y, c).grid;
    assert forall k :: y < k < ROWS ==> s.grid[k][c].Some? by {
      if y < ROWS - 1 { assert s.grid[y + 1][c].Some?; }
    }
  }

  /** Placing a piece on the lowest empty cell of a column keeps gravity. */
  lemma InsertKeepsGravity(s: State, col: int)
    requires WellFormed(s.grid) && Gravity(s.grid) && 1 <= col <= COLS && Insert(s, col).Ok?
    ensures Gravity(Insert(s, col).value.grid)
  {
    var c := col - 1;
    var y := DropRow(s.grid, c, 0);
    var g: Grid := Place(s, y, c).grid;
    assert Insert(s, col).value.grid == g;
    assert forall k :: y < k < ROWS ==> s.grid[k][c].Some? by {
      if y < ROWS - 1 { assert s.grid[y + 1][c].Some?; }
    }
    forall r, k, c' | 0 <= r <= k < ROWS && 0 <= c' < COLS && g[r][c'].Some?
      ensures g[k][c'].Some?
    {
      if c' != c || k != y {
        assert g[k][c'] == s.grid[k][c'];
        if c' != c || r != y {
          assert g[r][c'] == s.grid[r][c'];
        }
      }
    }
  }

  /**
   * After a successful insertion the turn passes to the other player
   * exactly when the game is still open; an outcome, once recorded, freezes
   * the turn on the player who made the last move.
   */
  lemma InsertTurn(s: State, col: int)
    requires WellFormed(s.grid) && 1 <= col <= COLS && Insert(s, col).Ok?
    ensures var t := Insert(s, col).value;
            (t.outcome.None? ==> t.turn == Flip(s.turn)) &&
            (t.outcome.Some? ==> t.turn == s.turn)
  {
  }

  /** Errors leave the state as it was (the class method returns it unchanged), and success needs an open game. */
  lemma InsertOkNeedsOpenGame(s: State, col: int)
    requires WellFormed(s.grid) && 1 <= col <= COLS
    ensures Insert(s, col).Ok? <==> s.outcome.None? && s.grid[DropRow(s.grid, col - 1, 0)][col - 1] == None
  {
  }

  /**
   * The outcome recorded after a piece is placed: a complete line of one
   * colour alone makes that colour the winner, even on a full board; a draw
   * exactly when the top row is full and no line is complete; the game stays
   * open exactly when some column is open and no line is complete.
   */
  lemma UpdateOutcomeMeaning(s: State)
    requires WellFormed(s.grid) && s.outcome.None?
    ensures forall p :: HasLine(s.grid, p) && !HasLine(s.grid, Flip(p)) ==>
              UpdateOutcome(s).outcome == Some(Winner(p))
    ensures UpdateOutcome(s).outcome == Some(Draw) <==>
              !AnyOpen(s.grid) && !HasLine(s.grid, Yellow) && !HasLine(s.grid, Red)
    ensures UpdateOutcome(s).outcome == None <==>
              AnyOpen(s.grid) && !HasLine(s.grid, Yellow) && !HasLine(s.grid, Red)
  {
    var d := if !AnyOpen(s.grid) then s.(outcome := Some(Draw)) else s;
    TotalScoreIgnoresDraw(s);
    TotalScoreMeaning(s);
    assert TotalScore(d) == TotalScore(s);
    forall p | HasLine(s.grid, p) && !HasLine(s.grid, Flip(p))
      ensures UpdateOutcome(s).outcome == Some(Winner(p))
    {
      TotalScoreWinner(s, p);
    }
  }

  /** Once set, an outcome is never cleared or replaced; the update does nothing then. */
  lemma UpdateOutcomeKeepsOutcome(s: State)
    requires WellFormed(s.grid) && s.outcome.Some?
    ensures UpdateOutcome(s) == s
  {
  }

  /** After a placement the placed position reads the mover's piece and every other position reads as before. */
  lemma CellOfPlace(s: State, y: int, c: int, x': int, y': int)
    requires WellFormed(s.grid) && OnGrid(c, y)
    ensures CellOf(Place(s, y, c).grid, x', y') == if x' == c && y' == y then Some(s.turn) else CellOf(s.grid, x', y')
  {
  }

  /** A placement fills no line of the player not moving that was not already full. */
  lemma PlaceKeepsIncomplete(s: State, y: int, c: int, l: Line)
    requires WellFormed(s.grid) && OnGrid(c, y) && !Complete(s.grid, l, Flip(s.turn))
    ensures !Complete(Place(s, y, c).grid, l, Flip(s.turn))
  {
    var g, q := Place(s, y, c).grid, Flip(s.turn);
    CellOfPlace(s, y, c, l.x, l.y);
    CellOfPlace(s, y, c, l.x + l.dx, l.y + l.dy);
    CellOfPlace(s, y, c, l.x + 2 * l.dx, l.y + 2 * l.dy);
    CellOfPlace(s, y, c, l.x + 3 * l.dx, l.y + 3 * l.dy);
    var i :| 0 <= i < 4 && Cells(s.grid, l)[i] != Some(q);
    assert Cells(g, l)[i] != Some(q);
  }

  /** A placement never completes a line for the player not moving. */
  lemma PlaceGivesNoLine(s: State, y: int, c: int)
    requires WellFormed(s.grid) && OnGrid(c, y) && !HasLine(s.grid, Flip(s.turn))
    ensures !HasLine(Place(s, y, c).grid, Flip(s.turn))
  {
    forall k | 0 <= k < 69
      ensures !Complete(Place(s, y, c).grid, Lines()[k], Flip(s.turn))
    {
      PlaceKeepsIncomplete(s, y, c, Lines()[k]);
    }
  }

  /**
   * On a board the program can build, a successful insertion into an open
   * game never gives the opponent a line, and it records the mover as the
   * winner exactly when the mover now has a line.
   */
  lemma InsertRecordsWinner(s: State, col: int)
    requires Reachable(s) && s.outcome.None? && 1 <= col <= COLS && Insert(s, col).Ok?
    ensures var t := Insert(s, col).value;
            !HasLine(t.grid, Flip(s.turn)) &&
            t.outcome != Some(Winner(Flip(s.turn))) &&
            (HasLine(t.grid, s.turn) <==> t.outcome == Some(Winner(s.turn)))
  {
    var c := col - 1;
    var y := DropRow(s.grid, c, 0);
    InsertOkNeedsOpenGame(s, col);
    InsertPlaces(s, col, y);
    var p := Place(s, y, c);
    PlaceGivesNoLine(s, y, c);
    UpdateOutcomeMeaning(p);
  }

  /** Building a board and inserting into it keep the gravity invariant, the draw rule and the win rule. */
  lemma InsertKeepsReachable(s: State, col: int)
    requires Reachable(s) && 1 <= col <= COLS && Insert(s, col).Ok?
    ensures Reachable(Insert(s, col).value)
  {
    var c := col - 1;
    if !TopEmpty(s.grid, c) {
      InsertFullColumn(s, col);
    }
    InsertKeepsGravity(s, col);
    var y := DropRow(s.grid, c, 0);
    var p := Place(s, y, c);
    UpdateOutcomeMeaning(p);
  }

  lemma InitialReachable()
    ensures Reachable(Initial())
    ensures !HasLine(Initial().grid, Yellow) && !HasLine(Initial().grid, Red)
  {
    var g := Initial().grid;
    assert TopEmpty(g, 0);
    forall k | 0 <= k < 69 ensures !Complete(g, Lines()[k], Yellow) && !Complete(g, Lines()[k], Red) {
      assert Cells(g, Lines()[k])[0] == None;
    }
  }

  // ---------------------------------------------------------------------
  // Valid moves

  /**
   * The 0-based columns `get_valid_moves` tries: the centre column 3, then
   * alternately one further left and one further right.
   */
  function CentreOrder(): (o: seq<int>)
    ensures |o| == COLS && AllColumns(o)
  {
    seq(COLS, i => if i % 2 == 0 then 3 + i / 2 else 2 - i / 2)
  }

  /** Written out, the order is the source's array 3, 2, 4, 1, 5, 0, 6. */
  lemma CentreOrderIs()
    ensures CentreOrder() == [3, 2, 4, 1, 5, 0, 6]
  {
  }

  predicate AllColumns(cols: seq<int>)
  {
    forall i :: 0 <= i < |cols| ==> 0 <= cols[i] < COLS
  }

  /** The 1-based numbers of the columns in `cols` whose top cell is empty, in the order of `cols`. */
  function MovesOf(g: Grid, cols: seq<int>): (ms: seq<int>)
    requires WellFormed(g) && AllColumns(cols)
    ensures |ms| <= |cols| && forall i :: 0 <= i < |ms| ==> 1 <= ms[i] <= COLS
  {
    if cols == [] then []
    else (if TopEmpty(g, cols[0]) then [cols[0] + 1] else []) + MovesOf(g, cols[1..])
  }

  /** Looking at one more column at the end (the order `get_valid_moves` visits them in). */
  lemma {:induction false} MovesOfSnoc(g: Grid, cols: seq<int>, c: int)
    requires WellFormed(g) && AllColumns(cols) && 0 <= c < COLS
    ensures AllColumns(cols + [c])
    ensures MovesOf(g, cols + [c]) == MovesOf(g, cols) + (if TopEmpty(g, c) then [c + 1] else [])
  {
    if cols != [] {
      assert (cols + [c])[1..] == cols[1..] + [c];
      MovesOfSnoc(g, cols[1..], c);
    }
  }

  /** src/board.rs `get_valid_moves`. */
  function ValidMoves(g: Grid): (ms: seq<int>)
    requires WellFormed(g)
    ensures |ms| <= COLS && forall i :: 0 <= i < |ms| ==> 1 <= ms[i] <= COLS
  {
    MovesOf(g, CentreOrder())
  }

  /**
   * The place of a 1-based column in the centre-first order 4, 3, 5, 2, 6, 1, 7:
   * nearer the centre first, and left before right at equal distance.
   */
  function Rank(m: int): int
  {
    if m > 4 then 2 * (m - 4) else if m < 4 then 2 * (4 - m) - 1 else 0
  }

  /** A list of 1-based moves strictly in the centre-first order (so without duplicates). */
  predicate CentreFirst(ms: seq<int>)
  {
    forall i, j :: 0 <= i < j < |ms| ==> Rank(ms[i]) < Rank(ms[j])
  }

  /** The same for a list of 0-based columns. */
  predicate CentreFirstColumns(cols: seq<int>)
  {
    forall i, j :: 0 <= i < j < |cols| ==> Rank(cols[i] + 1) < Rank(cols[j] + 1)
  }

  /** Every listed move is an open column taken from `cols`. */
  lemma {:induction false} MovesOfSound(g: Grid, cols: seq<int>)
    requires WellFormed(g) && AllColumns(cols)
    ensures forall m :: m in MovesOf(g, cols) ==> m - 1 in cols && TopEmpty(g, m - 1)
  {
    if cols != [] {
      MovesOfSound(g, cols[1..]);
    }
  }

  /** Every open column of `cols` is listed. */
  lemma {:induction false} MovesOfComplete(g: Grid, cols: seq<int>, c: int)
    requires WellFormed(g) && AllColumns(cols) && c in cols && TopEmpty(g, c)
    ensures c + 1 in MovesOf(g, cols)
  {
    if cols[0] != c {
      MovesOfComplete(g, cols[1..], c);
    }
  }

  lemma HeadFirst(g: Grid, cols: seq<int>)
    requires WellFormed(g) && AllColumns(cols) && cols != [] && CentreFirstColumns(cols)
    ensures forall m :: m in MovesOf(g, cols[1..]) ==> Rank(cols[0] + 1) < Rank(m)
  {
    MovesOfSound(g, cols[1..]);
    forall m | m in MovesOf(g, cols[1..]) ensures Rank(cols[0] + 1) < Rank(m) {
      var p :| 0 <= p < |cols[1..]| && cols[1..][p] == m - 1;
      assert cols[p + 1] == m - 1;
    }
  }

  /** Skipping full columns keeps the order of the columns tried. */
  lemma {:induction false} MovesOfOrdered(g: Grid, cols: seq<int>)
    requires WellFormed(g) && AllColumns(cols) && CentreFirstColumns(cols)
    ensures CentreFirst(MovesOf(g, cols))
  {
    if cols != [] {
      MovesOfOrdered(g, cols[1..]);
      var rest := MovesOf(g, cols[1..]);
      if TopEmpty(g, cols[0]) {
        HeadFirst(g, cols);
        var ms := MovesOf(g, cols);
        assert ms == [cols[0] + 1] + rest;
        forall i, j | 0 <= i < j < |ms| ensures Rank(ms[i]) < Rank(ms[j]) {
          assert ms[j] == rest[j - 1] && rest[j - 1] in rest;
          if i > 0 {
            assert ms[i] == rest[i - 1];
          }
        }
      } else {
        assert MovesOf(g, cols) == rest;
      }
    }
  }

  /** The order tried covers every column once, centre first. */
  lemma CentreOrderFacts()
    ensures CentreFirstColumns(CentreOrder())
    ensures forall c :: c in CentreOrder() <==> 0 <= c < COLS
  {
    CentreOrderIs();
  }

  /**
   * The valid moves are exactly the 1-based columns whose top cell is empty,
   * strictly in the centre-first order (so without duplicates), and there
   * are none exactly when every column is full.
   */
  lemma ValidMovesMeaning(g: Grid)
    requires WellFormed(g)
    ensures forall m :: m in ValidMoves(g) <==> 1 <= m <= COLS && TopEmpty(g, m - 1)
    ensures CentreFirst(ValidMoves(g))
    ensures ValidMoves(g) == [] <==> !AnyOpen(g)
  {
    CentreOrderFacts();
    MovesOfSound(g, CentreOrder());
    forall m | 1 <= m <= COLS && TopEmpty(g, m - 1) ensures m in ValidMoves(g) {
      MovesOfComplete(g, CentreOrder(), m - 1);
    }
    MovesOfOrdered(g, CentreOrder());
    if AnyOpen(g) {
      var c :| 0 <= c < COLS && TopEmpty(g, c);
      assert c + 1 in ValidMoves(g);
    }
    assert ValidMoves(g) != [] ==> ValidMoves(g)[0] in ValidMoves(g);
  }

  /** When every column tried is open, each is listed, 1-based, in the order tried. */
  lemma {:induction false} MovesOfAllOpen(g: Grid, cols: seq<int>)
    requires WellFormed(g) && AllColumns(cols)
    requires forall i :: 0 <= i < |cols| ==> TopEmpty(g, cols[i])
    ensures |MovesOf(g, cols)| == |cols|
    ensures forall i :: 0 <= i < |cols| ==> MovesOf(g, cols)[i] == cols[i] + 1
  {
    if cols != [] {
      MovesOfAllOpen(g, cols[1..]);
      assert MovesOf(g, cols) == [cols[0] + 1] + MovesOf(g, cols[1..]);
    }
  }

  /** On the empty board every column is valid, centre first. */
  lemma ValidMovesOfEmptyBoard()
    ensures ValidMoves(EmptyGrid()) == [4, 3, 5, 2, 6, 1, 7]
  {
    var o := CentreOrder();
    CentreOrderIs();
    MovesOfAllOpen(EmptyGrid(), o);
  }
}
