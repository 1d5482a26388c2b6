// The game-tree search of src/main.rs (`negamax`): a depth-limited negamax
// with alpha-beta pruning over copies of the board.
//
// `GameTree` is the tree of positions the search may visit: a leaf where the
// depth runs out or the game is decided, otherwise one branch per valid move
// in the order `get_valid_moves` lists them.  `AlphaBeta` is what the source
// computes on that tree, pruning included, and `NegamaxValue` is the plain
// negamax value without pruning.  The pruned search is proved to agree with
// the plain value inside every window, and exactly at the root window the
// program uses.  `Negamax` is the recursive method over `Board`s, proved to
// return what `AlphaBeta` gives for the tree of its board.
module Search {
  import opened Pieces
  import opened Evaluation
  import opened Rules
  import opened Boards

  /** What `value` holds before the first child of an undecided node is tried. */
  const FLOOR: int := -MAX_GAME_SCORE + 1

  function Max(a: int, b: int): int
  {
    if a >= b then a else b
  }

  // ---------------------------------------------------------------------
  // The game tree

  /** A leaf holds the static evaluation (Yellow's view); a node one branch per move tried. */
  datatype Tree = Leaf(score: int) | Node(branches: seq<Branch>)
  datatype Branch = Branch(move: int, tree: Tree)

  /** Every move of ms is a 1-based column with room at the top. */
  predicate Playable(s: State, ms: seq<int>)
    requires WellFormed(s.grid)
  {
    forall i :: 0 <= i < |ms| ==> 1 <= ms[i] <= COLS && TopEmpty(s.grid, ms[i] - 1)
  }

  lemma ValidMovesPlayable(s: State)
    requires WellFormed(s.grid)
    ensures Playable(s, ValidMoves(s.grid))
  {
    ValidMovesMeaning(s.grid);
    var ms := ValidMoves(s.grid);
    forall i | 0 <= i < |ms|
      ensures 1 <= ms[i] <= COLS && TopEmpty(s.grid, ms[i] - 1)
    {
      assert ms[i] in ms;
    }
  }

  /** The position after a playable move in an undecided position (the `insert_at` on the clone). */
  function Child(s: State, m: int): (t: State)
    requires WellFormed(s.grid) && s.outcome.None? && 1 <= m <= COLS && TopEmpty(s.grid, m - 1)
    ensures WellFormed(t.grid)
    ensures t.outcome.None? ==> t.turn == Flip(s.turn)
    ensures t.outcome.Some? ==> t.turn == s.turn
  {
    Insert(s, m).value
  }

  /**
   * The positions `negamax` may visit from s with depth left: a leaf when
   * the depth is spent or the outcome is set, otherwise a branch per
   * valid move.
   */
  function GameTree(s: State, depth: nat): (t: Tree)
    requires WellFormed(s.grid)
    ensures t.Leaf? <==> depth == 0 || s.outcome.Some?
    ensures t.Leaf? ==> -MAX_GAME_SCORE <= t.score <= MAX_GAME_SCORE
    decreases depth, 1
  {
    if depth == 0 || s.outcome.Some? then
      TotalScoreBounds(s);
      Leaf(TotalScore(s))
    else
      ValidMovesPlayable(s);
      Node(BranchesOf(s, depth, ValidMoves(s.grid)))
  }

  function BranchesOf(s: State, depth: nat, ms: seq<int>): (bs: seq<Branch>)
    requires WellFormed(s.grid) && 0 < depth && s.outcome.None? && Playable(s, ms)
    ensures |bs| == |ms| && forall i :: 0 <= i < |ms| ==> bs[i].move == ms[i]
    decreases depth, 0
  {
    seq(|ms|, i requires 0 <= i < |ms| => Branch(ms[i], GameTree(Child(s, ms[i]), depth - 1)))
  }

  function Moves(bs: seq<Branch>): (ms: seq<int>)
    ensures |ms| == |bs|
  {
    seq(|bs|, i requires 0 <= i < |bs| => bs[i].move)
  }

  /** The tree's branches are the valid moves, in order, each leading to the tree of the position it makes. */
  lemma GameTreeBranches(s: State, depth: nat)
    requires WellFormed(s.grid) && 0 < depth && s.outcome.None?
    ensures Playable(s, ValidMoves(s.grid))
    ensures GameTree(s, depth).Node?
    ensures var ms, bs := ValidMoves(s.grid), GameTree(s, depth).branches;
            |bs| == |ms| &&
            forall i :: 0 <= i < |ms| ==> bs[i] == Branch(ms[i], GameTree(Child(s, ms[i]), depth - 1))
    ensures Moves(GameTree(s, depth).branches) == ValidMoves(s.grid)
  {
    ValidMovesPlayable(s);
  }

  /** Every leaf score lies between the two sentinels. */
  predicate Bounded(t: Tree)
  {
    match t
    case Leaf(v) => -MAX_GAME_SCORE <= v <= MAX_GAME_SCORE
    case Node(bs) => forall b :: b in bs ==> Bounded(b.tree)
  }

  lemma {:induction false} GameTreeBounded(s: State, depth: nat)
    requires WellFormed(s.grid)
    ensures Bounded(GameTree(s, depth))
    decreases depth, 1
  {
    if depth == 0 || s.outcome.Some? {
      TotalScoreBounds(s);
    } else {
      GameTreeShape(s, depth);
      var bs := GameTree(s, depth).branches;
      forall i | 0 <= i < |bs|
        ensures Bounded(bs[i].tree)
      {
        BranchBounded(s, depth, i);
      }
    }
  }

  /** Branch i of the tree of an undecided position with depth left has every leaf between the sentinels. */
  lemma {:induction false} BranchBounded(s: State, depth: nat, i: int)
    requires WellFormed(s.grid) && 0 < depth && s.outcome.None? && 0 <= i < |ValidMoves(s.grid)|
    ensures GameTree(s, depth).Node? && i < |GameTree(s, depth).branches|
    ensures Bounded(GameTree(s, depth).branches[i].tree)
    decreases depth, 0
  {
    ValidMovesPlayable(s);
    var d1 := depth - 1;
    ChildBranch(s, depth, i, d1);
    GameTreeBounded(Child(s, ValidMoves(s.grid)[i]), d1);
  }

  // ---------------------------------------------------------------------
  // The search as the source runs it

  /**
   * src/main.rs `negamax` on a tree: the pair (value, best move) for the
   * window (alpha, beta) and the colour (+1 for Yellow, -1 for Red) whose
   * point of view is taken.  A leaf is worth its score times the colour,
   * with move 1.
   */
  function AlphaBeta(t: Tree, alpha: int, beta: int, color: int): (r: (int, int))
    ensures t.Node? ==> FLOOR <= r.0
    decreases t, 1
  {
    match t
    case Leaf(v) => (v * color, 1)
    case Node(bs) => AlphaBetaBranches(bs, alpha, beta, color, FLOOR, 1)
  }

  /**
   * The loop of `negamax` from the branch bs[0] on, with `alpha`, `value`
   * and `best_move` as the earlier branches left them: each child is
   * searched with the window (-beta, -alpha) and the other colour, the loop
   * keeps the maximum, raises alpha (and takes the move) when the maximum
   * passes it, and stops once alpha reaches beta.
   */
  function AlphaBetaBranches(bs: seq<Branch>, alpha: int, beta: int, color: int, value: int, best: int): (r: (int, int))
    ensures value <= r.0
    decreases bs, 0
  {
    if bs == [] then (value, best)
    else
      assert bs[0].tree < bs[0];
      var temp := -AlphaBeta(bs[0].tree, -beta, -alpha, -color).0;
      var v := Max(value, temp);
      var a := if v > alpha then v else alpha;
      var b := if v > alpha then bs[0].move else best;
      if a >= beta then (v, b)
      else AlphaBetaBranches(bs[1..], a, beta, color, v, b)
  }

  // ---------------------------------------------------------------------
  // The value without pruning

  /** The negamax value of a tree: the best of the negated child values, never below FLOOR. */
  function NegamaxValue(t: Tree, color: int): (v: int)
    ensures t.Node? ==> FLOOR <= v
    decreases t, 1
  {
    match t
    case Leaf(v) => v * color
    case Node(bs) => BestFrom(bs, color, FLOOR)
  }

  /** The largest of acc and the negated values of the children of bs. */
  function BestFrom(bs: seq<Branch>, color: int, acc: int): (v: int)
    ensures acc <= v
    decreases bs, 0
  {
    if bs == [] then acc
    else
      assert bs[0].tree < bs[0];
      BestFrom(bs[1..], color, Max(acc, -NegamaxValue(bs[0].tree, -color)))
  }

  // ---------------------------------------------------------------------
  // Bounds

  /** Values stay within the sentinels; a node is worth at least FLOOR. */
  lemma {:induction false} NegamaxValueBounds(t: Tree, color: int)
    requires Bounded(t) && (color == 1 || color == -1)
    ensures -MAX_GAME_SCORE <= NegamaxValue(t, color) <= MAX_GAME_SCORE
    ensures t.Node? ==> FLOOR <= NegamaxValue(t, color)
    decreases t, 1
  {
    if t.Node? {
      BestFromBounds(t.branches, color, FLOOR);
    }
  }

  lemma {:induction false} BestFromBounds(bs: seq<Branch>, color: int, acc: int)
    requires (forall b :: b in bs ==> Bounded(b.tree)) && (color == 1 || color == -1)
    requires FLOOR <= acc <= MAX_GAME_SCORE
    ensures FLOOR <= BestFrom(bs, color, acc) <= MAX_GAME_SCORE
    decreases bs, 0
  {
    if bs != [] {
      assert bs[0] in bs && bs[0].tree < bs[0];
      NegamaxValueBounds(bs[0].tree, -color);
      BestFromBounds(bs[1..], color, Max(acc, -NegamaxValue(bs[0].tree, -color)));
    }
  }

  /** The same bounds hold for what the pruned search returns. */
  lemma {:induction false} AlphaBetaBounds(t: Tree, alpha: int, beta: int, color: int)
    requires Bounded(t) && (color == 1 || color == -1)
    ensures -MAX_GAME_SCORE <= AlphaBeta(t, alpha, beta, color).0 <= MAX_GAME_SCORE
    decreases t, 1
  {
    if t.Node? {
      AlphaBetaBranchesBounds(t.branches, alpha, beta, color, FLOOR, 1);
    }
  }

  lemma {:induction false} AlphaBetaBranchesBounds(bs: seq<Branch>, alpha: int, beta: int, color: int, value: int, best: int)
    requires (forall b :: b in bs ==> Bounded(b.tree)) && (color == 1 || color == -1)
    requires FLOOR <= value <= MAX_GAME_SCORE
    ensures FLOOR <= AlphaBetaBranches(bs, alpha, beta, color, value, best).0 <= MAX_GAME_SCORE
    decreases bs, 0
  {
    if bs != [] {
      assert bs[0] in bs && bs[0].tree < bs[0];
      AlphaBetaBounds(bs[0].tree, -beta, -alpha, -color);
      var v := Max(value, -AlphaBeta(bs[0].tree, -beta, -alpha, -color).0);
      var a := if v > alpha then v else alpha;
      var b := if v > alpha then bs[0].move else best;
      if a < beta {
        AlphaBetaBranchesBounds(bs[1..], a, beta, color, v, b);
      }
    }
  }

  // ---------------------------------------------------------------------
  // Pruning is sound

  /**
   * What a fail-soft alpha-beta search promises about its result r and the
   * true value v for the window (alpha, beta): a result at or below alpha
   * bounds v from above, one at or above beta bounds it from below, and one
   * strictly inside the window is v itself.
   */
  predicate WindowAgrees(r: int, v: int, alpha: int, beta: int)
  {
    (r <= alpha ==> v <= r) && (beta <= r ==> r <= v) && (alpha < r < beta ==> r == v)
  }

  /** The pruned search agrees with the negamax value for every non-empty window. */
  lemma {:induction false} AlphaBetaSound(t: Tree, alpha: int, beta: int, color: int)
    requires alpha < beta
    ensures WindowAgrees(AlphaBeta(t, alpha, beta, color).0, NegamaxValue(t, color), alpha, beta)
    decreases t, 1
  {
    if t.Node? {
      AlphaBetaBranchesSound(t.branches, alpha, alpha, beta, color, FLOOR, FLOOR, 1);
    }
  }

  /**
   * How the loop's state relates to the unpruned maximum so far (truth):
   * alpha only rises, and only to the running value; a running value above
   * the caller's alpha0 is exact and one at or below it is an upper bound;
   * and a running value above alpha is exact (that happens only before the
   * first child, when value is FLOOR).
   */
  predicate LoopAgrees(alpha0: int, alpha: int, value: int, truth: int)
  {
    alpha0 <= alpha &&
    (alpha0 < value ==> truth == value) &&
    (value <= alpha0 ==> truth <= value) &&
    (value <= alpha || truth == value) &&
    (alpha == alpha0 || alpha == value)
  }

  lemma {:induction false} AlphaBetaBranchesSound(bs: seq<Branch>, alpha0: int, alpha: int, beta: int, color: int,
                                                  value: int, truth: int, best: int)
    requires alpha < beta && LoopAgrees(alpha0, alpha, value, truth)
    ensures WindowAgrees(AlphaBetaBranches(bs, alpha, beta, color, value, best).0,
                         BestFrom(bs, color, truth), alpha0, beta)
    decreases bs, 0
  {
    if bs != [] {
      var t := bs[0].tree;
      assert t < bs[0];
      AlphaBetaSound(t, -beta, -alpha, -color);
      var temp := -AlphaBeta(t, -beta, -alpha, -color).0;
      var w := -NegamaxValue(t, -color);
      var v := Max(value, temp);
      var a := if v > alpha then v else alpha;
      var b := if v > alpha then bs[0].move else best;
      var truth' := Max(truth, w);
      if a < beta {
        AlphaBetaBranchesSound(bs[1..], alpha0, a, beta, color, v, truth', b);
      }
    }
  }

  /** With the window (-MAX_GAME_SCORE, MAX_GAME_SCORE) the program uses at the root, the value is exact. */
  lemma RootValueExact(t: Tree, color: int)
    requires Bounded(t) && (color == 1 || color == -1)
    ensures AlphaBeta(t, -MAX_GAME_SCORE, MAX_GAME_SCORE, color).0 == NegamaxValue(t, color)
  {
    AlphaBetaSound(t, -MAX_GAME_SCORE, MAX_GAME_SCORE, color);
    AlphaBetaBounds(t, -MAX_GAME_SCORE, MAX_GAME_SCORE, color);
    NegamaxValueBounds(t, color);
  }

  // ---------------------------------------------------------------------
  // The move returned

  /** The move returned is the one held on entry or a move of bs; once value has passed alpha, a move of bs. */
  lemma {:induction false} AlphaBetaBranchesBest(bs: seq<Branch>, alpha: int, beta: int, color: int, value: int, best: int)
    ensures var m := AlphaBetaBranches(bs, alpha, beta, color, value, best).1;
            m == best || m in Moves(bs)
    ensures bs != [] && alpha < value ==> AlphaBetaBranches(bs, alpha, beta, color, value, best).1 in Moves(bs)
    decreases bs
  {
    if bs != [] {
      var temp := -AlphaBeta(bs[0].tree, -beta, -alpha, -color).0;
      var v := Max(value, temp);
      var a := if v > alpha then v else alpha;
      var b := if v > alpha then bs[0].move else best;
      assert Moves(bs) == [bs[0].move] + Moves(bs[1..]);
      if a < beta {
        AlphaBetaBranchesBest(bs[1..], a, beta, color, v, b);
      }
    }
  }

  /** What branch b is worth to a parent searching for color: the child's negated value, never below FLOOR. */
  function BranchValue(b: Branch, color: int): (v: int)
    ensures FLOOR <= v && -NegamaxValue(b.tree, -color) <= v
  {
    Max(FLOOR, -NegamaxValue(b.tree, -color))
  }

  /**
   * Among the first n branches none is worth more than value, and j is the
   * first of them worth exactly value.
   */
  predicate FirstBest(bs: seq<Branch>, color: int, n: int, j: int, value: int)
  {
    0 <= j < n <= |bs| && BranchValue(bs[j], color) == value &&
    (forall k :: 0 <= k < n ==> BranchValue(bs[k], color) <= value) &&
    (forall k :: 0 <= k < j ==> BranchValue(bs[k], color) < value)
  }

  /**
   * A child searched with the window (-MAX_GAME_SCORE, -value) the root
   * loop gives it: its negated result beats value only when it is the
   * child's branch value, and otherwise that branch value does not beat
   * value either.
   */
  lemma RootChildStep(b: Branch, color: int, value: int)
    requires Bounded(b.tree) && (color == 1 || color == -1) && FLOOR <= value < MAX_GAME_SCORE
    ensures var temp := -AlphaBeta(b.tree, -MAX_GAME_SCORE, -value, -color).0;
            var w := BranchValue(b, color);
            temp <= MAX_GAME_SCORE && (temp > value ==> temp == w) && (temp <= value ==> w <= value)
  {
    var t := b.tree;
    AlphaBetaSound(t, -MAX_GAME_SCORE, -value, -color);
    AlphaBetaBounds(t, -MAX_GAME_SCORE, -value, -color);
    NegamaxValueBounds(t, -color);
  }

  /**
   * `BestFrom` from branch i on takes branch i into the running maximum
   * first.  i1 is a parameter equal to i + 1, for the reason given at
   * `ChildBranch` (here and in `FirstBestStep`, `RootStep`, `RootCutoff`).
   */
  lemma BestFromStep(bs: seq<Branch>, color: int, i: int, i1: int, acc: int)
    requires 0 <= i < |bs| && i1 == i + 1
    ensures BestFrom(bs[i..], color, acc) == BestFrom(bs[i1..], color, Max(acc, -NegamaxValue(bs[i].tree, -color)))
  {
    assert bs[i..][0] == bs[i] && bs[i..][1..] == bs[i1..];
  }

  /** Taking in branch i, worth w: a strictly better branch becomes the first best, otherwise the first best stays. */
  lemma FirstBestStep(bs: seq<Branch>, color: int, i: int, i1: int, j: int, value: int, w: int)
    requires FirstBest(bs, color, i, j, value) && i < |bs| && i1 == i + 1 && w == BranchValue(bs[i], color)
    ensures w > value ==> FirstBest(bs, color, i1, i, w)
    ensures w <= value ==> FirstBest(bs, color, i1, j, value)
  {
  }

  /**
   * One turn of the root loop at branch i, with alpha equal to value: the
   * new running value v and the first branch j1 reaching it.  Both the
   * pruned loop and the unpruned maximum go on from there.
   */
  lemma RootStep(bs: seq<Branch>, color: int, i: int, i1: int, value: int, best: int, j: int) returns (v: int, j1: int)
    requires FirstBest(bs, color, i, j, value) && best == bs[j].move && value < MAX_GAME_SCORE
    requires i < |bs| && i1 == i + 1 && Bounded(bs[i].tree) && (color == 1 || color == -1)
    ensures FirstBest(bs, color, i1, j1, v) && v <= MAX_GAME_SCORE
    ensures BestFrom(bs[i..], color, value) == BestFrom(bs[i1..], color, v)
    ensures AlphaBetaBranches(bs[i..], value, MAX_GAME_SCORE, color, value, best) ==
              if v >= MAX_GAME_SCORE then (v, bs[j1].move)
              else AlphaBetaBranches(bs[i1..], v, MAX_GAME_SCORE, color, v, bs[j1].move)
  {
    var na, nb, nc := -MAX_GAME_SCORE, -value, -color;
    var temp := -AlphaBeta(bs[i].tree, na, nb, nc).0;
    RootChildStep(bs[i], color, value);
    v, j1 := RootStepValue(bs, color, i, i1, value, j, temp);
    RootStepLoop(bs, color, i, i1, value, best, na, nb, nc, temp, v, bs[j1].move);
  }

  /** The pruned loop's side of `RootStep`: with alpha equal to value, the loop goes on from v, the move b. */
  lemma RootStepLoop(bs: seq<Branch>, color: int, i: int, i1: int, value: int, best: int,
                     na: int, nb: int, nc: int, temp: int, v: int, b: int)
    requires 0 <= i < |bs| && i1 == i + 1
    requires na == -MAX_GAME_SCORE && nb == -value && nc == -color && temp == -AlphaBeta(bs[i].tree, na, nb, nc).0
    requires v == Max(value, temp) && b == if temp > value then bs[i].move else best
    ensures AlphaBetaBranches(bs[i..], value, MAX_GAME_SCORE, color, value, best) ==
              if v >= MAX_GAME_SCORE then (v, b)
              else AlphaBetaBranches(bs[i1..], v, MAX_GAME_SCORE, color, v, b)
  {
    TreeStep(bs, i, bs[i].move, value, MAX_GAME_SCORE, color, value, best, na, nb, nc, temp);
  }

  /**
   * The unpruned side of `RootStep`: given the child's result temp, which
   * beats value only as branch i's exact value, the running maximum and
   * the first best branch move on to v and j1.
   */
  lemma RootStepValue(bs: seq<Branch>, color: int, i: int, i1: int, value: int, j: int, temp: int) returns (v: int, j1: int)
    requires FirstBest(bs, color, i, j, value) && i < |bs| && i1 == i + 1 && temp <= MAX_GAME_SCORE && value < MAX_GAME_SCORE
    requires temp > value ==> temp == BranchValue(bs[i], color)
    requires temp <= value ==> BranchValue(bs[i], color) <= value
    ensures v == Max(value, temp) && j1 == (if temp > value then i else j)
    ensures FirstBest(bs, color, i1, j1, v) && v <= MAX_GAME_SCORE
    ensures BestFrom(bs[i..], color, value) == BestFrom(bs[i1..], color, v)
  {
    BestFromStep(bs, color, i, i1, value);
    FirstBestStep(bs, color, i, i1, j, value, BranchValue(bs[i], color));
    if temp > value {
      v, j1 := temp, i;
    } else {
      v, j1 := value, j;
    }
  }

  /**
   * The root loop from branch i on.  Past the first branch, alpha and value
   * are equal, and best is the move of the first branch seen so far whose
   * value is the running maximum.  The loop ends with the maximum over
   * all branches and the move of the first branch reaching it.
   */
  lemma {:induction false} RootLoop(bs: seq<Branch>, color: int, i: int, value: int, best: int, j: int) returns (j': int)
    requires (forall b :: b in bs ==> Bounded(b.tree)) && (color == 1 || color == -1)
    requires FirstBest(bs, color, i, j, value) && best == bs[j].move && value < MAX_GAME_SCORE
    ensures var v := BestFrom(bs[i..], color, value);
            FirstBest(bs, color, |bs|, j', v) &&
            AlphaBetaBranches(bs[i..], value, MAX_GAME_SCORE, color, value, best) == (v, bs[j'].move)
    decreases |bs| - i
  {
    if i == |bs| {
      assert bs[i..] == [];
      j' := j;
    } else {
      var i1 := i + 1;
      assert bs[i] in bs;
      var v, j1 := RootStep(bs, color, i, i1, value, best, j);
      if v >= MAX_GAME_SCORE {
        RootCutoff(bs, color, i1, v, j1);
        j' := j1;
      } else {
        j' := RootLoop(bs, color, i1, v, bs[j1].move, j1);
      }
    }
  }

  /**
   * A cutoff at the root: once the running value reaches MAX_GAME_SCORE,
   * no branch is worth more and the rest of the loop cannot change it.
   */
  lemma RootCutoff(bs: seq<Branch>, color: int, i1: int, v: int, j: int)
    requires (forall b :: b in bs ==> Bounded(b.tree)) && (color == 1 || color == -1)
    requires FirstBest(bs, color, i1, j, v) && v == MAX_GAME_SCORE
    ensures FirstBest(bs, color, |bs|, j, v) && BestFrom(bs[i1..], color, v) == v
  {
    forall k | 0 <= k < |bs|
      ensures BranchValue(bs[k], color) <= v
    {
      assert bs[k] in bs;
      NegamaxValueBounds(bs[k].tree, -color);
    }
    BestFromBounds(bs[i1..], color, v);
  }

  /**
   * The move of the root call (window -MAX_GAME_SCORE..MAX_GAME_SCORE):
   * the first branch, in the order tried, whose value is the node's
   * negamax value.  A later branch replaces the current best move only
   * when it is strictly better.
   */
  lemma RootBestMove(t: Tree, color: int) returns (j: int)
    requires Bounded(t) && t.Node? && t.branches != [] && (color == 1 || color == -1)
    ensures FirstBest(t.branches, color, |t.branches|, j, NegamaxValue(t, color))
    ensures AlphaBeta(t, -MAX_GAME_SCORE, MAX_GAME_SCORE, color).1 == t.branches[j].move
  {
    var bs := t.branches;
    assert bs[0] in bs;
    var v := RootFirst(bs, color);
    if v >= MAX_GAME_SCORE {
      RootCutoff(bs, color, 1, v, 0);
      j := 0;
    } else {
      j := RootLoop(bs, color, 1, v, bs[0].move, 0);
    }
  }

  /**
   * The first turn of the root loop: alpha is -MAX_GAME_SCORE, below any
   * value, so the first branch is searched with the full window, its exact
   * value v (at least FLOOR) becomes both value and alpha, and its move
   * becomes the best move.
   */
  lemma RootFirst(bs: seq<Branch>, color: int) returns (v: int)
    requires bs != [] && Bounded(bs[0].tree) && (color == 1 || color == -1)
    ensures FirstBest(bs, color, 1, 0, v) && v <= MAX_GAME_SCORE
    ensures BestFrom(bs, color, FLOOR) == BestFrom(bs[1..], color, v)
    ensures AlphaBetaBranches(bs, -MAX_GAME_SCORE, MAX_GAME_SCORE, color, FLOOR, 1) ==
              if v >= MAX_GAME_SCORE then (v, bs[0].move)
              else AlphaBetaBranches(bs[1..], v, MAX_GAME_SCORE, color, v, bs[0].move)
  {
    var c := bs[0].tree;
    assert bs[0..] == bs;
    RootValueExact(c, -color);
    NegamaxValueBounds(c, -color);
    var na, nb, nc := -MAX_GAME_SCORE, MAX_GAME_SCORE, -color;
    var temp := -AlphaBeta(c, na, nb, nc).0;
    TreeStep(bs, 0, bs[0].move, -MAX_GAME_SCORE, MAX_GAME_SCORE, color, FLOOR, 1, na, nb, nc, temp);
    BestFromStep(bs, color, 0, 1, FLOOR);
    v := BranchValue(bs[0], color);
    assert v == Max(FLOOR, temp);
  }

  // ---------------------------------------------------------------------
  // The search of a position

  /**
   * At the root call of src/main.rs (window -MAX_GAME_SCORE..MAX_GAME_SCORE,
   * the colour of the side to move) the value is the negamax value of the
   * position's tree, and on an undecided valid position with depth left
   * the move is a valid one, which `insert_at` accepts.
   */
  lemma RootSearch(s: State, depth: nat)
    requires Reachable(s)
    ensures var t := GameTree(s, depth);
            AlphaBeta(t, -MAX_GAME_SCORE, MAX_GAME_SCORE, AsInt(s.turn)).0 == NegamaxValue(t, AsInt(s.turn))
    ensures depth > 0 && s.outcome.None? ==>
              var m := AlphaBeta(GameTree(s, depth), -MAX_GAME_SCORE, MAX_GAME_SCORE, AsInt(s.turn)).1;
              m in ValidMoves(s.grid) && 1 <= m <= COLS && Insert(s, m).Ok?
  {
    var t := GameTree(s, depth);
    GameTreeBounded(s, depth);
    RootValueExact(t, AsInt(s.turn));
    if depth > 0 && s.outcome.None? {
      GameTreeBranches(s, depth);
      ValidMovesMeaning(s.grid);
      AlphaBetaBranchesBest(t.branches, -MAX_GAME_SCORE, MAX_GAME_SCORE, AsInt(s.turn), FLOOR, 1);
    }
  }

  /**
   * The move of the root call on an undecided valid position with depth
   * left: the j-th valid move, in centre-first order, for the first j whose
   * branch is worth the position's negamax value.  An earlier move of
   * equal value wins a tie.
   */
  lemma RootMove(s: State, depth: nat) returns (j: int)
    requires Reachable(s) && depth > 0 && s.outcome.None?
    ensures var t, c := GameTree(s, depth), AsInt(s.turn);
            t.Node? && Moves(t.branches) == ValidMoves(s.grid) &&
            FirstBest(t.branches, c, |t.branches|, j, NegamaxValue(t, c)) &&
            AlphaBeta(t, -MAX_GAME_SCORE, MAX_GAME_SCORE, c).1 == ValidMoves(s.grid)[j]
  {
    var t := GameTree(s, depth);
    GameTreeBounded(s, depth);
    GameTreeBranches(s, depth);
    ValidMovesMeaning(s.grid);
    j := RootBestMove(t, AsInt(s.turn));
  }

  /**
   * For either colour, whatever the window, the value searched from a
   * position lies between the sentinels, and one with depth left in an
   * undecided game is at least FLOOR: `GameTreeBounded` and
   * `AlphaBetaBounds` put together for the position rather than its tree.
   */
  lemma SearchValueBounds(s: State, depth: nat, alpha: int, beta: int, color: int)
    requires WellFormed(s.grid) && (color == 1 || color == -1)
    ensures -MAX_GAME_SCORE <= AlphaBeta(GameTree(s, depth), alpha, beta, color).0 <= MAX_GAME_SCORE
    ensures depth > 0 && s.outcome.None? ==> FLOOR <= AlphaBeta(GameTree(s, depth), alpha, beta, color).0
  {
    GameTreeBounded(s, depth);
    AlphaBetaBounds(GameTree(s, depth), alpha, beta, color);
  }

  /** A won position is scored at once: the winner's sentinel seen from color. */
  lemma DecidedIsLeaf(s: State, depth: nat, alpha: int, beta: int, color: int, p: Piece)
    requires WellFormed(s.grid) && s.outcome == Some(Winner(p))
    ensures AlphaBeta(GameTree(s, depth), alpha, beta, color) == (MAX_GAME_SCORE * AsInt(p) * color, 1)
  {
    TotalScoreMeaning(s);
  }

  // ---------------------------------------------------------------------
  // The method

  /** The value `negamax` returns for a position: that of the window search of its game tree. */
  ghost function SearchValue(s: State, depth: nat, alpha: int, beta: int, color: int): int
    requires WellFormed(s.grid)
  {
    AlphaBeta(GameTree(s, depth), alpha, beta, color).0
  }

  /** The move `negamax` returns for a position. */
  ghost function SearchMove(s: State, depth: nat, alpha: int, beta: int, color: int): int
    requires WellFormed(s.grid)
  {
    AlphaBeta(GameTree(s, depth), alpha, beta, color).1
  }

  /**
   * Branch i of the tree of s is the move ValidMoves(s.grid)[i] and the
   * tree, d1 deep, of the position it leads to.  d1 is a parameter equal to
   * depth - 1 (here and in `SameTree`, `TryMove`) so that callers pass the
   * variable they recurse with; the verifier relates a call written with
   * depth - 1 to such a variable only very slowly.
   */
  lemma ChildBranch(s: State, depth: nat, i: int, d1: nat)
    requires WellFormed(s.grid) && 0 < depth && s.outcome.None? && d1 == depth - 1
    requires Playable(s, ValidMoves(s.grid)) && 0 <= i < |ValidMoves(s.grid)|
    ensures var ms, bs := ValidMoves(s.grid), GameTree(s, depth).branches;
            i < |bs| && bs[i] == Branch(ms[i], GameTree(Child(s, ms[i]), d1))
  {
    ValidMovesPlayable(s);
    SameTree(Child(s, ValidMoves(s.grid)[i]), d1, depth);
  }

  /** The tree of a position d1 deep, for d1 given as a variable equal to depth - 1. */
  lemma SameTree(s: State, d1: nat, depth: nat)
    requires WellFormed(s.grid) && d1 == depth - 1
    ensures GameTree(s, d1) == GameTree(s, depth - 1)
  {
  }

  /**
   * The tree of an undecided position with depth left has one branch per
   * valid move, each of them playable: the part of `GameTreeBranches` that
   * `Negamax` needs, without the quantifier over the branches that would
   * slow its proof.
   */
  lemma GameTreeShape(s: State, depth: nat)
    requires WellFormed(s.grid) && 0 < depth && s.outcome.None?
    ensures Playable(s, ValidMoves(s.grid))
    ensures GameTree(s, depth).Node? && |GameTree(s, depth).branches| == |ValidMoves(s.grid)|
  {
    GameTreeBranches(s, depth);
  }

  /** At an undecided position with depth left, the search is the loop over the branches from FLOOR and move 1. */
  lemma NodeSearch(s: State, depth: nat, alpha: int, beta: int, color: int)
    requires WellFormed(s.grid) && 0 < depth && s.outcome.None?
    ensures GameTree(s, depth).Node?
    ensures (SearchValue(s, depth, alpha, beta, color), SearchMove(s, depth, alpha, beta, color)) ==
            AlphaBetaBranches(GameTree(s, depth).branches, alpha, beta, color, FLOOR, 1)
  {
  }

  /** With no depth left or a decided game, the search is the static evaluation seen from color, with move 1. */
  lemma LeafSearch(s: State, depth: nat, alpha: int, beta: int, color: int)
    requires WellFormed(s.grid) && (depth == 0 || s.outcome.Some?)
    ensures SearchValue(s, depth, alpha, beta, color) == TotalScore(s) * color
    ensures SearchMove(s, depth, alpha, beta, color) == 1
  {
  }

  /**
   * One turn of `AlphaBetaBranches` at branch i.  The child's window and
   * colour are parameters na, nb, nc equal to -beta, -alpha, -color, and
   * the child's value comes in as temp, so that `Negamax` passes the
   * variables it holds (see `ChildBranch`).
   */
  lemma TreeStep(bs: seq<Branch>, i: int, action: int, alpha: int, beta: int, color: int, value: int, best: int,
                 na: int, nb: int, nc: int, temp: int)
    requires 0 <= i < |bs| && action == bs[i].move
    requires na == -beta && nb == -alpha && nc == -color && temp == -AlphaBeta(bs[i].tree, na, nb, nc).0
    ensures var v := Max(value, temp);
            var a := if v > alpha then v else alpha;
            var b := if v > alpha then action else best;
            AlphaBetaBranches(bs[i..], alpha, beta, color, value, best) ==
              if a >= beta then (v, b) else AlphaBetaBranches(bs[i + 1..], a, beta, color, v, b)
  {
    assert bs[i..][0] == bs[i] && bs[i..][1..] == bs[i + 1..];
  }

  /**
   * src/main.rs `negamax` over boards: each move is tried on a fresh copy
   * of the node, and the result is what `AlphaBeta` gives for the tree of
   * the node's position.  Every `insert_at` it makes succeeds, so its
   * `unwrap` never panics.
   */
  method Negamax(node: Board, depth: nat, alpha: int, beta: int, color: int) returns (value: int, best: int)
    requires node.Valid()
    ensures value == SearchValue(node.Snapshot(), depth, alpha, beta, color)
    ensures best == SearchMove(node.Snapshot(), depth, alpha, beta, color)
    decreases depth, 1
  {
    if depth == 0 || node.outcome.Some? {
      var r := node.GetTotalScore();
      LeafSearch(node.Snapshot(), depth, alpha, beta, color);
      return r * color, 1;
    }
    ghost var s := node.Snapshot();
    GameTreeShape(s, depth);
    NodeSearch(s, depth, alpha, beta, color);
    ghost var bs := GameTree(s, depth).branches;
    ghost var goal := AlphaBetaBranches(bs, alpha, beta, color, FLOOR, 1);
    value := FLOOR;
    best := 1;
    var a := alpha;
    var moves := node.GetValidMoves();
    for i := 0 to |moves|
      invariant node.Valid() && node.Snapshot() == s
      invariant AlphaBetaBranches(bs[i..], a, beta, color, value, best) == goal
    {
      var action := moves[i];
      var d1, na, nb, nc := depth - 1, -beta, -a, -color;
      var temp := TryMove(node, s, depth, i, action, d1, na, nb, nc);
      TreeStep(bs, i, action, a, beta, color, value, best, na, nb, nc, temp);
      value := Max(value, temp);
      if value > a {
        a := value;
        best := action;
      }
      if a >= beta {
        return;
      }
    }
    assert bs[|moves|..] == [];
  }

  /**
   * One turn of the loop in src/main.rs `negamax`, at the i-th valid move
   * of the node's position s: play `action` on a copy of the node and search
   * the copy with the child's depth d1, window (na, nb) and colour nc.  The
   * result, negated back, is the negated value of branch i of the tree.
   * Those four are passed as variables for the reason given at `ChildBranch`.
   */
  method TryMove(node: Board, ghost s: State, ghost depth: nat, ghost i: int, action: int,
                 d1: nat, na: int, nb: int, nc: int) returns (temp: int)
    requires node.Valid() && node.Snapshot() == s && 0 < depth && s.outcome.None? && d1 == depth - 1
    requires Playable(s, ValidMoves(s.grid)) && 0 <= i < |ValidMoves(s.grid)| && action == ValidMoves(s.grid)[i]
    ensures var bs := GameTree(s, depth).branches;
            i < |bs| && action == bs[i].move && temp == -AlphaBeta(bs[i].tree, na, nb, nc).0
    decreases depth, 0
  {
    var child := PlayOnCopy(node, s, action);
    var v, _ := Negamax(child, d1, na, nb, nc);
    ChildBranch(s, depth, i, d1);
    temp := -v;
  }

  /**
   * `node.clone()` followed by `insert_at(action).unwrap()` in src/main.rs
   * `negamax`: the column has room and the game is open, so the insertion
   * succeeds and the copy holds the child position.
   */
  method PlayOnCopy(node: Board, ghost s: State, action: int) returns (child: Board)
    requires node.Valid() && node.Snapshot() == s && s.outcome.None?
    requires 1 <= action <= COLS && TopEmpty(s.grid, action - 1)
    ensures fresh(child) && child.Valid()
    ensures child.Snapshot() == Child(s, action)
  {
    child := new Board.Copy(node);
    var res := child.InsertAt(action);
    assert res.Ok?;
  }
}
