// The two kinds of counters, the outcome of a game and the errors an
// insertion can report, with the score sentinel shared by the evaluator
// and the search.
module Pieces {

  /** The score that stands for a decided game; every heuristic sum stays far below it. */
  const MAX_GAME_SCORE: int := 100000

  datatype Option<T> = None | Some(value: T)

  datatype Result<T, E> = Ok(value: T) | Err(error: E)

  /** Yellow always moves first and always counts as the positive side. */
  datatype Piece = Yellow | Red

  datatype GameOutcome = Winner(piece: Piece) | Draw

  datatype InsertionError = FilledSlot | GameFinished

  /** The sign of a piece in every score: +1 for Yellow, -1 for Red. */
  function AsInt(p: Piece): (r: int)
    ensures r == 1 || r == -1
    ensures r == 1 <==> p == Yellow
  {
    match p
    case Yellow => 1
    case Red => -1
  }

  /** The other piece (the source's `!`). */
  function Flip(p: Piece): (r: Piece)
    ensures r != p
  {
    match p
    case Yellow => Red
    case Red => Yellow
  }

  lemma FlipInvolution(p: Piece)
    ensures Flip(Flip(p)) == p
    ensures AsInt(Flip(p)) == -AsInt(p)
  {
  }

  /** A piece is determined by its sign. */
  lemma AsIntInjective(p: Piece, q: Piece)
    requires AsInt(p) == AsInt(q)
    ensures p == q
  {
  }
}
