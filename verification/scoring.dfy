/**
 The time-based score of a solved board and the session's best score.
 */
module Scoring {

  /** The two messages that end a round. */
  datatype Message = PuzzleSolved | GameOver

  const MaxScore: int := 1000
  const PenaltyPerSecond: int := 25

  /**
   The score for a board solved after `elapsed` whole seconds: a thousand,
   less 25 a second, never below 1.
   */
  function Score(elapsed: int): (s: int)
    ensures s >= 1
    ensures elapsed >= 0 ==> s <= MaxScore
    ensures s == 1 <==> elapsed >= 40
    ensures elapsed == 0 ==> s == MaxScore
  {
    if 1 > MaxScore - elapsed * PenaltyPerSecond then 1 else MaxScore - elapsed * PenaltyPerSecond
  }

  /** Taking longer never earns more. */
  lemma ScoreNonIncreasing(e1: int, e2: int)
    requires e1 <= e2
    ensures Score(e2) <= Score(e1)
  {
  }

  /** Each extra second before the floor costs exactly 25 points. */
  lemma ScoreStep(elapsed: int)
    requires 0 <= elapsed < 39
    ensures Score(elapsed) - Score(elapsed + 1) == PenaltyPerSecond
  {
  }

  /**
   The best score after a round ends with `message` and `score`: a solved
   round raises it to the round's score if that is higher; a lost round leaves
   it alone.
   */
  function UpdateBest(best: int, message: Message, score: int): (b: int)
    ensures message == GameOver ==> b == best
    ensures message == PuzzleSolved ==> b >= best && b >= score && (b == best || b == score)
  {
    if message == PuzzleSolved && score > best then score else best
  }

  /** Starting from 0 and fed only real scores, the best score stays within [0, 1000]. */
  lemma BestStaysInRange(best: int, message: Message, elapsed: int)
    requires 0 <= best <= MaxScore && elapsed >= 0
    ensures 0 <= UpdateBest(best, message, Score(elapsed)) <= MaxScore
    ensures 0 <= UpdateBest(best, message, 0) <= MaxScore
  {
  }
}
