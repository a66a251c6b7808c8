/**
 A play session: the current round's board and obstacles, the selected
 colour and the best score, and how each input event changes them.
 */
module Game {
  import opened Wrappers
  import opened Board
  import opened Seeding
  import opened Moves
  import opened Scoring
  import opened Layout

  datatype Round = Round(grid: Grid, obstacles: seq<Pos>)

  /** What holds of every round in play: the adjacency invariant, with every obstacle on the board and coloured. */
  ghost predicate RoundInv(r: Round) {
    && WellFormed(r.grid)
    && NoAdjacentClash(r.grid)
    && forall p :: p in r.obstacles ==> InBounds(p.row, p.col) && r.grid[p.row][p.col] != None
  }

  /** A freshly seeded board is a valid round. */
  lemma SeededRoundValid(s: SeedState)
    requires SeedInv(s)
    ensures RoundInv(Round(s.grid, s.obstacles))
  {
    forall p | p in s.obstacles
      ensures InBounds(p.row, p.col) && s.grid[p.row][p.col] != None
    {
      var i :| 0 <= i < |s.obstacles| && s.obstacles[i] == p;
    }
  }

  /**
   A mouse click on the board area with an optional selected colour. Clicks
   that map off the board, or arrive with no colour selected, are ignored;
   otherwise the move rule decides.
   */
  function HandleClick(r: Round, mx: int, my: int, selected: Option<Color>): (m: MoveResult)
    requires WellFormed(r.grid)
    ensures ClickCell(mx, my).None? || selected.None? ==> m == Ignored
    ensures m.Accepted? ==>
              && selected.Some? && ClickCell(mx, my).Some?
              && var p := ClickCell(mx, my).value;
              && Pos(p.row, p.col) !in r.obstacles
              && IsValidColor(r.grid, p.row, p.col, selected.value)
              && WellFormed(m.grid)
              && m.grid[p.row][p.col] == selected
              && forall i, j :: InBounds(i, j) && (i, j) != (p.row, p.col) ==> m.grid[i][j] == r.grid[i][j]
    ensures m.Clash? ==>
              && selected.Some? && ClickCell(mx, my).Some?
              && var p := ClickCell(mx, my).value;
              && Pos(p.row, p.col) !in r.obstacles
              && !IsValidColor(r.grid, p.row, p.col, selected.value)
    ensures ClickCell(mx, my).Some? && selected.Some? ==>
              var p := ClickCell(mx, my).value;
              && (m.Ignored? <==> p in r.obstacles)
              && (m.Clash? <==> p !in r.obstacles && !IsValidColor(r.grid, p.row, p.col, selected.value))
  {
    match ClickCell(mx, my)
    case None => Ignored
    case Some(p) =>
      match selected
      case None => Ignored
      case Some(color) => ApplyMove(r.grid, r.obstacles, p.row, p.col, color)
  }

  datatype Session = Session(round: Round, selected: Option<Color>, best: int)

  ghost predicate SessionInv(s: Session) {
    RoundInv(s.round) && 0 <= s.best <= MaxScore
  }

  /** The session at program start, on a freshly seeded board. */
  function NewSession(r: Round): (s: Session)
    ensures s.best == 0 && s.selected == None
    ensures RoundInv(r) ==> SessionInv(s)
  {
    Session(r, None, 0)
  }

  datatype Event =
    | Select(color: Color)      // a palette box was clicked
    | Click(mx: int, my: int)   // a mouse click, mapped onto the board
    | Frame(elapsed: int)       // the per-frame win test, with the whole seconds since the round began

  /**
   One event. `nextRound` is the board a restart would seed; a round that ends,
   won or lost, is replaced by it and the selection is cleared.
   */
  function Step(s: Session, e: Event, nextRound: Round): (s': Session)
    requires WellFormed(s.round.grid)
    ensures e.Select? ==> s' == s.(selected := Some(e.color))
    ensures e.Click? ==> s'.best == s.best
    ensures e.Click? && HandleClick(s.round, e.mx, e.my, s.selected).Ignored? ==> s' == s
    ensures e.Click? && HandleClick(s.round, e.mx, e.my, s.selected).Accepted? ==>
              s' == s.(round := Round(HandleClick(s.round, e.mx, e.my, s.selected).grid, s.round.obstacles))
    ensures e.Click? && HandleClick(s.round, e.mx, e.my, s.selected).Clash? ==>
              s'.round == nextRound && s'.selected == None
    ensures e.Frame? && CheckWin(s.round.grid) ==>
              s'.round == nextRound && s'.selected == None &&
              s'.best >= s.best && s'.best >= Score(e.elapsed) &&
              (s'.best == s.best || s'.best == Score(e.elapsed))
    ensures e.Frame? && !CheckWin(s.round.grid) ==> s' == s
  {
    match e
    case Select(color) => s.(selected := Some(color))
    case Frame(elapsed) =>
      if CheckWin(s.round.grid) then
        Session(nextRound, None, UpdateBest(s.best, PuzzleSolved, Score(elapsed)))
      else s
    case Click(mx, my) =>
      match HandleClick(s.round, mx, my, s.selected)
      case Ignored => s
      case Accepted(g) => s.(round := Round(g, s.round.obstacles))
      case Clash => Session(nextRound, None, UpdateBest(s.best, GameOver, 0))
  }

  /**
   Every event keeps the session invariant, given that the replacement board
   is valid and time does not run backwards.
   */
  lemma StepKeepsInv(s: Session, e: Event, nextRound: Round)
    requires SessionInv(s) && RoundInv(nextRound)
    requires e.Frame? ==> e.elapsed >= 0
    ensures SessionInv(Step(s, e, nextRound))
  {
    if e.Click? && s.selected.Some? && ClickCell(e.mx, e.my).Some? {
      var p := ClickCell(e.mx, e.my).value;
      var m := HandleClick(s.round, e.mx, e.my, s.selected);
      if m.Accepted? {
        ValidWriteKeepsNoClash(s.round.grid, p.row, p.col, s.selected.value);
        assert m.grid == SetCell(s.round.grid, p.row, p.col, s.selected);
      }
    }
  }

  /** A click never clears a coloured cell, so a solved board is still solved after any click. */
  lemma ClickKeepsWin(s: Session, mx: int, my: int, nextRound: Round)
    requires WellFormed(s.round.grid) && CheckWin(s.round.grid)
    ensures Step(s, Click(mx, my), nextRound).round == nextRound || CheckWin(Step(s, Click(mx, my), nextRound).round.grid)
  {
  }

  /**
   A click anywhere in a box with a clashing colour ends the round: the board
   is replaced, the selection cleared and the best score kept.
   */
  lemma ClashingClickEndsRound(s: Session, row: int, col: int, mx: int, my: int, nextRound: Round)
    requires WellFormed(s.round.grid) && InBounds(row, col) && s.selected.Some?
    requires Pos(row, col) !in s.round.obstacles
    requires !IsValidColor(s.round.grid, row, col, s.selected.value)
    requires InBox(row, col, mx, my)
    ensures Step(s, Click(mx, my), nextRound) == Session(nextRound, None, s.best)
  {
    BoxClickRoundTrip(row, col, mx, my);
  }

  /** A click on an obstacle's box changes nothing. */
  lemma ObstacleClickIgnored(s: Session, row: int, col: int, mx: int, my: int, nextRound: Round)
    requires WellFormed(s.round.grid) && InBounds(row, col) && Pos(row, col) in s.round.obstacles
    requires InBox(row, col, mx, my)
    ensures Step(s, Click(mx, my), nextRound) == s
  {
    BoxClickRoundTrip(row, col, mx, my);
  }
}
