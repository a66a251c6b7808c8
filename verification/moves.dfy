/**
 The move rule applied when the player clicks a board cell with a colour
 selected: a click on an obstacle is ignored, a colour that passes the
 neighbour test is written, any other colour ends the round.
 */
module Moves {
  import opened Wrappers
  import opened Board

  datatype MoveResult =
    | Ignored              // the cell is an obstacle
    | Accepted(grid: Grid) // the colour was written
    | Clash                // the colour clashes with a neighbour; the board is not touched

  /**
   The move rule. The target cell's current contents are not consulted: a
   non-obstacle cell that is already coloured can be recoloured.
   */
  function ApplyMove(g: Grid, obstacles: seq<Pos>, row: int, col: int, color: Color): (m: MoveResult)
    requires WellFormed(g) && InBounds(row, col)
    ensures m.Ignored? <==> Pos(row, col) in obstacles
    ensures m.Clash? <==>
              Pos(row, col) !in obstacles &&
              exists r, c :: InBounds(r, c) && Adjacent(row, col, r, c) && g[r][c] == Some(color)
    ensures m.Accepted? ==>
              && WellFormed(m.grid)
              && m.grid[row][col] == Some(color)
              && forall r, c :: InBounds(r, c) && (r, c) != (row, col) ==> m.grid[r][c] == g[r][c]
  {
    if Pos(row, col) in obstacles then Ignored
    else if IsValidColor(g, row, col, color) then Accepted(SetCell(g, row, col, Some(color)))
    else Clash
  }

  /** An accepted move keeps the adjacency invariant. */
  lemma MoveKeepsNoClash(g: Grid, obstacles: seq<Pos>, row: int, col: int, color: Color)
    requires WellFormed(g) && NoAdjacentClash(g) && InBounds(row, col)
    ensures ApplyMove(g, obstacles, row, col, color).Accepted? ==>
              NoAdjacentClash(ApplyMove(g, obstacles, row, col, color).grid)
  {
    if ApplyMove(g, obstacles, row, col, color).Accepted? {
      ValidWriteKeepsNoClash(g, row, col, color);
    }
  }

  /** No move changes an obstacle cell. */
  lemma MoveKeepsObstacles(g: Grid, obstacles: seq<Pos>, row: int, col: int, color: Color)
    requires WellFormed(g) && InBounds(row, col)
    ensures ApplyMove(g, obstacles, row, col, color).Accepted? ==>
              forall p :: p in obstacles && InBounds(p.row, p.col) ==>
                ApplyMove(g, obstacles, row, col, color).grid[p.row][p.col] == g[p.row][p.col]
  {
  }

  /** Once solved, the board stays solved under any accepted move, since moves never empty a cell. */
  lemma MoveKeepsWin(g: Grid, obstacles: seq<Pos>, row: int, col: int, color: Color)
    requires WellFormed(g) && InBounds(row, col) && CheckWin(g)
    ensures ApplyMove(g, obstacles, row, col, color).Accepted? ==>
              CheckWin(ApplyMove(g, obstacles, row, col, color).grid)
  {
  }

  /** Repeating a click on an obstacle is ignored every time. */
  lemma ObstacleClickIdempotent(g: Grid, obstacles: seq<Pos>, row: int, col: int, c1: Color, c2: Color)
    requires WellFormed(g) && InBounds(row, col) && Pos(row, col) in obstacles
    ensures ApplyMove(g, obstacles, row, col, c1) == ApplyMove(g, obstacles, row, col, c2) == Ignored
  {
  }

  /**
   The rule does not require the target to be empty: here a non-obstacle cell
   already holding Red is recoloured Blue.
   */
  lemma RecolourIsAccepted()
    ensures
      var g := SetCell(EmptyGrid(), 0, 0, Some(Red));
      var m := ApplyMove(g, [], 0, 0, Blue);
      m.Accepted? && g[0][0] == Some(Red) && m.grid[0][0] == Some(Blue)
  {
    var g := SetCell(EmptyGrid(), 0, 0, Some(Red));
    assert IsValidColor(g, 0, 0, Blue);
  }
}
