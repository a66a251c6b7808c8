/**
 The puzzle board: a GridHeight x GridWidth grid whose cells are empty or hold
 one of four colours, the neighbour test the game uses before colouring a cell,
 and the win test.
 */
module Board {
  import opened Wrappers

  const GridWidth: int := 5
  const GridHeight: int := 5

  datatype Color = Red | Green | Blue | Yellow

  /** The palette, in the order the game lists it. */
  const Colors: seq<Color> := [Red, Green, Blue, Yellow]

  /** A cell is empty (`None`) or holds a colour. */
  type Cell = Option<Color>

  /** Rows of cells, indexed `g[row][col]`. */
  type Grid = seq<seq<Cell>>

  datatype Pos = Pos(row: int, col: int)

  predicate WellFormed(g: Grid) {
    |g| == GridHeight && forall r :: 0 <= r < |g| ==> |g[r]| == GridWidth
  }

  predicate InBounds(row: int, col: int) {
    0 <= row < GridHeight && 0 <= col < GridWidth
  }

  /** Orthogonal (4-connected) adjacency. */
  predicate Adjacent(r1: int, c1: int, r2: int, c2: int) {
    || (r1 == r2 && (c1 == c2 + 1 || c2 == c1 + 1))
    || (c1 == c2 && (r1 == r2 + 1 || r2 == r1 + 1))
  }

  /** The adjacency invariant: no two orthogonally adjacent filled cells share a colour. */
  ghost predicate NoAdjacentClash(g: Grid)
    requires WellFormed(g)
  {
    forall r1, c1, r2, c2 ::
      InBounds(r1, c1) && InBounds(r2, c2) && Adjacent(r1, c1, r2, c2) && g[r1][c1] != None
      ==> g[r1][c1] != g[r2][c2]
  }

  function EmptyGrid(): (g: Grid)
    ensures WellFormed(g)
    ensures forall r, c :: InBounds(r, c) ==> g[r][c] == None
  {
    seq(GridHeight, _ => seq(GridWidth, _ => None))
  }

  /** The grid with cell (row, col) replaced by `v`. */
  function SetCell(g: Grid, row: int, col: int, v: Cell): (g': Grid)
    requires WellFormed(g) && InBounds(row, col)
    ensures WellFormed(g')
    ensures g'[row][col] == v
    ensures forall r, c :: InBounds(r, c) && (r, c) != (row, col) ==> g'[r][c] == g[r][c]
  {
    g[row := g[row][col := v]]
  }

  // ---------------------------------------------------------------------------
  // The neighbour test (is_valid_color)
  // ---------------------------------------------------------------------------

  /** The offsets probed, in the game's order: right, down, left, up. */
  const Directions: seq<(int, int)> := [(0, 1), (1, 0), (0, -1), (-1, 0)]

  /**
   The game's bounds test for a probed neighbour. It compares the row with the
   grid's WIDTH and the column with its HEIGHT; on this square grid that is the
   same as `InBounds`.
   */
  predicate ProbeInBounds(r: int, c: int) {
    0 <= r < GridWidth && 0 <= c < GridHeight
  }

  /** Whether the probed cell (r, c) is on the board and already holds `color`. */
  predicate Clashes(g: Grid, r: int, c: int, color: Color)
    requires WellFormed(g)
  {
    ProbeInBounds(r, c) && g[r][c] == Some(color)
  }

  /** The probe loop from direction `i` on: false at the first clashing neighbour. */
  function ProbeFrom(g: Grid, row: int, col: int, color: Color, i: nat): (ok: bool)
    requires WellFormed(g) && i <= |Directions|
    ensures ok <==> forall j :: i <= j < |Directions| ==>
                      !Clashes(g, row + Directions[j].0, col + Directions[j].1, color)
    decreases |Directions| - i
  {
    if i == |Directions| then true
    else if Clashes(g, row + Directions[i].0, col + Directions[i].1, color) then false
    else ProbeFrom(g, row, col, color, i + 1)
  }

  /** The four orthogonal neighbours of (row, col) are exactly the probed offsets. */
  lemma DirectionsAreNeighbours(row: int, col: int, r: int, c: int)
    ensures Adjacent(row, col, r, c) <==>
              exists j :: 0 <= j < |Directions| && (r, c) == (row + Directions[j].0, col + Directions[j].1)
  {
    if Adjacent(row, col, r, c) {
      if r == row && c == col + 1 {
        assert (r, c) == (row + Directions[0].0, col + Directions[0].1);
      } else if r == row + 1 {
        assert (r, c) == (row + Directions[1].0, col + Directions[1].1);
      } else if r == row {
        assert (r, c) == (row + Directions[2].0, col + Directions[2].1);
      } else {
        assert (r, c) == (row + Directions[3].0, col + Directions[3].1);
      }
    }
  }

  /**
   Whether `color` may be written at (row, col): false exactly when some
   in-bounds orthogonal neighbour already holds it. Neighbours off the board
   never clash, and the cell's own contents are not looked at.
   */
  function IsValidColor(g: Grid, row: int, col: int, color: Color): (ok: bool)
    requires WellFormed(g)
    ensures ok <==> forall r, c :: InBounds(r, c) && Adjacent(row, col, r, c) ==> g[r][c] != Some(color)
  {
    var ok := ProbeFrom(g, row, col, color, 0);
    assert ok ==> forall r, c :: InBounds(r, c) && Adjacent(row, col, r, c) ==> g[r][c] != Some(color) by {
      if ok {
        forall r, c | InBounds(r, c) && Adjacent(row, col, r, c)
          ensures g[r][c] != Some(color)
        {
          DirectionsAreNeighbours(row, col, r, c);
          var j :| 0 <= j < |Directions| && (r, c) == (row + Directions[j].0, col + Directions[j].1);
          assert !Clashes(g, row + Directions[j].0, col + Directions[j].1, color);
        }
      }
    }
    assert !ok ==> exists r, c :: InBounds(r, c) && Adjacent(row, col, r, c) && g[r][c] == Some(color) by {
      if !ok {
        var j :| 0 <= j < |Directions| && Clashes(g, row + Directions[j].0, col + Directions[j].1, color);
        var r, c := row + Directions[j].0, col + Directions[j].1;
        DirectionsAreNeighbours(row, col, r, c);
        assert InBounds(r, c) && Adjacent(row, col, r, c) && g[r][c] == Some(color);
      }
    }
    ok
  }

  /** The game's swapped bounds test accepts exactly the on-board cells, because the grid is square. */
  lemma ProbeBoundsAgree(r: int, c: int)
    ensures ProbeInBounds(r, c) <==> InBounds(r, c)
  {
  }

  /** Rewriting the target cell itself never changes the verdict for that cell. */
  lemma ValidityIgnoresOwnCell(g: Grid, row: int, col: int, v: Cell, color: Color)
    requires WellFormed(g) && InBounds(row, col)
    ensures IsValidColor(SetCell(g, row, col, v), row, col, color) == IsValidColor(g, row, col, color)
  {
  }

  /**
   Writing a colour that passes the neighbour test keeps the adjacency
   invariant, whatever the cell held before.
   */
  lemma ValidWriteKeepsNoClash(g: Grid, row: int, col: int, color: Color)
    requires WellFormed(g) && NoAdjacentClash(g) && InBounds(row, col)
    requires IsValidColor(g, row, col, color)
    ensures NoAdjacentClash(SetCell(g, row, col, Some(color)))
  {
    var g' := SetCell(g, row, col, Some(color));
    forall r1, c1, r2, c2 |
      InBounds(r1, c1) && InBounds(r2, c2) && Adjacent(r1, c1, r2, c2) && g'[r1][c1] != None
      ensures g'[r1][c1] != g'[r2][c2]
    {
      if (r1, c1) == (row, col) {
        assert g'[r2][c2] == g[r2][c2];
      } else if (r2, c2) == (row, col) {
        assert Adjacent(row, col, r1, c1);
        assert g'[r1][c1] == g[r1][c1];
      } else {
        assert g'[r1][c1] == g[r1][c1] && g'[r2][c2] == g[r2][c2];
      }
    }
  }

  // ---------------------------------------------------------------------------
  // The win test (check_win)
  // ---------------------------------------------------------------------------

  /** The inner scan: every cell of `cells` from column `col` on is filled. */
  function RowFilledFrom(cells: seq<Cell>, col: nat): (full: bool)
    requires col <= |cells|
    ensures full <==> forall c :: col <= c < |cells| ==> cells[c] != None
    decreases |cells| - col
  {
    if col == |cells| then true
    else if cells[col] == None then false
    else RowFilledFrom(cells, col + 1)
  }

  /** The outer scan: every row from `row` on is filled. */
  function RowsFilledFrom(g: Grid, row: nat): (full: bool)
    requires WellFormed(g) && row <= GridHeight
    ensures full <==> forall r, c :: row <= r < GridHeight && 0 <= c < GridWidth ==> g[r][c] != None
    decreases GridHeight - row
  {
    if row == GridHeight then true
    else if !RowFilledFrom(g[row], 0) then false
    else RowsFilledFrom(g, row + 1)
  }

  /** The board is solved exactly when no cell is empty. */
  function CheckWin(g: Grid): (won: bool)
    requires WellFormed(g)
    ensures won <==> forall r, c :: InBounds(r, c) ==> g[r][c] != None
  {
    RowsFilledFrom(g, 0)
  }

  /** A solved board stays solved under any write of a colour. */
  lemma WinSurvivesColourWrite(g: Grid, row: int, col: int, color: Color)
    requires WellFormed(g) && InBounds(row, col) && CheckWin(g)
    ensures CheckWin(SetCell(g, row, col, Some(color)))
  {
  }

  /**
   Writing a colour solves the board exactly when every OTHER cell was already
   filled: the 25th fill wins, the 24th does not.
   */
  lemma ColourWriteWinsIff(g: Grid, row: int, col: int, color: Color)
    requires WellFormed(g) && InBounds(row, col)
    ensures CheckWin(SetCell(g, row, col, Some(color))) <==>
              forall r, c :: InBounds(r, c) && (r, c) != (row, col) ==> g[r][c] != None
  {
  }
}
