/**
 Where the board is drawn in the 600 x 600 window and how a click position is
 mapped back to a cell.
 */
module Layout {
  import opened Wrappers
  import opened Board

  const WindowWidth: int := 600
  const WindowHeight: int := 600
  const BoxSize: int := 80
  const Margin: int := 5
  /** Extra downward shift of the board, leaving room for the palette. */
  const BoardDrop: int := 50
  /** Distance from one box to the next, in either direction. */
  const Pitch: int := BoxSize + Margin

  /** Left edge of the boxes in column `col`. */
  function BoxLeft(col: int): (x: int)
    ensures x == 90 + 85 * col
  {
    var totalWidth := GridWidth * Pitch + Margin;
    var startX := (WindowWidth - totalWidth) / 2;
    startX + col * Pitch + Margin
  }

  /** Top edge of the boxes in row `row`. */
  function BoxTop(row: int): (y: int)
    ensures y == 140 + 85 * row
  {
    var totalHeight := GridHeight * Pitch + Margin;
    var startY := (WindowHeight - totalHeight) / 2 + BoardDrop;
    startY + row * Pitch + Margin
  }

  /** Pixel (mx, my) lies in the drawn box of (row, col), edges included as in the hover test. */
  predicate InBox(row: int, col: int, mx: int, my: int) {
    BoxLeft(col) <= mx <= BoxLeft(col) + BoxSize && BoxTop(row) <= my <= BoxTop(row) + BoxSize
  }

  /** The column a click at x-coordinate `mx` is attributed to (floor division). */
  function ClickCol(mx: int): (col: int)
    ensures 87 + 85 * col <= mx < 87 + 85 * (col + 1)
  {
    (mx - (WindowWidth - GridWidth * Pitch) / 2) / Pitch
  }

  /** The row a click at y-coordinate `my` is attributed to (floor division). */
  function ClickRow(my: int): (row: int)
    ensures 137 + 85 * row <= my < 137 + 85 * (row + 1)
  {
    (my - ((WindowHeight - GridHeight * Pitch) / 2 + BoardDrop)) / Pitch
  }

  /** The cell a click lands on, or None when the computed cell is off the board. */
  function ClickCell(mx: int, my: int): (p: Option<Pos>)
    ensures p.Some? <==> 87 <= mx < 512 && 137 <= my < 562
    ensures p.Some? ==> InBounds(p.value.row, p.value.col)
  {
    var row := ClickRow(my);
    var col := ClickCol(mx);
    if 0 <= row < GridHeight && 0 <= col < GridWidth then Some(Pos(row, col)) else None
  }

  /** Every pixel of a drawn box is attributed to that box's cell. */
  lemma BoxClickRoundTrip(row: int, col: int, mx: int, my: int)
    requires InBounds(row, col) && InBox(row, col, mx, my)
    ensures ClickCell(mx, my) == Some(Pos(row, col))
  {
  }

  /**
   Exactly which pixels are attributed to an on-board cell: an 85 x 85 square
   starting 3 pixels up and left of the drawn box, so the gap to the right of
   and below each box counts for that box.
   */
  lemma ClickCellPreimage(row: int, col: int, mx: int, my: int)
    requires InBounds(row, col)
    ensures ClickCell(mx, my) == Some(Pos(row, col)) <==>
              BoxLeft(col) - 3 <= mx < BoxLeft(col) + Pitch - 3 && BoxTop(row) - 3 <= my < BoxTop(row) + Pitch - 3
  {
  }

  /** Clicks on the colour palette (drawn from y = 35 to y = 85, outline included) never reach the board. */
  lemma PaletteClickMissesBoard(mx: int, my: int)
    requires 35 <= my <= 85
    ensures ClickCell(mx, my) == None
  {
  }
}
