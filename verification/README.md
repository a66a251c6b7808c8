# Color Fill Puzzle — a Dafny model of the puzzle engine

The game (`color_fill_pygame.py`) shows a 5×5 board. At the start of each round, a fifth of the
cells (five) are coloured as *obstacles*. No two obstacles that touch share a colour. The player
picks one of four colours (Red, Green, Blue, Yellow) from a palette and clicks cells to fill them.

- A click on an obstacle is ignored.
- A colour that no orthogonal neighbour already holds is written into the cell.
- Any other colour ends the round ("GAME OVER!", score 0).

A full board ends the round as "PUZZLE SOLVED" with score `max(1, 1000 - 25·elapsed)`. The best
score of the session is raised to that score if it is higher.

This project models the engine behind that window:

- `wrappers.dfy`, module `Wrappers`: the `Option` type used for cells and for the selected colour.
- `board.dfy`, module `Board`: the grid, the adjacency invariant, the neighbour test
  `is_valid_color`, and the win test `check_win`.
- `seeding.dfy`, modules `Seeding` and `SeedingProgress`: the rejection-sampling obstacle
  placement `initialize_grid`. The random numbers are a finite list of draws. A second module
  proves that the sampling can always make progress on this board.
- `moves.dfy`, module `Moves`: the move rule in `main`.
- `scoring.dfy`, module `Scoring`: the time-based score and the best-score update.
- `layout.dfy`, module `Layout`: where `draw_grid` draws each box, and how a click position is
  mapped back to a cell.
- `game.dfy`, module `Game`: a session (board, obstacles, selected colour, best score) and the
  effect of each input event on it.

The central invariant is `Board.NoAdjacentClash`: no two orthogonally adjacent filled cells share a
colour. Seeding establishes it (`Seeding.RunKeepsInv`, `Seeding.InitializeGrid`). Every accepted
move keeps it (`Moves.MoveKeepsNoClash`, `Game.StepKeepsInv`).

Modelling choices:

- `random.randint` and `random.choice` become a list of `Draw(row, col, pick)` values.
  `random.randint` keeps `row` and `col` in range, so the list is required to as well.
  `random.choice(available_colors)` is `available_colors[pick % len(available_colors)]`. Every
  allowed colour can be drawn this way.
- `time.time()` is replaced by `elapsed`, the whole seconds since the round began. It is passed in
  as an integer.
- Global state (`grid`, `obstacle_positions`, `selected_color`, `best_score`) becomes the immutable
  `Game.Session` value. The board that a restart would seed is passed to `Game.Step` as a parameter.

The model keeps these behaviours of the code as they are:

- The move rule does not check that the target cell is empty (line 258). A filled cell that is not
  an obstacle can be recoloured; `Moves.RecolourIsAccepted` shows one such move.
- A corner's two neighbours are probed like any other cell's, so a corner can reject a colour.
- The placement loop draws until five obstacles are placed; it has no bound and raises no error.
  Here it stops when the draws run out. `SeedingProgress.SeedingCanProgress` shows that on this
  board some draw always makes progress.
- The bounds test at line 212 compares the row with `GRIDWIDTH` and the column with `GRIDHEIGHT`.
  The model keeps this (`Board.ProbeInBounds`). `Board.ProbeBoundsAgree` shows it is harmless
  because the grid is square.

## Model

| member | source | states |
|---|---|---|
| Board.EmptyGrid | color_fill_pygame.py:49 | a fresh grid is 5×5 and every cell is empty |
| Board.ProbeFrom | color_fill_pygame.py:209-214 | the probe loop returns false iff one of the remaining probed directions reaches an on-board cell already holding the colour |
| Board.IsValidColor | color_fill_pygame.py:207-214 | a colour is allowed at (row, col) iff no in-bounds orthogonal neighbour holds it; off-board neighbours never clash |
| Board.ProbeBoundsAgree | color_fill_pygame.py:212 | the swapped width/height bounds test accepts exactly the on-board cells |
| Board.ValidityIgnoresOwnCell | color_fill_pygame.py:207-214 | the verdict for a cell does not depend on what that cell holds |
| Board.ValidWriteKeepsNoClash | color_fill_pygame.py:258-259 | writing a colour that passes the neighbour test keeps the adjacency invariant, even over a filled cell |
| Board.RowFilledFrom | color_fill_pygame.py:219-221 | the inner scan is true iff every cell of the row from the given column on is filled |
| Board.RowsFilledFrom | color_fill_pygame.py:218-222 | the outer scan is true iff every cell in the rows from the given row on is filled |
| Board.CheckWin | color_fill_pygame.py:217-222 | the board is won iff no cell is empty |
| Board.WinSurvivesColourWrite | color_fill_pygame.py:217-222 | writing a colour into a won board leaves it won |
| Board.ColourWriteWinsIff | color_fill_pygame.py:217-222 | writing a colour wins iff every other cell was already filled |
| Seeding.Start | color_fill_pygame.py:49-50 | seeding starts from an empty grid and an empty obstacle list |
| Seeding.AvailableFrom | color_fill_pygame.py:62 | the filtered palette holds exactly the palette colours that pass the neighbour test |
| Seeding.AvailableColors | color_fill_pygame.py:62 | `available_colors` holds exactly the colours allowed at the cell |
| Seeding.PlaceStep | color_fill_pygame.py:58-67 | a draw adds one obstacle iff its cell is empty and some colour is allowed there; the new obstacle gets an allowed colour and nothing else changes |
| Seeding.PlaceStepKeepsInv | color_fill_pygame.py:57-67 | one placement step keeps: distinct in-bounds obstacles, filled cells exactly the obstacles, the adjacency invariant |
| Seeding.Run | color_fill_pygame.py:57-67 | running the loop never removes obstacles, never takes the count past five, and keeps the grid 5×5 |
| Seeding.RunKeepsInv | color_fill_pygame.py:57-67 | every state the seeding loop reaches satisfies the seeding invariant |
| Seeding.InitializeGrid | color_fill_pygame.py:47-68 | the loop's result is exactly the state the draws lead to step by step from the empty board; it has distinct obstacles, filled cells exactly the obstacles, and no adjacent clash; it has exactly five obstacles unless the draws ran out; each obstacle took at least one draw |
| SeedingProgress.SeedingCanProgress | color_fill_pygame.py:57-67 | with fewer than five obstacles placed, some draw always places the next one |
| SeedingProgress.SeededBoardNotSolved | color_fill_pygame.py:52-53 | a seeded board, with at most five of 25 cells filled, is never already won |
| Moves.ApplyMove | color_fill_pygame.py:255-261 | an obstacle click is ignored; a clash (some in-bounds neighbour holds the colour) ends the round; otherwise exactly the clicked cell gets the colour |
| Moves.MoveKeepsNoClash | color_fill_pygame.py:258-259 | an accepted move keeps the adjacency invariant |
| Moves.MoveKeepsObstacles | color_fill_pygame.py:256-257 | no accepted move changes an obstacle cell |
| Moves.MoveKeepsWin | color_fill_pygame.py:259 | a won board stays won under any accepted move |
| Moves.ObstacleClickIdempotent | color_fill_pygame.py:256-257 | clicking an obstacle is ignored whatever the colour, every time |
| Moves.RecolourIsAccepted | color_fill_pygame.py:258-259 | a filled non-obstacle cell can be recoloured |
| Scoring.Score | color_fill_pygame.py:240 | the score is at least 1, at most 1000 for non-negative time, 1000 at time 0, and 1 exactly from 40 seconds on |
| Scoring.ScoreNonIncreasing | color_fill_pygame.py:240 | a later finish never scores more |
| Scoring.ScoreStep | color_fill_pygame.py:240 | each second before the floor costs exactly 25 points |
| Scoring.UpdateBest | color_fill_pygame.py:187-188 | a solved round makes the best the larger of the old best and the score; a lost round leaves it unchanged |
| Scoring.BestStaysInRange | color_fill_pygame.py:187-188 | the best score stays within [0, 1000] |
| Layout.BoxLeft | color_fill_pygame.py:84-92 | the boxes of column c are drawn from x = 90 + 85·c |
| Layout.BoxTop | color_fill_pygame.py:85-93 | the boxes of row r are drawn from y = 140 + 85·r |
| Layout.ClickCol | color_fill_pygame.py:251 | the computed column c satisfies 87 + 85·c ≤ x < 87 + 85·(c+1) |
| Layout.ClickRow | color_fill_pygame.py:252 | the computed row r satisfies 137 + 85·r ≤ y < 137 + 85·(r+1) |
| Layout.ClickCell | color_fill_pygame.py:251-254 | a click reaches the board iff 87 ≤ x < 512 and 137 ≤ y < 562, and then names an on-board cell |
| Layout.BoxClickRoundTrip | color_fill_pygame.py:84-96 | every pixel of the box drawn for (row, col), edges included, is mapped back to (row, col) |
| Layout.ClickCellPreimage | color_fill_pygame.py:251-254 | exactly the 85×85 square starting 3 pixels above and left of a box maps to its cell |
| Layout.PaletteClickMissesBoard | color_fill_pygame.py:120-133 | a click on the colour palette never reaches the board |
| Game.SeededRoundValid | color_fill_pygame.py:47-68 | a seeded board has the adjacency invariant and every obstacle on the board and coloured |
| Game.HandleClick | color_fill_pygame.py:250-261 | off-board clicks and clicks without a selected colour are ignored; an on-board click with a colour is ignored iff it hits an obstacle and loses iff it hits a non-obstacle cell where the colour clashes; an accepted click writes the selected colour into exactly the clicked cell |
| Game.NewSession | color_fill_pygame.py:41-43 | a session starts with best score 0 and no colour selected |
| Game.Step | color_fill_pygame.py:239-261 | clicks never change the best score; an ignored click changes nothing; an accepted click replaces only the board, with the obstacles kept; a losing click installs the new board and clears the selection; a won board is replaced, the selection cleared and the best raised to the larger of itself and the score; otherwise the frame test changes nothing |
| Game.StepKeepsInv | color_fill_pygame.py:239-261 | every event keeps the adjacency invariant and the best score within [0, 1000] |
| Game.ClickKeepsWin | color_fill_pygame.py:258-259 | after a click on a won board, the board is either replaced or still won |
| Game.ClashingClickEndsRound | color_fill_pygame.py:250-261 | a click anywhere in a non-obstacle box with a clashing colour ends the round: new board, selection cleared, best score kept |
| Game.ObstacleClickIgnored | color_fill_pygame.py:256-257 | any click inside an obstacle's box leaves the session unchanged |

## Left out

- Drawing: the gradient background, box and text drawing, hover highlighting and the restart
  button. These are graphics calls with no puzzle logic. Only the box coordinates are modelled.
- `lighten_color` and the gradient interpolation: floating-point colour arithmetic used only for
  display.
- The event loop, the blocking wait for the restart button, `pygame.quit` and `sys.exit`. These
  are I/O and process control. `Game.Step` handles one event at a time. The model does not cover
  events queued during the same frame that are handled after a restart.
- `time.time()`: the elapsed whole seconds are a parameter. A clock that runs backwards is not
  modelled, so `Game.StepKeepsInv` assumes `elapsed >= 0`.
- True randomness: draws are an input list. The model does not cover how the draws are
  distributed.
- Seeding.InitializeGrid: it does not model a search that runs until it succeeds, because every
  loop here must terminate. It stops when the given draws run out.
  `SeedingProgress.SeedingCanProgress` shows that whenever fewer than five obstacles are placed,
  some draw places the next one.
- Palette hit-testing in `handle_and_draw_color_selection`: a palette click is the event
  `Select(color)`. Only the fact that palette clicks miss the board is proved.
