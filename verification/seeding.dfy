/**
 Obstacle seeding (initialize_grid): starting from an empty board, draw a
 random cell; if it is empty and some colour passes the neighbour test there,
 colour it with a random one of those colours and record it as an obstacle;
 repeat until a fifth of the cells are obstacles.

 The random numbers are an input: a finite sequence of draws, each giving the
 row and column `random.randint` returned and the index `random.choice` used.
 */
module Seeding {
  import opened Wrappers
  import opened Board

  /** A fifth of the cells, rounded down. */
  const ObstacleTarget: int := GridWidth * GridHeight / 5

  /** One round of random picks: a cell, and an index into the colours allowed there. */
  datatype Draw = Draw(row: int, col: int, pick: nat)

  /** `random.randint(0, GRIDHEIGHT - 1)` and `random.randint(0, GRIDWIDTH - 1)` stay in these ranges. */
  predicate DrawInRange(d: Draw) {
    0 <= d.row <= GridHeight - 1 && 0 <= d.col <= GridWidth - 1
  }

  datatype SeedState = SeedState(grid: Grid, obstacles: seq<Pos>)

  /** The state before the first draw. */
  function Start(): (s: SeedState)
    ensures WellFormed(s.grid) && s.obstacles == []
    ensures forall r, c :: InBounds(r, c) ==> s.grid[r][c] == None
  {
    SeedState(EmptyGrid(), [])
  }

  /** The colours of `palette` that pass the neighbour test at (row, col), in palette order. */
  function AvailableFrom(g: Grid, row: int, col: int, palette: seq<Color>): (avail: seq<Color>)
    requires WellFormed(g)
    ensures |avail| <= |palette|
    ensures forall x :: x in avail <==> x in palette && IsValidColor(g, row, col, x)
  {
    if palette == [] then []
    else if IsValidColor(g, row, col, palette[0]) then [palette[0]] + AvailableFrom(g, row, col, palette[1..])
    else AvailableFrom(g, row, col, palette[1..])
  }

  /** `available_colors` at (row, col). */
  function AvailableColors(g: Grid, row: int, col: int): (avail: seq<Color>)
    requires WellFormed(g)
    ensures |avail| <= |Colors|
    ensures forall x :: x in avail <==> IsValidColor(g, row, col, x)
  {
    assert forall x: Color :: x in Colors by {
      forall x: Color ensures x in Colors {
        assert x == Colors[0] || x == Colors[1] || x == Colors[2] || x == Colors[3];
      }
    }
    AvailableFrom(g, row, col, Colors)
  }

  /** What the loop keeps true, and what the finished board satisfies. */
  ghost predicate SeedInv(s: SeedState) {
    && WellFormed(s.grid)
    && |s.obstacles| <= ObstacleTarget
    && (forall i :: 0 <= i < |s.obstacles| ==> InBounds(s.obstacles[i].row, s.obstacles[i].col))
    && (forall i, j :: 0 <= i < j < |s.obstacles| ==> s.obstacles[i] != s.obstacles[j])
    && (forall r, c :: InBounds(r, c) ==> (s.grid[r][c] != None <==> Pos(r, c) in s.obstacles))
    && NoAdjacentClash(s.grid)
  }

  /**
   One pass of the seeding loop's body. A draw that lands on an obstacle, or
   on a cell where every colour clashes, changes nothing; otherwise the cell
   gets an allowed colour and is appended to the obstacle list.
   */
  function PlaceStep(s: SeedState, d: Draw): (s': SeedState)
    requires WellFormed(s.grid) && DrawInRange(d)
    ensures WellFormed(s'.grid)
    ensures s' == s || |s'.obstacles| == |s.obstacles| + 1
    ensures |s'.obstacles| == |s.obstacles| + 1 <==>
              s.grid[d.row][d.col] == None && exists x :: IsValidColor(s.grid, d.row, d.col, x)
    ensures s' != s ==>
              && s'.obstacles == s.obstacles + [Pos(d.row, d.col)]
              && s'.grid[d.row][d.col] != None
              && IsValidColor(s.grid, d.row, d.col, s'.grid[d.row][d.col].value)
              && forall r, c :: InBounds(r, c) && (r, c) != (d.row, d.col) ==> s'.grid[r][c] == s.grid[r][c]
  {
    if s.grid[d.row][d.col] == None then
      var avail := AvailableColors(s.grid, d.row, d.col);
      if |avail| > 0 then
        var color := avail[d.pick % |avail|];
        assert IsValidColor(s.grid, d.row, d.col, color);
        SeedState(SetCell(s.grid, d.row, d.col, Some(color)), s.obstacles + [Pos(d.row, d.col)])
      else
        assert avail == [];
        s
    else
      s
  }

  /** A placement step below the target keeps the seeding invariant. */
  lemma PlaceStepKeepsInv(s: SeedState, d: Draw)
    requires SeedInv(s) && |s.obstacles| < ObstacleTarget && DrawInRange(d)
    ensures SeedInv(PlaceStep(s, d))
  {
    var s' := PlaceStep(s, d);
    if s' != s {
      var p := Pos(d.row, d.col);
      assert p !in s.obstacles by {
        assert s.grid[d.row][d.col] == None;
      }
      assert s'.grid == SetCell(s.grid, d.row, d.col, s'.grid[d.row][d.col]);
      ValidWriteKeepsNoClash(s.grid, d.row, d.col, s'.grid[d.row][d.col].value);
      forall i, j | 0 <= i < j < |s'.obstacles|
        ensures s'.obstacles[i] != s'.obstacles[j]
      {
        if j == |s.obstacles| {
          assert s'.obstacles[i] == s.obstacles[i];
        }
      }
    }
  }

  /** The loop: apply draws until the target is met or the draws run out. */
  function Run(s: SeedState, draws: seq<Draw>): (s': SeedState)
    requires WellFormed(s.grid)
    requires forall i :: 0 <= i < |draws| ==> DrawInRange(draws[i])
    ensures WellFormed(s'.grid)
    ensures |s.obstacles| <= |s'.obstacles|
    ensures |s.obstacles| <= ObstacleTarget ==> |s'.obstacles| <= ObstacleTarget
    decreases |draws|
  {
    if draws == [] || |s.obstacles| >= ObstacleTarget then s
    else Run(PlaceStep(s, draws[0]), draws[1..])
  }

  /** Every state the loop reaches satisfies the seeding invariant. */
  lemma {:induction false} RunKeepsInv(s: SeedState, draws: seq<Draw>)
    requires SeedInv(s)
    requires forall i :: 0 <= i < |draws| ==> DrawInRange(draws[i])
    ensures SeedInv(Run(s, draws))
    decreases |draws|
  {
    if draws != [] && |s.obstacles| < ObstacleTarget {
      PlaceStepKeepsInv(s, draws[0]);
      RunKeepsInv(PlaceStep(s, draws[0]), draws[1..]);
    }
  }

  /**
   initialize_grid, fed a finite supply of draws. On return the board satisfies
   the seeding invariant; it holds exactly ObstacleTarget obstacles unless the
   draws ran out first, and each obstacle took at least one draw. The result
   is exactly what `Run` reaches from the empty board.
   */
  method InitializeGrid(draws: seq<Draw>) returns (grid: Grid, obstacles: seq<Pos>, used: nat)
    requires forall i :: 0 <= i < |draws| ==> DrawInRange(draws[i])
    ensures used <= |draws|
    ensures SeedInv(SeedState(grid, obstacles))
    ensures |obstacles| == ObstacleTarget || used == |draws|
    ensures |obstacles| <= used
    ensures SeedState(grid, obstacles) == Run(Start(), draws)
  {
    var s := Start();
    used := 0;
    while |s.obstacles| < ObstacleTarget && used < |draws|
      invariant used <= |draws|
      invariant WellFormed(s.grid)
      invariant Run(s, draws[used..]) == Run(Start(), draws)
      invariant |s.obstacles| <= used
      decreases |draws| - used
    {
      RunSuffixStep(s, draws, used);
      s := PlaceStep(s, draws[used]);
      used := used + 1;
    }
    RunStops(s, draws[used..]);
    RunKeepsInv(Start(), draws);
    grid, obstacles := s.grid, s.obstacles;
  }

  /** Once the target is met, or no draws are left, the loop does nothing more. */
  lemma RunStops(s: SeedState, rest: seq<Draw>)
    requires WellFormed(s.grid)
    requires forall i :: 0 <= i < |rest| ==> DrawInRange(rest[i])
    requires |s.obstacles| >= ObstacleTarget || rest == []
    ensures Run(s, rest) == s
  {
  }

  /** Below the target, running from draw `used` on is one step followed by the rest. */
  lemma RunSuffixStep(s: SeedState, draws: seq<Draw>, used: nat)
    requires forall i :: 0 <= i < |draws| ==> DrawInRange(draws[i])
    requires used < |draws| && WellFormed(s.grid) && |s.obstacles| < ObstacleTarget
    ensures Run(s, draws[used..]) == Run(PlaceStep(s, draws[used]), draws[used + 1..])
  {
    var rest := draws[used..];
    assert rest[0] == draws[used];
    assert rest[1..] == draws[used + 1..];
  }
}

module SeedingProgress {
  import opened Wrappers
  import opened Board
  import opened Seeding

  /** The set of positions listed in `ps`. */
  function Elems(ps: seq<Pos>): (e: set<Pos>)
    ensures forall p :: p in e <==> p in ps
    ensures |e| <= |ps|
  {
    if ps == [] then {} else {ps[0]} + Elems(ps[1..])
  }

  /** A corner has at most two neighbours, so some colour always passes the test there. */
  lemma CornerHasColour(g: Grid, r: int, c: int)
    requires WellFormed(g)
    requires (r == 0 || r == GridHeight - 1) && (c == 0 || c == GridWidth - 1)
    ensures exists x :: IsValidColor(g, r, c, x)
  {
    var a := g[r][if c == 0 then 1 else c - 1];
    var b := g[if r == 0 then 1 else r - 1][c];
    var x := if a != Some(Red) && b != Some(Red) then Red
             else if a != Some(Green) && b != Some(Green) then Green
             else Blue;
    assert IsValidColor(g, r, c, x);
  }

  /** Subsets are no larger. */
  lemma SubsetNoLarger(a: set<Pos>, b: set<Pos>)
    requires a <= b
    ensures |a| <= |b|
  {
    assert b == a + (b - a);
  }

  /** A list without repeats has as many distinct elements as entries. */
  lemma {:induction false} DistinctElems(xs: seq<Pos>)
    requires forall i, j :: 0 <= i < j < |xs| ==> xs[i] != xs[j]
    ensures |Elems(xs)| == |xs|
  {
    if xs != [] {
      DistinctElems(xs[1..]);
      assert xs[0] !in xs[1..];
    }
  }

  /** If every entry of the repeat-free list `xs` is listed in `ps`, then `ps` is at least as long. */
  lemma ListedDistinct(ps: seq<Pos>, xs: seq<Pos>)
    requires forall i, j :: 0 <= i < j < |xs| ==> xs[i] != xs[j]
    requires forall i :: 0 <= i < |xs| ==> xs[i] in ps
    ensures |xs| <= |ps|
  {
    DistinctElems(xs);
    SubsetNoLarger(Elems(xs), Elems(ps));
  }

  /**
   Rejection sampling never gets stuck on this board: whenever fewer than
   ObstacleTarget obstacles are placed, some draw places the next one. Either a
   corner is still empty, or the four corners use up four of the at most four
   obstacles, leaving the centre and its neighbours empty.
   */
  lemma SeedingCanProgress(s: SeedState)
    requires SeedInv(s) && |s.obstacles| < ObstacleTarget
    ensures exists d :: DrawInRange(d) && |PlaceStep(s, d).obstacles| == |s.obstacles| + 1
  {
    var g := s.grid;
    var hi := GridHeight - 1;
    if g[0][0] == None {
      EmptyCellWithColourProgresses(s, 0, 0);
    } else if g[0][hi] == None {
      EmptyCellWithColourProgresses(s, 0, hi);
    } else if g[hi][0] == None {
      EmptyCellWithColourProgresses(s, hi, 0);
    } else if g[hi][hi] == None {
      EmptyCellWithColourProgresses(s, hi, hi);
    } else {
      CentreFreeWhenCornersTaken(s);
      EmptyCellWithColourProgresses(s, 2, 2);
    }
  }

  /** A draw on an empty cell placed on a corner or the centre, with a colour allowed there, adds an obstacle. */
  lemma EmptyCellWithColourProgresses(s: SeedState, r: int, c: int)
    requires SeedInv(s) && InBounds(r, c) && s.grid[r][c] == None
    requires ((r == 0 || r == GridHeight - 1) && (c == 0 || c == GridWidth - 1)) || IsValidColor(s.grid, r, c, Red)
    ensures |PlaceStep(s, Draw(r, c, 0)).obstacles| == |s.obstacles| + 1
  {
    if !IsValidColor(s.grid, r, c, Red) {
      CornerHasColour(s.grid, r, c);
    }
  }

  /**
   With the four corners among at most four obstacles, the centre and its
   four neighbours are empty, so any colour is allowed at the centre.
   */
  lemma CentreFreeWhenCornersTaken(s: SeedState)
    requires SeedInv(s) && |s.obstacles| < ObstacleTarget
    requires s.grid[0][0] != None && s.grid[0][GridWidth - 1] != None
    requires s.grid[GridHeight - 1][0] != None && s.grid[GridHeight - 1][GridWidth - 1] != None
    ensures s.grid[2][2] == None && IsValidColor(s.grid, 2, 2, Red)
  {
    var g := s.grid;
    var ps := s.obstacles;
    var hi := GridHeight - 1;
    assert Pos(0, 0) in ps && Pos(0, hi) in ps && Pos(hi, 0) in ps && Pos(hi, hi) in ps;
    forall q | q in {Pos(2, 2), Pos(1, 2), Pos(3, 2), Pos(2, 1), Pos(2, 3)}
      ensures g[q.row][q.col] == None
    {
      if g[q.row][q.col] != None {
        ListedDistinct(ps, [Pos(0, 0), Pos(0, hi), Pos(hi, 0), Pos(hi, hi), q]);
      }
    }
    assert g[2][2] == None && g[1][2] == None && g[3][2] == None && g[2][1] == None && g[2][3] == None;
  }

  /** A seeded board is never already solved: at most five of its 25 cells are filled. */
  lemma SeededBoardNotSolved(s: SeedState)
    requires SeedInv(s)
    ensures !CheckWin(s.grid)
  {
    var g := s.grid;
    var ps := s.obstacles;
    if g[0][0] != None && g[0][1] != None && g[0][2] != None && g[0][3] != None && g[0][4] != None && g[1][0] != None {
      ListedDistinct(ps, [Pos(0, 0), Pos(0, 1), Pos(0, 2), Pos(0, 3), Pos(0, 4), Pos(1, 0)]);
    }
  }
}
