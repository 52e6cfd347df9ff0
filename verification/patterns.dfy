/** Known patterns under the step of main.py: the empty board, a lone
    cell, the 2x2 block (a still life) and the three-cell blinker (an
    oscillator of period two). */
module Patterns {
  import opened Geometry
  import opened Life

  /** A count of live neighbours is bounded by any set that holds all of
      them. */
  lemma CountAtMost(c: Cell, live: set<Cell>, g: Grid, bound: set<Cell>)
    requires LiveNeighbourSet(c, live, g) <= bound
    ensures NeighbourCount(c, live, g) <= |bound|
  {
    SubsetCardinality(LiveNeighbourSet(c, live, g), bound);
  }

  /** A set of three distinct cells has three elements. */
  lemma ThreeCells(x: Cell, y: Cell, z: Cell)
    requires x != y && y != z && x != z
    ensures |{x, y, z}| == 3
  {
  }

  /** The empty board stays empty. */
  lemma EmptyStaysEmpty(g: Grid)
    ensures Step({}, g) == {}
  {
  }

  /** A lone live cell dies, wherever it is and whatever the grid. */
  lemma LoneCellDies(p: Cell, g: Grid)
    ensures Step({p}, g) == {}
  {
    forall c ensures c !in Step({p}, g) {
      StepRuleByAdjacency({p}, g, c);
      LoneCellCount(p, g, c);
    }
  }

  /** Around a lone live cell every cell has at most one live neighbour,
      and the cell itself has none. */
  lemma LoneCellCount(p: Cell, g: Grid, c: Cell)
    ensures NeighbourCount(c, {p}, g) <= 1
    ensures NeighbourCount(p, {p}, g) == 0
  {
    CountAtMost(c, {p}, g, {p});
    CountAtMost(p, {p}, g, {});
  }

  /** The 2x2 block with top-left corner (a, b). */
  function Block(a: int, b: int): set<Cell> {
    {(a, b), (a + 1, b), (a, b + 1), (a + 1, b + 1)}
  }

  /** A block inside the grid is a still life: one step leaves it
      unchanged, since each of its cells has the other three as live
      neighbours and no cell outside it has more than two. */
  lemma BlockIsStill(a: int, b: int, g: Grid)
    requires 0 <= a && a + 1 < g.width && 0 <= b && b + 1 < g.height
    ensures Step(Block(a, b), g) == Block(a, b)
  {
    forall c ensures c in Step(Block(a, b), g) <==> c in Block(a, b) {
      StepRuleByAdjacency(Block(a, b), g, c);
      if c in Block(a, b) {
        BlockCellCount(a, b, g, c);
      } else {
        OutsideBlockCount(a, b, g, c);
      }
    }
  }

  /** Each cell of an in-bounds block has exactly three live neighbours. */
  lemma BlockCellCount(a: int, b: int, g: Grid, c: Cell)
    requires 0 <= a && a + 1 < g.width && 0 <= b && b + 1 < g.height
    requires c in Block(a, b)
    ensures NeighbourCount(c, Block(a, b), g) == 3
  {
    var blk := Block(a, b);
    var others := blk - {c};
    assert LiveNeighbourSet(c, blk, g) == others;
    assert |others| == 3 by {
      if c == (a, b) { ThreeCells((a + 1, b), (a, b + 1), (a + 1, b + 1)); }
      else if c == (a + 1, b) { ThreeCells((a, b), (a, b + 1), (a + 1, b + 1)); }
      else if c == (a, b + 1) { ThreeCells((a, b), (a + 1, b), (a + 1, b + 1)); }
      else { ThreeCells((a, b), (a + 1, b), (a, b + 1)); }
    }
  }

  /** A cell outside a block touches at most two of its cells. */
  lemma OutsideBlockCount(a: int, b: int, g: Grid, c: Cell)
    requires c !in Block(a, b)
    ensures NeighbourCount(c, Block(a, b), g) <= 2
  {
    if c.0 < a {
      CountAtMost(c, Block(a, b), g, {(a, b), (a, b + 1)});
    } else if c.0 > a + 1 {
      CountAtMost(c, Block(a, b), g, {(a + 1, b), (a + 1, b + 1)});
    } else if c.1 < b {
      CountAtMost(c, Block(a, b), g, {(a, b), (a + 1, b)});
    } else {
      CountAtMost(c, Block(a, b), g, {(a, b + 1), (a + 1, b + 1)});
    }
  }

  /** Three cells in a line through (a, b) along the unit direction `d`. */
  function Line(a: int, b: int, d: (int, int)): set<Cell> {
    {(a - d.0, b - d.1), (a, b), (a + d.0, b + d.1)}
  }

  /** The two orientations of a blinker. */
  predicate Orientation(d: (int, int)) {
    d == (1, 0) || d == (0, 1)
  }

  /** A blinker whose centre has all eight surrounding cells in the grid
      turns by a quarter in one step: its centre survives with two live
      neighbours, its ends die with one, and the two cells beside the
      centre are born with three. */
  lemma BlinkerTurns(a: int, b: int, d: (int, int), g: Grid)
    requires Orientation(d)
    requires 1 <= a < g.width - 1 && 1 <= b < g.height - 1
    ensures Step(Line(a, b, d), g) == Line(a, b, (d.1, d.0))
  {
    forall c ensures c in Step(Line(a, b, d), g) <==> c in Line(a, b, (d.1, d.0)) {
      StepRuleByAdjacency(Line(a, b, d), g, c);
      BlinkerFate(a, b, d, g, c);
    }
  }

  /** The fate of one cell under a step of a blinker. */
  lemma BlinkerFate(a: int, b: int, d: (int, int), g: Grid, c: Cell)
    requires Orientation(d)
    requires 1 <= a < g.width - 1 && 1 <= b < g.height - 1
    ensures
      || (c in Line(a, b, d) && NeighbourCount(c, Line(a, b, d), g) in {2, 3})
      || (c !in Line(a, b, d) && InBounds(c, g) && NeighbourCount(c, Line(a, b, d), g) == 3)
      <==> c in Line(a, b, (d.1, d.0))
  {
    if c == (a, b) {
      BlinkerCentre(a, b, d, g);
    } else if c in Line(a, b, d) {
      BlinkerEnd(a, b, d, g, c);
    } else if c in Line(a, b, (d.1, d.0)) {
      BlinkerBirth(a, b, d, g, c);
    } else {
      BlinkerElsewhere(a, b, d, g, c);
    }
  }

  /** The centre of a blinker has its two ends as live neighbours. */
  lemma BlinkerCentre(a: int, b: int, d: (int, int), g: Grid)
    requires Orientation(d)
    requires 1 <= a < g.width - 1 && 1 <= b < g.height - 1
    ensures NeighbourCount((a, b), Line(a, b, d), g) == 2
  {
    var e1, e2 := (a - d.0, b - d.1), (a + d.0, b + d.1);
    assert IsNeighbour((a, b), e1, g) && IsNeighbour((a, b), e2, g);
    assert LiveNeighbourSet((a, b), Line(a, b, d), g) == {e1, e2};
    assert |{e1, e2}| == 2;
  }

  /** An end of a blinker has only the centre as a live neighbour. */
  lemma BlinkerEnd(a: int, b: int, d: (int, int), g: Grid, c: Cell)
    requires Orientation(d)
    requires c in Line(a, b, d) && c != (a, b)
    ensures c !in Line(a, b, (d.1, d.0))
    ensures NeighbourCount(c, Line(a, b, d), g) <= 1
  {
    CountAtMost(c, Line(a, b, d), g, {(a, b)});
  }

  /** The two cells beside the centre, across the line, touch all three
      cells of the blinker. */
  lemma BlinkerBirth(a: int, b: int, d: (int, int), g: Grid, c: Cell)
    requires Orientation(d)
    requires 1 <= a < g.width - 1 && 1 <= b < g.height - 1
    requires c in Line(a, b, (d.1, d.0)) && c != (a, b)
    ensures c !in Line(a, b, d)
    ensures InBounds(c, g)
    ensures NeighbourCount(c, Line(a, b, d), g) == 3
  {
    var line := Line(a, b, d);
    assert LiveNeighbourSet(c, line, g) == line;
    ThreeCells((a - d.0, b - d.1), (a, b), (a + d.0, b + d.1));
  }

  /** Any other cell touches at most two cells of the blinker. */
  lemma BlinkerElsewhere(a: int, b: int, d: (int, int), g: Grid, c: Cell)
    requires Orientation(d)
    requires c !in Line(a, b, d) && c !in Line(a, b, (d.1, d.0))
    ensures NeighbourCount(c, Line(a, b, d), g) <= 2
  {
    var e1, m, e2 := (a - d.0, b - d.1), (a, b), (a + d.0, b + d.1);
    if !Adjacent(c, e1) {
      CountAtMost(c, Line(a, b, d), g, {m, e2});
    } else if !Adjacent(c, e2) {
      CountAtMost(c, Line(a, b, d), g, {e1, m});
    } else {
      CountAtMost(c, Line(a, b, d), g, {e1, e2});
    }
  }

  /** A blinker away from the edges returns to itself after two steps. */
  lemma BlinkerPeriodTwo(a: int, b: int, d: (int, int), g: Grid)
    requires Orientation(d)
    requires 1 <= a < g.width - 1 && 1 <= b < g.height - 1
    ensures Step(Step(Line(a, b, d), g), g) == Line(a, b, d)
  {
    BlinkerTurns(a, b, d, g);
    BlinkerTurns(a, b, (d.1, d.0), g);
  }

  /** On the program's 60 x 40 grid, the vertical blinker
      {(1, 0), (1, 1), (1, 2)} touching the top edge becomes the horizontal
      {(0, 1), (1, 1), (2, 1)} and then turns back. */
  lemma EdgeBlinker()
    ensures Step({(1, 0), (1, 1), (1, 2)}, ScreenGrid) == {(0, 1), (1, 1), (2, 1)}
    ensures Step({(0, 1), (1, 1), (2, 1)}, ScreenGrid) == {(1, 0), (1, 1), (1, 2)}
  {
    BlinkerTurns(1, 1, (0, 1), ScreenGrid);
    BlinkerTurns(1, 1, (1, 0), ScreenGrid);
  }
}
