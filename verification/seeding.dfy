/** The random seeder `gen` of main.py. A call `random.randrange(0, n)`
    is modelled by an arbitrary natural number taken modulo `n`: every
    value in [0, n) is one of its outcomes, so quantifying over the draws
    covers every run of the random generator. */
module Seeding {
  import opened Geometry

  /** The two numbers drawn for one pair, in call order. */
  datatype Draw = Draw(first: nat, second: nat)

  /** The pair `gen` builds from one draw: the first number bounded by the
      grid height, the second by the grid width, in (column, row) order. */
  function AsWrittenCell(d: Draw, g: Grid): Cell
    requires g.Positive()
  {
    (d.first % g.height, d.second % g.width)
  }

  /** `gen` as written: the set of pairs built from the draws. Its
      columns stay below the height and its rows below the width. */
  function SeedAsWritten(draws: seq<Draw>, g: Grid): (r: set<Cell>)
    requires g.Positive()
    ensures forall c :: c in r ==> 0 <= c.0 < g.height && 0 <= c.1 < g.width
  {
    set i | 0 <= i < |draws| :: AsWrittenCell(draws[i], g)
  }

  /** On the 60 x 40 grid, `gen` as written can place a cell in row 45,
      below the last row: the row is drawn from [0, 60) instead of
      [0, 40). */
  lemma SeedAsWrittenLeavesGrid()
    ensures (0, 45) in SeedAsWritten([Draw(0, 45)], ScreenGrid)
    ensures !InBounds((0, 45), ScreenGrid)
  {
    var draws := [Draw(0, 45)];
    assert ScreenGrid == Grid(60, 40);
    assert AsWrittenCell(draws[0], ScreenGrid) == (0, 45);
  }

  /** On the 60 x 40 grid, `gen` as written never seeds column 45 (nor
      any column from 40 on), though those columns lie in the grid: the
      column is drawn from [0, 40). */
  lemma SeedAsWrittenMissesColumns(draws: seq<Draw>)
    ensures InBounds((45, 0), ScreenGrid)
    ensures (45, 0) !in SeedAsWritten(draws, ScreenGrid)
  {
    assert ScreenGrid == Grid(60, 40);
  }

  /** The pair one draw should give: a column below the width and a row
      below the height. */
  function DrawCell(d: Draw, g: Grid): (c: Cell)
    requires g.Positive()
    ensures InBounds(c, g)
  {
    (d.first % g.width, d.second % g.height)
  }

  /** `gen` with the bounds in (column, row) order: the set of cells
      built from the draws. */
  function Seed(draws: seq<Draw>, g: Grid): (r: set<Cell>)
    requires g.Positive()
    ensures forall c :: c in r ==> InBounds(c, g)
  {
    set i | 0 <= i < |draws| :: DrawCell(draws[i], g)
  }

  /** The cells `f` builds from the draws. Both seeders are of this
      form. */
  function Image(draws: seq<Draw>, f: Draw -> Cell): set<Cell> {
    set i | 0 <= i < |draws| :: f(draws[i])
  }

  /** Repeated cells collapse, so the draws give at most as many cells
      as there are draws. */
  lemma {:induction false} ImageSize(draws: seq<Draw>, f: Draw -> Cell)
    ensures |Image(draws, f)| <= |draws|
  {
    if draws != [] {
      var init := draws[..|draws| - 1];
      ImageSize(init, f);
      assert Image(draws, f) == Image(init, f) + {f(draws[|draws| - 1])} by {
        forall c | c in Image(draws, f) ensures c in Image(init, f) + {f(draws[|draws| - 1])} {
          var i :| 0 <= i < |draws| && f(draws[i]) == c;
          if i < |init| {
            assert init[i] == draws[i];
          }
        }
        forall c | c in Image(init, f) ensures c in Image(draws, f) {
          var i :| 0 <= i < |init| && f(init[i]) == c;
          assert init[i] == draws[i];
        }
      }
    }
  }

  /** The corrected seeder yields at most as many cells as there are
      draws. */
  lemma SeedSize(draws: seq<Draw>, g: Grid)
    requires g.Positive()
    ensures |Seed(draws, g)| <= |draws|
  {
    var f := (d: Draw) => DrawCell(d, g);
    assert Seed(draws, g) == Image(draws, f);
    ImageSize(draws, f);
  }

  /** `gen` as written also yields at most as many cells as there are
      draws. */
  lemma SeedAsWrittenSize(draws: seq<Draw>, g: Grid)
    requires g.Positive()
    ensures |SeedAsWritten(draws, g)| <= |draws|
  {
    var f := (d: Draw) => AsWrittenCell(d, g);
    assert SeedAsWritten(draws, g) == Image(draws, f);
    ImageSize(draws, f);
  }

  /** Every cell of the grid is the outcome of some draw. */
  lemma SeedReachesEveryCell(c: Cell, g: Grid)
    requires g.Positive() && InBounds(c, g)
    ensures c in Seed([Draw(c.0, c.1)], g)
  {
    var draws := [Draw(c.0, c.1)];
    SmallRemainder(c.0, g.width);
    SmallRemainder(c.1, g.height);
    assert DrawCell(draws[0], g) == c;
  }

  /** A number below the modulus is its own remainder. */
  lemma SmallRemainder(a: nat, n: int)
    requires a < n
    ensures a % n == a
  {
  }

  /** All cells of a `w` x `h` grid. */
  function GridCells(w: nat, h: nat): set<Cell> {
    set x, y | 0 <= x < w && 0 <= y < h :: (x, y)
  }

  /** The cells of column `x` in rows [0, h). */
  function ColumnCells(x: int, h: nat): set<Cell> {
    set y | 0 <= y < h :: (x, y)
  }

  lemma {:induction false} ColumnCellsCardinality(x: int, h: nat)
    ensures |ColumnCells(x, h)| == h
  {
    if h > 0 {
      ColumnCellsCardinality(x, h - 1);
      assert ColumnCells(x, h) == ColumnCells(x, h - 1) + {(x, h - 1)};
    }
  }

  /** A `w` x `h` grid has `w * h` cells. */
  lemma {:induction false} GridCellsCardinality(w: nat, h: nat)
    ensures |GridCells(w, h)| == w * h
  {
    if w > 0 {
      GridCellsCardinality(w - 1, h);
      ColumnCellsCardinality(w - 1, h);
      GridCellsSplit(w, h);
      var left, last := GridCells(w - 1, h), ColumnCells(w - 1, h);
      assert left !! last by {
        forall c | c in last ensures c !in left {
          assert c.0 == w - 1;
        }
      }
      assert |left + last| == |left| + |last|;
      assert (w - 1) * h + h == w * h;
    }
  }

  /** The cells of a `w`-column grid are those of the first `w - 1`
      columns plus the last column. */
  lemma GridCellsSplit(w: nat, h: nat)
    requires w > 0
    ensures GridCells(w, h) == GridCells(w - 1, h) + ColumnCells(w - 1, h)
  {
    forall c | c in GridCells(w, h)
      ensures c in GridCells(w - 1, h) + ColumnCells(w - 1, h)
    {
      if c.0 < w - 1 {
        assert c in GridCells(w - 1, h);
      } else {
        assert c in ColumnCells(w - 1, h);
      }
    }
    forall c | c in GridCells(w - 1, h) + ColumnCells(w - 1, h)
      ensures c in GridCells(w, h)
    {
      assert 0 <= c.0 < w && 0 <= c.1 < h;
    }
  }

  /** The corrected seeder yields no more cells than the grid holds. */
  lemma SeedFitsGrid(draws: seq<Draw>, g: Grid)
    requires g.Positive()
    ensures |Seed(draws, g)| <= g.width * g.height
  {
    var r := Seed(draws, g);
    assert r <= GridCells(g.width, g.height) by {
      forall c | c in r ensures c in GridCells(g.width, g.height) {
        assert InBounds(c, g);
      }
    }
    GridCellsCardinality(g.width, g.height);
    SubsetCardinality(r, GridCells(g.width, g.height));
  }

  /** `gen` as written yields no more cells than the grid holds, although
      its cells lie in the transposed height x width box. */
  lemma SeedAsWrittenFitsGrid(draws: seq<Draw>, g: Grid)
    requires g.Positive()
    ensures |SeedAsWritten(draws, g)| <= g.width * g.height
  {
    var r := SeedAsWritten(draws, g);
    assert r <= GridCells(g.height, g.width);
    GridCellsCardinality(g.height, g.width);
    SubsetCardinality(r, GridCells(g.height, g.width));
    assert g.height * g.width == g.width * g.height;
  }
}
