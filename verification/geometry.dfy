/** Grid geometry shared by every part of the model: cell coordinates,
    the bounded (non-wrapping) grid and the adjacency relation. */
module Geometry {

  /** A tile, addressed as (column, row). Coordinates are unbounded
      integers: a live set may hold cells outside the grid. */
  type Cell = (int, int)

  /** The logical grid: `width` columns by `height` rows. The program
      uses 1200 / 20 = 60 columns and 800 / 20 = 40 rows. */
  datatype Grid = Grid(width: int, height: int)
  {
    /** Both dimensions are positive, as they are for any real window. */
    predicate Positive() {
      width > 0 && height > 0
    }
  }

  /** The grid the program runs on. */
  const ScreenGrid: Grid := Grid(1200 / 20, 800 / 20)

  /** `c` lies in [0, width) x [0, height). */
  predicate InBounds(c: Cell, g: Grid) {
    0 <= c.0 < g.width && 0 <= c.1 < g.height
  }

  /** `c` is one of the eight cells around `p` (never `p` itself). */
  predicate Adjacent(p: Cell, c: Cell) {
    c != p && -1 <= c.0 - p.0 <= 1 && -1 <= c.1 - p.1 <= 1
  }

  /** `c` is a neighbour of `p` that the grid keeps: adjacent and in bounds.
      Only the neighbour is bounds-checked, never `p`. */
  predicate IsNeighbour(p: Cell, c: Cell, g: Grid) {
    Adjacent(p, c) && InBounds(c, g)
  }

  /** No element of `s` occurs twice. */
  predicate Distinct(s: seq<Cell>) {
    forall i, j :: 0 <= i < j < |s| ==> s[i] != s[j]
  }

  /** The set of elements of a sequence. */
  function Elements(s: seq<Cell>): set<Cell> {
    set x | x in s
  }

  /** Taking the head off a sequence without repetitions: the tail has none
      either and does not contain the head. */
  lemma DistinctTail(s: seq<Cell>)
    requires Distinct(s) && s != []
    ensures Distinct(s[1..])
    ensures s[0] !in Elements(s[1..])
    ensures Elements(s) == {s[0]} + Elements(s[1..])
  {
    var t := s[1..];
    forall i | 0 <= i < |t| ensures t[i] != s[0] {
      assert t[i] == s[i + 1];
    }
    assert s == [s[0]] + t;
  }

  /** A subset is no larger than its superset. */
  lemma {:induction false} SubsetCardinality(a: set<Cell>, b: set<Cell>)
    requires a <= b
    ensures |a| <= |b|
    decreases |b|
  {
    if a != {} {
      var x :| x in a;
      SubsetCardinality(a - {x}, b - {x});
    }
  }
}
