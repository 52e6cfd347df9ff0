/** The neighbour enumerator `get_neighbors` of main.py: the in-bounds
    cells around a position, listed column by column (dx = -1, 0, 1) and,
    inside a column, row by row (dy = -1, 0, 1). */
module Neighbours {
  import opened Geometry

  /** The offsets the nested loops of `get_neighbors` visit, in order, with
      (0, 0) skipped. */
  const Offsets: seq<(int, int)> :=
    [(-1, -1), (-1, 0), (-1, 1), (0, -1), (0, 1), (1, -1), (1, 0), (1, 1)]

  /** The cell at offset `d` from `p`. */
  function Shift(p: Cell, d: (int, int)): Cell {
    (p.0 + d.0, p.1 + d.1)
  }

  /** The offset that leads from `p` to `c`. */
  function OffsetOf(p: Cell, c: Cell): (int, int) {
    (c.0 - p.0, c.1 - p.1)
  }

  /** The cells at the offsets `offs` from `p` that lie in the grid, in
      the order of `offs`. Only these cells are bounds-checked, never `p`. */
  function NeighboursFrom(p: Cell, offs: seq<(int, int)>, g: Grid): (r: seq<Cell>)
    ensures |r| <= |offs|
    ensures forall c :: c in r <==> InBounds(c, g) && OffsetOf(p, c) in offs
    ensures Distinct(offs) ==> Distinct(r)
  {
    if offs == [] then []
    else
      var first := if InBounds(Shift(p, offs[0]), g) then [Shift(p, offs[0])] else [];
      var rest := NeighboursFrom(p, offs[1..], g);
      assert OffsetOf(p, Shift(p, offs[0])) == offs[0];
      assert forall c :: c in rest ==> OffsetOf(p, c) in offs[1..];
      first + rest
  }

  /** The list `get_neighbors` returns for `p`. */
  function GetNeighbors(p: Cell, g: Grid): (r: seq<Cell>)
    ensures forall c :: c in r <==> IsNeighbour(p, c, g)
    ensures Distinct(r)
    ensures |r| <= 8
  {
    OffsetsAreTheEightDirections();
    NeighboursFrom(p, Offsets, g)
  }

  /** `Offsets` lists each of the eight directions once. */
  lemma OffsetsAreTheEightDirections()
    ensures Distinct(Offsets)
    ensures forall p: Cell, c: Cell :: OffsetOf(p, c) in Offsets <==> Adjacent(p, c)
  {
  }

  /** When every offset leads into the grid, every offset gives a cell. */
  lemma {:induction false} AllInBounds(p: Cell, offs: seq<(int, int)>, g: Grid)
    requires forall k :: 0 <= k < |offs| ==> InBounds(Shift(p, offs[k]), g)
    ensures |NeighboursFrom(p, offs, g)| == |offs|
  {
    if offs != [] {
      AllInBounds(p, offs[1..], g);
    }
  }

  /** A cell whose eight surrounding cells all lie in the grid has
      exactly eight neighbours. */
  lemma InteriorHasEight(p: Cell, g: Grid)
    requires 1 <= p.0 < g.width - 1 && 1 <= p.1 < g.height - 1
    ensures |GetNeighbors(p, g)| == 8
  {
    AllInBounds(p, Offsets, g);
  }

  /** Adjacency seen from an in-bounds cell runs both ways: if `c` is a
      kept neighbour of `p` and `p` is in the grid, `p` is a kept
      neighbour of `c`. */
  lemma NeighbourSymmetric(p: Cell, c: Cell, g: Grid)
    requires InBounds(p, g) && c in GetNeighbors(p, g)
    ensures p in GetNeighbors(c, g)
  {
  }
}
