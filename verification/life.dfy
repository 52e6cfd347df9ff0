/** The generation step `adjust_grid` of main.py, over an arbitrary finite
    set of live cells (cells outside the grid included). */
module Life {
  import opened Geometry
  import opened Neighbours

  /** How many entries of `ns` are live: the source's
      `len(list(filter(lambda x: x in positions, neighbors)))`. */
  function CountLive(ns: seq<Cell>, live: set<Cell>): (r: nat)
    ensures r <= |ns|
  {
    if ns == [] then 0
    else (if ns[0] in live then 1 else 0) + CountLive(ns[1..], live)
  }

  /** On a list without repetitions, the count of live entries is the
      number of distinct live cells in it. */
  lemma {:induction false} CountLiveElements(ns: seq<Cell>, live: set<Cell>)
    requires Distinct(ns)
    ensures CountLive(ns, live) == |Elements(ns) * live|
  {
    if ns != [] {
      var t := ns[1..];
      DistinctTail(ns);
      CountLiveElements(t, live);
      if ns[0] in live {
        assert Elements(ns) * live == {ns[0]} + Elements(t) * live;
      } else {
        assert Elements(ns) * live == Elements(t) * live;
      }
    }
  }

  /** `len(neighbors)` after the filter in `adjust_grid`: how many listed
      neighbours of `c` are live. */
  function LiveNeighbours(c: Cell, live: set<Cell>, g: Grid): nat {
    CountLive(GetNeighbors(c, g), live)
  }

  /** The live cells around `c` that the grid keeps. */
  function LiveNeighbourSet(c: Cell, live: set<Cell>, g: Grid): set<Cell> {
    set n | n in live && IsNeighbour(c, n, g)
  }

  /** The number of live in-bounds cells adjacent to `c`. */
  function NeighbourCount(c: Cell, live: set<Cell>, g: Grid): nat {
    |LiveNeighbourSet(c, live, g)|
  }

  /** The count the source computes, by filtering the neighbour list,
      is the number of live in-bounds cells adjacent to `c`, and so at
      most eight. */
  lemma LiveNeighboursCount(c: Cell, live: set<Cell>, g: Grid)
    ensures LiveNeighbours(c, live, g) == NeighbourCount(c, live, g)
    ensures LiveNeighbours(c, live, g) <= 8
  {
    var ns := GetNeighbors(c, g);
    CountLiveElements(ns, live);
    assert Elements(ns) * live == LiveNeighbourSet(c, live, g);
  }

  /** The cells a birth can come from once the first loop has visited
      `done`: the in-bounds cells at one of the eight offsets from a
      visited cell. `CandidatesAreNeighbourLists` shows this is the union
      of their neighbour lists, the source's `all_neighbors`. */
  function Candidates(done: set<Cell>, g: Grid): set<Cell> {
    set p, d | p in done && d in Offsets && InBounds(Shift(p, d), g) :: Shift(p, d)
  }

  /** A cell is a candidate exactly when it appears in the neighbour list
      of a visited cell. */
  lemma CandidatesAreNeighbourLists(done: set<Cell>, g: Grid, c: Cell)
    ensures c in Candidates(done, g) <==> exists p :: p in done && c in GetNeighbors(p, g)
  {
    if p :| p in done && c in GetNeighbors(p, g) {
      OffsetsAreTheEightDirections();
      assert OffsetOf(p, c) in Offsets && Shift(p, OffsetOf(p, c)) == c;
    }
  }

  /** The cells of `from` that the survival test (2 or 3 live neighbours)
      adds to `new_positions`. */
  function Survivors(from: set<Cell>, live: set<Cell>, g: Grid): set<Cell> {
    set c | c in from && LiveNeighbours(c, live, g) in {2, 3}
  }

  /** The cells of `from` that the birth test (exactly 3 live neighbours)
      adds to `new_positions`. */
  function Births(from: set<Cell>, live: set<Cell>, g: Grid): set<Cell> {
    set c | c in from && LiveNeighbours(c, live, g) == 3
  }

  /** One generation, as `adjust_grid` builds it: the surviving live cells
      plus the cells born among the neighbours of live cells. */
  function Step(live: set<Cell>, g: Grid): set<Cell> {
    Survivors(live, live, g) + Births(Candidates(live, g), live, g)
  }

  /** The classic birth/survival rule, read cell by cell: a live cell with
      2 or 3 live neighbours survives, a dead cell in the grid with exactly
      3 is born. */
  predicate AliveNext(c: Cell, live: set<Cell>, g: Grid) {
    || (c in live && LiveNeighbours(c, live, g) in {2, 3})
    || (c !in live && InBounds(c, g) && LiveNeighbours(c, live, g) == 3)
  }

  /** The Game of Life rule on the bounded grid. A live cell stays live
      exactly when 2 or 3 of its in-bounds neighbours are live; a dead cell
      becomes live exactly when it lies in the grid and 3 of its
      neighbours are live. Every other cell is dead in the next
      generation, in particular every dead cell outside the grid. */
  lemma StepRule(live: set<Cell>, g: Grid, c: Cell)
    ensures c in Step(live, g) <==> AliveNext(c, live, g)
  {
    var n := LiveNeighbours(c, live, g);
    assert c in Survivors(live, live, g) <==> c in live && n in {2, 3};
    assert c in Births(Candidates(live, g), live, g) <==> c in Candidates(live, g) && n == 3;
    CandidateInBounds(live, g, c);
    if c !in live && InBounds(c, g) && n == 3 {
      BornIsCandidate(live, g, c);
    }
  }

  /** The same rule with the count taken over the live in-bounds cells
      adjacent to `c`. */
  lemma StepRuleByAdjacency(live: set<Cell>, g: Grid, c: Cell)
    ensures c in Step(live, g) <==>
      || (c in live && NeighbourCount(c, live, g) in {2, 3})
      || (c !in live && InBounds(c, g) && NeighbourCount(c, live, g) == 3)
  {
    StepRule(live, g, c);
    LiveNeighboursCount(c, live, g);
  }

  /** Every cell collected in `all_neighbors` lies in the grid. */
  lemma CandidateInBounds(live: set<Cell>, g: Grid, c: Cell)
    ensures c in Candidates(live, g) ==> InBounds(c, g)
  {
  }

  /** An in-bounds cell with a live neighbour is collected in
      `all_neighbors`, because it appears in that neighbour's list. */
  lemma BornIsCandidate(live: set<Cell>, g: Grid, c: Cell)
    requires InBounds(c, g) && LiveNeighbours(c, live, g) > 0
    ensures c in Candidates(live, g)
  {
    LiveNeighboursCount(c, live, g);
    var q :| q in LiveNeighbourSet(c, live, g);
    NeighbourSymmetric(c, q, g);
    CandidatesAreNeighbourLists(live, g, c);
  }

  /** A step never creates a cell outside the grid: every cell of the
      next generation is either in the grid or was already live. So a
      live set inside the grid stays inside the grid. */
  lemma StepWithinBounds(live: set<Cell>, g: Grid)
    ensures forall c :: c in Step(live, g) ==> c in live || InBounds(c, g)
    ensures (forall c :: c in live ==> InBounds(c, g)) ==>
      forall c :: c in Step(live, g) ==> InBounds(c, g)
  {
  }

  /** `adjust_grid`: the survival loop, then the birth loop over the
      collected neighbours. The input set is only read; a fresh set is
      returned, so the result depends on nothing but `positions` and the
      grid. */
  method AdjustGrid(positions: set<Cell>, g: Grid) returns (newPositions: set<Cell>)
    ensures newPositions == Step(positions, g)
  {
    var allNeighbors, survivors := SurvivalLoop(positions, g);
    newPositions := BirthLoop(allNeighbors, survivors, positions, g);
  }

  /** The first loop of `adjust_grid`, over the live cells in an arbitrary
      order: it collects every neighbour list into `allNeighbors` and keeps
      the cells with 2 or 3 live neighbours. */
  method SurvivalLoop(positions: set<Cell>, g: Grid)
    returns (allNeighbors: set<Cell>, newPositions: set<Cell>)
    ensures allNeighbors == Candidates(positions, g)
    ensures newPositions == Survivors(positions, positions, g)
  {
    allNeighbors := {};
    newPositions := {};
    var todo := positions;
    ghost var done: set<Cell> := {};
    while todo != {}
      invariant done + todo == positions && done !! todo
      invariant allNeighbors == Candidates(done, g)
      invariant newPositions == Survivors(done, positions, g)
      decreases todo
    {
      var position :| position in todo;
      var neighbors := GetNeighbors(position, g);
      CandidatesAdd(done, position, g);
      allNeighbors := allNeighbors + Elements(neighbors);
      var liveCount := CountLive(neighbors, positions);
      SurvivorsAdd(done, position, positions, g);
      if liveCount == 2 || liveCount == 3 {
        newPositions := newPositions + {position};
      }
      todo := todo - {position};
      done := done + {position};
    }
  }

  /** The second loop of `adjust_grid`, over the collected neighbours in an
      arbitrary order: it adds the cells with exactly 3 live neighbours. */
  method BirthLoop(allNeighbors: set<Cell>, survivors: set<Cell>, positions: set<Cell>, g: Grid)
    returns (newPositions: set<Cell>)
    ensures newPositions == survivors + Births(allNeighbors, positions, g)
  {
    newPositions := survivors;
    var rest := allNeighbors;
    ghost var visited: set<Cell> := {};
    while rest != {}
      invariant visited + rest == allNeighbors
      invariant newPositions == survivors + Births(visited, positions, g)
      decreases rest
    {
      var position :| position in rest;
      var liveCount := CountLive(GetNeighbors(position, g), positions);
      BirthsAdd(visited, position, positions, g);
      if liveCount == 3 {
        newPositions := newPositions + {position};
      }
      rest := rest - {position};
      visited := visited + {position};
    }
  }

  /** Testing one more cell for survival adds it exactly when it has 2 or 3
      live neighbours. */
  lemma SurvivorsAdd(done: set<Cell>, p: Cell, live: set<Cell>, g: Grid)
    ensures Survivors(done + {p}, live, g) ==
      Survivors(done, live, g) + (if LiveNeighbours(p, live, g) in {2, 3} then {p} else {})
  {
  }

  /** Testing one more candidate for birth adds it exactly when it has 3
      live neighbours. */
  lemma BirthsAdd(done: set<Cell>, p: Cell, live: set<Cell>, g: Grid)
    ensures Births(done + {p}, live, g) ==
      Births(done, live, g) + (if LiveNeighbours(p, live, g) == 3 then {p} else {})
  {
  }

  /** Visiting one more cell adds its neighbour list to `all_neighbors`. */
  lemma CandidatesAdd(done: set<Cell>, p: Cell, g: Grid)
    ensures Candidates(done + {p}, g) == Candidates(done, g) + Elements(GetNeighbors(p, g))
  {
    forall c ensures c in Candidates(done + {p}, g) <==>
      c in Candidates(done, g) || c in GetNeighbors(p, g)
    {
      CandidatesAreNeighbourLists(done + {p}, g, c);
      CandidatesAreNeighbourLists(done, g, c);
    }
  }
}
