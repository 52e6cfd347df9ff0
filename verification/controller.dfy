/** The state transitions of the event loop in `main` of main.py, lifted
    into pure functions: the per-frame tick, the commands that clicks and
    keys produce, and the dispatch of a click by pixel position. */
module Controller {
  import opened Geometry
  import opened Life
  import opened Seeding

  /** Frames between two generations (`update_freq`). */
  const UpdateFreq: nat := 60

  /** Pixels per tile side (`TILE_SIZE`). */
  const TileSize: nat := 20

  /** The loop's state: `playing`, the frame counter `count`, the frame
      counter `gen_count` the displayed generation is derived from, and the
      live cells `positions`. */
  datatype State = State(playing: bool, count: int, genCount: int, positions: set<Cell>)

  /** The state before the first frame, and after a clear. */
  const Start: State := State(false, 0, 0, {})

  /** The invariant the loop keeps: `count` is the frames played since the
      last generation step, so it is `gen_count` modulo 60. */
  predicate Valid(s: State) {
    0 <= s.genCount && s.count == s.genCount % UpdateFreq
  }

  /** The generation number shown in the window title. */
  function Generation(s: State): int {
    s.genCount / UpdateFreq
  }

  /** The start of every frame: while playing both counters advance, and
      once `count` reaches 60 it is reset and one generation is computed.
      The reset test does not look at `playing`. */
  function Tick(s: State, g: Grid): (t: State)
    ensures t.playing == s.playing
    ensures t.count < UpdateFreq
    ensures 0 <= s.count ==> 0 <= t.count
  {
    var s1 := if s.playing then s.(count := s.count + 1, genCount := s.genCount + 1) else s;
    if s1.count >= UpdateFreq then s1.(count := 0, positions := Step(s1.positions, g)) else s1
  }

  /** A tick while paused changes nothing. */
  lemma TickPaused(s: State, g: Grid)
    requires Valid(s) && !s.playing
    ensures Tick(s, g) == s
  {
  }

  /** A tick while playing advances `gen_count` by one and keeps the
      invariant; the displayed generation goes up by one exactly when the
      tick computes a new generation, and otherwise the cells stay as they
      are. */
  lemma TickPlaying(s: State, g: Grid)
    requires Valid(s) && s.playing
    ensures Valid(Tick(s, g))
    ensures Tick(s, g).genCount == s.genCount + 1
    ensures Generation(Tick(s, g)) == Generation(s) + 1 ==>
      Tick(s, g).count == 0 && Tick(s, g).positions == Step(s.positions, g)
    ensures Generation(Tick(s, g)) != Generation(s) + 1 ==>
      Generation(Tick(s, g)) == Generation(s) &&
      Tick(s, g).count == s.count + 1 && Tick(s, g).positions == s.positions
  {
    Successor(s.genCount);
  }

  /** How `n % 60` and `n / 60` move when `n` goes up by one. */
  lemma Successor(n: nat)
    ensures n % UpdateFreq + 1 == UpdateFreq ==>
      (n + 1) % UpdateFreq == 0 && (n + 1) / UpdateFreq == n / UpdateFreq + 1
    ensures n % UpdateFreq + 1 < UpdateFreq ==>
      (n + 1) % UpdateFreq == n % UpdateFreq + 1 && (n + 1) / UpdateFreq == n / UpdateFreq
  {
    var k, r := n / UpdateFreq, n % UpdateFreq;
    assert n == k * UpdateFreq + r;
    if r + 1 == UpdateFreq {
      assert n + 1 == (k + 1) * UpdateFreq;
    } else {
      assert n + 1 == k * UpdateFreq + (r + 1);
    }
  }

  /** Every tick keeps the invariant, playing or not. */
  lemma TickKeepsValid(s: State, g: Grid)
    requires Valid(s)
    ensures Valid(Tick(s, g))
  {
    if s.playing {
      TickPlaying(s, g);
    }
  }

  /** The commands a frame's events can give. */
  datatype Command =
    | Play
    | Pause
    | Clear
    | Toggle(cell: Cell)
    | TogglePlaying
    | Reseed(draws: seq<Draw>)

  /** Adds `c` when it is dead and removes it when it is live. */
  function ToggleCell(live: set<Cell>, c: Cell): (r: set<Cell>)
    ensures c in r <==> c !in live
    ensures forall d :: d != c ==> (d in r <==> d in live)
  {
    if c in live then live - {c} else live + {c}
  }

  /** Toggling the same cell twice restores the set. */
  lemma ToggleTwice(live: set<Cell>, c: Cell)
    ensures ToggleCell(ToggleCell(live, c), c) == live
  {
  }

  /** The effect of one command. Only clearing touches the counters, and it
      resets everything whatever the state was; toggling a cell works
      whether or not the game is playing. Reseeding calls `gen` as written,
      so its columns stay below the height and its rows below the width,
      and cells may fall outside the grid. */
  function Apply(s: State, cmd: Command, g: Grid): (t: State)
    requires cmd.Reseed? ==> g.Positive()
    ensures cmd == Clear ==> t == Start
    ensures cmd != Clear ==> t.count == s.count && t.genCount == s.genCount
    ensures cmd == Play ==> t.playing && t.positions == s.positions
    ensures cmd == Pause ==> !t.playing && t.positions == s.positions
    ensures cmd == TogglePlaying ==> t.playing == !s.playing && t.positions == s.positions
    ensures cmd.Toggle? ==> t.playing == s.playing
    ensures cmd.Toggle? ==> (cmd.cell in t.positions <==> cmd.cell !in s.positions)
    ensures cmd.Toggle? ==> forall d :: d != cmd.cell ==> (d in t.positions <==> d in s.positions)
    ensures cmd.Reseed? ==> t.playing == s.playing
    ensures cmd.Reseed? ==>
      forall c :: c in t.positions ==> 0 <= c.0 < g.height && 0 <= c.1 < g.width
    ensures Valid(s) ==> Valid(t)
  {
    match cmd
    case Play => s.(playing := true)
    case Pause => s.(playing := false)
    case Clear => Start
    case Toggle(c) => s.(positions := ToggleCell(s.positions, c))
    case TogglePlaying => s.(playing := !s.playing)
    case Reseed(draws) => s.(positions := SeedAsWritten(draws, g))
  }

  /** An axis-aligned button, hit by the pixels of the half-open box
      [left, left + width) x [top, top + height). */
  datatype Rect = Rect(left: int, top: int, width: int, height: int)
  {
    predicate Contains(x: int, y: int) {
      left <= x < left + width && top <= y < top + height
    }
  }

  const PlayButton: Rect := Rect(10, 10, 80, 40)
  const PauseButton: Rect := Rect(130, 10, 80, 40)
  const ClearButton: Rect := Rect(240, 10, 80, 40)

  /** The tile under a pixel, by floor division. */
  function PixelCell(x: int, y: int): (c: Cell)
    ensures c.0 * TileSize <= x < c.0 * TileSize + TileSize
    ensures c.1 * TileSize <= y < c.1 * TileSize + TileSize
  {
    (x / TileSize, y / TileSize)
  }

  /** The command of a click at (x, y): the buttons are tested in the
      order play, pause, clear, and a click on none of them toggles the
      tile under the pointer. The buttons do not overlap, so each button
      command is given exactly for the clicks inside that button. */
  function ClickCommand(x: int, y: int): (cmd: Command)
    ensures cmd == Play <==> PlayButton.Contains(x, y)
    ensures cmd == Pause <==> PauseButton.Contains(x, y)
    ensures cmd == Clear <==> ClearButton.Contains(x, y)
    ensures cmd.Toggle? <==>
      !PlayButton.Contains(x, y) && !PauseButton.Contains(x, y) && !ClearButton.Contains(x, y)
    ensures cmd.Toggle? ==>
      cmd.cell.0 * TileSize <= x < cmd.cell.0 * TileSize + TileSize &&
      cmd.cell.1 * TileSize <= y < cmd.cell.1 * TileSize + TileSize
  {
    if PlayButton.Contains(x, y) then Play
    else if PauseButton.Contains(x, y) then Pause
    else if ClearButton.Contains(x, y) then Clear
    else Toggle(PixelCell(x, y))
  }

  /** The keys the loop reacts to; `g` carries the draws of its reseed. */
  datatype Key = Space | KeyC | KeyG(draws: seq<Draw>) | OtherKey

  /** The input events of one frame. The program reads the pointer
      position when it handles a click; each `MouseDown` carries its own
      position, which covers that. */
  datatype Event = MouseDown(x: int, y: int) | KeyDown(key: Key) | OtherEvent

  /** The commands one event gives: a click gives one; space, `c` and `g`
      give theirs; anything else gives none. */
  function EventCommands(e: Event): seq<Command> {
    match e
    case MouseDown(x, y) => [ClickCommand(x, y)]
    case KeyDown(Space) => [TogglePlaying]
    case KeyDown(KeyC) => [Clear]
    case KeyDown(KeyG(draws)) => [Reseed(draws)]
    case KeyDown(OtherKey) => []
    case OtherEvent => []
  }

  /** The events of a frame, handled in order. */
  function HandleEvents(s: State, events: seq<Event>, g: Grid): State
    requires g.Positive()
    decreases |events|
  {
    if events == [] then s
    else
      var cmds := EventCommands(events[0]);
      var s1 := if cmds == [] then s else Apply(s, cmds[0], g);
      HandleEvents(s1, events[1..], g)
  }

  /** One iteration of the loop: the tick, then the frame's events. */
  function Frame(s: State, events: seq<Event>, g: Grid): State
    requires g.Positive()
  {
    HandleEvents(Tick(s, g), events, g)
  }

  /** Every frame keeps the invariant, so after any frame `count` lies in
      [0, 60). */
  lemma {:induction false} FrameKeepsValid(s: State, events: seq<Event>, g: Grid)
    requires g.Positive() && Valid(s)
    ensures Valid(Frame(s, events, g))
    ensures 0 <= Frame(s, events, g).count < UpdateFreq
  {
    TickKeepsValid(s, g);
    HandleEventsKeepValid(Tick(s, g), events, g);
  }

  /** Handling events keeps the invariant. */
  lemma {:induction false} HandleEventsKeepValid(s: State, events: seq<Event>, g: Grid)
    requires g.Positive() && Valid(s)
    ensures Valid(HandleEvents(s, events, g))
    decreases |events|
  {
    if events != [] {
      var cmds := EventCommands(events[0]);
      var s1 := if cmds == [] then s else Apply(s, cmds[0], g);
      HandleEventsKeepValid(s1, events[1..], g);
    }
  }

  /** Handling two batches of events one after the other is handling
      them as one batch: no state is carried between events except the
      loop's state. */
  lemma {:induction false} HandleEventsAppend(s: State, a: seq<Event>, b: seq<Event>, g: Grid)
    requires g.Positive()
    ensures HandleEvents(s, a + b, g) == HandleEvents(HandleEvents(s, a, g), b, g)
    decreases |a|
  {
    if a != [] {
      var cmds := EventCommands(a[0]);
      var s1 := if cmds == [] then s else Apply(s, cmds[0], g);
      assert (a + b)[0] == a[0];
      assert (a + b)[1..] == a[1..] + b;
      HandleEventsAppend(s1, a[1..], b, g);
    } else {
      assert a + b == b;
    }
  }

  /** The `c` key and a click on the clear button have the same effect:
      whatever the state, both give the initial state. */
  lemma ClearKeyIsClearClick(s: State, x: int, y: int, g: Grid)
    requires g.Positive() && ClearButton.Contains(x, y)
    ensures HandleEvents(s, [KeyDown(KeyC)], g) == Start
    ensures HandleEvents(s, [MouseDown(x, y)], g) == Start
  {
    assert ClickCommand(x, y) == Clear;
  }

  /** Pressing space twice restores the state. */
  lemma SpaceTwice(s: State, g: Grid)
    requires g.Positive()
    ensures HandleEvents(s, [KeyDown(Space), KeyDown(Space)], g) == s
  {
    var s1 := s.(playing := !s.playing);
    assert HandleEvents(s, [KeyDown(Space), KeyDown(Space)], g) == HandleEvents(s1, [KeyDown(Space)], g);
  }

  /** Events other than clicks and the three keys leave the state alone. */
  lemma {:induction false} IgnoredEvents(s: State, events: seq<Event>, g: Grid)
    requires g.Positive()
    requires forall i :: 0 <= i < |events| ==> events[i] == OtherEvent || events[i] == KeyDown(OtherKey)
    ensures HandleEvents(s, events, g) == s
    decreases |events|
  {
    if events != [] {
      IgnoredEvents(s, events[1..], g);
    }
  }

  /** The program starts in the invariant. */
  lemma StartIsValid()
    ensures Valid(Start) && Generation(Start) == 0 && !Start.playing && Start.positions == {}
  {
  }
}
