/**
 * The animation that replays the accepted edges: a counter advanced once per frame,
 * the four keys, and what each frame shows. The player state is a value (Player) with
 * pure step functions; the class KruskalsAnimation holds the fields of the program and
 * its methods are proved to move that state exactly as the step functions say.
 */
module Animation {
  import opened UnionFind
  import opened Graph
  import opened Kruskal

  datatype Option<T> = None | Some(value: T)

  /** The keys the scene listens to; every other key does nothing. */
  datatype Key = Space | N | Q | E | Other

  /** The playback state: size edges to draw, cursor of them fully drawn, edgeFrames frames
      spent on the current one, frames frames per edge. */
  datatype Player = Player(size: nat, cursor: nat, edgeFrames: nat, frames: int, paused: bool)

  /** What draw keeps true: the cursor stays within the list, and a partly drawn edge has
      spent fewer frames than an edge takes. */
  predicate Inv(p: Player) {
    p.cursor <= p.size && (p.edgeFrames == 0 || p.edgeFrames < p.frames)
  }

  /** The counter update at the head of draw. */
  function Tick(p: Player): Player {
    if !p.paused && p.cursor < p.size then
      if p.edgeFrames + 1 >= p.frames then p.(edgeFrames := 0, cursor := p.cursor + 1)
      else p.(edgeFrames := p.edgeFrames + 1)
    else p
  }

  /** k calls of draw in a row. */
  function Ticks(p: Player, k: nat): Player
    decreases k
  {
    if k == 0 then p else Ticks(Tick(p), k - 1)
  }

  /** The key handler, except the rerun of N (which KruskalsAnimation.KeyPressed does). */
  function Press(p: Player, k: Key): Player {
    match k
    case Space => p.(paused := !p.paused)
    case Q => p.(edgeFrames := 0, cursor := 0)
    case E => p.(cursor := p.size, edgeFrames := 0)
    case _ => p
  }

  /** The frames one edge takes to draw: a frame count below 1 finishes an edge on
      every frame. */
  function Period(p: Player): nat {
    if p.frames >= 1 then p.frames else 1
  }

  /** The edge being drawn, as far as it has grown: elapsed of frames. */
  datatype Partial = Partial(edge: Edge, elapsed: nat, frames: int)

  /** One frame: the fully drawn edges in list order, the growing edge if any, and the
      vertices painted red (the two ends of the growing edge). */
  datatype Frame = Frame(drawn: seq<Edge>, growing: Option<Partial>, highlighted: set<nat>)

  function Snapshot(list: seq<Edge>, p: Player): Frame
    requires p.cursor <= |list|
  {
    if p.cursor < |list| then
      var e := list[p.cursor];
      Frame(list[..p.cursor], Some(Partial(e, p.edgeFrames, p.frames)), {e.u, e.v})
    else Frame(list, None, {})
  }

  // ---------------------------------------------------------------------------
  // Properties of the playback

  /** A frame keeps the invariant, changes nothing but the counter, and moves the cursor
      on by one exactly when the current edge has had its frames. */
  lemma TickInv(p: Player)
    requires Inv(p)
    ensures Inv(Tick(p))
    ensures Tick(p).size == p.size && Tick(p).frames == p.frames && Tick(p).paused == p.paused
    ensures Tick(p).cursor == p.cursor || Tick(p).cursor == p.cursor + 1
    ensures Tick(p).cursor == p.cursor + 1 <==>
      !p.paused && p.cursor < p.size && p.edgeFrames + 1 >= p.frames
  {
  }

  /** Every key keeps the invariant and the list size. */
  lemma PressInv(p: Player, k: Key)
    requires Inv(p)
    ensures Inv(Press(p, k)) && Press(p, k).size == p.size && Press(p, k).frames == p.frames
  {
  }

  /** Paused, or with every edge drawn, frames change nothing. */
  lemma {:induction false} TicksIdle(p: Player, k: nat)
    requires p.paused || p.cursor == p.size
    ensures Ticks(p, k) == p
  {
    if k > 0 {
      TicksIdle(Tick(p), k - 1);
    }
  }

  lemma {:induction false} TicksAdd(p: Player, a: nat, b: nat)
    ensures Ticks(p, a + b) == Ticks(Ticks(p, a), b)
    decreases a
  {
    if a > 0 {
      TicksAdd(Tick(p), a - 1, b);
    }
  }

  /** Within one edge: j frames after the edge starts, j frames have been spent on it. */
  lemma {:induction false} TicksWithinEdge(p: Player, j: nat)
    requires Inv(p) && !p.paused && p.cursor < p.size && p.edgeFrames == 0 && j < Period(p)
    ensures Ticks(p, j) == p.(edgeFrames := j)
  {
    if j > 0 {
      TicksWithinEdge(p, j - 1);
      TicksAdd(p, j - 1, 1);
    }
  }

  /** An edge takes exactly Period frames: after them the cursor has moved on by one and
      the next edge starts from nothing. */
  lemma TicksOneEdge(p: Player)
    requires Inv(p) && !p.paused && p.cursor < p.size && p.edgeFrames == 0
    ensures Ticks(p, Period(p)) == p.(cursor := p.cursor + 1)
    ensures forall j :: 0 <= j < Period(p) ==> Ticks(p, j).cursor == p.cursor
  {
    var last := Period(p) - 1;
    TicksWithinEdge(p, last);
    TicksAdd(p, last, 1);
    forall j | 0 <= j < Period(p) ensures Ticks(p, j).cursor == p.cursor {
      TicksWithinEdge(p, j);
    }
  }

  /** Unpaused from the start of an edge, m edges' worth of frames draws m more edges,
      and the animation stops at the end of the list. */
  lemma {:induction false} TicksEdges(p: Player, m: nat)
    requires Inv(p) && !p.paused && p.edgeFrames == 0
    ensures Ticks(p, m * Period(p)) == p.(cursor := if p.cursor + m <= p.size then p.cursor + m else p.size)
  {
    if m > 0 {
      var q := Ticks(p, (m - 1) * Period(p));
      TicksEdges(p, m - 1);
      TicksAdd(p, (m - 1) * Period(p), Period(p));
      assert m * Period(p) == (m - 1) * Period(p) + Period(p);
      if q.cursor < q.size {
        TicksOneEdge(q);
      } else {
        TicksIdle(q, Period(p));
      }
    }
  }

  /** Unpaused from the start of an edge, the last edge is still unfinished until all
      remaining edges have had their frames. */
  lemma {:induction false} TicksBelow(p: Player, k: nat)
    requires Inv(p) && !p.paused && p.edgeFrames == 0 && p.cursor < p.size
    requires k < (p.size - p.cursor) * Period(p)
    ensures Ticks(p, k).cursor < p.size
    decreases k
  {
    var P := Period(p);
    TicksOneEdge(p);
    if k >= P {
      var q := p.(cursor := p.cursor + 1);
      TicksAdd(p, P, k - P);
      assert (p.size - p.cursor) * P == (p.size - q.cursor) * P + P;
      TicksBelow(q, k - P);
    }
  }

  /** A fresh run shows the whole tree after size * Period frames, and not before. */
  lemma WholeRun(p: Player, k: nat)
    requires p.cursor == 0 && p.edgeFrames == 0 && !p.paused
    ensures Ticks(p, p.size * Period(p)).cursor == p.size
    ensures k < p.size * Period(p) ==> Ticks(p, k).cursor < p.size
  {
    TicksEdges(p, p.size);
    if k < p.size * Period(p) {
      TicksBelow(p, k);
    }
  }

  /** The growing edge is the next one of the list, the fraction drawn is below one whole
      edge, and only its ends are highlighted; with the cursor at the end nothing grows. */
  lemma SnapshotSpec(list: seq<Edge>, p: Player)
    requires Inv(p) && p.size == |list|
    ensures |Snapshot(list, p).drawn| == p.cursor
    ensures forall i :: 0 <= i < p.cursor ==> Snapshot(list, p).drawn[i] == list[i]
    ensures Snapshot(list, p).growing.Some? <==> p.cursor < |list|
    ensures Snapshot(list, p).growing.Some? ==>
      var g := Snapshot(list, p).growing.value;
      g.edge == list[p.cursor] && 0 <= g.elapsed && (p.frames >= 1 ==> g.elapsed < g.frames) &&
      Snapshot(list, p).highlighted == {g.edge.u, g.edge.v}
    ensures Snapshot(list, p).growing.None? ==> Snapshot(list, p).highlighted == {}
  {
  }

  /** A frame never takes back a drawn edge. */
  lemma TickGrowsDrawing(list: seq<Edge>, p: Player)
    requires Inv(p) && p.size == |list|
    ensures Snapshot(list, p).drawn <= Snapshot(list, Tick(p)).drawn
  {
    TickInv(p);
  }

  /** E shows the whole tree at once; Q rewinds to the first edge with nothing drawn. */
  lemma KeysJump(list: seq<Edge>, p: Player)
    requires Inv(p) && p.size == |list|
    ensures Snapshot(list, Press(p, E)) == Frame(list, None, {})
    ensures Snapshot(list, Press(p, Q)).drawn == []
    ensures list != [] ==> Snapshot(list, Press(p, Q)).growing == Some(Partial(list[0], 0, p.frames))
  {
  }

  /** Space twice gives back the same state. */
  lemma SpaceTwice(p: Player)
    ensures Press(Press(p, Space), Space) == p
  {
  }

  // ---------------------------------------------------------------------------
  // The application object

  /** The vertices a count read as an int creates: a negative count makes no vertex and,
      because both loops over the vertices test i < numVertices, no edge. */
  function Count(n: int): nat {
    if n < 0 then 0 else n
  }

  /** The range of a Java int. */
  const IntMin: int := -0x8000_0000
  const IntMax: int := 0x7fff_ffff

  predicate IsInt(n: int) {
    IntMin <= n <= IntMax
  }

  /** numVertices - 1 in 32-bit arithmetic: the smallest int wraps round to the largest. */
  function Minus1(n: int): (r: int)
    requires IsInt(n)
    ensures IsInt(r) && (r < n <==> n != IntMin)
  {
    if n == IntMin then IntMax else n - 1
  }

  /** The first test of the scan loop, with nothing accepted yet, sends it to edges.get(0)
      on an empty edge list exactly for the smallest int: every other count below 2 fails
      the test, and every count from 2 up has edges. */
  lemma FirstGetFails(n: int, w: (nat, nat) -> int)
    requires IsInt(n)
    ensures (0 < Minus1(n) && |SortByWeight(Pairs(Count(n), w))| == 0) <==> n == IntMin
  {
    SortedPairs(Count(n), w);
    if Count(n) >= 2 {
      assert Count(n) * (Count(n) - 1) >= 2 * 1;
    }
  }

  /** What a run leaves behind: the union-find tables hold n vertices, the edge list
      names only vertices below n, the scan stopped at k, and acc are the edges the greedy
      scan accepted from the first k. */
  ghost predicate Loaded(n: nat, edges: seq<Edge>, k: nat, acc: seq<Edge>, sets: Forest) {
    UnionFind.Valid(sets) && |sets.parent| == n &&
    Within(n, edges) && StopsAt(n, edges, k) && acc == Select(n, edges[..k]).accepted
  }

  /** One run of the algorithm (RunKruskal), packaged as the state a run leaves behind.
      It defines nothing new: it exists so that the class's methods see the single
      predicate Loaded rather than every quantified postcondition of RunKruskal, which
      keeps their proofs small for the solver. */
  method Load(n: nat, w: (nat, nat) -> int)
    returns (edges: seq<Edge>, accepted: seq<Edge>, stop: nat, tables: Forest)
    ensures Loaded(n, edges, stop, accepted, tables)
    ensures edges == SortByWeight(Pairs(n, w)) && |accepted| == if n == 0 then 0 else n - 1
  {
    edges, accepted, stop, tables := RunKruskal(n, w);
  }

  class KruskalsAnimation {
    var edges: seq<Edge>
    var edgesToDraw: seq<Edge>
    /** The parent and height tables as the last run left them. */
    var sets: Forest
    var currEdge: nat
    var currEdgeDraw: nat
    var edgeFrames: nat
    var frames: int
    var paused: bool
    var numVertices: nat
    /** Whether the vertices are placed at random (no file given); only then does N rerun. */
    var random: bool

    function State(): Player
      reads this
    {
      Player(|edgesToDraw|, currEdgeDraw, edgeFrames, frames, paused)
    }

    ghost predicate Valid()
      reads this
    {
      Loaded(numVertices, edges, currEdge, edgesToDraw, sets) && Inv(State())
    }

    /** start: the vertex count and frames per edge as entered, then a first run. The
        smallest int, for which start fails, goes through Start instead. */
    constructor (n: int, frames: int, random: bool, w: (nat, nat) -> int)
      requires IsInt(n) && n != IntMin
      ensures Valid()
      ensures numVertices == Count(n) && this.frames == frames && this.random == random
      ensures edges == SortByWeight(Pairs(numVertices, w))
      ensures |edgesToDraw| == (if numVertices == 0 then 0 else numVertices - 1)
      ensures State() == Player(|edgesToDraw|, 0, 0, frames, false)
    {
      var m := Count(n);
      var sorted, accepted, stop, tables := Load(m, w);
      numVertices, edges, edgesToDraw, currEdge, sets := m, sorted, accepted, stop, tables;
      edgeFrames, currEdgeDraw, this.frames, paused, this.random := 0, 0, frames, false, random;
      new;
      assert Loaded(numVertices, edges, currEdge, edgesToDraw, sets);
    }

    /** start with any int the dialog can yield: for the smallest int the scan's test
        numVertices - 1 wraps round, and the first edges.get fails on the empty edge list,
        so no animation comes up (None); for every other count, the application above. */
    static method Start(n: int, frames: int, random: bool, w: (nat, nat) -> int)
      returns (app: Option<KruskalsAnimation>)
      requires IsInt(n)
      ensures app.None? <==> n == IntMin
      ensures app.Some? ==>
        fresh(app.value) && app.value.Valid() && app.value.numVertices == Count(n) &&
        app.value.frames == frames && app.value.random == random &&
        app.value.edges == SortByWeight(Pairs(Count(n), w)) &&
        |app.value.edgesToDraw| == (if Count(n) == 0 then 0 else Count(n) - 1) &&
        app.value.State() == Player(|app.value.edgesToDraw|, 0, 0, frames, false)
    {
      var edges := SortByWeight(Pairs(Count(n), w));
      FirstGetFails(n, w);
      if 0 < Minus1(n) && |edges| == 0 {
        app := None;
      } else {
        var a := new KruskalsAnimation(n, frames, random, w);
        app := Some(a);
      }
    }

    /** runKruskals: resets the playback, builds and sorts the complete graph on
        numVertices vertices with the weights w, and runs the greedy scan on fresh
        union-find tables. */
    method RunKruskals(w: (nat, nat) -> int)
      modifies this`edges, this`edgesToDraw, this`currEdge, this`sets
      modifies this`edgeFrames, this`currEdgeDraw, this`paused
      ensures Valid()
      ensures edges == SortByWeight(Pairs(numVertices, w))
      ensures State() == Player(|edgesToDraw|, 0, 0, frames, false)
    {
      var sorted, accepted, stop, tables := Load(numVertices, w);
      edges, edgesToDraw, currEdge, sets := sorted, accepted, stop, tables;
      edgeFrames, currEdgeDraw, paused := 0, 0, false;
    }

    /** draw: one frame of the timeline. */
    method Draw() returns (frame: Frame)
      requires Valid()
      modifies this`edgeFrames, this`currEdgeDraw
      ensures Valid()
      ensures State() == Tick(old(State()))
      ensures frame == Snapshot(edgesToDraw, State())
    {
      if !paused && currEdgeDraw < |edgesToDraw| {
        edgeFrames := edgeFrames + 1;
        if edgeFrames >= frames {
          edgeFrames := 0;
          currEdgeDraw := currEdgeDraw + 1;
        }
      }
      var drawn := [];
      for i := 0 to currEdgeDraw
        invariant drawn == edgesToDraw[..i]
      {
        drawn := drawn + [edgesToDraw[i]];
      }
      if currEdgeDraw < |edgesToDraw| {
        var line := edgesToDraw[currEdgeDraw];
        frame := Frame(drawn, Some(Partial(line, edgeFrames, frames)), {line.u, line.v});
      } else {
        assert drawn == edgesToDraw;
        frame := Frame(drawn, None, {});
      }
    }

    /** The key handler: N reruns the algorithm with the new weights w when the vertices
        are random; every other key moves the playback state as Press says. */
    method KeyPressed(k: Key, w: (nat, nat) -> int)
      requires Valid()
      modifies this`edges, this`edgesToDraw, this`currEdge, this`sets
      modifies this`edgeFrames, this`currEdgeDraw, this`paused
      ensures Valid()
      ensures k == N && random ==>
        edges == SortByWeight(Pairs(numVertices, w)) &&
        State() == Player(|edgesToDraw|, 0, 0, frames, false)
      ensures !(k == N && random) ==>
        State() == Press(old(State()), k) && edges == old(edges) &&
        edgesToDraw == old(edgesToDraw) && currEdge == old(currEdge) && sets == old(sets)
    {
      match k
      case Space =>
        paused := !paused;
      case N =>
        if random {
          RunKruskals(w);
        }
      case Q =>
        edgeFrames := 0;
        currEdgeDraw := 0;
      case E =>
        currEdgeDraw := |edgesToDraw|;
        edgeFrames := 0;
      case Other =>
    }
  }
}
