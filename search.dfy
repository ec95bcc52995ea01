/** The A* search of `algorithm` and the path tracing of
    `reconstruct_path`, over a grid whose neighbour lists were computed
    beforehand. The drawing callback is a no-op here. */
module Search {
  import opened Cells
  import opened Grids
  import opened Frontier
  import opened Seqs

  /** What one iteration of the search loop ends in. */
  datatype Status = InProgress | Succeeded | Failed

  /** The local variables of `algorithm`. A node missing from `gScore` or
      `fScore` has the score `float("inf")`. */
  datatype SearchState = SearchState(
    queue: seq<Entry>,       // set_of_open_nodes
    openHash: set<Pos>,      // set_of_open_nodes_hash
    gScore: map<Pos, nat>,
    fScore: map<Pos, nat>,
    previous: map<Pos, Pos>, // previous_node
    counter: nat)

  /** The state before the first iteration. The start is queued with
      priority 0, not with its f-score. */
  function Begin(start: Pos, end: Pos): SearchState {
    SearchState([Entry(0, 0, start)], {start}, map[start := 0],
                 map[start := Heuristic(start, end)], map[], 0)
  }

  /** What the driver guarantees before it calls `algorithm`. */
  ghost predicate Runnable(grid: Grid, start: Pos, end: Pos)
    reads grid.neighbors
  {
    grid.Valid() && grid.InBounds(start) && grid.InBounds(end) && grid.NeighboursWellFormed()
  }

  /** A walk along the stored neighbour lists. */
  ghost predicate IsWalk(grid: Grid, w: seq<Pos>)
    reads grid.neighbors
  {
    forall i :: 0 <= i < |w| - 1 ==> StepAt(grid, w, i)
  }

  /** The move from `w[i]` to `w[i + 1]` follows a neighbour list. */
  ghost predicate StepAt(grid: Grid, w: seq<Pos>, i: nat)
    requires i < |w| - 1
    reads grid.neighbors
  {
    w[i + 1] in grid.Nbrs(w[i])
  }

  /** The nodes in a queue. */
  function Nodes(queue: seq<Entry>): set<Pos> {
    set e | e in queue :: e.node
  }

  // ----- invariants of the search loop -----

  /** The start is scored 0 and has no predecessor; every other scored node
      has one. */
  ghost predicate Rooted(st: SearchState, start: Pos) {
    && start in st.gScore && st.gScore[start] == 0 && start !in st.previous
    && forall n :: n in st.gScore && n != start ==> n in st.previous
  }

  /** Only grid nodes are scored. */
  ghost predicate Inside(grid: Grid, st: SearchState) {
    forall n :: n in st.gScore ==> grid.InBounds(n)
  }

  /** Every predecessor has a strictly smaller g-score than its successor. */
  ghost predicate PredecessorsDecrease(previous: map<Pos, Pos>, gScore: map<Pos, nat>) {
    forall n {:trigger previous[n]} :: n in previous ==>
      n in gScore && previous[n] in gScore && gScore[previous[n]] < gScore[n]
  }

  /** `f = g + h` wherever a score is finite. */
  ghost predicate Estimates(st: SearchState, end: Pos) {
    && st.fScore.Keys == st.gScore.Keys
    && forall n :: n in st.fScore ==> st.fScore[n] == st.gScore[n] + Heuristic(n, end)
  }

  ghost predicate Scores(grid: Grid, st: SearchState, start: Pos, end: Pos) {
    Rooted(st, start) && Inside(grid, st) && PredecessorsDecrease(st.previous, st.gScore) && Estimates(st, end)
  }

  /** The hash holds exactly the queued nodes, each queued once. */
  ghost predicate Mirrored(st: SearchState) {
    && st.openHash == Nodes(st.queue)
    && forall i, j :: 0 <= i < j < |st.queue| ==> st.queue[i].node != st.queue[j].node
  }

  /** Counters grow along the queue and never pass the last one issued. */
  ghost predicate Counted(st: SearchState) {
    && (forall i, j :: 0 <= i < j < |st.queue| ==> st.queue[i].counter < st.queue[j].counter)
    && (forall i :: 0 <= i < |st.queue| ==> st.queue[i].counter <= st.counter)
  }

  /** Queued nodes are scored; the start sits at priority 0, and any other
      node at a priority never below its current f-score (the value it was
      queued with, which a later improvement does not update). */
  ghost predicate Priorities(st: SearchState, start: Pos) {
    forall i :: 0 <= i < |st.queue| ==>
      && st.queue[i].node in st.fScore
      && (if st.queue[i].node == start then st.queue[i].priority == 0
          else st.fScore[st.queue[i].node] <= st.queue[i].priority)
  }

  ghost predicate Queue(st: SearchState, start: Pos) {
    Mirrored(st) && Counted(st) && Priorities(st, start)
  }

  /** Each recorded predecessor has its successor among its neighbours. */
  ghost predicate Links(grid: Grid, st: SearchState)
    reads grid.neighbors
  {
    forall n {:trigger st.previous[n]} :: n in st.previous ==> n in grid.Nbrs(st.previous[n])
  }

  /** All neighbours of `n` are scored. */
  ghost predicate Expanded(grid: Grid, st: SearchState, n: Pos)
    reads grid.neighbors
  {
    forall m :: m in grid.Nbrs(n) ==> m in st.gScore
  }

  /** Every scored node is still queued or has all its neighbours scored. */
  ghost predicate Explored(grid: Grid, st: SearchState)
    reads grid.neighbors
  {
    forall n :: n in st.gScore ==> n in st.openHash || Expanded(grid, st, n)
  }

  ghost predicate Inv(grid: Grid, st: SearchState, start: Pos, end: Pos)
    reads grid.neighbors
  {
    && Scores(grid, st, start, end)
    && Queue(st, start)
    && Links(grid, st)
    && Explored(grid, st)
    && (end in st.gScore ==> end in st.openHash)
  }

  lemma BeginInv(grid: Grid, start: Pos, end: Pos)
    requires Runnable(grid, start, end)
    ensures Inv(grid, Begin(start, end), start, end)
  {
    assert Nodes(Begin(start, end).queue) == {start};
  }

  // ----- termination measure -----

  /** One pair per unit of g-score; it shrinks when a score drops. */
  ghost function Potential(gScore: map<Pos, nat>): set<(Pos, int)> {
    set n, v | n in gScore && 0 <= v < gScore[n] :: (n, v)
  }

  /** An iteration either scores a new node, or lowers a score, or leaves
      the scores alone and shortens the queue: the measure of the search
      loop, ordered lexicographically. */
  ghost predicate Progress(grid: Grid, st: SearchState, st': SearchState) {
    var unscored, unscored' := grid.AllCells() - st.gScore.Keys, grid.AllCells() - st'.gScore.Keys;
    var potential, potential' := Potential(st.gScore), Potential(st'.gScore);
    || unscored' < unscored
    || (unscored' == unscored && potential' < potential)
    || (unscored' == unscored && potential' == potential && |st'.queue| < |st.queue|)
  }

  lemma ProgressFrom(grid: Grid, st: SearchState, s: SearchState)
    requires forall n :: n in s.gScore ==> grid.InBounds(n)
    requires st.gScore.Keys <= s.gScore.Keys
    requires forall n :: n in st.gScore ==> s.gScore[n] <= st.gScore[n]
    requires s.gScore == st.gScore ==> |s.queue| < |st.queue|
    ensures Progress(grid, st, s)
  {
    if s.gScore.Keys != st.gScore.Keys {
      assert !(forall x :: x in s.gScore.Keys ==> x in st.gScore.Keys);
      var p :| p in s.gScore.Keys && p !in st.gScore.Keys;
      assert p == Pos(p.row, p.col) && p in grid.AllCells();
      assert p in grid.AllCells() - st.gScore.Keys;
      assert p !in grid.AllCells() - s.gScore.Keys;
    } else if s.gScore != st.gScore {
      assert !(forall n :: n in st.gScore ==> s.gScore[n] == st.gScore[n]);
      var p :| p in st.gScore && s.gScore[p] < st.gScore[p];
      assert (p, s.gScore[p]) in Potential(st.gScore);
      assert (p, s.gScore[p]) !in Potential(s.gScore);
    }
  }

  // ----- path tracing -----

  /** The route to `n` recorded in `previous`, start first: the route to
      its predecessor followed by `n`, or `n` alone when it has none. Scores
      fall strictly towards the front, so the recursion ends. */
  ghost function Route(previous: map<Pos, Pos>, gScore: map<Pos, nat>, n: Pos): (route: seq<Pos>)
    requires PredecessorsDecrease(previous, gScore) && n in gScore
    ensures |route| >= 1 && route[|route| - 1] == n && route[0] !in previous
    ensures forall i :: 0 <= i < |route| - 1 ==> LinkAt(previous, route, i)
    ensures forall i :: 0 <= i < |route| ==> route[i] in gScore
    ensures forall i :: 0 <= i < |route| - 1 ==> gScore[route[i]] < gScore[n]
    decreases gScore[n]
  {
    if n in previous then
      var front := Route(previous, gScore, previous[n]);
      SnocLinks(previous, front, n);
      front + [n]
    else [n]
  }

  /** `route[i]` is the recorded predecessor of `route[i + 1]`. */
  ghost predicate LinkAt(previous: map<Pos, Pos>, route: seq<Pos>, i: nat)
    requires i < |route| - 1
  {
    route[i + 1] in previous && previous[route[i + 1]] == route[i]
  }

  lemma SnocLinks(previous: map<Pos, Pos>, front: seq<Pos>, n: Pos)
    requires n in previous && front != [] && front[|front| - 1] == previous[n]
    requires forall i :: 0 <= i < |front| - 1 ==> LinkAt(previous, front, i)
    ensures forall i :: 0 <= i < |front + [n]| - 1 ==> LinkAt(previous, front + [n], i)
  {
    forall i | 0 <= i < |front + [n]| - 1
      ensures LinkAt(previous, front + [n], i)
    {
      if i < |front| - 1 {
        assert LinkAt(previous, front, i);
      }
    }
  }

  /** The recorded route to a scored node is a walk from the start to it
      along the neighbour lists, through grid nodes only, and every node
      before the last has a smaller score than the last. */
  lemma RouteWalk(grid: Grid, st: SearchState, start: Pos, n: Pos)
    requires Rooted(st, start) && PredecessorsDecrease(st.previous, st.gScore) && Links(grid, st)
    requires Inside(grid, st) && n in st.gScore
    ensures Route(st.previous, st.gScore, n)[0] == start
    ensures IsWalk(grid, Route(st.previous, st.gScore, n))
    ensures forall q :: q in Route(st.previous, st.gScore, n) ==> grid.InBounds(q)
  {
    var route := Route(st.previous, st.gScore, n);
    forall i | 0 <= i < |route| - 1
      ensures StepAt(grid, route, i)
    {
      assert LinkAt(st.previous, route, i);
      assert route[i + 1] in grid.Nbrs(st.previous[route[i + 1]]);
    }
  }

  /** `reconstruct_path`: walk back from `current` along `previous`, painting
      each predecessor (the start included) as path. */
  method ReconstructPath(grid: Grid, previous: map<Pos, Pos>, current: Pos, ghost gScore: map<Pos, nat>)
    requires grid.Valid() && PredecessorsDecrease(previous, gScore) && current in gScore
    requires forall n :: n in gScore ==> grid.InBounds(n)
    modifies grid.colors
    ensures var route := Route(previous, gScore, current);
      forall r, c :: 0 <= r < grid.rows && 0 <= c < grid.rows ==>
        grid.colors[r, c] == if Pos(r, c) in Trail(route, 0) then Path else old(grid.colors[r, c])
  {
    ghost var route := Route(previous, gScore, current);
    ghost var m: nat := |route| - 1;
    ghost var painted: set<Pos> := {};
    var node := current;
    while node in previous
      invariant m < |route| && node == route[m]
      invariant 0 < m ==> node in previous
      invariant painted == Trail(route, m)
      invariant forall r, c :: 0 <= r < grid.rows && 0 <= c < grid.rows ==>
        grid.colors[r, c] == if Pos(r, c) in painted then Path else old(grid.colors[r, c])
      decreases m
    {
      assert previous[node] == route[m - 1] by {
        assert LinkAt(previous, route, m - 1);
      }
      node := previous[node];
      m := m - 1;
      TrailStep(route, m);
      painted := painted + {node};
      grid.SetColor(node, Path);
      if 0 < m {
        assert node in previous by {
          assert LinkAt(previous, route, m - 1);
        }
      }
    }
  }

  /** The nodes `route[m]`, …, `route[|route| - 2]`: from index `m` on, those
      before the last node of `route`. */
  ghost function Trail(route: seq<Pos>, m: nat): set<Pos> {
    set i | m <= i < |route| - 1 :: route[i]
  }

  lemma TrailStep(route: seq<Pos>, m: nat)
    requires m + 1 < |route|
    ensures Trail(route, m) == Trail(route, m + 1) + {route[m]}
  {
  }

  // ----- relaxing the neighbours of the popped node -----

  /** `A-star-vis.py` lines 162-165: `current` becomes the predecessor of `neighbor`, whose
      scores are recomputed through it. */
  function Rescore(st: SearchState, end: Pos, current: Pos, neighbor: Pos): SearchState
    requires current in st.gScore
  {
    var tentative := st.gScore[current] + 1;
    st.(previous := st.previous[neighbor := current],
        gScore := st.gScore[neighbor := tentative],
        fScore := st.fScore[neighbor := tentative + Heuristic(neighbor, end)])
  }

  /** `A-star-vis.py` lines 166-169: queue `n` with its f-score and the next counter. */
  function Push(st: SearchState, n: Pos): SearchState
    requires n in st.fScore
  {
    var counter := st.counter + 1;
    st.(queue := st.queue + [Entry(st.fScore[n], counter, n)],
        openHash := st.openHash + {n},
        counter := counter)
  }

  /** `A-star-vis.py` lines 160-170 for one neighbour, as a change of the search state:
      lower its score through `current` when that is shorter, and queue it
      unless it is already queued. */
  function Relaxed(st: SearchState, end: Pos, current: Pos, neighbor: Pos): (r: SearchState)
    requires current in st.gScore
    ensures st.gScore.Keys <= r.gScore.Keys <= st.gScore.Keys + {neighbor}
    ensures neighbor in r.gScore && r.gScore[neighbor] <= st.gScore[current] + 1
    ensures forall n :: n in st.gScore ==> r.gScore[n] <= st.gScore[n]
    ensures r.gScore == st.gScore ==> r == st
    ensures st.openHash <= r.openHash <= st.openHash + {neighbor}
    ensures neighbor !in st.gScore ==> neighbor in r.openHash
    ensures neighbor in r.openHash - st.openHash ==> neighbor !in st.gScore || r.gScore[neighbor] < st.gScore[neighbor]
  {
    if neighbor !in st.gScore || st.gScore[current] + 1 < st.gScore[neighbor] then
      var s := Rescore(st, end, current, neighbor);
      if neighbor !in st.openHash then Push(s, neighbor) else s
    else st
  }

  /** The same lines with their drawing effect: a node queued here is
      painted open. */
  method Relax(grid: Grid, end: Pos, st: SearchState, current: Pos, neighbor: Pos)
    returns (st': SearchState)
    requires grid.Valid() && grid.InBounds(neighbor) && current in st.gScore
    modifies grid.colors
    ensures st' == Relaxed(st, end, current, neighbor)
    ensures forall r, c :: 0 <= r < grid.rows && 0 <= c < grid.rows ==>
      grid.colors[r, c] == if Pos(r, c) in st'.openHash - st.openHash then Open else old(grid.colors[r, c])
  {
    var tentative := st.gScore[current] + 1;
    if neighbor !in st.gScore || tentative < st.gScore[neighbor] {
      var s := Rescore(st, end, current, neighbor);
      if neighbor !in st.openHash {
        st' := Push(s, neighbor);
        grid.SetColor(neighbor, Open);
      } else {
        st' := s;
      }
    } else {
      st' := st;
    }
  }

  lemma RelaxedRooted(st: SearchState, start: Pos, end: Pos, current: Pos, neighbor: Pos)
    requires Rooted(st, start) && current in st.gScore
    ensures Rooted(Relaxed(st, end, current, neighbor), start)
  {
  }

  lemma RelaxedInside(grid: Grid, st: SearchState, end: Pos, current: Pos, neighbor: Pos)
    requires Inside(grid, st) && current in st.gScore && grid.InBounds(neighbor)
    ensures Inside(grid, Relaxed(st, end, current, neighbor))
  {
  }

  lemma RelaxedDecrease(st: SearchState, end: Pos, current: Pos, neighbor: Pos)
    requires PredecessorsDecrease(st.previous, st.gScore) && current in st.gScore && neighbor != current
    ensures var r := Relaxed(st, end, current, neighbor); PredecessorsDecrease(r.previous, r.gScore)
  {
    var r := Relaxed(st, end, current, neighbor);
    forall n | n in r.previous
      ensures n in r.gScore && r.previous[n] in r.gScore && r.gScore[r.previous[n]] < r.gScore[n]
    {
      if n != neighbor || r == st {
        assert st.previous[n] in st.gScore && st.gScore[st.previous[n]] < st.gScore[n];
      }
    }
  }

  lemma RelaxedEstimates(st: SearchState, end: Pos, current: Pos, neighbor: Pos)
    requires Estimates(st, end) && current in st.gScore
    ensures Estimates(Relaxed(st, end, current, neighbor), end)
  {
  }

  lemma RelaxedLinks(grid: Grid, st: SearchState, end: Pos, current: Pos, neighbor: Pos)
    requires Links(grid, st) && current in st.gScore && neighbor in grid.Nbrs(current)
    ensures Links(grid, Relaxed(st, end, current, neighbor))
  {
    var r := Relaxed(st, end, current, neighbor);
    forall n | n in r.previous
      ensures n in grid.Nbrs(r.previous[n])
    {
      if n != neighbor || r == st {
        assert n in grid.Nbrs(st.previous[n]);
      }
    }
  }

  lemma RelaxedMirrored(st: SearchState, end: Pos, current: Pos, neighbor: Pos)
    requires Mirrored(st) && current in st.gScore
    ensures Mirrored(Relaxed(st, end, current, neighbor))
  {
    var r := Relaxed(st, end, current, neighbor);
    if r.queue != st.queue {
      assert Nodes(r.queue) == Nodes(st.queue) + {neighbor};
    }
  }

  lemma RelaxedCounted(st: SearchState, end: Pos, current: Pos, neighbor: Pos)
    requires Counted(st) && current in st.gScore
    ensures Counted(Relaxed(st, end, current, neighbor))
  {
  }

  lemma RelaxedPriorities(st: SearchState, start: Pos, end: Pos, current: Pos, neighbor: Pos)
    requires Priorities(st, start) && Rooted(st, start) && Estimates(st, end) && current in st.gScore
    ensures Priorities(Relaxed(st, end, current, neighbor), start)
  {
    var r := Relaxed(st, end, current, neighbor);
    forall i | 0 <= i < |r.queue|
      ensures r.queue[i].node in r.fScore
      ensures if r.queue[i].node == start then r.queue[i].priority == 0
              else r.fScore[r.queue[i].node] <= r.queue[i].priority
    {
      if i < |st.queue| {
        assert r.queue[i] == st.queue[i];
      }
    }
  }

  /** `RelaxAll(st, end, current, ns)`: the `for` loop over the neighbour
      list `ns` of the popped node, one relaxation after another. */
  function RelaxAll(st: SearchState, end: Pos, current: Pos, ns: seq<Pos>): (r: SearchState)
    requires current in st.gScore
    ensures st.gScore.Keys <= r.gScore.Keys && st.openHash <= r.openHash
    decreases |ns|
  {
    if ns == [] then st
    else Relaxed(RelaxAll(st, end, current, ns[..|ns| - 1]), end, current, ns[|ns| - 1])
  }

  /** What the loop over the neighbours does to the scores and the queue:
      every neighbour ends up scored, no score rises, only neighbours are
      newly queued, every newly scored node is newly queued, and when no
      score changed nothing did. */
  lemma {:induction false} RelaxAllEffect(st: SearchState, end: Pos, current: Pos, ns: seq<Pos>)
    requires current in st.gScore && st.openHash <= st.gScore.Keys
    ensures var r := RelaxAll(st, end, current, ns);
      && r.openHash <= r.gScore.Keys
      && (forall x :: x in ns ==> x in r.gScore)
      && (forall n :: n in st.gScore ==> r.gScore[n] <= st.gScore[n])
      && (forall n :: n in r.openHash - st.openHash ==> n in ns)
      && r.gScore.Keys - st.gScore.Keys <= r.openHash - st.openHash
      && (forall n :: n in r.openHash - st.openHash ==> n !in st.gScore || r.gScore[n] < st.gScore[n])
      && (r.gScore == st.gScore ==> r == st)
    decreases |ns|
  {
    if ns != [] {
      var init := ns[..|ns| - 1];
      var mid := RelaxAll(st, end, current, init);
      RelaxAllEffect(st, end, current, init);
      var r := Relaxed(mid, end, current, ns[|ns| - 1]);
      assert r == RelaxAll(st, end, current, ns);
      var x := ns[|ns| - 1];
      forall y | y in ns ensures y in r.gScore {
        if y != x {
          assert y in init;
        }
      }
      forall n | n in r.openHash - st.openHash
        ensures n in ns && (n !in st.gScore || r.gScore[n] < st.gScore[n])
      {
        if n in mid.openHash {
          assert n in init;
        }
      }
      forall n | n in r.gScore.Keys - st.gScore.Keys ensures n in r.openHash - st.openHash {
        if n in mid.gScore {
          assert n in mid.openHash - st.openHash;
        } else {
          assert n == x && n !in st.openHash;
        }
      }
      if r.gScore == st.gScore {
        assert mid.gScore.Keys == st.gScore.Keys;
        forall n | n in st.gScore
          ensures mid.gScore[n] == st.gScore[n]
        {
          assert r.gScore[n] <= mid.gScore[n];
        }
        assert mid.gScore == st.gScore;
        assert mid == st;
      }
    }
  }

  /** The loop over the neighbours keeps the score, queue and link
      invariants. */
  lemma {:induction false} RelaxAllKeeps(grid: Grid, st: SearchState, start: Pos, end: Pos, current: Pos, ns: seq<Pos>)
    requires Scores(grid, st, start, end) && Queue(st, start) && Links(grid, st) && current in st.gScore
    requires forall x :: x in ns ==> x in grid.Nbrs(current) && grid.InBounds(x) && x != current
    ensures var r := RelaxAll(st, end, current, ns);
      Scores(grid, r, start, end) && Queue(r, start) && Links(grid, r)
    decreases |ns|
  {
    if ns != [] {
      var init := ns[..|ns| - 1];
      var x := ns[|ns| - 1];
      RelaxAllKeeps(grid, st, start, end, current, init);
      var mid := RelaxAll(st, end, current, init);
      RelaxedRooted(mid, start, end, current, x);
      RelaxedInside(grid, mid, end, current, x);
      RelaxedDecrease(mid, end, current, x);
      RelaxedEstimates(mid, end, current, x);
      RelaxedLinks(grid, mid, end, current, x);
      RelaxedMirrored(mid, end, current, x);
      RelaxedCounted(mid, end, current, x);
      RelaxedPriorities(mid, start, end, current, x);
    }
  }

  /** `A-star-vis.py` lines 159-170: relax every neighbour of `current` in list order,
      painting newly queued nodes open. */
  method Expand(grid: Grid, end: Pos, st: SearchState, current: Pos) returns (st': SearchState)
    requires grid.Valid() && grid.InBounds(current) && current in st.gScore
    requires forall x :: x in grid.Nbrs(current) ==> grid.InBounds(x)
    modifies grid.colors
    ensures st' == RelaxAll(st, end, current, grid.Nbrs(current))
    ensures forall r, c :: 0 <= r < grid.rows && 0 <= c < grid.rows ==>
      grid.colors[r, c] == if Pos(r, c) in st'.openHash - st.openHash then Open else old(grid.colors[r, c])
  {
    var ns := grid.neighbors[current.row, current.col];
    assert ns == grid.Nbrs(current);
    st' := st;
    for i := 0 to |ns|
      invariant st' == RelaxAll(st, end, current, ns[..i])
      invariant forall r, c :: 0 <= r < grid.rows && 0 <= c < grid.rows ==>
        grid.colors[r, c] == if Pos(r, c) in st'.openHash - st.openHash then Open else old(grid.colors[r, c])
    {
      assert ns[..i + 1][..i] == ns[..i];
      st' := Relax(grid, end, st', current, ns[i]);
    }
    assert ns[..|ns|] == ns;
  }

  /** After the expansion of `current` every scored node is queued or
      expanded, and a scored end node is queued. */
  lemma ExploredAfter(grid: Grid, st: SearchState, s: SearchState, end: Pos, current: Pos)
    requires Explored(grid, st) && (end in st.gScore ==> end in st.openHash) && current != end
    requires Expanded(grid, s, current)
    requires st.gScore.Keys <= s.gScore.Keys && st.openHash - {current} <= s.openHash
    requires s.gScore.Keys - st.gScore.Keys <= s.openHash
    ensures Explored(grid, s) && (end in s.gScore ==> end in s.openHash)
  {
    forall n | n in s.gScore
      ensures n in s.openHash || Expanded(grid, s, n)
    {
      if n in st.gScore && n !in st.openHash && n != current {
        assert Expanded(grid, st, n);
      }
    }
  }

  // ----- one iteration of the search loop -----

  /** `A-star-vis.py` lines 149-150: take entry `k` off the queue and its node out of the
      hash. */
  function Pop(st: SearchState, k: nat): SearchState
    requires k < |st.queue|
  {
    st.(queue := Without(st.queue, k), openHash := st.openHash - {st.queue[k].node})
  }

  lemma PopMirrored(st: SearchState, k: nat)
    requires Mirrored(st) && k < |st.queue|
    ensures Mirrored(Pop(st, k))
  {
    var q := st.queue;
    var rest := Pop(st, k).queue;
    forall x | x in Nodes(q) - {q[k].node}
      ensures x in Nodes(rest)
    {
      var i :| 0 <= i < |q| && q[i].node == x;
      if i < k {
        assert rest[i] == q[i];
      } else if i > k {
        assert rest[i - 1] == q[i];
      }
    }
    forall x | x in Nodes(rest)
      ensures x in Nodes(q) - {q[k].node}
    {
      var i :| 0 <= i < |rest| && rest[i].node == x;
      if i < k {
        assert rest[i] == q[i];
      } else {
        assert rest[i] == q[i + 1];
      }
    }
  }

  lemma PopCounted(st: SearchState, k: nat)
    requires Counted(st) && k < |st.queue|
    ensures Counted(Pop(st, k))
  {
  }

  lemma PopPriorities(st: SearchState, start: Pos, k: nat)
    requires Priorities(st, start) && k < |st.queue|
    ensures Priorities(Pop(st, k), start)
  {
  }

  /** The traced result of a successful search: `route` is a walk from
      the start to the end, the end is painted as the end and every node
      before it on the route as path. */
  ghost predicate Traced(grid: Grid, route: seq<Pos>, start: Pos, end: Pos)
    reads grid.neighbors, grid.colors
  {
    && grid.Valid()
    && |route| >= 1 && route[0] == start && route[|route| - 1] == end && IsWalk(grid, route)
    && (forall i :: 0 <= i < |route| ==> grid.InBounds(route[i]))
    && grid.Color(end) == End
    && (forall i :: 0 <= i < |route| - 1 ==> grid.Color(route[i]) == Path)
  }

  /** `A-star-vis.py` lines 152-155: the end node was popped; paint its predecessor chain
      and then the end node itself. */
  method Finish(grid: Grid, st: SearchState, start: Pos, end: Pos, ghost was: seq<seq<Category>>)
    requires Rooted(st, start) && PredecessorsDecrease(st.previous, st.gScore)
    requires Links(grid, st) && Inside(grid, st) && end in st.gScore && Shaded(grid, st, start, was)
    modifies grid.colors
    ensures Traced(grid, Route(st.previous, st.gScore, end), start, end)
    ensures forall r, c ::
      0 <= r < grid.rows && 0 <= c < grid.rows && Pos(r, c) !in Route(st.previous, st.gScore, end) ==>
        grid.colors[r, c] == Shade(st, start, Pos(r, c), was[r][c])
  {
    ghost var route := Route(st.previous, st.gScore, end);
    EndOnce(st.previous, st.gScore, end);
    ReconstructPath(grid, st.previous, end, st.gScore);
    forall r, c | 0 <= r < grid.rows && 0 <= c < grid.rows && Pos(r, c) !in route
      ensures grid.colors[r, c] == Shade(st, start, Pos(r, c), was[r][c])
    {
      OffRoute(route, Pos(r, c));
    }
    grid.SetColor(end, End);
    TracedRoute(grid, st, start, end);
  }

  lemma OffRoute(route: seq<Pos>, p: Pos)
    requires |route| >= 1 && p !in route
    ensures p != route[|route| - 1] && p !in Trail(route, 0)
  {
  }

  /** The end of a recorded route does not occur before its last place. */
  lemma EndOnce(previous: map<Pos, Pos>, gScore: map<Pos, nat>, n: Pos)
    requires PredecessorsDecrease(previous, gScore) && n in gScore
    ensures n !in Trail(Route(previous, gScore, n), 0)
  {
  }

  /** Once the end reads as the end and the nodes before it on its recorded
      route read as path, that route is traced. */
  lemma TracedRoute(grid: Grid, st: SearchState, start: Pos, end: Pos)
    requires grid.Valid() && Rooted(st, start) && PredecessorsDecrease(st.previous, st.gScore)
    requires Links(grid, st) && Inside(grid, st) && end in st.gScore
    requires grid.InBounds(end) && grid.Color(end) == End
    requires var route := Route(st.previous, st.gScore, end);
      forall r, c :: 0 <= r < grid.rows && 0 <= c < grid.rows && Pos(r, c) in Trail(route, 0) ==>
        grid.colors[r, c] == Path
    ensures Traced(grid, Route(st.previous, st.gScore, end), start, end)
  {
    var route := Route(st.previous, st.gScore, end);
    RouteWalk(grid, st, start, end);
    PathPainted(grid, route);
  }

  /** Every node of `route` before the last, being in the grid, reads as
      path. */
  lemma PathPainted(grid: Grid, route: seq<Pos>)
    requires grid.Valid() && |route| >= 1
    requires forall i :: 0 <= i < |route| ==> grid.InBounds(route[i])
    requires forall r, c :: 0 <= r < grid.rows && 0 <= c < grid.rows && Pos(r, c) in Trail(route, 0) ==>
      grid.colors[r, c] == Path
    ensures forall i :: 0 <= i < |route| - 1 ==> grid.Color(route[i]) == Path
  {
    forall i | 0 <= i < |route| - 1
      ensures grid.Color(route[i]) == Path
    {
      assert route[i] in Trail(route, 0);
      assert Pos(route[i].row, route[i].col) == route[i];
    }
  }

  /** One iteration of the `while` body: pop the least entry; stop with
      success at the end node; otherwise relax every neighbour and paint
      the popped node closed unless it is the start. */
  method Step(grid: Grid, start: Pos, end: Pos, st: SearchState, ghost was: seq<seq<Category>>)
    returns (st': SearchState, status: Status, ghost popped: Entry, ghost k: nat)
    requires Runnable(grid, start, end) && Inv(grid, st, start, end) && Shaded(grid, st, start, was)
    modifies grid.colors
    ensures status == Failed <==> st.queue == []
    ensures status == Failed ==> st' == st && unchanged(grid.colors)
    ensures status != Failed ==> k < |st.queue| && popped == st.queue[k] && popped.node in st.openHash
    ensures status != Failed ==> forall e :: e in st.queue ==> !EntryLess(e, popped)
    ensures status != Failed ==> forall e :: e in st.queue && e != popped && e.priority == popped.priority ==>
      popped.counter < e.counter
    ensures status == Succeeded <==> status != Failed && popped.node == end
    ensures status == Succeeded ==> end in st.gScore && Traced(grid, Route(st.previous, st.gScore, end), start, end)
    ensures status == Succeeded ==> forall r, c ::
      0 <= r < grid.rows && 0 <= c < grid.rows && Pos(r, c) !in Route(st.previous, st.gScore, end) ==>
        grid.colors[r, c] == Shade(st, start, Pos(r, c), was[r][c])
    ensures status == InProgress ==> popped.node in st.gScore && st' == Next(grid, st, end, k)
    ensures status == InProgress ==> Inv(grid, st', start, end) && Shaded(grid, st', start, was)
    ensures status == InProgress ==> Progress(grid, st, st')
    ensures status == InProgress ==> popped.node !in st'.openHash
    ensures status == InProgress ==> forall n :: n in st.gScore ==> n in st'.gScore && st'.gScore[n] <= st.gScore[n]
    ensures status == InProgress ==> forall r, c :: 0 <= r < grid.rows && 0 <= c < grid.rows ==>
      grid.colors[r, c] ==
        if Pos(r, c) == popped.node && popped.node != start then Closed
        else if Pos(r, c) in st'.openHash - st.openHash then Open
        else old(grid.colors[r, c])
  {
    if st.queue == [] {
      return st, Failed, Entry(0, 0, start), 0;
    }
    var entry, rest, i := PopMin(st.queue);
    k := i;
    popped := entry;
    var current := entry.node;
    assert current in Nodes(st.queue);
    FirstInFirstOut(st.queue, k);
    var s := st.(queue := rest, openHash := st.openHash - {current});
    assert s == Pop(st, k);
    if current == end {
      Finish(grid, st, start, end, was);
      return s, Succeeded, entry, k;
    }
    st' := Visit(grid, start, end, st, s, current, k, was);
    return st', InProgress, entry, k;
  }

  /** `A-star-vis.py` lines 159-175 for a popped node other than the end: relax its
      neighbours, then paint it closed unless it is the start. */
  method Visit(grid: Grid, start: Pos, end: Pos, st: SearchState, s: SearchState, current: Pos, ghost k: nat,
               ghost was: seq<seq<Category>>)
    returns (st': SearchState)
    requires Runnable(grid, start, end) && Inv(grid, st, start, end) && Shaded(grid, st, start, was)
    requires k < |st.queue| && current == st.queue[k].node && current != end && s == Pop(st, k)
    modifies grid.colors
    ensures current in st.gScore && st' == Next(grid, st, end, k)
    ensures Inv(grid, st', start, end) && Shaded(grid, st', start, was) && Progress(grid, st, st')
    ensures current !in st'.openHash
    ensures forall n :: n in st.gScore ==> n in st'.gScore && st'.gScore[n] <= st.gScore[n]
    ensures forall r, c :: 0 <= r < grid.rows && 0 <= c < grid.rows ==>
      grid.colors[r, c] ==
        if Pos(r, c) == current && current != start then Closed
        else if Pos(r, c) in st'.openHash - st.openHash then Open
        else old(grid.colors[r, c])
  {
    PoppedNode(grid, st, start, end, k);
    st' := Expand(grid, end, s, current);
    assert st' == Next(grid, st, end, k);
    ExpandKeeps(grid, st, start, end, k);
    NextLowers(grid, st, start, end, k);
    NextProgress(grid, st, start, end, k);
    if current != start {
      grid.SetColor(current, Closed);
    }
    forall r, c | 0 <= r < grid.rows && 0 <= c < grid.rows
      ensures grid.colors[r, c] == Shade(st', start, Pos(r, c), was[r][c])
    {
      NextShade(grid, st, start, end, k, Pos(r, c), was[r][c]);
    }
  }

  /** The node popped by an iteration is a scored grid node whose
      neighbours lie in the grid and differ from it. */
  lemma PoppedNode(grid: Grid, st: SearchState, start: Pos, end: Pos, k: nat)
    requires Runnable(grid, start, end) && Inv(grid, st, start, end) && k < |st.queue|
    ensures st.queue[k].node in st.gScore && grid.InBounds(st.queue[k].node)
    ensures forall x :: x in grid.Nbrs(st.queue[k].node) ==> grid.InBounds(x) && x != st.queue[k].node
  {
    var current := st.queue[k].node;
    assert st.queue[k] in st.queue;
    forall x | x in grid.Nbrs(current)
      ensures grid.InBounds(x) && x != current
    {
      assert Heuristic(current, x) == 1;
    }
  }

  /** Popping keeps the score, queue and link invariants. */
  lemma PopKeeps(grid: Grid, st: SearchState, start: Pos, end: Pos, k: nat)
    requires Inv(grid, st, start, end) && k < |st.queue|
    ensures Scores(grid, Pop(st, k), start, end) && Queue(Pop(st, k), start) && Links(grid, Pop(st, k))
    ensures Pop(st, k).openHash <= Pop(st, k).gScore.Keys
  {
    PopMirrored(st, k);
    PopCounted(st, k);
    PopPriorities(st, start, k);
    QueuedScored(Pop(st, k), start);
  }

  /** The state after an iteration that pops entry `k` and expands its node. */
  ghost function Next(grid: Grid, st: SearchState, end: Pos, k: nat): SearchState
    requires k < |st.queue| && st.queue[k].node in st.gScore
    reads grid.neighbors
  {
    RelaxAll(Pop(st, k), end, st.queue[k].node, grid.Nbrs(st.queue[k].node))
  }

  /** Popping a node other than the end and relaxing its neighbours keeps
      the loop invariant. */
  lemma ExpandKeeps(grid: Grid, st: SearchState, start: Pos, end: Pos, k: nat)
    requires Runnable(grid, start, end) && Inv(grid, st, start, end)
    requires k < |st.queue| && st.queue[k].node != end
    ensures st.queue[k].node in st.gScore
    ensures Inv(grid, Next(grid, st, end, k), start, end)
  {
    var current := st.queue[k].node;
    var s := Pop(st, k);
    var ns := grid.Nbrs(current);
    PoppedNode(grid, st, start, end, k);
    PopKeeps(grid, st, start, end, k);
    RelaxAllKeeps(grid, s, start, end, current, ns);
    RelaxAllEffect(s, end, current, ns);
    ExploredAfter(grid, st, RelaxAll(s, end, current, ns), end, current);
  }

  /** The same iteration never raises a score and does not queue the
      popped node again. */
  lemma NextLowers(grid: Grid, st: SearchState, start: Pos, end: Pos, k: nat)
    requires Runnable(grid, start, end) && Inv(grid, st, start, end)
    requires k < |st.queue| && st.queue[k].node != end
    ensures st.queue[k].node in st.gScore
    ensures st.queue[k].node !in Next(grid, st, end, k).openHash
    ensures Next(grid, st, end, k).openHash - Pop(st, k).openHash == Next(grid, st, end, k).openHash - st.openHash
    ensures forall n :: n in st.gScore ==> n in Next(grid, st, end, k).gScore && Next(grid, st, end, k).gScore[n] <= st.gScore[n]
  {
    PoppedNode(grid, st, start, end, k);
    QueuedScored(st, start);
    RelaxAllEffect(Pop(st, k), end, st.queue[k].node, grid.Nbrs(st.queue[k].node));
  }

  /** The same iteration makes progress towards termination. */
  lemma NextProgress(grid: Grid, st: SearchState, start: Pos, end: Pos, k: nat)
    requires Runnable(grid, start, end) && Inv(grid, st, start, end)
    requires k < |st.queue| && st.queue[k].node != end
    ensures st.queue[k].node in st.gScore
    ensures Progress(grid, st, Next(grid, st, end, k))
  {
    var current := st.queue[k].node;
    var s := Pop(st, k);
    var ns := grid.Nbrs(current);
    PoppedNode(grid, st, start, end, k);
    QueuedScored(st, start);
    RelaxAllEffect(s, end, current, ns);
    var r := RelaxAll(s, end, current, ns);
    forall n | n in r.gScore
      ensures grid.InBounds(n)
    {
      if n !in st.gScore {
        assert n in ns;
      }
    }
    ProgressFrom(grid, st, r);
  }

  /** Every queued node is scored. */
  lemma QueuedScored(st: SearchState, start: Pos)
    requires Mirrored(st) && Priorities(st, start) && st.fScore.Keys == st.gScore.Keys
    ensures st.openHash <= st.gScore.Keys
  {
    forall n | n in st.openHash
      ensures n in st.gScore
    {
      var i :| 0 <= i < |st.queue| && st.queue[i].node == n;
    }
  }

  // ----- colours during the search -----

  /** The colour the search has given node `p` by state `st`, where `was` is
      its colour before the search: an unscored node and the start keep
      theirs, a queued node is open, and an expanded one closed. */
  function Shade(st: SearchState, start: Pos, p: Pos, was: Category): Category {
    if p !in st.gScore || p == start then was
    else if p in st.openHash then Open
    else Closed
  }

  /** The repainting of one iteration (the popped node closed unless it is
      the start, newly queued nodes open) takes the colours the search has
      given by `st` to those it has given by the next state. A node is
      newly scored only when it is newly queued, and never the start. */
  lemma NextShade(grid: Grid, st: SearchState, start: Pos, end: Pos, k: nat, p: Pos, was: Category)
    requires Runnable(grid, start, end) && Inv(grid, st, start, end)
    requires k < |st.queue| && st.queue[k].node != end
    ensures st.queue[k].node in st.gScore
    ensures var current, st' := st.queue[k].node, Next(grid, st, end, k);
      Shade(st', start, p, was) ==
        if p == current && current != start then Closed
        else if p in st'.openHash - st.openHash then Open
        else Shade(st, start, p, was)
  {
    NextQueues(grid, st, start, end, k);
    ShadeMoves(st, Next(grid, st, end, k), start, st.queue[k].node, p, was);
  }

  /** How an iteration changes the scored and the queued nodes: only the
      popped node leaves the queue, no node loses its score, a newly scored
      node is newly queued, and the start is never queued again. */
  lemma NextQueues(grid: Grid, st: SearchState, start: Pos, end: Pos, k: nat)
    requires Runnable(grid, start, end) && Inv(grid, st, start, end)
    requires k < |st.queue| && st.queue[k].node != end
    ensures st.queue[k].node in st.gScore && start in st.gScore && st.openHash <= st.gScore.Keys
    ensures var current, st' := st.queue[k].node, Next(grid, st, end, k);
      && current !in st'.openHash
      && st.gScore.Keys <= st'.gScore.Keys && st'.openHash <= st'.gScore.Keys
      && st.openHash - {current} <= st'.openHash
      && st'.gScore.Keys - st.gScore.Keys <= st'.openHash - st.openHash
      && start !in st'.openHash - st.openHash
  {
    var current := st.queue[k].node;
    PoppedNode(grid, st, start, end, k);
    PopKeeps(grid, st, start, end, k);
    QueuedScored(st, start);
    NextLowers(grid, st, start, end, k);
    RelaxAllEffect(Pop(st, k), end, current, grid.Nbrs(current));
  }

  lemma ShadeMoves(st: SearchState, st': SearchState, start: Pos, current: Pos, p: Pos, was: Category)
    requires current in st.gScore && start in st.gScore && st.openHash <= st.gScore.Keys
    requires current !in st'.openHash && st.gScore.Keys <= st'.gScore.Keys && st'.openHash <= st'.gScore.Keys
    requires st.openHash - {current} <= st'.openHash
    requires st'.gScore.Keys - st.gScore.Keys <= st'.openHash - st.openHash
    requires start !in st'.openHash - st.openHash
    ensures Shade(st', start, p, was) ==
      if p == current && current != start then Closed
      else if p in st'.openHash - st.openHash then Open
      else Shade(st, start, p, was)
  {
  }

  /** Some walk along the neighbour lists leads from `start` to `p`. */
  ghost predicate Reachable(grid: Grid, start: Pos, p: Pos)
    reads grid.neighbors
  {
    exists w :: IsWalk(grid, w) && |w| >= 1 && w[0] == start && w[|w| - 1] == p
  }

  /** Every scored node is reachable from the start: its recorded route is
      a walk to it. */
  lemma ScoredReachable(grid: Grid, st: SearchState, start: Pos, end: Pos)
    requires Inv(grid, st, start, end)
    ensures forall p :: p in st.gScore ==> Reachable(grid, start, p)
  {
    forall p | p in st.gScore
      ensures Reachable(grid, start, p)
    {
      RouteWalk(grid, st, start, p);
      var w := Route(st.previous, st.gScore, p);
      assert IsWalk(grid, w) && |w| >= 1 && w[0] == start && w[|w| - 1] == p;
    }
  }

  /** Node `p`, coloured `was` before the search, is coloured `now` after
      it: either unchanged, or it is a node other than the start reached
      by the search and painted open or closed. */
  ghost predicate Touched(grid: Grid, start: Pos, p: Pos, now: Category, was: Category)
    reads grid.neighbors
  {
    now == was || (p != start && Reachable(grid, start, p) && (now == Open || now == Closed))
  }

  /** The colours a search gives are of that kind. */
  lemma ShadeTouched(grid: Grid, st: SearchState, start: Pos, end: Pos, p: Pos, was: Category)
    requires Inv(grid, st, start, end)
    ensures Touched(grid, start, p, Shade(st, start, p, was), was)
  {
    if p in st.gScore {
      ScoredReachable(grid, st, start, end);
    }
  }

  /** When the queue runs empty, the scored nodes are exactly those
      reachable from the start. */
  lemma ReachedExactly(grid: Grid, st: SearchState, start: Pos, end: Pos)
    requires Inv(grid, st, start, end) && st.queue == []
    ensures forall p :: Reachable(grid, start, p) <==> p in st.gScore
  {
    ScoredReachable(grid, st, start, end);
    ScoredClosed(grid, st, start, end);
    forall p | Reachable(grid, start, p)
      ensures p in st.gScore
    {
      var w :| IsWalk(grid, w) && |w| >= 1 && w[0] == start && w[|w| - 1] == p;
      WalkStaysInside(grid, st.gScore.Keys, w);
    }
  }

  /** When the queue runs empty, every neighbour of a scored node is
      scored. */
  lemma ScoredClosed(grid: Grid, st: SearchState, start: Pos, end: Pos)
    requires Inv(grid, st, start, end) && st.queue == []
    ensures start in st.gScore
    ensures forall n :: n in st.gScore ==> forall m :: m in grid.Nbrs(n) ==> m in st.gScore
  {
    assert st.openHash == {};
    forall n | n in st.gScore
      ensures Expanded(grid, st, n)
    {
    }
  }

  // ----- the whole search -----

  /** `algorithm(draw, grid, start, end)`: true with the traced path when a
      walk from the start reaches the end, false when none does. `route` is
      the traced path, start first, for the specification only. Every node
      off the route keeps its colour, except that nodes the search reached
      (the start excepted) end up open or closed; on failure exactly the
      reachable ones are closed. */
  method Algorithm(grid: Grid, start: Pos, end: Pos) returns (found: bool, ghost route: seq<Pos>)
    requires Runnable(grid, start, end)
    modifies grid.colors
    ensures found ==> Traced(grid, route, start, end)
    ensures found ==> forall r, c :: 0 <= r < grid.rows && 0 <= c < grid.rows && Pos(r, c) !in route ==>
      Touched(grid, start, Pos(r, c), grid.colors[r, c], old(grid.colors[r, c]))
    ensures !found ==> forall w :: IsWalk(grid, w) && |w| >= 1 && w[0] == start ==> end !in w
    ensures !found ==> forall r, c :: 0 <= r < grid.rows && 0 <= c < grid.rows ==>
      grid.colors[r, c] == if Pos(r, c) != start && Reachable(grid, start, Pos(r, c)) then Closed else old(grid.colors[r, c])
    ensures start == end ==> found && forall r, c :: 0 <= r < grid.rows && 0 <= c < grid.rows ==>
      grid.colors[r, c] == if Pos(r, c) == end then End else old(grid.colors[r, c])
  {
    ghost var was := Colours(grid);
    ghost var last;
    found, last := SearchLoop(grid, start, end, was);
    if found {
      route := Route(last.previous, last.gScore, end);
      forall r, c | 0 <= r < grid.rows && 0 <= c < grid.rows && Pos(r, c) !in route
        ensures Touched(grid, start, Pos(r, c), grid.colors[r, c], old(grid.colors[r, c]))
      {
        ShadeTouched(grid, last, start, end, Pos(r, c), was[r][c]);
      }
      if start == end {
        assert route == [end];
      }
    } else {
      NoRoute(grid, last, start, end);
      ReachedExactly(grid, last, start, end);
      route := [];
    }
  }

  /** The colours of the grid, row by row. */
  ghost function Colours(grid: Grid): (was: seq<seq<Category>>)
    requires grid.Valid()
    reads grid.colors
    ensures |was| == grid.rows && forall r :: 0 <= r < grid.rows ==> |was[r]| == grid.rows
    ensures forall r, c :: 0 <= r < grid.rows && 0 <= c < grid.rows ==> was[r][c] == grid.colors[r, c]
  {
    seq(grid.rows, r requires 0 <= r < grid.rows reads grid.colors =>
      seq(grid.rows, c requires 0 <= c < grid.rows reads grid.colors => grid.colors[r, c]))
  }

  /** Every node has the colour the search gives it by `st`, where `was`
      holds the colours before the search. */
  ghost predicate Shaded(grid: Grid, st: SearchState, start: Pos, was: seq<seq<Category>>)
    reads grid.colors
  {
    && grid.Valid()
    && |was| == grid.rows && (forall r :: 0 <= r < grid.rows ==> |was[r]| == grid.rows)
    && forall r, c :: 0 <= r < grid.rows && 0 <= c < grid.rows ==>
      grid.colors[r, c] == Shade(st, start, Pos(r, c), was[r][c])
  }

  /** The `while` loop of `algorithm` from its initial state, with `was`
      the colours before the search: step until the end node is popped or
      the queue runs empty. `last` is the state the loop ends in, and every
      node off the traced route has the colour the search gives it by that
      state. */
  method SearchLoop(grid: Grid, start: Pos, end: Pos, ghost was: seq<seq<Category>>)
    returns (found: bool, ghost last: SearchState)
    requires Runnable(grid, start, end) && Shaded(grid, Begin(start, end), start, was)
    modifies grid.colors
    ensures Inv(grid, last, start, end)
    ensures found ==> end in last.gScore && Traced(grid, Route(last.previous, last.gScore, end), start, end)
    ensures found ==> forall r, c ::
      0 <= r < grid.rows && 0 <= c < grid.rows && Pos(r, c) !in Route(last.previous, last.gScore, end) ==>
        grid.colors[r, c] == Shade(last, start, Pos(r, c), was[r][c])
    ensures !found ==> last.queue == [] && Shaded(grid, last, start, was)
    ensures start == end ==> found && last == Begin(start, end)
  {
    var st := Begin(start, end);
    BeginInv(grid, start, end);
    while st.queue != []
      invariant Inv(grid, st, start, end) && Shaded(grid, st, start, was)
      invariant start == end ==> st == Begin(start, end)
      decreases grid.AllCells() - st.gScore.Keys, Potential(st.gScore), |st.queue|
    {
      var next, status, popped, k := Step(grid, start, end, st, was);
      if status == Succeeded {
        return true, st;
      }
      st := next;
    }
    return false, st;
  }

  /** When the queue runs empty, the scored nodes are closed under the
      neighbour lists and exclude the end node, so no walk from the start
      reaches it. */
  lemma NoRoute(grid: Grid, st: SearchState, start: Pos, end: Pos)
    requires Inv(grid, st, start, end) && st.queue == []
    ensures forall w :: IsWalk(grid, w) && |w| >= 1 && w[0] == start ==> end !in w
  {
    forall w | IsWalk(grid, w) && |w| >= 1 && w[0] == start
      ensures end !in w
    {
      WalkStaysInside(grid, st.gScore.Keys, w);
    }
  }

  /** A walk that starts inside a region closed under the neighbour lists
      never leaves it. */
  lemma {:induction false} WalkStaysInside(grid: Grid, region: set<Pos>, w: seq<Pos>)
    requires IsWalk(grid, w) && |w| >= 1 && w[0] in region
    requires forall n :: n in region ==> forall m :: m in grid.Nbrs(n) ==> m in region
    ensures forall i :: 0 <= i < |w| ==> w[i] in region
  {
    if |w| > 1 {
      assert StepAt(grid, w, 0);
      forall i | 0 <= i < |w[1..]| - 1 ensures StepAt(grid, w[1..], i) {
        assert StepAt(grid, w, i + 1);
      }
      WalkStaysInside(grid, region, w[1..]);
      forall i | 0 < i < |w| ensures w[i] in region {
        assert w[i] == w[1..][i - 1];
      }
    }
  }
}
