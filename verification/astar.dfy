/** The main loop of `aStar`: take the entry that comes first from the queue, stop and trace
    the path back when it is the end, otherwise relax its neighbours and close it. The search
    runs until the end is taken or the queue is empty. */
module GridAStar {
  import opened Cells
  import opened Neighbors
  import opened Grids
  import opened PriorityQueues
  import opened Chains
  import opened Search

  /** One pass of the main loop after the cell is taken from the queue: the loop over its
      neighbours, then `set_close` unless it is the start. */
  method Visit(grid: Grid, s: Frontier, current: Pos, start: Pos, end: Pos, ghost orig: map<Pos, Color>)
    returns (t: Frontier)
    requires grid.Valid() && current in s.gScore && current !in s.openSetHash
    requires Searching(s, grid.neighbors, grid.color, orig, start, end, {current})
    modifies grid`color
    ensures grid.Valid()
    ensures Searching(t, grid.neighbors, grid.color, orig, start, end, {})
    ensures Lowered(s, t) && Paid(s, t)
    ensures current in grid.color && grid.color[current] == if current == start then orig[start] else Closed
  {
    ghost var before := grid.color;
    ghost var nbrs := grid.neighbors;
    ghost var l := nbrs[current];
    forall k | 0 <= k < |l|
      ensures Step(nbrs, current, l[k]) && l[k] in nbrs && l[k] in orig
    {
      assert l[k] in nbrs[current];
    }
    RelaxAllKeeps(s, nbrs, before, orig, current, l, start, end);
    RelaxAllScores(s, before, current, l, end);
    t := Expand(grid, s, current, end);
    ghost var expanded := grid.color;
    if current != start {
      grid.SetColor(current, Closed);
    }
    CloseKeeps(t, nbrs, expanded, orig, current, start, end);
  }

  /** What the search leaves behind once it has taken the end off the queue: the traced walk
      from the start to the end through scored cells, painted as path but for its last cell,
      which is the end; scored cells off the walk are open or closed, the others untouched. */
  ghost predicate Traced(nbrs: map<Pos, seq<Pos>>, color: map<Pos, Color>, orig: map<Pos, Color>,
                         g: map<Pos, nat>, path: seq<Pos>, start: Pos, end: Pos) {
    && IsWalk(nbrs, path) && path[0] == start && path[|path| - 1] == end
    && (forall i :: 0 <= i < |path| ==> path[i] in g)
    && end in color && color[end] == End
    && (forall i :: 0 <= i < |path| - 1 ==> path[i] in color && color[path[i]] == Path)
    && (forall q :: q in color && q !in g ==> q in orig && color[q] == orig[q])
    && (forall q :: q in g && q !in path ==> q in color && (color[q] == Open || color[q] == Closed))
  }

  /** The branch taken when the end comes off the queue: `backtrack` from the end, then
      `set_end`. The chain of parents read forwards is a walk from the start to the end; every
      cell on it but the end, the start included, is painted as path. */
  method FoundEnd(grid: Grid, s: Frontier, start: Pos, end: Pos, ghost orig: map<Pos, Color>)
    returns (ghost path: seq<Pos>)
    requires grid.Valid() && end in s.gScore
    requires ScoresOk(s, grid.neighbors, start, end)
    requires Painted(s, grid.color, orig, start, {end})
    modifies grid`color
    ensures grid.Valid()
    ensures Traced(grid.neighbors, grid.color, orig, s.gScore, path, start, end)
  {
    ghost var before := grid.color;
    Backtrack(grid, s.cameFrom, end, s.gScore);
    grid.SetColor(end, End);
    path := Lineage(s.cameFrom, s.gScore, end);
    TraceFacts(s, grid.neighbors, start, end);
    TraceColors(s, grid.neighbors, before, grid.color, orig, start, end);
  }

  /** `aStar(draw, grid, start, end)` on a grid whose neighbour lists were just recomputed.
      On success, `path` is the walk `backtrack` traced and `reached` the cells that got a g
      score; on failure, `reached` holds every cell reachable from the start and not the end. */
  method AStar(grid: Grid, start: Pos, end: Pos) returns (found: bool, ghost path: seq<Pos>, ghost reached: set<Pos>)
    requires grid.Valid() && InBounds(start, grid.size) && InBounds(end, grid.size)
    modifies grid`color
    ensures grid.Valid() && reached <= grid.color.Keys
    ensures start in reached && (found <==> end in reached)
    ensures forall q :: q in grid.color && q !in reached ==> grid.color[q] == old(grid.color)[q]
    ensures found ==>
      && IsWalk(grid.neighbors, path) && path[0] == start && path[|path| - 1] == end
      && (forall i :: 0 <= i < |path| ==> path[i] in reached)
      && grid.color[end] == End
      && (forall i :: 0 <= i < |path| - 1 ==> grid.color[path[i]] == Path)
      && (forall q :: q in reached && q !in path ==> grid.color[q] == Open || grid.color[q] == Closed)
    ensures !found ==>
      && (forall c, m {:trigger m in grid.neighbors[c]} :: c in reached && m in grid.neighbors[c] ==> m in reached)
      && (forall p :: IsWalk(grid.neighbors, p) && p[0] == start ==> end !in p)
      && grid.color[start] == old(grid.color)[start]
      && (forall q :: q in reached && q != start ==> grid.color[q] == Closed)
  {
    ghost var orig := grid.color;
    var s := Init(start, end);
    InitKeeps(grid.neighbors, grid.color, start, end);
    var t;
    found, t, path := Run(grid, s, start, end, orig);
    reached := t.gScore.Keys;
    if !found {
      ExhaustedTrapsWalks(t, grid.neighbors, grid.color, orig, start, end);
    }
  }

  /** One iteration of the main loop: pop the entry that comes first; if it is the end, trace
      the path; otherwise relax its neighbours and close it, which either scores a new cell or
      keeps the scored cells and lowers twice the sum of the scores plus the queue length. */
  method Turn(grid: Grid, s: Frontier, start: Pos, end: Pos, ghost orig: map<Pos, Color>)
    returns (found: bool, t: Frontier, ghost path: seq<Pos>)
    requires grid.Valid() && s.openSet != [] && Searching(s, grid.neighbors, grid.color, orig, start, end, {})
    modifies grid`color
    ensures grid.Valid() && start in t.gScore && t.gScore.Keys <= grid.neighbors.Keys
    ensures found <==> TakesEnd(s, end)
    ensures found ==> t == Pop(s, MinIndex(s.openSet))
    ensures found ==> end in t.gScore && Traced(grid.neighbors, grid.color, orig, t.gScore, path, start, end)
    ensures !found ==>
      && Searching(t, grid.neighbors, grid.color, orig, start, end, {})
      && (|| grid.neighbors.Keys - t.gScore.Keys < grid.neighbors.Keys - s.gScore.Keys
          || (&& grid.neighbors.Keys - t.gScore.Keys == grid.neighbors.Keys - s.gScore.Keys
              && 2 * Potential(t.gScore) + |t.openSet| < 2 * Potential(s.gScore) + |s.openSet|))
  {
    var k := MinIndex(s.openSet);
    var current := s.openSet[k].cell;
    PopKeeps(s, grid.neighbors, grid.color, orig, start, end);
    t := Pop(s, k);
    if current == end {
      path := FoundEnd(grid, t, start, end, orig);
      return true, t, path;
    }
    ghost var popped := t;
    t := Visit(grid, t, current, start, end, orig);
    Progress(s, popped, t, grid.neighbors.Keys);
    found, path := false, [];
  }

  /** The entry `open_set.get()` takes next is the end's. */
  predicate TakesEnd(s: Frontier, end: Pos)
    requires s.openSet != [] && CountsRise(s.openSet)
  {
    s.openSet[MinIndex(s.openSet)].cell == end
  }

  /** The `while not open_set.empty()` loop of `aStar`. */
  method Run(grid: Grid, s: Frontier, start: Pos, end: Pos, ghost orig: map<Pos, Color>)
    returns (found: bool, t: Frontier, ghost path: seq<Pos>)
    requires grid.Valid() && Searching(s, grid.neighbors, grid.color, orig, start, end, {})
    modifies grid`color
    ensures grid.Valid() && start in t.gScore && (found <==> end in t.gScore) && t.gScore.Keys <= grid.neighbors.Keys
    ensures !found ==> Searching(t, grid.neighbors, grid.color, orig, start, end, {}) && t.openSet == []
    ensures found ==> Traced(grid.neighbors, grid.color, orig, t.gScore, path, start, end)
  {
    t := s;
    while t.openSet != []
      invariant grid.Valid()
      invariant Searching(t, grid.neighbors, grid.color, orig, start, end, {})
      decreases grid.neighbors.Keys - t.gScore.Keys, 2 * Potential(t.gScore) + |t.openSet|
    {
      found, t, path := Turn(grid, t, start, end, orig);
      if found {
        return;
      }
    }
    return false, t, [];
  }

  /** A route over the grid as colours stand: it starts on the grid, and each step goes to an
      in-bounds cell one step away under the rule that is not a wall. */
  ghost predicate OpenRoute(color: map<Pos, Color>, n: nat, adj: Adjacency, route: seq<Pos>) {
    && |route| > 0 && InBounds(route[0], n)
    && forall i :: 0 <= i < |route| - 1 ==> OpenStep(color, n, adj, route[i], route[i + 1])
  }

  /** One step of an open route: to an in-bounds, non-wall cell adjacent under the rule. */
  ghost predicate OpenStep(color: map<Pos, Color>, n: nat, adj: Adjacency, a: Pos, b: Pos) {
    InBounds(b, n) && !WallAt(color, b) && Adjacent(a, b, adj)
  }

  /** With lists just recomputed by `update_neighbors`, the walks along them from a cell on the
      grid are exactly the open routes. */
  lemma WalksAreRoutes(nbrs: map<Pos, seq<Pos>>, color: map<Pos, Color>, n: nat, adj: Adjacency, p: seq<Pos>)
    requires forall q :: q in nbrs <==> InBounds(q, n)
    requires forall q :: q in nbrs ==> nbrs[q] == NeighborsOf(color, n, q, adj)
    ensures (IsWalk(nbrs, p) && InBounds(p[0], n)) <==> OpenRoute(color, n, adj, p)
  {
    if IsWalk(nbrs, p) && InBounds(p[0], n) {
      forall i | 0 <= i < |p| - 1
        ensures OpenStep(color, n, adj, p[i], p[i + 1])
      {
        assert Step(nbrs, p[i], p[i + 1]);
        NeighborsSound(color, n, p[i], adj);
      }
    }
    if OpenRoute(color, n, adj, p) {
      forall i | 0 <= i < |p| - 1
        ensures Step(nbrs, p[i], p[i + 1])
      {
        if i > 0 {
          assert OpenStep(color, n, adj, p[i - 1], p[(i - 1) + 1]);
        }
        NeighborsComplete(color, n, p[i], adj);
      }
    }
  }

  /** The space key: `update_neighbors` on every cell, then `aStar` from the start to the end.
      Against the colours the search starts from, success yields an open route from the start
      to the end, and failure means no open route from the start ever reaches the end. */
  method SpaceKey(grid: Grid, start: Pos, end: Pos) returns (found: bool, ghost route: seq<Pos>)
    requires grid.Valid() && InBounds(start, grid.size) && InBounds(end, grid.size)
    modifies grid`color, grid`neighbors
    ensures grid.Valid()
    ensures found ==> OpenRoute(old(grid.color), grid.size, grid.adjacency, route) && route[0] == start && route[|route| - 1] == end
    ensures !found ==> forall p :: OpenRoute(old(grid.color), grid.size, grid.adjacency, p) && p[0] == start ==> end !in p
  {
    grid.UpdateAllNeighbors();
    ghost var walls := grid.color;
    ghost var reached: set<Pos>;
    found, route, reached := AStar(grid, start, end);
    SearchRoutes(grid.neighbors, walls, grid.size, grid.adjacency, start, end, found, route);
  }

  /** The outcome of the search read as open routes: a walk along the recomputed lists is an
      open route, and every open route is such a walk. */
  lemma SearchRoutes(nbrs: map<Pos, seq<Pos>>, color: map<Pos, Color>, n: nat, adj: Adjacency,
                     start: Pos, end: Pos, found: bool, route: seq<Pos>)
    requires InBounds(start, n)
    requires forall q :: q in nbrs <==> InBounds(q, n)
    requires forall q :: q in nbrs ==> nbrs[q] == NeighborsOf(color, n, q, adj)
    requires found ==> IsWalk(nbrs, route) && route[0] == start && route[|route| - 1] == end
    requires !found ==> forall p :: IsWalk(nbrs, p) && p[0] == start ==> end !in p
    ensures found ==> OpenRoute(color, n, adj, route) && route[0] == start && route[|route| - 1] == end
    ensures !found ==> forall p :: OpenRoute(color, n, adj, p) && p[0] == start ==> end !in p
  {
    if found {
      WalksAreRoutes(nbrs, color, n, adj, route);
    } else {
      forall p | OpenRoute(color, n, adj, p) && p[0] == start
        ensures end !in p
      {
        WalksAreRoutes(nbrs, color, n, adj, p);
      }
    }
  }
}
