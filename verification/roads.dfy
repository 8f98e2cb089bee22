/** The road-map grid of the Chalisgaon program: every cell starts as a wall, the cells of the
    road graph's nodes are reset to empty, and each road between two mapped nodes is carved
    as an L-shaped corridor of empty cells, first along the rows, then along the columns.
    Node positions come from the road graph's projection onto the grid, which is an input here. */
module RoadMap {
  import opened Cells
  import opened Neighbors
  import opened Grids
  import opened GridAStar

  /** x lies between a and b, both included, whichever of the two is larger. */
  predicate Between(x: int, a: int, b: int) {
    if a <= b then a <= x <= b else b <= x <= a
  }

  /** The cells `draw_line_between(grid, a, b)` resets: column a.1 between rows a.0 and b.0,
      then row b.0 between columns a.1 and b.1. */
  predicate OnLine(q: Pos, a: (int, int), b: (int, int)) {
    || (q.col as int == a.1 && Between(q.row as int, a.0, b.0))
    || (q.row as int == b.0 && Between(q.col as int, a.1, b.1))
  }

  /** The positions one `range(from, r, step)` loop has visited once its variable reaches r. */
  predicate Passed(x: int, from: int, r: int, step: int) {
    if step == 1 then from <= x < r else r < x <= from
  }

  /** `draw_line_between`: the row-wise loop, then the column-wise loop, each resetting the
      in-bounds cells it visits. Both loops run at least once, so a = b resets the one cell. */
  method DrawLineBetween(grid: Grid, a: (int, int), b: (int, int))
    requires grid.Valid()
    modifies grid`color
    ensures grid.Valid()
    ensures forall q :: q in grid.color ==>
      grid.color[q] == if OnLine(q, a, b) then Empty else old(grid.color)[q]
  {
    ResetAlongColumn(grid, a.1, a.0, b.0);
    ResetAlongRow(grid, b.0, a.1, b.1);
  }

  /** The row-wise loop of `draw_line_between`: `range(r1, r2 + row_step, row_step)` over
      column c, resetting each in-bounds cell. */
  method ResetAlongColumn(grid: Grid, c: int, r1: int, r2: int)
    requires grid.Valid()
    modifies grid`color
    ensures grid.Valid()
    ensures forall q :: q in grid.color ==>
      grid.color[q] == if q.col as int == c && Between(q.row as int, r1, r2) then Empty else old(grid.color)[q]
  {
    var rowStep := if r2 > r1 then 1 else -1;
    var r := r1;
    while r != r2 + rowStep
      invariant grid.Valid()
      invariant if rowStep == 1 then r1 <= r <= r2 + 1 else r2 - 1 <= r <= r1
      invariant forall q :: q in grid.color ==>
        grid.color[q] == if q.col as int == c && Passed(q.row as int, r1, r, rowStep) then Empty else old(grid.color)[q]
      decreases if rowStep == 1 then r2 + 1 - r else r - r2 + 1
    {
      if 0 <= r < grid.size && 0 <= c < grid.size {
        grid.SetColor(Pos(r, c), Empty);
      }
      r := r + rowStep;
    }
  }

  /** The column-wise loop of `draw_line_between`: `range(c1, c2 + col_step, col_step)` along
      row r, resetting each in-bounds cell. */
  method ResetAlongRow(grid: Grid, r: int, c1: int, c2: int)
    requires grid.Valid()
    modifies grid`color
    ensures grid.Valid()
    ensures forall q :: q in grid.color ==>
      grid.color[q] == if q.row as int == r && Between(q.col as int, c1, c2) then Empty else old(grid.color)[q]
  {
    var colStep := if c2 > c1 then 1 else -1;
    var c := c1;
    while c != c2 + colStep
      invariant grid.Valid()
      invariant if colStep == 1 then c1 <= c <= c2 + 1 else c2 - 1 <= c <= c1
      invariant forall q :: q in grid.color ==>
        grid.color[q] == if q.row as int == r && Passed(q.col as int, c1, c, colStep) then Empty else old(grid.color)[q]
      decreases if colStep == 1 then c2 + 1 - c else c - c2 + 1
    {
      if 0 <= r < grid.size && 0 <= c < grid.size {
        grid.SetColor(Pos(r, c), Empty);
      }
      c := c + colStep;
    }
  }

  /** The values `range(from, to + step, step)` visits, step being 1 when to > from and -1
      otherwise: from, then one unit at a time towards to, ending at to. */
  function Span(from: int, to: int): (s: seq<int>)
    ensures |s| > 0 && s[0] == from && s[|s| - 1] == to
    ensures forall i :: 0 <= i < |s| ==> Between(s[i], from, to)
    ensures forall i :: 0 <= i < |s| - 1 ==> s[i + 1] - s[i] == 1 || s[i] - s[i + 1] == 1
    decreases if from <= to then to - from else from - to
  {
    if from == to then [from] else [from] + Span(if from < to then from + 1 else from - 1, to)
  }

  /** The corridor of `draw_line_between(grid, a, b)` as the cells its two loops visit, in
      order, the corner cell (b.0, a.1) once. */
  function Corridor(a: (int, int), b: (int, int)): (c: seq<Pos>)
    requires 0 <= a.0 && 0 <= a.1 && 0 <= b.0 && 0 <= b.1
  {
    var rs, cs := Span(a.0, b.0), Span(a.1, b.1);
    seq(|rs|, i requires 0 <= i < |rs| => Pos(rs[i], a.1)) + seq(|cs| - 1, j requires 0 <= j < |cs| - 1 => Pos(b.0, cs[j + 1]))
  }

  /** When its ends are on the grid and none of its cells is a wall, a corridor is a four-way
      open route from a to b through the cells it resets. */
  lemma CorridorIsRoute(color: map<Pos, Color>, n: nat, a: (int, int), b: (int, int))
    requires 0 <= a.0 < n && 0 <= a.1 < n && 0 <= b.0 < n && 0 <= b.1 < n
    requires forall q :: InBounds(q, n) && OnLine(q, a, b) ==> !WallAt(color, q)
    ensures var c := Corridor(a, b);
      && OpenRoute(color, n, FourWay, c) && c[0] == Pos(a.0, a.1) && c[|c| - 1] == Pos(b.0, b.1)
      && forall i :: 0 <= i < |c| ==> OnLine(c[i], a, b)
  {
    var rs, cs := Span(a.0, b.0), Span(a.1, b.1);
    var c := Corridor(a, b);
    assert |c| == |rs| + |cs| - 1;
    forall i | 0 <= i < |c|
      ensures InBounds(c[i], n) && OnLine(c[i], a, b)
    {
      if i < |rs| {
        assert c[i] == Pos(rs[i], a.1);
      } else {
        assert c[i] == Pos(b.0, cs[i - |rs| + 1]);
      }
    }
    forall i | 0 <= i < |c| - 1
      ensures OpenStep(color, n, FourWay, c[i], c[i + 1])
    {
      assert InBounds(c[i + 1], n) && OnLine(c[i + 1], a, b);
      if i + 1 < |rs| {
        assert c[i] == Pos(rs[i], a.1) && c[i + 1] == Pos(rs[i + 1], a.1);
      } else if i + 1 == |rs| {
        assert c[i] == Pos(b.0, a.1) && c[i + 1] == Pos(b.0, cs[1]);
      } else {
        var j := i - |rs| + 1;
        assert c[i] == Pos(b.0, cs[j]) && c[i + 1] == Pos(b.0, cs[j + 1]);
      }
    }
    if |cs| == 1 {
      assert c[|c| - 1] == Pos(rs[|rs| - 1], a.1);
    } else {
      assert c[|c| - 1] == Pos(b.0, cs[|cs| - 1]);
    }
  }

  /** An edge's two endpoints both have a grid position. */
  predicate Mapped(positions: map<int, (int, int)>, e: (int, int)) {
    e.0 in positions && e.1 in positions
  }

  /** q lies on the corridor of some edge of es whose endpoints are both mapped. */
  ghost predicate OnSomeEdge(q: Pos, positions: map<int, (int, int)>, es: seq<(int, int)>) {
    exists k :: 0 <= k < |es| && Mapped(positions, es[k]) && OnLine(q, positions[es[k].0], positions[es[k].1])
  }

  /** The colour the setup leaves on q: empty for a node position or a carved corridor, wall
      everywhere else. */
  ghost function RoadColor(q: Pos, positions: map<int, (int, int)>, es: seq<(int, int)>): Color {
    if (q.row as int, q.col as int) in positions.Values || OnSomeEdge(q, positions, es) then Empty else Wall
  }

  /** Adding one edge to the list adds exactly its corridor, if it is mapped. */
  lemma OnSomeEdgeSnoc(positions: map<int, (int, int)>, es: seq<(int, int)>, e: (int, int))
    ensures forall q :: OnSomeEdge(q, positions, es + [e]) <==>
      OnSomeEdge(q, positions, es) || (Mapped(positions, e) && OnLine(q, positions[e.0], positions[e.1]))
  {
    var es' := es + [e];
    forall q | OnSomeEdge(q, positions, es')
      ensures OnSomeEdge(q, positions, es) || (Mapped(positions, e) && OnLine(q, positions[e.0], positions[e.1]))
    {
      var k :| 0 <= k < |es'| && Mapped(positions, es'[k]) && OnLine(q, positions[es'[k].0], positions[es'[k].1]);
      if k < |es| {
        assert es'[k] == es[k];
      }
    }
    forall q | OnSomeEdge(q, positions, es)
      ensures OnSomeEdge(q, positions, es')
    {
      var k :| 0 <= k < |es| && Mapped(positions, es[k]) && OnLine(q, positions[es[k].0], positions[es[k].1]);
      assert es'[k] == es[k];
    }
    forall q | Mapped(positions, e) && OnLine(q, positions[e.0], positions[e.1])
      ensures OnSomeEdge(q, positions, es')
    {
      assert es'[|es|] == e;
    }
  }

  /** Steps 1, 3 and 4 of the Chalisgaon `main`: every cell becomes a wall, then each node's
      in-bounds position is reset, then `draw_line_between` carves each edge whose endpoints
      are both mapped. Afterwards a cell is empty exactly when it is a node position or on a
      carved corridor, and a wall otherwise. */
  method BuildRoadGrid(grid: Grid, positions: map<int, (int, int)>, edges: seq<(int, int)>)
    requires grid.Valid()
    modifies grid`color
    ensures grid.Valid()
    ensures forall q :: q in grid.color ==> grid.color[q] == RoadColor(q, positions, edges)
  {
    FillWalls(grid);
    ResetNodes(grid, positions);
    for k := 0 to |edges|
      invariant grid.Valid()
      invariant forall q :: q in grid.color ==> grid.color[q] == RoadColor(q, positions, edges[..k])
    {
      var u, v := edges[k].0, edges[k].1;
      ghost var before := grid.color;
      if u in positions && v in positions {
        DrawLineBetween(grid, positions[u], positions[v]);
      }
      assert edges[..k + 1] == edges[..k] + [edges[k]];
      OnSomeEdgeSnoc(positions, edges[..k], edges[k]);
    }
    assert edges[..|edges|] == edges;
  }

  /** Step 1: `set_wall` on every cell, row by row. */
  method FillWalls(grid: Grid)
    requires grid.Valid()
    modifies grid`color
    ensures grid.Valid()
    ensures forall q :: q in grid.color ==> grid.color[q] == Wall
  {
    for i := 0 to grid.size
      invariant grid.Valid()
      invariant forall q :: q in grid.color && q.row < i ==> grid.color[q] == Wall
    {
      for j := 0 to grid.size
        invariant grid.Valid()
        invariant forall q :: q in grid.color && (q.row < i || (q.row == i && q.col < j)) ==> grid.color[q] == Wall
      {
        grid.SetColor(Pos(i, j), Wall);
      }
    }
  }

  /** Step 3: `reset` on the cell of every node whose position is inside the grid. The node
      positions are visited in some order, which does not matter. */
  method ResetNodes(grid: Grid, positions: map<int, (int, int)>)
    requires grid.Valid() && forall q :: q in grid.color ==> grid.color[q] == Wall
    modifies grid`color
    ensures grid.Valid()
    ensures forall q :: q in grid.color ==> grid.color[q] == RoadColor(q, positions, [])
  {
    var todo := positions.Values;
    while todo != {}
      invariant grid.Valid() && todo <= positions.Values
      invariant forall q :: q in grid.color ==>
        grid.color[q] == if (q.row as int, q.col as int) in positions.Values - todo then Empty else Wall
      decreases todo
    {
      var rc :| rc in todo;
      if 0 <= rc.0 < grid.size && 0 <= rc.1 < grid.size {
        grid.SetColor(Pos(rc.0, rc.1), Empty);
      }
      todo := todo - {rc};
    }
  }

  /** After the setup, the two ends of every mapped edge that lie on the grid are joined by a
      four-way open route: the edge's own corridor. */
  lemma RoadsJoinEnds(color: map<Pos, Color>, n: nat, positions: map<int, (int, int)>, edges: seq<(int, int)>, k: nat)
    requires forall q :: InBounds(q, n) ==> q in color && color[q] == RoadColor(q, positions, edges)
    requires k < |edges| && Mapped(positions, edges[k])
    requires var a, b := positions[edges[k].0], positions[edges[k].1];
      0 <= a.0 < n && 0 <= a.1 < n && 0 <= b.0 < n && 0 <= b.1 < n
    ensures var a, b := positions[edges[k].0], positions[edges[k].1];
      var c := Corridor(a, b);
      OpenRoute(color, n, FourWay, c) && c[0] == Pos(a.0, a.1) && c[|c| - 1] == Pos(b.0, b.1)
  {
    var a, b := positions[edges[k].0], positions[edges[k].1];
    forall q | InBounds(q, n) && OnLine(q, a, b)
      ensures !WallAt(color, q)
    {
      assert OnSomeEdge(q, positions, edges);
    }
    CorridorIsRoute(color, n, a, b);
  }
}
