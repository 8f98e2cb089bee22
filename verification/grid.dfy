/** The grid of cells built by `make_grid`. Each Python `Cell` owns two mutable fields, its
    colour and its cached neighbour list; here the grid holds both, keyed by the cell's
    position, and a cell's identity is its `Pos`. The grid's `adjacency` records which
    program's `update_neighbors` its cells use. */
module Grids {
  import opened Cells
  import opened Neighbors

  class Grid {
    /** `total_rows`: the grid is size-by-size. */
    const size: nat
    const adjacency: Adjacency
    /** `cell.color` of every cell. */
    var color: map<Pos, Color>
    /** `cell.neighbors` of every cell, as last computed. */
    var neighbors: map<Pos, seq<Pos>>

    /** Every in-bounds position is a cell with a colour and a neighbour list, and every listed
        neighbour is an in-bounds cell one step away. A list may be stale: walls painted since
        it was computed are not reflected in it. */
    ghost predicate Valid()
      reads this
    {
      && CellsColored()
      && (forall q :: q in neighbors <==> InBounds(q, size))
      && (forall q, m {:trigger m in neighbors[q]} :: q in neighbors && m in neighbors[q] ==> InBounds(m, size) && Adjacent(q, m, adjacency))
    }

    /** Exactly the in-bounds positions have a colour. */
    ghost predicate CellsColored()
      reads this
    {
      forall q :: q in color <==> InBounds(q, size)
    }

    /** Every neighbour list is what `update_neighbors` computes from the current colours. */
    ghost predicate NeighborsCurrent()
      reads this
    {
      forall q :: q in neighbors ==> neighbors[q] == NeighborsOf(color, size, q, adjacency)
    }

    /** `make_grid(rows, width)`: rows-by-rows cells, all empty, with empty neighbour lists.
        The source divides the window width by rows first, so rows must be positive. */
    constructor (rows: nat, adjacency: Adjacency)
      requires rows > 0
      ensures Valid() && size == rows && this.adjacency == adjacency
      ensures forall q :: q in color ==> color[q] == Empty && neighbors[q] == []
    {
      var cells: map<Pos, Color> := map[];
      var lists: map<Pos, seq<Pos>> := map[];
      for i := 0 to rows
        invariant forall q :: q in cells <==> q.row < i && q.col < rows
        invariant forall q :: q in lists <==> q.row < i && q.col < rows
        invariant forall q :: q in cells ==> cells[q] == Empty && lists[q] == []
      {
        for j := 0 to rows
          invariant forall q :: q in cells <==> (q.row < i && q.col < rows) || (q.row == i && q.col < j)
          invariant forall q :: q in lists <==> (q.row < i && q.col < rows) || (q.row == i && q.col < j)
          invariant forall q :: q in cells ==> cells[q] == Empty && lists[q] == []
        {
          cells := cells[Pos(i, j) := Empty];
          lists := lists[Pos(i, j) := []];
        }
      }
      size := rows;
      this.adjacency := adjacency;
      color := cells;
      neighbors := lists;
    }

    /** The colour setters `reset`, `set_close`, `set_open`, `set_wall`, `set_start`,
        `set_end` and `set_path`: overwrite one cell's colour and nothing else. */
    method SetColor(p: Pos, c: Color)
      requires Valid() && InBounds(p, size)
      modifies this`color
      ensures Valid()
      ensures color == old(color)[p := c]
    {
      color := color[p := c];
    }

    /** `update_neighbors`: rebuild the cell's list by probing down, up, left, right and, on an
        EightWay grid, the four diagonals, keeping in-bounds cells that are not walls. */
    method UpdateNeighbors(p: Pos)
      requires Valid() && InBounds(p, size)
      modifies this`neighbors
      ensures Valid()
      ensures neighbors == old(neighbors)[p := NeighborsOf(color, size, p, adjacency)]
    {
      var found := ProbeOrthogonal(p);
      if adjacency == EightWay {
        found := ProbeDiagonals(p, found);
      }
      NeighborsSound(color, size, p, adjacency);
      neighbors := neighbors[p := found];
    }

    /** The first part of `update_neighbors`: the probes down, up, left and right. */
    method ProbeOrthogonal(p: Pos) returns (found: seq<Pos>)
      requires CellsColored() && InBounds(p, size)
      ensures found == Keep(color, size, Orthogonal(p))
    {
      found := [];
      ghost var before := found;
      // down
      if p.row < size - 1 && color[Pos(p.row + 1, p.col)] != Wall {
        found := found + [Pos(p.row + 1, p.col)];
      }
      assert found == before + Hit(color, size, (p.row + 1, p.col));
      // up
      before := found;
      if p.row > 0 && color[Pos(p.row - 1, p.col)] != Wall {
        found := found + [Pos(p.row - 1, p.col)];
      }
      assert found == before + Hit(color, size, (p.row - 1, p.col));
      // left
      before := found;
      if p.col > 0 && color[Pos(p.row, p.col - 1)] != Wall {
        found := found + [Pos(p.row, p.col - 1)];
      }
      assert found == before + Hit(color, size, (p.row, p.col - 1));
      // right
      before := found;
      if p.col < size - 1 && color[Pos(p.row, p.col + 1)] != Wall {
        found := found + [Pos(p.row, p.col + 1)];
      }
      assert found == before + Hit(color, size, (p.row, p.col + 1));
      KeepFour(color, size, (p.row + 1, p.col), (p.row - 1, p.col), (p.row, p.col - 1), (p.row, p.col + 1));
    }

    /** The second part of `update_neighbors`: the loop over the diagonal offsets `dirs`,
        extending the list the orthogonal probes built. */
    method ProbeDiagonals(p: Pos, orthogonal: seq<Pos>) returns (found: seq<Pos>)
      requires CellsColored() && InBounds(p, size)
      requires orthogonal == Keep(color, size, Orthogonal(p))
      ensures found == Keep(color, size, Orthogonal(p) + Diagonal(p))
    {
      found := orthogonal;
      var dirs := [(-1, -1), (-1, 1), (1, -1), (1, 1)];
      for k := 0 to 4
        invariant found == orthogonal + Keep(color, size, Diagonal(p)[..k])
      {
        var r: int, c: int := p.row + dirs[k].0, p.col + dirs[k].1;
        assert (r, c) == Diagonal(p)[k];
        ghost var before := found;
        if 0 <= r < size && 0 <= c < size {
          if color[Pos(r, c)] != Wall {
            found := found + [Pos(r, c)];
          }
        }
        assert found == before + Hit(color, size, (r, c));
        assert Diagonal(p)[..k + 1][..k] == Diagonal(p)[..k];
      }
      assert Diagonal(p)[..4] == Diagonal(p);
      KeepAppend(color, size, Orthogonal(p), Diagonal(p));
    }

    /** The loop over every cell calling `update_neighbors` that runs before each search:
        afterwards every list matches the current colours. */
    method UpdateAllNeighbors()
      requires Valid()
      modifies this`neighbors
      ensures Valid() && NeighborsCurrent()
    {
      for i := 0 to size
        invariant Valid()
        invariant forall q :: q in neighbors && q.row < i ==> neighbors[q] == NeighborsOf(color, size, q, adjacency)
      {
        for j := 0 to size
          invariant Valid()
          invariant forall q :: q in neighbors && (q.row < i || (q.row == i && q.col < j)) ==>
            neighbors[q] == NeighborsOf(color, size, q, adjacency)
        {
          ghost var before := neighbors;
          UpdateNeighbors(Pos(i, j));
          forall q | q in neighbors && (q.row < i || (q.row == i && q.col < j + 1))
            ensures neighbors[q] == NeighborsOf(color, size, q, adjacency)
          {
            if q != Pos(i, j) {
              assert neighbors[q] == before[q];
            }
          }
        }
      }
    }
  }
}
