/** The neighbour list that `Cell.update_neighbors` computes, as a function of the grid's
    colours, and what that list contains: the in-bounds non-wall cells one step away,
    each once, the orthogonal ones first. */
module Neighbors {
  import opened Cells

  /** `is_wall` of the cell at q. Every in-bounds cell is a key of a valid grid's colours. */
  predicate WallAt(color: map<Pos, Color>, q: Pos) {
    q in color && color[q] == Wall
  }

  /** The probe at (r, c) succeeds: the position is on the n-by-n grid and not a wall. */
  predicate Passes(color: map<Pos, Color>, n: nat, rc: (int, int)) {
    0 <= rc.0 < n && 0 <= rc.1 < n && !WallAt(color, Pos(rc.0, rc.1))
  }

  /** The positions `update_neighbors` probes from p, in its order: down, up, left, right. */
  function Orthogonal(p: Pos): seq<(int, int)> {
    [(p.row + 1, p.col), (p.row - 1, p.col), (p.row, p.col - 1), (p.row, p.col + 1)]
  }

  /** The diagonal positions, in the order of its `dirs` list: (-1,-1), (-1,1), (1,-1), (1,1). */
  function Diagonal(p: Pos): seq<(int, int)> {
    [(p.row - 1, p.col - 1), (p.row - 1, p.col + 1), (p.row + 1, p.col - 1), (p.row + 1, p.col + 1)]
  }

  /** Every position probed from p under the given adjacency rule, in probe order. */
  function Candidates(p: Pos, adj: Adjacency): seq<(int, int)> {
    if adj == EightWay then Orthogonal(p) + Diagonal(p) else Orthogonal(p)
  }

  /** The probe at rc as a list: the cell there when the probe passes, else nothing. */
  function Hit(color: map<Pos, Color>, n: nat, rc: (int, int)): seq<Pos> {
    if Passes(color, n, rc) then [Pos(rc.0, rc.1)] else []
  }

  /** The probes along cs that pass, in order, as cells. */
  function Keep(color: map<Pos, Color>, n: nat, cs: seq<(int, int)>): seq<Pos>
    decreases |cs|
  {
    if cs == [] then [] else Keep(color, n, cs[..|cs| - 1]) + Hit(color, n, cs[|cs| - 1])
  }

  /** The list `update_neighbors` stores for the cell at p. */
  function NeighborsOf(color: map<Pos, Color>, n: nat, p: Pos, adj: Adjacency): seq<Pos> {
    Keep(color, n, Candidates(p, adj))
  }

  /** Four probes in a row keep what each of them finds, in order. */
  lemma KeepFour(color: map<Pos, Color>, n: nat, a: (int, int), b: (int, int), c: (int, int), d: (int, int))
    ensures Keep(color, n, [a, b, c, d]) ==
      Hit(color, n, a) + Hit(color, n, b) + Hit(color, n, c) + Hit(color, n, d)
  {
    var cs := [a, b, c, d];
    assert Keep(color, n, cs[..1]) == Hit(color, n, a) by {
      assert cs[..1][..0] == [];
    }
    assert Keep(color, n, cs[..2]) == Keep(color, n, cs[..1]) + Hit(color, n, b) by {
      assert cs[..2][..1] == cs[..1];
    }
    assert Keep(color, n, cs[..3]) == Keep(color, n, cs[..2]) + Hit(color, n, c) by {
      assert cs[..3][..2] == cs[..2];
    }
    assert cs[..|cs| - 1] == cs[..3];
  }

  /** Probing two runs of positions one after the other keeps what each run keeps, in order. */
  lemma {:induction false} KeepAppend(color: map<Pos, Color>, n: nat, a: seq<(int, int)>, b: seq<(int, int)>)
    ensures Keep(color, n, a + b) == Keep(color, n, a) + Keep(color, n, b)
    decreases |b|
  {
    if b != [] {
      var front := b[..|b| - 1];
      assert (a + b)[..|a + b| - 1] == a + front;
      KeepAppend(color, n, a, front);
    } else {
      assert a + b == a;
    }
  }

  /** Soundness of the filter: it keeps only in-bounds non-wall cells at probed positions,
      and no more cells than there are probes. */
  lemma {:induction false} KeepSound(color: map<Pos, Color>, n: nat, cs: seq<(int, int)>)
    ensures |Keep(color, n, cs)| <= |cs|
    ensures forall q :: q in Keep(color, n, cs) ==>
      InBounds(q, n) && !WallAt(color, q) && (q.row as int, q.col as int) in cs
    decreases |cs|
  {
    if cs != [] {
      var front := cs[..|cs| - 1];
      KeepSound(color, n, front);
      forall q | q in Keep(color, n, front)
        ensures (q.row as int, q.col as int) in cs
      {
        var i :| 0 <= i < |front| && front[i] == (q.row as int, q.col as int);
        assert cs[i] == front[i];
      }
    }
  }

  /** Completeness of the filter: every probed position that passes is kept. */
  lemma {:induction false} KeepComplete(color: map<Pos, Color>, n: nat, cs: seq<(int, int)>)
    ensures forall q :: InBounds(q, n) && !WallAt(color, q) && (q.row as int, q.col as int) in cs ==>
      q in Keep(color, n, cs)
    decreases |cs|
  {
    if cs != [] {
      var front := cs[..|cs| - 1];
      KeepComplete(color, n, front);
      forall q | InBounds(q, n) && !WallAt(color, q) && (q.row as int, q.col as int) in cs
        ensures q in Keep(color, n, cs)
      {
        var i :| 0 <= i < |cs| && cs[i] == (q.row as int, q.col as int);
        if i < |cs| - 1 {
          assert front[i] == cs[i];
        }
      }
    }
  }

  /** The filter keeps each cell at most once when no position is probed twice. */
  lemma {:induction false} KeepDistinct(color: map<Pos, Color>, n: nat, cs: seq<(int, int)>)
    requires forall i, j :: 0 <= i < j < |cs| ==> cs[i] != cs[j]
    ensures var s := Keep(color, n, cs); forall i, j :: 0 <= i < j < |s| ==> s[i] != s[j]
    decreases |cs|
  {
    if cs != [] {
      var front := cs[..|cs| - 1];
      var last := cs[|cs| - 1];
      KeepDistinct(color, n, front);
      KeepSound(color, n, front);
      var prev, s := Keep(color, n, front), Keep(color, n, cs);
      forall i, j | 0 <= i < j < |s|
        ensures s[i] != s[j]
      {
        assert s[i] == prev[i];
        if j < |prev| {
          assert s[j] == prev[j];
        } else {
          assert s[j] in Hit(color, n, last);
        }
      }
    }
  }

  /** Every probed position is one step from p under the rule, every position one step from p
      is probed, and no position is probed twice. */
  lemma CandidatesAdjacent(p: Pos, adj: Adjacency)
    ensures forall q: Pos :: (q.row as int, q.col as int) in Candidates(p, adj) <==> Adjacent(p, q, adj)
    ensures forall i, j :: 0 <= i < j < |Candidates(p, adj)| ==> Candidates(p, adj)[i] != Candidates(p, adj)[j]
  {
    var cs := Candidates(p, adj);
    forall q: Pos | Adjacent(p, q, adj)
      ensures (q.row as int, q.col as int) in cs
    {
      var dr, dc := q.row as int - p.row as int, q.col as int - p.col as int;
      var i :=
        if dr == 1 && dc == 0 then 0
        else if dr == -1 && dc == 0 then 1
        else if dr == 0 && dc == -1 then 2
        else if dr == 0 && dc == 1 then 3
        else if dr == -1 && dc == -1 then 4
        else if dr == -1 && dc == 1 then 5
        else if dr == 1 && dc == -1 then 6
        else 7;
      assert cs[i] == (q.row as int, q.col as int);
    }
  }

  /** Soundness: the list holds only in-bounds, non-wall cells one step from p
      (Chebyshev distance 1 for EightWay, Manhattan distance 1 for FourWay). */
  lemma NeighborsSound(color: map<Pos, Color>, n: nat, p: Pos, adj: Adjacency)
    ensures forall q :: q in NeighborsOf(color, n, p, adj) ==>
      InBounds(q, n) && !WallAt(color, q) && Adjacent(p, q, adj)
  {
    KeepSound(color, n, Candidates(p, adj));
    CandidatesAdjacent(p, adj);
  }

  /** Completeness: every in-bounds, non-wall cell one step from p is listed. */
  lemma NeighborsComplete(color: map<Pos, Color>, n: nat, p: Pos, adj: Adjacency)
    ensures forall q :: InBounds(q, n) && !WallAt(color, q) && Adjacent(p, q, adj) ==>
      q in NeighborsOf(color, n, p, adj)
  {
    KeepComplete(color, n, Candidates(p, adj));
    CandidatesAdjacent(p, adj);
  }

  /** Size, order and uniqueness: at most 4 (FourWay) or 8 (EightWay) cells, no cell twice,
      and an EightWay list is the FourWay list followed by the diagonal cells that pass. */
  lemma NeighborsOrdered(color: map<Pos, Color>, n: nat, p: Pos, adj: Adjacency)
    ensures var s := NeighborsOf(color, n, p, adj);
      && |s| <= (if adj == FourWay then 4 else 8)
      && (forall i, j :: 0 <= i < j < |s| ==> s[i] != s[j])
    ensures NeighborsOf(color, n, p, EightWay) ==
      NeighborsOf(color, n, p, FourWay) + Keep(color, n, Diagonal(p))
  {
    KeepSound(color, n, Candidates(p, adj));
    CandidatesAdjacent(p, adj);
    KeepDistinct(color, n, Candidates(p, adj));
    KeepAppend(color, n, Orthogonal(p), Diagonal(p));
  }

  /** With FourWay lists the heuristic is consistent along every listed step. */
  lemma HConsistentOnNeighbors(color: map<Pos, Color>, n: nat, p: Pos, goal: Pos)
    ensures forall q :: q in NeighborsOf(color, n, p, FourWay) ==> H(p, goal) <= 1 + H(q, goal)
  {
    NeighborsSound(color, n, p, FourWay);
    forall q | q in NeighborsOf(color, n, p, FourWay)
      ensures H(p, goal) <= 1 + H(q, goal)
    {
      HConsistentFourWay(p, q, goal);
    }
  }
}
