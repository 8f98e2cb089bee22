/** Facts about the bookkeeping maps of `aStar` that do not depend on the search loop:
    the parent chain in `came_from` that `backtrack` follows, walks through the cells'
    neighbour lists, and the sum of the g scores that bounds how often a score can drop. */
module Chains {
  import opened Cells

  /** Every cell with a parent has a score, and so does its parent, whose score is lower.
      The g score then ranks the chain, so following parents always stops. */
  ghost predicate ParentsBelow(cameFrom: map<Pos, Pos>, g: map<Pos, nat>) {
    forall c {:trigger cameFrom[c]} :: c in cameFrom ==> c in g && cameFrom[c] in g && g[cameFrom[c]] < g[c]
  }

  /** The cells `backtrack` visits from c, in its order: c's parent, its parent's parent, and
      so on up to the first cell without a parent. */
  ghost function Ancestors(cameFrom: map<Pos, Pos>, g: map<Pos, nat>, c: Pos): seq<Pos>
    requires ParentsBelow(cameFrom, g) && c in g
    decreases g[c]
  {
    if c in cameFrom then [cameFrom[c]] + Ancestors(cameFrom, g, cameFrom[c]) else []
  }

  /** The chain of parents read forwards: from the root to c. */
  ghost function Lineage(cameFrom: map<Pos, Pos>, g: map<Pos, nat>, c: Pos): (l: seq<Pos>)
    requires ParentsBelow(cameFrom, g) && c in g
    ensures |l| > 0 && l[|l| - 1] == c
    decreases g[c]
  {
    if c in cameFrom then Lineage(cameFrom, g, cameFrom[c]) + [c] else [c]
  }

  /** A walk along neighbour lists: every step goes from a listed cell to one of its neighbours. */
  ghost predicate IsWalk(nbrs: map<Pos, seq<Pos>>, path: seq<Pos>) {
    && |path| > 0
    && forall i :: 0 <= i < |path| - 1 ==> Step(nbrs, path[i], path[i + 1])
  }

  /** b is on a's neighbour list. */
  ghost predicate Step(nbrs: map<Pos, seq<Pos>>, a: Pos, b: Pos) {
    a in nbrs && b in nbrs[a]
  }

  /** The cells `backtrack` paints from c are those of c's lineage other than c itself,
      and c is not among them. */
  lemma {:induction false} AncestorsAreLineage(cameFrom: map<Pos, Pos>, g: map<Pos, nat>, c: Pos)
    requires ParentsBelow(cameFrom, g) && c in g
    ensures var l := Lineage(cameFrom, g, c);
      forall q :: q in Ancestors(cameFrom, g, c) <==> q in l[..|l| - 1]
    ensures forall q :: q in Ancestors(cameFrom, g, c) ==> q in g && g[q] < g[c]
    decreases g[c]
  {
    if c in cameFrom {
      var p := cameFrom[c];
      AncestorsAreLineage(cameFrom, g, p);
      var lp := Lineage(cameFrom, g, p);
      var l := Lineage(cameFrom, g, c);
      assert l[..|l| - 1] == lp;
      assert lp == lp[..|lp| - 1] + [p];
    }
  }

  /** Read forwards, the chain of parents from a scored cell starts at the one scored cell
      without a parent and is a walk whenever every parent lists its child as a neighbour. */
  lemma {:induction false} LineageWalk(cameFrom: map<Pos, Pos>, g: map<Pos, nat>, nbrs: map<Pos, seq<Pos>>,
                                       root: Pos, c: Pos)
    requires ParentsBelow(cameFrom, g) && c in g
    requires forall q :: q in g && q !in cameFrom ==> q == root
    requires forall q :: q in cameFrom ==> cameFrom[q] in nbrs && q in nbrs[cameFrom[q]]
    ensures var l := Lineage(cameFrom, g, c); l[0] == root && IsWalk(nbrs, l)
    decreases g[c]
  {
    if c in cameFrom {
      var p := cameFrom[c];
      LineageWalk(cameFrom, g, nbrs, root, p);
      var lp := Lineage(cameFrom, g, p);
      var l := Lineage(cameFrom, g, c);
      assert l == lp + [c];
      forall i | 0 <= i < |l| - 1
        ensures Step(nbrs, l[i], l[i + 1])
      {
        if i + 1 < |lp| {
          assert l[i] == lp[i] && l[i + 1] == lp[i + 1];
        } else {
          assert l[i] == p && l[i + 1] == c;
        }
      }
      assert l[0] == lp[0];
    } else {
      assert Lineage(cameFrom, g, c) == [c];
    }
  }

  /** A walk that starts inside a set of cells closed under the neighbour lists never leaves it. */
  lemma {:induction false} ClosedSetTrapsWalks(nbrs: map<Pos, seq<Pos>>, d: set<Pos>, path: seq<Pos>)
    requires forall c, m {:trigger m in nbrs[c]} :: c in d && c in nbrs && m in nbrs[c] ==> m in d
    requires IsWalk(nbrs, path) && path[0] in d
    ensures forall i :: 0 <= i < |path| ==> path[i] in d
    decreases |path|
  {
    if |path| > 1 {
      var front := path[..|path| - 1];
      assert IsWalk(nbrs, front) by {
        forall i | 0 <= i < |front| - 1
          ensures Step(nbrs, front[i], front[i + 1])
        {
          assert front[i] == path[i] && front[i + 1] == path[i + 1];
        }
      }
      ClosedSetTrapsWalks(nbrs, d, front);
      assert path[|path| - 2] == front[|front| - 1];
      assert Step(nbrs, path[|path| - 2], path[|path| - 1]);
    }
  }

  /** The sum of all scores in g. */
  ghost function Potential(g: map<Pos, nat>): nat
    decreases g.Keys
  {
    if g == map[] then 0
    else
      var c := Pick(g.Keys);
      g[c] + Potential(g - {c})
  }

  /** Some element of a non-empty set. */
  ghost function Pick(s: set<Pos>): (c: Pos)
    requires s != {}
    ensures c in s
  {
    var c :| c in s; c
  }

  /** The sum can be split at any cell, whichever cell the definition happens to pick. */
  lemma {:induction false} PotentialSplit(g: map<Pos, nat>, x: Pos)
    requires x in g
    ensures Potential(g) == g[x] + Potential(g - {x})
    decreases g.Keys
  {
    var c := Pick(g.Keys);
    if c != x {
      var gc, gx := g - {c}, g - {x};
      PotentialSplit(gc, x);
      PotentialSplit(gx, c);
      assert gc - {x} == gx - {c};
    }
  }

  /** Lowering one score by d lowers the sum by d. */
  lemma PotentialLower(g: map<Pos, nat>, x: Pos, v: nat)
    requires x in g && v <= g[x]
    ensures Potential(g[x := v]) + (g[x] - v) == Potential(g)
  {
    PotentialSplit(g, x);
    PotentialSplit(g[x := v], x);
    assert g[x := v] - {x} == g - {x};
  }

  /** The chain `backtrack` follows from a scored cell c, read forwards: a walk from the root
      to c through scored cells, whose cells other than c are exactly the ones it paints. */
  lemma LineageFacts(cameFrom: map<Pos, Pos>, g: map<Pos, nat>, nbrs: map<Pos, seq<Pos>>, root: Pos, c: Pos)
    requires ParentsBelow(cameFrom, g) && c in g
    requires forall q :: q in g && q !in cameFrom ==> q == root
    requires forall q :: q in cameFrom ==> cameFrom[q] in nbrs && q in nbrs[cameFrom[q]]
    ensures var l := Lineage(cameFrom, g, c);
      && IsWalk(nbrs, l) && l[0] == root && l[|l| - 1] == c
      && (forall i :: 0 <= i < |l| ==> l[i] in g)
      && (forall i :: 0 <= i < |l| - 1 ==> l[i] in Ancestors(cameFrom, g, c))
      && (forall q :: q in Ancestors(cameFrom, g, c) ==> q in l && q != c)
  {
    var l := Lineage(cameFrom, g, c);
    LineageWalk(cameFrom, g, nbrs, root, c);
    AncestorsAreLineage(cameFrom, g, c);
    forall i | 0 <= i < |l| - 1
      ensures l[i] in Ancestors(cameFrom, g, c)
    {
      assert l[i] in l[..|l| - 1];
    }
    forall q | q in Ancestors(cameFrom, g, c)
      ensures q in l
    {
      var i :| 0 <= i < |l| - 1 && l[..|l| - 1][i] == q;
      assert l[i] == q;
    }
  }
}
