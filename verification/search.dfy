/** `aStar` and `backtrack`, identical in both programs. The locals of `aStar` (the queue,
    its mirror set `open_set_hash`, the score and parent dictionaries and the counter) form a
    `Frontier`; the cells' colours live in the `Grid`. A dictionary entry of infinity is an
    absent key. Each redraw through `draw` is omitted. */
module Search {
  import opened Cells
  import opened Neighbors
  import opened Grids
  import opened PriorityQueues
  import opened Chains

  /** The locals of `aStar`: `open_set`, `open_set_hash`, `g_score`, `f_score`,
      `came_from` and `count`. */
  datatype Frontier = Frontier(
    openSet: seq<Entry>,
    openSetHash: set<Pos>,
    gScore: map<Pos, nat>,
    fScore: map<Pos, nat>,
    cameFrom: map<Pos, Pos>,
    count: nat)

  /** The mirror set holds exactly the queued cells, each cell is queued once, counts rise
      along the queue up to the counter, and the start's entry, while queued, is (0, 0). */
  ghost predicate QueueOk(s: Frontier, start: Pos) {
    && CountsRise(s.openSet)
    && CellsOnce(s.openSet)
    && QueuedCells(s.openSet) == s.openSetHash
    && (forall i :: 0 <= i < |s.openSet| ==> s.openSet[i].count <= s.count)
    && (forall i :: 0 <= i < |s.openSet| && s.openSet[i].cell == start ==>
          s.openSet[i].f == 0 && s.openSet[i].count == 0)
  }

  /** The scores: the start is scored 0; every scored cell is a grid cell, with f = g + h;
      queued cells are scored; exactly the scored cells other than the start have a parent,
      which lists the cell as a neighbour and has a lower g score. */
  ghost predicate ScoresOk(s: Frontier, nbrs: map<Pos, seq<Pos>>, start: Pos, end: Pos) {
    && start in s.gScore && s.gScore[start] == 0
    && (forall c :: c in s.gScore ==> c in nbrs)
    && (forall c :: c in s.openSetHash ==> c in s.gScore)
    && (forall c :: c in s.fScore <==> c in s.gScore)
    && (forall c :: c in s.gScore ==> s.fScore[c] == s.gScore[c] + H(c, end))
    && (forall c :: c in s.cameFrom <==> c in s.gScore && c != start)
    && ParentsBelow(s.cameFrom, s.gScore)
    && (forall c {:trigger s.cameFrom[c]} :: c in s.cameFrom ==> Step(nbrs, s.cameFrom[c], c))
  }

  /** Every scored cell that is neither queued nor being expanded has had all of its
      neighbours scored. */
  ghost predicate Settled(s: Frontier, nbrs: map<Pos, seq<Pos>>, active: set<Pos>) {
    forall c :: c in s.gScore && c !in s.openSetHash && c !in active && c in nbrs ==> AllScored(nbrs[c], s.gScore)
  }

  /** Every cell on the list is scored. */
  ghost predicate AllScored(l: seq<Pos>, g: map<Pos, nat>) {
    forall k :: 0 <= k < |l| ==> l[k] in g
  }

  /** The colour a cell has during the search: the start and unscored cells keep their
      colour from before; other scored cells are open while queued or being expanded, and
      closed after. */
  ghost function Expected(s: Frontier, orig: map<Pos, Color>, start: Pos, active: set<Pos>, q: Pos): Color
    requires q in orig
  {
    if q == start || q !in s.gScore then orig[q]
    else if q in s.openSetHash || q in active then Open
    else Closed
  }

  ghost predicate Painted(s: Frontier, color: map<Pos, Color>, orig: map<Pos, Color>, start: Pos, active: set<Pos>) {
    && (forall q :: q in color <==> q in orig)
    && (forall q :: q in color ==> color[q] == Expected(s, orig, start, active, q))
  }

  /** Everything `aStar` keeps true between steps. `end` is never scored without being queued,
      because taking it from the queue ends the search. */
  ghost predicate Searching(s: Frontier, nbrs: map<Pos, seq<Pos>>, color: map<Pos, Color>,
                            orig: map<Pos, Color>, start: Pos, end: Pos, active: set<Pos>) {
    && QueueOk(s, start)
    && ScoresOk(s, nbrs, start, end)
    && Settled(s, nbrs, active)
    && (end in s.gScore ==> end in s.openSetHash)
    && Painted(s, color, orig, start, active)
  }

  /** Scores are never removed and only ever lowered. */
  ghost predicate Lowered(s: Frontier, t: Frontier) {
    forall c :: c in s.gScore ==> c in t.gScore && t.gScore[c] <= s.gScore[c]
  }

  /** While no new cell is scored, twice the score sum plus the queue length does not grow:
      every entry put on the queue paid for itself with a lowered score. */
  ghost predicate Paid(s: Frontier, t: Frontier) {
    t.gScore.Keys == s.gScore.Keys ==>
      2 * Potential(t.gScore) + |t.openSet| <= 2 * Potential(s.gScore) + |s.openSet|
  }

  /** `backtrack(came_from, current, draw)`: follow the parents from current and paint each
      cell reached as path, up to and including the cell without a parent. */
  method Backtrack(grid: Grid, cameFrom: map<Pos, Pos>, current: Pos, ghost g: map<Pos, nat>)
    requires grid.Valid() && ParentsBelow(cameFrom, g) && current in g
    requires forall c :: c in g ==> InBounds(c, grid.size)
    modifies grid`color
    ensures grid.Valid()
    ensures forall q :: q in grid.color ==>
      grid.color[q] == if q in Ancestors(cameFrom, g, current) then Path else old(grid.color)[q]
  {
    var cur := current;
    ghost var painted: seq<Pos> := [];
    while cur in cameFrom
      invariant grid.Valid() && cur in g
      invariant painted + Ancestors(cameFrom, g, cur) == Ancestors(cameFrom, g, current)
      invariant forall q :: q in grid.color ==> grid.color[q] == if q in painted then Path else old(grid.color)[q]
      decreases g[cur]
    {
      ghost var rest := Ancestors(cameFrom, g, cur);
      cur := cameFrom[cur];
      grid.SetColor(cur, Path);
      assert rest == [cur] + Ancestors(cameFrom, g, cur);
      painted := painted + [cur];
    }
  }

  /** The score update when going through current improves neighbour nb: parent current,
      g = g(current) + 1 and f = g + h. */
  function Improve(s: Frontier, current: Pos, nb: Pos, end: Pos): (t: Frontier)
    requires current in s.gScore
    ensures nb in t.gScore && t.gScore[nb] == s.gScore[current] + 1
    ensures t.openSet == s.openSet && t.openSetHash == s.openSetHash && t.count == s.count
  {
    var temp := s.gScore[current] + 1;
    s.(cameFrom := s.cameFrom[nb := current],
       gScore := s.gScore[nb := temp],
       fScore := s.fScore[nb := temp + H(nb, end)])
  }

  /** Putting nb on the queue with the next count and its f score, and into the mirror set. */
  function Push(s: Frontier, nb: Pos): (t: Frontier)
    requires nb in s.fScore
    ensures t.count == s.count + 1 && t.openSetHash == s.openSetHash + {nb}
    ensures t.openSet == s.openSet + [Entry(s.fScore[nb], t.count, nb)]
  {
    var count := s.count + 1;
    s.(count := count,
       openSet := s.openSet + [Entry(s.fScore[nb], count, nb)],
       openSetHash := s.openSetHash + {nb})
  }

  /** The queue invariant only depends on the queue, the mirror set and the counter. */
  lemma QueueUnchanged(s: Frontier, t: Frontier, start: Pos)
    requires QueueOk(s, start)
    requires t.openSet == s.openSet && t.openSetHash == s.openSetHash && t.count == s.count
    ensures QueueOk(t, start)
  {
  }

  /** An improving update keeps the scores well formed and lowers one score. */
  lemma ImproveScores(s: Frontier, nbrs: map<Pos, seq<Pos>>, current: Pos, nb: Pos, start: Pos, end: Pos)
    requires ScoresOk(s, nbrs, start, end)
    requires current in s.gScore && Step(nbrs, current, nb) && nb in nbrs
    requires nb !in s.gScore || s.gScore[current] + 1 < s.gScore[nb]
    ensures var t := Improve(s, current, nb, end);
      nb != start && ScoresOk(t, nbrs, start, end) && Lowered(s, t)
  {
    var t := Improve(s, current, nb, end);
    assert nb != current && nb != start;
    ImproveParents(s, current, nb, end);
    assert forall c :: c in t.cameFrom ==> Step(nbrs, t.cameFrom[c], c);
  }

  /** Lowering a score that exists lowers the score sum by at least one. */
  lemma ImprovePays(s: Frontier, current: Pos, nb: Pos, end: Pos)
    requires current in s.gScore && nb in s.gScore && s.gScore[current] + 1 < s.gScore[nb]
    ensures Potential(Improve(s, current, nb, end).gScore) < Potential(s.gScore)
  {
    PotentialLower(s.gScore, nb, s.gScore[current] + 1);
  }

  /** An improving update keeps parents scored below their children. */
  lemma ImproveParents(s: Frontier, current: Pos, nb: Pos, end: Pos)
    requires ParentsBelow(s.cameFrom, s.gScore) && current in s.gScore
    requires nb !in s.gScore || s.gScore[current] + 1 < s.gScore[nb]
    ensures var t := Improve(s, current, nb, end); ParentsBelow(t.cameFrom, t.gScore)
  {
    var t := Improve(s, current, nb, end);
    forall c | c in t.cameFrom
      ensures c in t.gScore && t.cameFrom[c] in t.gScore && t.gScore[t.cameFrom[c]] < t.gScore[c]
    {
      if c != nb {
        var p := s.cameFrom[c];
        assert t.cameFrom[c] == p && t.gScore[c] == s.gScore[c];
        assert t.gScore[p] <= s.gScore[p];
      }
    }
  }

  /** Queueing a scored, unqueued cell keeps the queue and the scores well formed. */
  lemma PushKeeps(s: Frontier, nbrs: map<Pos, seq<Pos>>, nb: Pos, start: Pos, end: Pos)
    requires QueueOk(s, start) && ScoresOk(s, nbrs, start, end)
    requires nb in s.gScore && nb !in s.openSetHash && nb != start
    ensures QueueOk(Push(s, nb), start) && ScoresOk(Push(s, nb), nbrs, start, end)
  {
    PutKeeps(s.openSet, Entry(s.fScore[nb], s.count + 1, nb));
  }

  /** Scoring or queueing more cells keeps the settled cells settled, as long as every cell
      that is settled afterwards was settled before. */
  lemma SettledGrow(s: Frontier, t: Frontier, nbrs: map<Pos, seq<Pos>>, active: set<Pos>)
    requires Settled(s, nbrs, active) && Lowered(s, t)
    requires forall c :: c in t.gScore && c !in t.openSetHash && c !in active ==> c in s.gScore && c !in s.openSetHash
    ensures Settled(t, nbrs, active)
  {
  }

  /** The colours stay as expected when the search state changes at nb only and nb is
      given its expected colour. */
  lemma PaintedAt(s: Frontier, t: Frontier, color: map<Pos, Color>, orig: map<Pos, Color>, start: Pos,
                  active: set<Pos>, nb: Pos, c: Color)
    requires Painted(s, color, orig, start, active) && nb in color
    requires forall q :: q != nb ==> (q in t.gScore <==> q in s.gScore) && (q in t.openSetHash <==> q in s.openSetHash)
    requires c == Expected(t, orig, start, active, nb)
    ensures Painted(t, color[nb := c], orig, start, active)
  {
    forall q | q in color[nb := c]
      ensures color[nb := c][q] == Expected(t, orig, start, active, q)
    {
      if q != nb {
        assert Expected(t, orig, start, active, q) == Expected(s, orig, start, active, q);
      }
    }
  }

  /** The colours stay as expected when the search state changes at nb only and nb already
      has its expected colour. */
  lemma PaintedStill(s: Frontier, t: Frontier, color: map<Pos, Color>, orig: map<Pos, Color>, start: Pos,
                     active: set<Pos>, nb: Pos)
    requires Painted(s, color, orig, start, active) && nb in color
    requires forall q :: q != nb ==> (q in t.gScore <==> q in s.gScore) && (q in t.openSetHash <==> q in s.openSetHash)
    requires color[nb] == Expected(t, orig, start, active, nb)
    ensures Painted(t, color, orig, start, active)
  {
    forall q | q in color
      ensures color[q] == Expected(t, orig, start, active, q)
    {
      if q != nb {
        assert Expected(t, orig, start, active, q) == Expected(s, orig, start, active, q);
      }
    }
  }

  /** Going through current gives neighbour nb a lower g score than it has (none is infinity). */
  predicate Improves(s: Frontier, current: Pos, nb: Pos)
    requires current in s.gScore
  {
    nb !in s.gScore || s.gScore[current] + 1 < s.gScore[nb]
  }

  /** The improvement also puts nb on the queue: it was not queued. */
  predicate Pushes(s: Frontier, current: Pos, nb: Pos)
    requires current in s.gScore
  {
    Improves(s, current, nb) && nb !in s.openSetHash
  }

  /** The search state after one pass of the neighbour loop. */
  function Relaxed(s: Frontier, current: Pos, nb: Pos, end: Pos): (t: Frontier)
    requires current in s.gScore
    ensures s.gScore.Keys <= t.gScore.Keys
    ensures nb in t.gScore || !Improves(s, current, nb)
  {
    if Improves(s, current, nb) then
      var u := Improve(s, current, nb, end);
      if nb !in u.openSetHash then Push(u, nb) else u
    else s
  }

  /** One pass of the neighbour loop keeps everything the search keeps, scores nb, lowers
      scores only, pays for what it queues and counts every entry it queues. */
  lemma RelaxKeeps(s: Frontier, nbrs: map<Pos, seq<Pos>>, color: map<Pos, Color>, orig: map<Pos, Color>,
                   current: Pos, nb: Pos, start: Pos, end: Pos)
    requires Step(nbrs, current, nb) && nb in nbrs && nb in color
    requires current in s.gScore && current !in s.openSetHash
    requires Searching(s, nbrs, color, orig, start, end, {current})
    ensures var t := Relaxed(s, current, nb, end);
      var after := if Pushes(s, current, nb) then color[nb := Open] else color;
      && Searching(t, nbrs, after, orig, start, end, {current})
      && nb in t.gScore && current !in t.openSetHash
      && Lowered(s, t) && Paid(s, t)
      && t.count == s.count + (|t.openSet| - |s.openSet|) && |t.openSet| <= |s.openSet| + 1
  {
    if Improves(s, current, nb) {
      if nb !in s.openSetHash {
        PushCaseKeeps(s, nbrs, color, orig, current, nb, start, end);
      } else {
        QueuedCaseKeeps(s, nbrs, color, orig, current, nb, start, end);
      }
    }
  }

  /** RelaxKeeps when nb improves and is not queued yet. */
  lemma PushCaseKeeps(s: Frontier, nbrs: map<Pos, seq<Pos>>, color: map<Pos, Color>, orig: map<Pos, Color>,
                      current: Pos, nb: Pos, start: Pos, end: Pos)
    requires Step(nbrs, current, nb) && nb in nbrs && nb in color
    requires current in s.gScore && current !in s.openSetHash
    requires Searching(s, nbrs, color, orig, start, end, {current})
    requires Improves(s, current, nb) && nb !in s.openSetHash
    ensures var t := Push(Improve(s, current, nb, end), nb);
      && Searching(t, nbrs, color[nb := Open], orig, start, end, {current})
      && nb in t.gScore && current !in t.openSetHash
      && Lowered(s, t) && Paid(s, t)
  {
    var u := Improve(s, current, nb, end);
    QueueUnchanged(s, u, start);
    ImproveScores(s, nbrs, current, nb, start, end);
    if nb in s.gScore {
      ImprovePays(s, current, nb, end);
    }
    PushKeeps(u, nbrs, nb, start, end);
    var t := Push(u, nb);
    PaintedAt(s, t, color, orig, start, {current}, nb, Open);
    SettledGrow(s, t, nbrs, {current});
  }

  /** RelaxKeeps when nb improves and is queued already. */
  lemma QueuedCaseKeeps(s: Frontier, nbrs: map<Pos, seq<Pos>>, color: map<Pos, Color>, orig: map<Pos, Color>,
                        current: Pos, nb: Pos, start: Pos, end: Pos)
    requires Step(nbrs, current, nb) && nb in nbrs && nb in color
    requires current in s.gScore && current !in s.openSetHash
    requires Searching(s, nbrs, color, orig, start, end, {current})
    requires Improves(s, current, nb) && nb in s.openSetHash
    ensures var t := Improve(s, current, nb, end);
      && Searching(t, nbrs, color, orig, start, end, {current})
      && nb in t.gScore && current !in t.openSetHash
      && Lowered(s, t) && Paid(s, t)
  {
    var t := Improve(s, current, nb, end);
    QueueUnchanged(s, t, start);
    ImproveScores(s, nbrs, current, nb, start, end);
    ImprovePays(s, current, nb, end);
    PaintedStill(s, t, color, orig, start, {current}, nb);
    SettledGrow(s, t, nbrs, {current});
  }

  /** The only score a pass changes is nb's, and then nb's parent becomes current and its g
      score is current's plus one. */
  lemma RelaxSetsParent(s: Frontier, current: Pos, nb: Pos, end: Pos)
    requires current in s.gScore && nb != current
    ensures var t := Relaxed(s, current, nb, end);
      forall c :: c in t.gScore && (c !in s.gScore || t.gScore[c] != s.gScore[c]) ==>
        c == nb && c in t.cameFrom && t.cameFrom[c] == current && t.gScore[c] == s.gScore[current] + 1
  {
  }

  /** One pass of the loop over `current.neighbors`: a neighbour whose score improves through
      current gets current as parent, g = g(current) + 1 and f = g + h, and unless it is
      already queued it is queued with a fresh count and painted open. */
  method Relax(grid: Grid, s: Frontier, current: Pos, nb: Pos, end: Pos) returns (t: Frontier)
    requires grid.Valid() && InBounds(nb, grid.size) && current in s.gScore
    modifies grid`color
    ensures grid.Valid()
    ensures t == Relaxed(s, current, nb, end)
    ensures grid.color == if Pushes(s, current, nb) then old(grid.color)[nb := Open] else old(grid.color)
  {
    var temp := s.gScore[current] + 1;
    t := s;
    if nb !in t.gScore || temp < t.gScore[nb] {
      t := Improve(t, current, nb, end);
      if nb !in t.openSetHash {
        t := Push(t, nb);
        grid.SetColor(nb, Open);
      }
    }
  }

  /** Lowering and paying compose over successive passes. */
  lemma ChainKeeps(s: Frontier, m: Frontier, t: Frontier)
    requires Lowered(s, m) && Lowered(m, t) && Paid(s, m) && Paid(m, t)
    ensures Lowered(s, t) && Paid(s, t)
  {
    if t.gScore.Keys == s.gScore.Keys {
      assert m.gScore.Keys == s.gScore.Keys;
    }
  }

  /** The search state and the colours after the loop over `current.neighbors` has relaxed
      the cells of l, in order. */
  function RelaxAll(s: Frontier, color: map<Pos, Color>, current: Pos, l: seq<Pos>, end: Pos)
    : (r: (Frontier, map<Pos, Color>))
    requires current in s.gScore
    ensures current in r.0.gScore
    decreases |l|
  {
    if l == [] then (s, color)
    else
      var m := RelaxAll(s, color, current, l[..|l| - 1], end);
      var nb := l[|l| - 1];
      (Relaxed(m.0, current, nb, end), if Pushes(m.0, current, nb) then m.1[nb := Open] else m.1)
  }

  /** Relaxing a run of neighbours of current keeps everything the search keeps, scores every
      cell of the run, lowers scores only and pays for what it queues. */
  lemma {:induction false} RelaxAllKeeps(s: Frontier, nbrs: map<Pos, seq<Pos>>, color: map<Pos, Color>,
                                         orig: map<Pos, Color>, current: Pos, l: seq<Pos>, start: Pos, end: Pos)
    requires current in s.gScore && current !in s.openSetHash
    requires Searching(s, nbrs, color, orig, start, end, {current})
    requires forall k :: 0 <= k < |l| ==> Step(nbrs, current, l[k]) && l[k] in nbrs && l[k] in orig
    ensures var r := RelaxAll(s, color, current, l, end);
      && Searching(r.0, nbrs, r.1, orig, start, end, {current})
      && current !in r.0.openSetHash
      && Lowered(s, r.0) && Paid(s, r.0)
    decreases |l|
  {
    if l != [] {
      var front, nb := l[..|l| - 1], l[|l| - 1];
      RelaxAllKeeps(s, nbrs, color, orig, current, front, start, end);
      var m := RelaxAll(s, color, current, front, end);
      RelaxKeeps(m.0, nbrs, m.1, orig, current, nb, start, end);
      var r := RelaxAll(s, color, current, l, end);
      ChainKeeps(s, m.0, r.0);
    }
  }

  /** After the loop over `current.neighbors` every cell on the list has a score, and every
      cell scored before still has one. */
  lemma {:induction false} RelaxAllScores(s: Frontier, color: map<Pos, Color>, current: Pos, l: seq<Pos>, end: Pos)
    requires current in s.gScore
    ensures var r := RelaxAll(s, color, current, l, end);
      AllScored(l, r.0.gScore) && s.gScore.Keys <= r.0.gScore.Keys
    decreases |l|
  {
    if l != [] {
      var front := l[..|l| - 1];
      RelaxAllScores(s, color, current, front, end);
      var r := RelaxAll(s, color, current, l, end);
      forall k | 0 <= k < |l|
        ensures l[k] in r.0.gScore
      {
        if k < |front| {
          assert l[k] == front[k];
        }
      }
    }
  }

  /** The loop over `current.neighbors`: relax every listed neighbour in list order. */
  method Expand(grid: Grid, s: Frontier, current: Pos, end: Pos) returns (t: Frontier)
    requires grid.Valid() && current in grid.neighbors && current in s.gScore
    modifies grid`color
    ensures grid.Valid()
    ensures (t, grid.color) == RelaxAll(s, old(grid.color), current, grid.neighbors[current], end)
  {
    var nbrs := grid.neighbors[current];
    t := s;
    for i := 0 to |nbrs|
      invariant grid.Valid()
      invariant (t, grid.color) == RelaxAll(s, old(grid.color), current, nbrs[..i], end)
    {
      var nb := nbrs[i];
      assert nb in grid.neighbors[current];
      t := Relax(grid, t, current, nb, end);
      assert nbrs[..i + 1][..i] == nbrs[..i];
    }
    assert nbrs[..|nbrs|] == nbrs;
  }

  /** `open_set.get()` followed by `open_set_hash.remove(current)`: the entry at place k leaves
      the queue and its cell leaves the mirror set. */
  function Pop(s: Frontier, k: nat): (t: Frontier)
    requires k < |s.openSet|
    ensures |t.openSet| == |s.openSet| - 1
    ensures t.gScore == s.gScore && t.fScore == s.fScore && t.cameFrom == s.cameFrom && t.count == s.count
  {
    s.(openSet := Remove(s.openSet, k), openSetHash := s.openSetHash - {s.openSet[k].cell})
  }

  /** The cell taken from the queue is in the mirror set, so `remove` does not fail; it is
      scored, and once taken it is the cell being expanded, keeping the colour the search gives
      it: open, or its own colour if it is the start. Unless it is the end, everything the
      search keeps still holds. */
  lemma PopKeeps(s: Frontier, nbrs: map<Pos, seq<Pos>>, color: map<Pos, Color>, orig: map<Pos, Color>,
                 start: Pos, end: Pos)
    requires s.openSet != []
    requires Searching(s, nbrs, color, orig, start, end, {})
    ensures var k := MinIndex(s.openSet); var current := s.openSet[k].cell; var t := Pop(s, k);
      && current in s.openSetHash && current in s.gScore && current !in t.openSetHash
      && QueueOk(t, start) && ScoresOk(t, nbrs, start, end) && Painted(t, color, orig, start, {current})
      && (current != end ==> Searching(t, nbrs, color, orig, start, end, {current}))
  {
    var k := MinIndex(s.openSet);
    var current := s.openSet[k].cell;
    var t := Pop(s, k);
    assert current in QueuedCells(s.openSet);
    RemoveKeeps(s.openSet, k);
    PopQueue(s, k, start);
    PopScores(s, nbrs, k, start, end);
    PopPainted(s, color, orig, start, k);
    if current != end {
      PopSettled(s, nbrs, k);
    }
  }

  /** Taking an entry from the queue changes no score and no parent. */
  lemma PopScores(s: Frontier, nbrs: map<Pos, seq<Pos>>, k: nat, start: Pos, end: Pos)
    requires k < |s.openSet| && ScoresOk(s, nbrs, start, end)
    ensures ScoresOk(Pop(s, k), nbrs, start, end)
  {
  }

  /** Taking an entry from the queue keeps the queue invariant. */
  lemma PopQueue(s: Frontier, k: nat, start: Pos)
    requires k < |s.openSet| && QueueOk(s, start)
    ensures QueueOk(Pop(s, k), start)
  {
    var t := Pop(s, k);
    RemoveKeeps(s.openSet, k);
    forall i | 0 <= i < |t.openSet|
      ensures t.openSet[i].count <= t.count
      ensures t.openSet[i].cell == start ==> t.openSet[i].f == 0 && t.openSet[i].count == 0
    {
      assert t.openSet[i] == s.openSet[if i < k then i else i + 1];
    }
  }

  /** The cell taken from the queue becomes the one being expanded, so nothing new is settled. */
  lemma PopSettled(s: Frontier, nbrs: map<Pos, seq<Pos>>, k: nat)
    requires k < |s.openSet| && Settled(s, nbrs, {})
    ensures Settled(Pop(s, k), nbrs, {s.openSet[k].cell})
  {
  }

  /** The cell taken from the queue keeps the colour the search gives it while it is expanded:
      open, or its own colour if it is the start, which is never painted open. */
  lemma PopPainted(s: Frontier, color: map<Pos, Color>, orig: map<Pos, Color>, start: Pos, k: nat)
    requires k < |s.openSet| && Painted(s, color, orig, start, {})
    requires s.openSet[k].cell in s.openSetHash
    ensures Painted(Pop(s, k), color, orig, start, {s.openSet[k].cell})
  {
    var t := Pop(s, k);
    forall q | q in color
      ensures color[q] == Expected(t, orig, start, {s.openSet[k].cell}, q)
    {
      assert Expected(t, orig, start, {s.openSet[k].cell}, q) == Expected(s, orig, start, {}, q);
    }
  }

  /** `set_close` on the expanded cell (except the start): with all of its neighbours scored
      it is settled, and it is painted closed. */
  lemma CloseKeeps(s: Frontier, nbrs: map<Pos, seq<Pos>>, color: map<Pos, Color>, orig: map<Pos, Color>,
                   current: Pos, start: Pos, end: Pos)
    requires Searching(s, nbrs, color, orig, start, end, {current})
    requires current in s.gScore && current !in s.openSetHash && current in color
    requires current in nbrs ==> AllScored(nbrs[current], s.gScore)
    ensures Searching(s, nbrs, if current != start then color[current := Closed] else color, orig, start, end, {})
    ensures var after := if current != start then color[current := Closed] else color;
      current in after && after[current] == if current == start then orig[start] else Closed
  {
    ClosePainted(s, color, orig, current, start);
  }

  /** The painting part of CloseKeeps. */
  lemma ClosePainted(s: Frontier, color: map<Pos, Color>, orig: map<Pos, Color>, current: Pos, start: Pos)
    requires Painted(s, color, orig, start, {current})
    requires current in s.gScore && current !in s.openSetHash && current in color
    ensures Painted(s, if current != start then color[current := Closed] else color, orig, start, {})
  {
    var after := if current != start then color[current := Closed] else color;
    forall q | q in after
      ensures after[q] == Expected(s, orig, start, {}, q)
    {
      if q != current {
        assert Expected(s, orig, start, {}, q) == Expected(s, orig, start, {current}, q);
      }
    }
  }

  /** The state `aStar` starts from: the start queued as (0, 0, start) and scored 0, its f
      score h(start, end), no parents, count 0. */
  function Init(start: Pos, end: Pos): (s: Frontier)
    ensures |s.openSet| == 1 && s.openSet[0].f == 0 && s.openSet[0].count == 0 && s.openSet[0].cell == start
    ensures start in s.fScore && (s.openSet[0].f == s.fScore[start] <==> start == end)
    ensures s.openSetHash == {start} && s.gScore == map[start := 0] && s.cameFrom == map[] && s.count == 0
  {
    Frontier([Entry(0, 0, start)], {start}, map[start := 0], map[start := H(start, end)], map[], 0)
  }

  /** The initial state satisfies everything the search keeps, with every cell painted as before. */
  lemma InitKeeps(nbrs: map<Pos, seq<Pos>>, color: map<Pos, Color>, start: Pos, end: Pos)
    requires start in nbrs
    ensures Searching(Init(start, end), nbrs, color, color, start, end, {})
  {
    var s := Init(start, end);
    assert QueuedCells(s.openSet) == {start} by {
      assert s.openSet[0].cell == start;
    }
  }

  /** Once the queue is empty the scored cells are closed under the neighbour lists, so every
      walk from the start stays among them; the end is not one of them. */
  lemma ExhaustedTrapsWalks(s: Frontier, nbrs: map<Pos, seq<Pos>>, color: map<Pos, Color>, orig: map<Pos, Color>,
                            start: Pos, end: Pos)
    requires Searching(s, nbrs, color, orig, start, end, {}) && s.openSet == []
    ensures end !in s.gScore
    ensures forall c, m {:trigger m in nbrs[c]} :: c in s.gScore && c in nbrs && m in nbrs[c] ==> m in s.gScore
    ensures forall p :: IsWalk(nbrs, p) && p[0] == start ==> forall i :: 0 <= i < |p| ==> p[i] in s.gScore
    ensures forall q :: q in color && (q == start || q !in s.gScore) ==> color[q] == orig[q]
    ensures forall q :: q in color && q in s.gScore && q != start ==> color[q] == Closed
  {
    assert s.openSetHash == {};
    forall c, m | c in s.gScore && c in nbrs && m in nbrs[c]
      ensures m in s.gScore
    {
      assert AllScored(nbrs[c], s.gScore);
    }
    forall p | IsWalk(nbrs, p) && p[0] == start
      ensures forall i :: 0 <= i < |p| ==> p[i] in s.gScore
    {
      ClosedSetTrapsWalks(nbrs, s.gScore.Keys, p);
    }
  }

  /** When the end is scored, the chain of parents from it read forwards is a walk from the
      start to the end through scored cells, and its cells other than the end are the ones
      `backtrack` paints. */
  lemma TraceFacts(s: Frontier, nbrs: map<Pos, seq<Pos>>, start: Pos, end: Pos)
    requires ScoresOk(s, nbrs, start, end) && end in s.gScore
    ensures var path := Lineage(s.cameFrom, s.gScore, end);
      && IsWalk(nbrs, path) && path[0] == start && path[|path| - 1] == end
      && (forall i :: 0 <= i < |path| ==> path[i] in s.gScore)
      && (forall i :: 0 <= i < |path| - 1 ==> path[i] in Ancestors(s.cameFrom, s.gScore, end))
      && (forall q :: q in Ancestors(s.cameFrom, s.gScore, end) ==> q in path && q != end)
  {
    LineageFacts(s.cameFrom, s.gScore, nbrs, start, end);
  }

  /** The colours after `backtrack` from the end and `set_end`: the end is painted end, the
      cells of the chain before it path, and every other cell keeps its colour of the search. */
  lemma TraceColors(s: Frontier, nbrs: map<Pos, seq<Pos>>, before: map<Pos, Color>, after: map<Pos, Color>,
                    orig: map<Pos, Color>, start: Pos, end: Pos)
    requires ScoresOk(s, nbrs, start, end) && end in s.gScore
    requires Painted(s, before, orig, start, {end}) && forall q :: q in nbrs ==> q in before
    requires forall q :: q in after <==> q in before
    requires forall q :: q in after ==>
      after[q] == if q == end then End else if q in Ancestors(s.cameFrom, s.gScore, end) then Path else before[q]
    ensures var path := Lineage(s.cameFrom, s.gScore, end);
      && after[end] == End
      && (forall i :: 0 <= i < |path| - 1 ==> path[i] in after && after[path[i]] == Path)
      && (forall q :: q in after && q !in s.gScore ==> after[q] == orig[q])
      && (forall q :: q in s.gScore && q !in path ==> q in after && (after[q] == Open || after[q] == Closed))
  {
    TraceFacts(s, nbrs, start, end);
    var path := Lineage(s.cameFrom, s.gScore, end);
    forall i | 0 <= i < |path| - 1
      ensures path[i] in after && after[path[i]] == Path
    {
      assert path[i] in Ancestors(s.cameFrom, s.gScore, end);
      assert path[i] in s.gScore;
    }
    forall q | q in after && q !in s.gScore
      ensures after[q] == orig[q]
    {
      assert q != end && q !in Ancestors(s.cameFrom, s.gScore, end);
    }
    forall q | q in s.gScore && q !in path
      ensures q in after && (after[q] == Open || after[q] == Closed)
    {
      assert q != end && q != start && q !in Ancestors(s.cameFrom, s.gScore, end);
      assert q in before;
    }
  }

  /** Each pass of the main loop either scores a cell that had no score, or keeps the scored
      cells and lowers twice the score sum plus the queue length: the loop ends. */
  lemma Progress(s: Frontier, popped: Frontier, t: Frontier, cells: set<Pos>)
    requires popped.gScore == s.gScore && |popped.openSet| + 1 == |s.openSet|
    requires Lowered(popped, t) && Paid(popped, t) && t.gScore.Keys <= cells
    ensures || cells - t.gScore.Keys < cells - s.gScore.Keys
            || (&& cells - t.gScore.Keys == cells - s.gScore.Keys
                && 2 * Potential(t.gScore) + |t.openSet| < 2 * Potential(s.gScore) + |s.openSet|)
  {
    if t.gScore.Keys != s.gScore.Keys {
      var x :| x in t.gScore.Keys && x !in s.gScore.Keys;
      assert x in cells - s.gScore.Keys && x !in cells - t.gScore.Keys;
    }
  }
}
