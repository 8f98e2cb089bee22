/** The `PriorityQueue` of `aStar` holding `(f, count, cell)` tuples. Python's queue is a heap;
    here it is a sequence of entries and `get` removes the entry that comes first in tuple
    order. The counter makes every (f, count) key distinct, so the cell is never compared. */
module PriorityQueues {
  import opened Cells

  /** One queued tuple `(f, count, cell)`. */
  datatype Entry = Entry(f: nat, count: nat, cell: Pos)

  /** Tuple order on the first two components: f, then count. */
  predicate Before(a: Entry, b: Entry) {
    a.f < b.f || (a.f == b.f && a.count < b.count)
  }

  /** Counts rise along the queue: every entry was put after the ones before it. */
  predicate CountsRise(q: seq<Entry>) {
    forall i, j :: 0 <= i < j < |q| ==> q[i].count < q[j].count
  }

  /** `open_set.get()` picks the entry at this place: it comes strictly before every other
      entry, so the choice never depends on comparing cells. */
  function MinIndex(q: seq<Entry>): (k: nat)
    requires |q| > 0 && CountsRise(q)
    ensures k < |q|
    ensures forall j :: 0 <= j < |q| && j != k ==> Before(q[k], q[j])
  {
    if |q| == 1 then 0
    else
      var k := MinIndex(q[..|q| - 1]);
      if Before(q[|q| - 1], q[k]) then |q| - 1 else k
  }

  /** The queue without the entry at place k, the others in their order. */
  function Remove(q: seq<Entry>, k: nat): (r: seq<Entry>)
    requires k < |q|
    ensures |r| == |q| - 1
    ensures forall i :: 0 <= i < |r| ==> r[i] == if i < k then q[i] else q[i + 1]
  {
    q[..k] + q[k + 1..]
  }

  /** The cells that have an entry in the queue. */
  function QueuedCells(q: seq<Entry>): set<Pos> {
    set i | 0 <= i < |q| :: q[i].cell
  }

  /** No cell has two entries. */
  predicate CellsOnce(q: seq<Entry>) {
    forall i, j :: 0 <= i < j < |q| ==> q[i].cell != q[j].cell
  }

  /** Removing an entry keeps counts rising and cells unique, and removes exactly its cell
      from the queued cells when each cell is queued once. */
  lemma RemoveKeeps(q: seq<Entry>, k: nat)
    requires k < |q| && CountsRise(q) && CellsOnce(q)
    ensures CountsRise(Remove(q, k)) && CellsOnce(Remove(q, k))
    ensures QueuedCells(Remove(q, k)) == QueuedCells(q) - {q[k].cell}
  {
    var r := Remove(q, k);
    forall i, j | 0 <= i < j < |r|
      ensures r[i].count < r[j].count && r[i].cell != r[j].cell
    {
      var i', j' := if i < k then i else i + 1, if j < k then j else j + 1;
      assert r[i] == q[i'] && r[j] == q[j'] && i' < j';
    }
    forall c | c in QueuedCells(q) - {q[k].cell}
      ensures c in QueuedCells(r)
    {
      var i :| 0 <= i < |q| && q[i].cell == c;
      assert r[if i < k then i else i - 1] == q[i];
    }
  }

  /** Putting an entry with a fresh count and an unqueued cell keeps counts rising and cells
      unique, and adds its cell to the queued cells. */
  lemma PutKeeps(q: seq<Entry>, e: Entry)
    requires CountsRise(q) && CellsOnce(q)
    requires forall i :: 0 <= i < |q| ==> q[i].count < e.count
    requires e.cell !in QueuedCells(q)
    ensures CountsRise(q + [e]) && CellsOnce(q + [e])
    ensures QueuedCells(q + [e]) == QueuedCells(q) + {e.cell}
  {
    var r := q + [e];
    forall c | c in QueuedCells(q)
      ensures c in QueuedCells(r)
    {
      var i :| 0 <= i < |q| && q[i].cell == c;
      assert r[i] == q[i];
    }
    assert r[|q|] == e;
  }
}
