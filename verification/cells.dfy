/** Cell-level vocabulary shared by both grid programs: the colour used as a state tag,
    cell positions, the two adjacency rules, the Manhattan heuristic `h` and the mapping
    of a mouse click to a cell (`get_click_pos`). */
module Cells {

  datatype Option<T> = None | Some(value: T)

  /** A cell's colour, which both programs use as its state tag. */
  datatype Color =
    | Empty   // WHITE
    | Closed  // RED
    | Open    // GREEN
    | Wall    // BLACK
    | Start   // ORANGE
    | End     // TURQUOISE
    | Path    // PURPLE

  /** The identity of a cell: its row and column (`get_pos`). */
  datatype Pos = Pos(row: nat, col: nat)

  /** True when p lies on an n-by-n grid. */
  predicate InBounds(p: Pos, n: nat) {
    p.row < n && p.col < n
  }

  /** FourWay is the road-map program's rule (down, up, left, right);
      EightWay is the free-drawing program's rule, which adds the diagonals. */
  datatype Adjacency = FourWay | EightWay

  function Dist(a: nat, b: nat): nat {
    if a <= b then b - a else a - b
  }

  /** q is one step away from p: Manhattan distance 1 for FourWay,
      Chebyshev distance 1 for EightWay. */
  predicate Adjacent(p: Pos, q: Pos, adj: Adjacency) {
    if adj == FourWay then Dist(p.row, q.row) + Dist(p.col, q.col) == 1
    else p != q && Dist(p.row, q.row) <= 1 && Dist(p.col, q.col) <= 1
  }

  /** The heuristic `h`: the Manhattan distance between two positions. */
  function H(a: Pos, b: Pos): (d: nat)
    ensures d == 0 <==> a == b
    ensures d >= Dist(a.row, b.row) && d >= Dist(a.col, b.col)
  {
    Dist(a.row, b.row) + Dist(a.col, b.col)
  }

  lemma HSymmetric(a: Pos, b: Pos)
    ensures H(a, b) == H(b, a)
  {
  }

  lemma HTriangle(a: Pos, b: Pos, c: Pos)
    ensures H(a, c) <= H(a, b) + H(b, c)
  {
  }

  /** Both adjacency rules are symmetric. */
  lemma AdjacentSymmetric(p: Pos, q: Pos, adj: Adjacency)
    ensures Adjacent(p, q, adj) <==> Adjacent(q, p, adj)
  {
  }

  /** With orthogonal unit steps the heuristic is consistent: one step changes it by at most one. */
  lemma HConsistentFourWay(p: Pos, q: Pos, goal: Pos)
    requires Adjacent(p, q, FourWay)
    ensures H(p, goal) <= 1 + H(q, goal)
  {
    HTriangle(p, q, goal);
  }

  /** With diagonal unit steps the heuristic overestimates: a diagonal neighbour is one step
      away but `h` says two, so it is neither admissible nor consistent for EightWay. */
  lemma HOverestimatesDiagonalStep(p: Pos, q: Pos)
    requires Adjacent(p, q, EightWay) && p.row != q.row && p.col != q.col
    ensures H(p, q) == 2
  {
  }

  /** The window side, in pixels, of both programs. */
  const Width: nat := 800
  /** Rows (and columns) of the free-drawing grid. */
  const FreeRows: nat := 100
  /** Rows (and columns) of the road-map grid. */
  const RoadRows: nat := 400

  /** `get_click_pos`: the window is cut into bands of `width // rows` pixels; the first
      coordinate of the click picks the row and the second the column. Floor division by
      zero (rows == 0, or a band narrower than one pixel) raises in the source: None. */
  function ClickPos(px: nat, py: nat, rows: nat, width: nat): (r: Option<Pos>)
    ensures r.None? <==> rows == 0 || width < rows
    ensures r.Some? ==> InBand(px, r.value.row, width / rows) && InBand(py, r.value.col, width / rows)
  {
    if rows == 0 then None
    else
      var gap := width / rows;
      DivZero(width, rows);
      if gap == 0 then None
      else
        var row, col := px / gap, py / gap;
        DivBand(px, gap);
        DivBand(py, gap);
        Some(Pos(row, col))
  }

  /** Pixel x lies in band i of width gap. */
  predicate InBand(x: nat, i: nat, gap: nat) {
    i * gap <= x < (i + 1) * gap
  }

  /** Floor division by a positive band width picks the band holding x. */
  lemma DivBand(x: nat, gap: nat)
    requires gap > 0
    ensures InBand(x, x / gap, gap)
  {
    var q, r := x / gap, x % gap;
    assert x == q * gap + r;
    assert (q + 1) * gap == q * gap + gap;
  }

  /** A band is at least one pixel wide exactly when the window is at least `rows` pixels. */
  lemma DivZero(width: nat, rows: nat)
    requires rows > 0
    ensures width / rows == 0 <==> width < rows
  {
    DivBand(width, rows);
    assert width < (width / rows + 1) * rows;
    if width / rows >= 1 {
      MulMonotone(1, width / rows, rows);
    }
  }

  lemma MulMonotone(a: nat, b: nat, c: nat)
    requires a <= b
    ensures a * c <= b * c
  {
  }

  /** A coordinate below k bands falls in a band numbered below k. */
  lemma DivBelow(x: nat, gap: nat, k: nat)
    requires gap > 0 && x < k * gap
    ensures x / gap < k
  {
    DivBand(x, gap);
    if x / gap >= k {
      MulMonotone(k, x / gap, gap);
    }
  }

  /** A click inside the window lands on a cell of the grid whenever the number of rows
      divides the window width. */
  lemma ClickInsideWindow(px: nat, py: nat, rows: nat, width: nat)
    requires 0 < rows <= width && width % rows == 0
    requires px < width && py < width
    ensures ClickPos(px, py, rows, width).Some?
    ensures InBounds(ClickPos(px, py, rows, width).value, rows)
  {
    var gap := width / rows;
    assert gap * rows == width;
    DivBelow(px, gap, rows);
    DivBelow(py, gap, rows);
  }

  /** Both programs' constants satisfy that condition: a window 800 pixels wide with 100 rows,
      and with the road-map program's 400 rows. */
  lemma ClicksLandOnGrid(px: nat, py: nat)
    requires px < Width && py < Width
    ensures ClickPos(px, py, FreeRows, Width).Some? && InBounds(ClickPos(px, py, FreeRows, Width).value, FreeRows)
    ensures ClickPos(px, py, RoadRows, Width).Some? && InBounds(ClickPos(px, py, RoadRows, Width).value, RoadRows)
  {
    ClickInsideWindow(px, py, FreeRows, Width);
    ClickInsideWindow(px, py, RoadRows, Width);
  }
}
