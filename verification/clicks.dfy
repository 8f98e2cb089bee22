/** The mouse handling of both programs' main loops, as transitions on the selected start and
    end cells and the grid's colours. A left click designates the start, then the end; in the
    free-drawing program a later left click draws a wall, while the road-map program never
    lets the start or the end land on a wall. A right click on a designated cell forgets it
    and leaves its colour alone; on any other cell it resets the colour. */
module Clicks {
  import opened Cells

  /** DrawWalls is the free-drawing program's left click, FixedWalls the road-map program's. */
  datatype ClickRules = DrawWalls | FixedWalls

  /** The `start` and `end` variables of `main`. */
  datatype Selection = Selection(start: Option<Pos>, end: Option<Pos>)

  /** A left click on the cell at p. */
  function LeftClick(rules: ClickRules, sel: Selection, color: map<Pos, Color>, p: Pos)
    : (r: (Selection, map<Pos, Color>))
    requires p in color
    ensures r.1.Keys == color.Keys
    ensures forall q :: q in color && q != p ==> r.1[q] == color[q]
    ensures sel.start == None ==> r.0.end == sel.end
    ensures r.0.start != sel.start ==> sel.start == None && r.0.start == Some(p) && r.1[p] == Start
    ensures r.0.end != sel.end ==> sel.start != None && sel.end == None && r.0.end == Some(p) && r.1[p] == End
    ensures r.0 == sel && r.1[p] != color[p] ==>
      && rules == DrawWalls && r.1[p] == Wall
      && sel.start != None && sel.end != None && sel.start != Some(p) && sel.end != Some(p)
    ensures rules == DrawWalls && sel.start != None && sel.end != None ==>
      r == if sel.start != Some(p) && sel.end != Some(p) then (sel, color[p := Wall]) else (sel, color)
    ensures rules == FixedWalls && color[p] == Wall ==> r == (sel, color)
    ensures (rules == DrawWalls || color[p] != Wall) && (sel.start == None || sel.end == None) ==> r.0 != sel
  {
    match rules
    case DrawWalls =>
      if sel.start == None then (sel.(start := Some(p)), color[p := Start])
      else if sel.end == None then (sel.(end := Some(p)), color[p := End])
      else if sel.start != Some(p) && sel.end != Some(p) then (sel, color[p := Wall])
      else (sel, color)
    case FixedWalls =>
      if sel.start == None && color[p] != Wall then (sel.(start := Some(p)), color[p := Start])
      else if sel.end == None && color[p] != Wall then (sel.(end := Some(p)), color[p := End])
      else (sel, color)
  }

  /** A right click on the cell at p, the same in both programs. */
  function RightClick(sel: Selection, color: map<Pos, Color>, p: Pos): (r: (Selection, map<Pos, Color>))
    requires p in color
    ensures r.1.Keys == color.Keys
    ensures forall q :: q in color && q != p ==> r.1[q] == color[q]
    ensures sel.start == Some(p) ==> r == (sel.(start := None), color)
    ensures sel.start != Some(p) && sel.end == Some(p) ==> r == (sel.(end := None), color)
    ensures sel.start != Some(p) && sel.end != Some(p) ==> r.0 == sel && r.1[p] == Empty
  {
    if sel.start == Some(p) then (sel.(start := None), color)
    else if sel.end == Some(p) then (sel.(end := None), color)
    else (sel, color[p := Empty])
  }

  /** Every designated cell is on the grid and painted as a start or an end. */
  ghost predicate Marked(sel: Selection, color: map<Pos, Color>) {
    && (sel.start.Some? ==> sel.start.value in color && color[sel.start.value] in {Start, End})
    && (sel.end.Some? ==> sel.end.value in color && color[sel.end.value] in {Start, End})
  }

  /** Between searches, clicks keep the designated cells marked, so no click turns the start or
      the end into a wall while it is designated. (A search that succeeds paints the start as
      path, after which this says nothing.) */
  lemma ClicksKeepMarked(rules: ClickRules, sel: Selection, color: map<Pos, Color>, p: Pos)
    requires p in color && Marked(sel, color)
    ensures Marked(LeftClick(rules, sel, color, p).0, LeftClick(rules, sel, color, p).1)
    ensures Marked(RightClick(sel, color, p).0, RightClick(sel, color, p).1)
  {
  }
}
