/** The four single-step neighbour lookups of the generator and the two
    row scans built on them. Each lookup answers `Blocked` (the source's
    -1) when the step leaves the row or the grid, when the neighbour is
    no longer `"?"`, or when its colour differs from the current cell's. */
module Neighbours {
  import opened Cells

  /** The "no neighbour" answer. */
  const Blocked: int := -1

  /** Stepping right wraps to the next row exactly at the last column. */
  lemma StepRight(g: Grid, i: int)
    requires g.Has(i)
    ensures g.width > 0
    ensures ((i + 1) % g.width == 0) == (g.Col(i) == g.width - 1)
    ensures g.Col(i) < g.width - 1 ==> g.Has(i + 1) && g.Col(i + 1) == g.Col(i) + 1 && g.Row(i + 1) == g.Row(i)
  {
    Coords(g, i);
    var x, y := g.Col(i), g.Row(i);
    if x == g.width - 1 {
      DivModUnique(i + 1, g.width, y + 1, 0);
    } else {
      Index(g, x + 1, y);
    }
  }

  /** Stepping left leaves the grid or wraps to the previous row exactly
      at the first column. */
  lemma StepLeft(g: Grid, i: int)
    requires g.Has(i)
    ensures g.width > 0
    ensures (i - 1 < 0 || (i - 1) % g.width == g.width - 1) == (g.Col(i) == 0)
    ensures g.Col(i) > 0 ==> g.Has(i - 1) && g.Col(i - 1) == g.Col(i) - 1 && g.Row(i - 1) == g.Row(i)
  {
    Coords(g, i);
    var x, y := g.Col(i), g.Row(i);
    if x == 0 {
      if y > 0 {
        DivModUnique(i - 1, g.width, y - 1, g.width - 1);
      }
    } else {
      Index(g, x - 1, y);
      DivModUnique(i - 1, g.width, y, x - 1);
    }
  }

  /** Stepping down leaves the grid exactly from the last row. */
  lemma StepDown(g: Grid, i: int)
    requires g.Has(i)
    ensures g.width > 0
    ensures (i + g.width >= g.width * g.height) == (g.Row(i) == g.height - 1)
    ensures g.Row(i) < g.height - 1 ==> g.Has(i + g.width) && g.Col(i + g.width) == g.Col(i) && g.Row(i + g.width) == g.Row(i) + 1
    ensures g.Idx(g.Col(i), g.Row(i) + 1) == i + g.width
  {
    Coords(g, i);
    var x, y := g.Col(i), g.Row(i);
    assert i + g.width == (y + 1) * g.width + x;
    if y == g.height - 1 {
      assert i + g.width == g.height * g.width + x;
    } else {
      Index(g, x, y + 1);
    }
  }

  /** Stepping up leaves the grid exactly from the first row. */
  lemma StepUp(g: Grid, i: int)
    requires g.Has(i)
    ensures g.width > 0
    ensures (i - g.width < 0) == (g.Row(i) == 0)
    ensures g.Row(i) > 0 ==> g.Has(i - g.width) && g.Col(i - g.width) == g.Col(i) && g.Row(i - g.width) == g.Row(i) - 1
    ensures g.Idx(g.Col(i), g.Row(i) - 1) == i - g.width
  {
    Coords(g, i);
    var x, y := g.Col(i), g.Row(i);
    assert i - g.width == (y - 1) * g.width + x;
    if y > 0 {
      Index(g, x, y - 1);
    } else {
      assert i - g.width == x - g.width;
    }
  }

  function RightNeighbour(g: Grid, i: int): (r: int)
    requires g.Has(i)
    ensures g.width > 0
    ensures r != Blocked <==> g.Col(i) + 1 < g.width && g.Fits(g.Col(i) + 1, g.Row(i), g.pixels[i].colour)
    ensures r != Blocked ==> r == i + 1 && g.Has(r) && g.Col(r) == g.Col(i) + 1 && g.Row(r) == g.Row(i)
  {
    StepRight(g, i);
    Coords(g, i);
    var next := i + 1;
    if next % g.width == 0 || g.pixels[next].number != Unassigned || g.pixels[next].colour != g.pixels[i].colour
    then Blocked
    else next
  }

  function LeftNeighbour(g: Grid, i: int): (r: int)
    requires g.Has(i)
    ensures g.width > 0
    ensures r != Blocked <==> g.Col(i) > 0 && g.Fits(g.Col(i) - 1, g.Row(i), g.pixels[i].colour)
    ensures r != Blocked ==> r == i - 1 && g.Has(r) && g.Col(r) == g.Col(i) - 1 && g.Row(r) == g.Row(i)
  {
    StepLeft(g, i);
    Coords(g, i);
    var next := i - 1;
    if next < 0 || next % g.width == g.width - 1 || g.pixels[next].number != Unassigned || g.pixels[next].colour != g.pixels[i].colour
    then Blocked
    else next
  }

  function BottomNeighbour(g: Grid, i: int): (r: int)
    requires g.Has(i)
    ensures g.width > 0
    ensures r != Blocked <==> g.Row(i) + 1 < g.height && g.Fits(g.Col(i), g.Row(i) + 1, g.pixels[i].colour)
    ensures r != Blocked ==> r == i + g.width && g.Has(r) && g.Col(r) == g.Col(i) && g.Row(r) == g.Row(i) + 1
  {
    StepDown(g, i);
    Coords(g, i);
    var next := i + g.width;
    if next >= g.width * g.height || g.pixels[next].number != Unassigned || g.pixels[next].colour != g.pixels[i].colour
    then Blocked
    else next
  }

  function TopNeighbour(g: Grid, i: int): (r: int)
    requires g.Has(i)
    ensures g.width > 0
    ensures r != Blocked <==> g.Row(i) > 0 && g.Fits(g.Col(i), g.Row(i) - 1, g.pixels[i].colour)
    ensures r != Blocked ==> r == i - g.width && g.Has(r) && g.Col(r) == g.Col(i) && g.Row(r) == g.Row(i) - 1
  {
    StepUp(g, i);
    Coords(g, i);
    var next := i - g.width;
    if next < 0 || g.pixels[next].number != Unassigned || g.pixels[next].colour != g.pixels[i].colour
    then Blocked
    else next
  }

  /** Walks `n` steps left from `e`; true when every step finds a
      neighbour. Each step compares colours with the cell it came from, so
      the whole run shares `e`'s colour. */
  function RowFromLeftIsClear(g: Grid, e: int, n: nat): (r: bool)
    requires g.Has(e)
    ensures g.width > 0
    ensures r <==> n <= g.Col(e) && RunFits(g, g.Row(e), g.Col(e) - n, g.Col(e) - 1, g.pixels[e].colour)
    decreases n
  {
    if n == 0 then true
    else
      var next := LeftNeighbour(g, e);
      if next == Blocked then false else RowFromLeftIsClear(g, next, n - 1)
  }

  /** Walks `n` steps right from `e`; true when every step finds a
      neighbour of the same colour. */
  function RowFromRightIsClear(g: Grid, e: int, n: nat): (r: bool)
    requires g.Has(e)
    ensures g.width > 0
    ensures r <==> g.Col(e) + n < g.width && RunFits(g, g.Row(e), g.Col(e) + 1, g.Col(e) + n, g.pixels[e].colour)
    decreases n
  {
    if n == 0 then true
    else
      var next := RightNeighbour(g, e);
      if next == Blocked then false else RowFromRightIsClear(g, next, n - 1)
  }
}
