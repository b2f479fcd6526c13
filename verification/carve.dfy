/** Carving one block: `fillMaxBlock` runs the four corner searches, keeps
    the largest area (the earliest corner on ties), turns the winning
    rectangle into bounds, consumes its cells and labels the seed. */
module Carve {
  import opened Cells
  import opened Search

  /** The cell of `b` at corner `o`. */
  function CornerOf(b: Bounds, o: Orientation): (int, int) {
    match o
    case TopLeft => (b.startX, b.startY)
    case TopRight => (b.endX, b.startY)
    case BottomLeft => (b.startX, b.endY)
    case BottomRight => (b.endX, b.endY)
  }

  /** The diagonally opposite corner. */
  function Opposite(o: Orientation): Orientation {
    match o
    case TopLeft => BottomRight
    case TopRight => BottomLeft
    case BottomLeft => TopRight
    case BottomRight => TopLeft
  }

  /** Bounds of the block with the seed at corner `o` and the search's
      best index at the opposite corner. The source's fifth branch, an
      unknown direction string, cannot arise from `Orientation`. */
  function GetBlockBounds(g: Grid, seed: int, best: int, o: Orientation): (b: Bounds)
    requires g.Has(seed) && g.Has(best)
    ensures CornerOf(b, o) == (g.Col(seed), g.Row(seed))
    ensures CornerOf(b, Opposite(o)) == (g.Col(best), g.Row(best))
    ensures b.WellFormed() <==> InQuadrant(o, g.Col(seed), g.Row(seed), g.Col(best), g.Row(best))
    ensures b.WellFormed() ==> b == Span(g.Col(seed), g.Row(seed), g.Col(best), g.Row(best))
  {
    var w := g.width;
    match o
    case TopLeft => Bounds(seed % w, seed / w, best % w, best / w)
    case TopRight => Bounds(best % w, seed / w, seed % w, best / w)
    case BottomLeft => Bounds(seed % w, best / w, best % w, seed / w)
    case BottomRight => Bounds(best % w, best / w, seed % w, seed / w)
  }

  /** The pixel after `clearBlock`: its number becomes `""` when it lies
      inside `b`. */
  function Cleared(g: Grid, b: Bounds, k: int): Pixel
    requires g.Has(k)
  {
    Coords(g, k);
    if b.Contains(g.Col(k), g.Row(k)) then g.pixels[k].(number := Consumed) else g.pixels[k]
  }

  /** `clearBlock`: visits every column `i` and row `j` of the grid and
      sets `number` to `""` on the cells inside `b`, nothing else. */
  method ClearBlock(g: Grid, b: Bounds) returns (g': Grid)
    requires g.Valid()
    ensures g'.height == g.height && g'.width == g.width && |g'.pixels| == |g.pixels|
    ensures forall k :: 0 <= k < |g.pixels| ==> g'.pixels[k] == Cleared(g, b, k)
  {
    forall k | 0 <= k < |g.pixels|
      ensures g.Idx(g.Col(k), g.Row(k)) == k && 0 <= g.Row(k) < g.height && 0 <= g.Col(k) < g.width
    {
      Coords(g, k);
    }
    var ps := g.pixels;
    var i := 0;
    while i < g.width
      invariant 0 <= i <= g.width
      invariant |ps| == |g.pixels|
      invariant forall k :: 0 <= k < |ps| ==>
        ps[k] == if g.Col(k) < i then Cleared(g, b, k) else g.pixels[k]
    {
      var j := 0;
      while j < g.height
        invariant 0 <= j <= g.height
        invariant |ps| == |g.pixels|
        invariant forall k :: 0 <= k < |ps| ==>
          ps[k] == if g.Col(k) < i || (g.Col(k) == i && g.Row(k) < j) then Cleared(g, b, k) else g.pixels[k]
      {
        if i < b.startX || i > b.endX || j < b.startY || j > b.endY {
          j := j + 1;
          continue;
        }
        var index := j * g.width + i;
        Index(g, i, j);
        ps := ps[index := ps[index].(number := Consumed)];
        j := j + 1;
      }
      i := i + 1;
    }
    g' := g.(pixels := ps);
  }

  /** The comparisons at the head of `fillMaxBlock`: the four searches in
      the order top-left, top-right, bottom-left, bottom-right, a later
      result replacing the kept one only when strictly larger. */
  method ChooseCorner(g: Grid, seed: int) returns (from: Orientation, best: Best)
    requires g.Has(seed)
    ensures best == FindMaxBlock(g, from, seed)
    ensures forall o: Orientation :: FindMaxBlock(g, o, seed).area <= best.area
    ensures forall o: Orientation :: o.Rank() < from.Rank() ==> FindMaxBlock(g, o, seed).area < best.area
    ensures forall o, b :: Reaches(g, o, seed, b) ==> b.area <= best.area
  {
    var tl := FindMaxBlock(g, TopLeft, seed);
    best, from := tl, TopLeft;
    var tr := FindMaxBlock(g, TopRight, seed);
    if tr.area > best.area {
      best, from := tr, TopRight;
    }
    var bl := FindMaxBlock(g, BottomLeft, seed);
    if bl.area > best.area {
      best, from := bl, BottomLeft;
    }
    var br := FindMaxBlock(g, BottomRight, seed);
    if br.area > best.area {
      best, from := br, BottomRight;
    }
    forall o: Orientation
      ensures FindMaxBlock(g, o, seed).area <= best.area
      ensures o.Rank() < from.Rank() ==> FindMaxBlock(g, o, seed).area < best.area
    {
      var r := match o
        case TopLeft => tl
        case TopRight => tr
        case BottomLeft => bl
        case BottomRight => br;
      assert FindMaxBlock(g, o, seed) == r;
    }
    forall o, b | Reaches(g, o, seed, b)
      ensures b.area <= best.area
    {
      assert b.area <= FindMaxBlock(g, o, seed).area;
    }
  }

  /** When the seed itself is `"?"`, every cell of a block the search
      reaches is on the grid, `"?"` and of the seed's colour. */
  lemma ReachedBlockFits(g: Grid, o: Orientation, seed: int, best: Best)
    requires Reaches(g, o, seed, best) && g.pixels[seed].number == Unassigned
    ensures var b := GetBlockBounds(g, seed, best.corner, o);
            b.WellFormed() && b.Area() == best.area
            && forall x, y :: b.Contains(x, y) ==> g.Fits(x, y, g.pixels[seed].colour)
  {
    Coords(g, seed);
    assert g.Fits(g.Col(seed), g.Row(seed), g.pixels[seed].colour);
  }

  /** `fillMaxBlock`: the seed, a `"?"` cell, becomes the labelled corner of
      the largest block the four searches find; the rest of the block is
      consumed; a block of area 1 is also marked filled. */
  method FillMaxBlock(g: Grid, seed: int) returns (g': Grid, from: Orientation, block: Bounds)
    requires g.Has(seed) && g.pixels[seed].number == Unassigned
    ensures g'.height == g.height && g'.width == g.width && g'.Valid()
    ensures block.WellFormed() && block.Area() >= 1
    ensures CornerOf(block, from) == (g.Col(seed), g.Row(seed))
    // the block is the largest the four searches found, the earliest on ties
    ensures block.Area() == FindMaxBlock(g, from, seed).area
    ensures forall o: Orientation :: FindMaxBlock(g, o, seed).area <= block.Area()
    ensures forall o: Orientation :: o.Rank() < from.Rank() ==> FindMaxBlock(g, o, seed).area < block.Area()
    ensures forall o, b :: Reaches(g, o, seed, b) ==> b.area <= block.Area()
    // the block is the rectangle between the seed and the winning search's corner
    ensures block == GetBlockBounds(g, seed, FindMaxBlock(g, from, seed).corner, from)
    // every cell of the block was on the grid, "?" and of the seed's colour
    ensures forall x, y :: block.Contains(x, y) ==> g.Fits(x, y, g.pixels[seed].colour)
    // the seed is labelled, the rest of the block consumed, nothing else changes
    ensures forall k :: 0 <= k < |g.pixels| ==>
      g'.pixels[k] == if k == seed then g.pixels[k].(number := Label(block.Area()), filled := g.pixels[k].filled || block.Area() == 1)
                      else Cleared(g, block, k)
    ensures CountUnassigned(g'.pixels) < CountUnassigned(g.pixels)
  {
    var best;
    from, best := ChooseCorner(g, seed);
    block := GetBlockBounds(g, seed, best.corner, from);
    ReachedBlockFits(g, from, seed, best);
    var cleared := ClearBlock(g, block);
    var labelled := cleared.pixels[seed].(number := Label(best.area));
    if best.area == 1 {
      labelled := labelled.(filled := true);
    }
    g' := cleared.(pixels := cleared.pixels[seed := labelled]);
    assert block.Area() == best.area;
    forall k | 0 <= k < |g.pixels|
      ensures g'.pixels[k] == if k == seed then g.pixels[k].(number := Label(block.Area()), filled := g.pixels[k].filled || block.Area() == 1)
                              else Cleared(g, block, k)
    {
    }
    forall k | 0 <= k < |g'.pixels| && g'.pixels[k].number == Unassigned
      ensures g.pixels[k].number == Unassigned
    {
      if k != seed {
        assert g'.pixels[k] == Cleared(g, block, k);
      }
    }
    CountDecreases(g.pixels, g'.pixels, seed);
  }
}
