/** The corner-anchored greedy rectangle search. The source spells it out
    four times (`findMaxBlockFromTopLeft` and its three mirror images, each
    with a `stepDown*` or `stepUp*` helper); here one search takes the
    corner the seed occupies as a parameter. From that corner the search
    widens one column at a time (rightwards when the seed is on the left,
    leftwards otherwise); for each width it extends the block row by row
    (downwards when the seed is on top, upwards otherwise) while the next
    row is entirely `"?"` and of the seed's colour, and keeps the largest
    area seen, replacing it only on a strictly larger one. */
module Search {
  import opened Cells
  import opened Neighbours

  /** The corner of the block at which the seed sits. */
  datatype Orientation = TopLeft | TopRight | BottomLeft | BottomRight {

    /** The block lies to the right of the seed's column. */
    predicate GrowsRight() {
      this == TopLeft || this == BottomLeft
    }

    /** The block lies below the seed's row. */
    predicate GrowsDown() {
      this == TopLeft || this == TopRight
    }

    /** Position in the order in which `fillMaxBlock` tries the corners. */
    function Rank(): nat {
      match this
      case TopLeft => 0
      case TopRight => 1
      case BottomLeft => 2
      case BottomRight => 3
    }
  }

  /** A search's running answer: the block corner opposite the seed and
      the block's area. */
  datatype Best = Best(corner: int, area: nat)

  /** Column `k` steps away from `x` in the direction the block widens. */
  function WiderCol(o: Orientation, x: int, k: nat): int {
    if o.GrowsRight() then x + k else x - k
  }

  /** Row `d` steps away from `y` in the direction the block deepens. */
  function DeeperRow(o: Orientation, y: int, d: nat): int {
    if o.GrowsDown() then y + d else y - d
  }

  /** `(cx, cy)` lies in the quadrant of `(sx, sy)` that `o` grows into. */
  predicate InQuadrant(o: Orientation, sx: int, sy: int, cx: int, cy: int) {
    (if o.GrowsRight() then sx <= cx else cx <= sx)
    && (if o.GrowsDown() then sy <= cy else cy <= sy)
  }

  /** `b` is an answer the search may give for a seed at `seed`: its
      corner is a cell in `o`'s quadrant, its area is the area of the
      rectangle spanned by seed and corner, and every cell of that
      rectangle other than the seed is `"?"` and of the seed's colour. */
  ghost predicate Reaches(g: Grid, o: Orientation, seed: int, b: Best) {
    g.Has(seed) && g.Has(b.corner)
    && var sx, sy, cx, cy := g.Col(seed), g.Row(seed), g.Col(b.corner), g.Row(b.corner);
    InQuadrant(o, sx, sy, cx, cy)
    && b.area == Span(sx, sy, cx, cy).Area()
    && OpenBlock(g, sx, sy, g.pixels[seed].colour, Span(sx, sy, cx, cy))
  }

  /** The step that widens the block: `getRightNeighborIndex` or
      `getLeftNeighborIndex`. */
  function StepWider(g: Grid, o: Orientation, i: int): (r: int)
    requires g.Has(i)
    ensures r == Blocked <==> !(0 <= WiderCol(o, g.Col(i), 1) < g.width && g.Fits(WiderCol(o, g.Col(i), 1), g.Row(i), g.pixels[i].colour))
    ensures r != Blocked ==> g.Has(r) && g.Col(r) == WiderCol(o, g.Col(i), 1) && g.Row(r) == g.Row(i)
  {
    if o.GrowsRight() then RightNeighbour(g, i) else LeftNeighbour(g, i)
  }

  /** The step that deepens the block: `getBottomNeighborIndex` or
      `getTopNeighborIndex`. */
  function StepDeeper(g: Grid, o: Orientation, i: int): (r: int)
    requires g.Has(i)
    ensures r == Blocked <==> !(0 <= DeeperRow(o, g.Row(i), 1) < g.height && g.Fits(g.Col(i), DeeperRow(o, g.Row(i), 1), g.pixels[i].colour))
    ensures r != Blocked ==> g.Has(r) && g.Col(r) == g.Col(i) && g.Row(r) == DeeperRow(o, g.Row(i), 1)
    ensures r != Blocked ==> if o.GrowsDown() then r > i else r < i
  {
    if o.GrowsDown() then BottomNeighbour(g, i) else TopNeighbour(g, i)
  }

  /** The row check for a new row whose outer end is `e`: walks back
      `n` cells towards the seed's column. */
  function RowIsClear(g: Grid, o: Orientation, e: int, n: nat): (r: bool)
    requires g.Has(e)
    ensures g.width > 0
    ensures r <==> if o.GrowsRight()
                   then n <= g.Col(e) && RunFits(g, g.Row(e), g.Col(e) - n, g.Col(e) - 1, g.pixels[e].colour)
                   else g.Col(e) + n < g.width && RunFits(g, g.Row(e), g.Col(e) + 1, g.Col(e) + n, g.pixels[e].colour)
  {
    if o.GrowsRight() then RowFromLeftIsClear(g, e, n) else RowFromRightIsClear(g, e, n)
  }

  /** The colour of a cell inside an open block is the seed's colour. */
  lemma ColourInBlock(g: Grid, seed: int, i: int, b: Bounds)
    requires g.Has(seed) && g.Has(i)
    requires OpenBlock(g, g.Col(seed), g.Row(seed), g.pixels[seed].colour, b)
    requires b.Contains(g.Col(i), g.Row(i))
    ensures g.pixels[i].colour == g.pixels[seed].colour
    ensures i != seed ==> g.pixels[i].number == Unassigned
  {
    Coords(g, seed);
    Coords(g, i);
  }

  /** One more row found clear by `StepDeeper` and `RowIsClear` keeps the
      rectangle between the seed and the new corner open. */
  lemma ExtendOnwards(g: Grid, o: Orientation, seed: int, cand: int, across: nat, along: nat)
    requires g.Has(seed) && g.Has(cand)
    requires g.Col(cand) == WiderCol(o, g.Col(seed), across) && g.Row(cand) == DeeperRow(o, g.Row(seed), along)
    requires OpenBlock(g, g.Col(seed), g.Row(seed), g.pixels[seed].colour, Span(g.Col(seed), g.Row(seed), g.Col(cand), g.Row(cand)))
    requires StepDeeper(g, o, cand) != Blocked && RowIsClear(g, o, StepDeeper(g, o, cand), across)
    ensures var next := StepDeeper(g, o, cand);
            g.Col(next) == g.Col(cand) && g.Row(next) == DeeperRow(o, g.Row(seed), along + 1)
            && OpenBlock(g, g.Col(seed), g.Row(seed), g.pixels[seed].colour, Span(g.Col(seed), g.Row(seed), g.Col(next), g.Row(next)))
  {
    var next := StepDeeper(g, o, cand);
    var sx, sy, c := g.Col(seed), g.Row(seed), g.pixels[seed].colour;
    ColourInBlock(g, seed, cand, Span(sx, sy, g.Col(cand), g.Row(cand)));
    Coords(g, next);
    assert g.pixels[next].colour == c;
    var before := Span(sx, sy, g.Col(cand), g.Row(cand));
    var after := Span(sx, sy, g.Col(next), g.Row(next));
    forall x, y | after.Contains(x, y) && (x != sx || y != sy)
      ensures g.Fits(x, y, c)
    {
      if y != g.Row(next) {
        assert before.Contains(x, y);
      } else if x != g.Col(next) {
        assert g.Fits(x, y, g.pixels[next].colour);
      }
    }
  }

  /** One more column found by `StepWider` keeps the top row between the
      seed and the new edge cell open. */
  lemma ExtendSideways(g: Grid, o: Orientation, seed: int, edge: int, across: nat)
    requires g.Has(seed) && g.Has(edge)
    requires g.Col(edge) == WiderCol(o, g.Col(seed), across) && g.Row(edge) == g.Row(seed)
    requires OpenBlock(g, g.Col(seed), g.Row(seed), g.pixels[seed].colour, Span(g.Col(seed), g.Row(seed), g.Col(edge), g.Row(edge)))
    requires StepWider(g, o, edge) != Blocked
    ensures var next := StepWider(g, o, edge);
            g.Col(next) == WiderCol(o, g.Col(seed), across + 1) && g.Row(next) == g.Row(seed)
            && OpenBlock(g, g.Col(seed), g.Row(seed), g.pixels[seed].colour, Span(g.Col(seed), g.Row(seed), g.Col(next), g.Row(next)))
  {
    var next := StepWider(g, o, edge);
    var sx, sy, c := g.Col(seed), g.Row(seed), g.pixels[seed].colour;
    ColourInBlock(g, seed, edge, Span(sx, sy, g.Col(edge), g.Row(edge)));
    var before := Span(sx, sy, g.Col(edge), g.Row(edge));
    var after := Span(sx, sy, g.Col(next), g.Row(next));
    forall x, y | after.Contains(x, y) && (x != sx || y != sy)
      ensures g.Fits(x, y, c)
    {
      if x != g.Col(next) {
        assert before.Contains(x, y);
      }
    }
  }

  /** A corner reached `across` columns and `along` rows from the seed,
      with the rectangle in between open, is an answer of area
      `(across + 1) * (along + 1)`. */
  lemma CornerReaches(g: Grid, o: Orientation, seed: int, cand: int, across: nat, along: nat)
    requires g.Has(seed) && g.Has(cand)
    requires g.Col(cand) == WiderCol(o, g.Col(seed), across) && g.Row(cand) == DeeperRow(o, g.Row(seed), along)
    requires OpenBlock(g, g.Col(seed), g.Row(seed), g.pixels[seed].colour, Span(g.Col(seed), g.Row(seed), g.Col(cand), g.Row(cand)))
    ensures Reaches(g, o, seed, Best(cand, (across + 1) * (along + 1)))
  {
    var sx, sy, cx, cy := g.Col(seed), g.Row(seed), g.Col(cand), g.Row(cand);
    assert Dist(sx, cx) == across && Dist(sy, cy) == along;
    assert Span(sx, sy, cx, cy).Area() == (across + 1) * (along + 1);
  }

  /** The inner loop of `stepDownFromTopLeft` and its mirror images: from
      `cand`, the corner of a block `across + 1` columns wide and
      `along + 1` rows deep, keep deepening while the next row is clear;
      once blocked, the block's area replaces `best` if strictly larger. */
  function StepOnwards(g: Grid, o: Orientation, ghost seed: int, cand: int, across: nat, along: nat, best: Best): (r: Best)
    requires Reaches(g, o, seed, best)
    requires g.Has(cand)
    requires g.Col(cand) == WiderCol(o, g.Col(seed), across) && g.Row(cand) == DeeperRow(o, g.Row(seed), along)
    requires OpenBlock(g, g.Col(seed), g.Row(seed), g.pixels[seed].colour, Span(g.Col(seed), g.Row(seed), g.Col(cand), g.Row(cand)))
    ensures Reaches(g, o, seed, r)
    ensures r.area >= best.area
    ensures r.area >= (across + 1) * (along + 1)
    decreases if o.GrowsDown() then |g.pixels| - cand else cand
  {
    var next := StepDeeper(g, o, cand);
    if next == Blocked || !RowIsClear(g, o, next, across) then
      var area := (across + 1) * (along + 1);
      CornerReaches(g, o, seed, cand, across, along);
      if area > best.area then Best(cand, area) else best
    else
      ExtendOnwards(g, o, seed, cand, across, along);
      MulMonotone(along + 1, along + 2, across + 1);
      StepOnwards(g, o, seed, next, across, along + 1, best)
  }

  /** The outer loop of `findMaxBlockFromTopLeft` and its mirror images:
      for the edge cell `edge` at `across` columns from the seed, deepen
      the block, then widen by one column while the neighbour allows. */
  function Sweep(g: Grid, o: Orientation, ghost seed: int, edge: int, across: nat, best: Best): (r: Best)
    requires Reaches(g, o, seed, best)
    requires g.Has(edge)
    requires g.Col(edge) == WiderCol(o, g.Col(seed), across) && g.Row(edge) == g.Row(seed)
    requires OpenBlock(g, g.Col(seed), g.Row(seed), g.pixels[seed].colour, Span(g.Col(seed), g.Row(seed), g.Col(edge), g.Row(edge)))
    ensures Reaches(g, o, seed, r)
    ensures r.area >= best.area
    decreases if o.GrowsRight() then |g.pixels| - edge else edge
  {
    var best' := StepOnwards(g, o, seed, edge, across, 0, best);
    var next := StepWider(g, o, edge);
    if next == Blocked then best'
    else
      ExtendSideways(g, o, seed, edge, across);
      Sweep(g, o, seed, next, across + 1, best')
  }

  /** `findMaxBlockFromTopLeft`, `findMaxBlockFromTopRight`,
      `findMaxBlockFromBottomLeft` and `findMaxBlockFromBottomRight`: the
      best block with the seed at corner `o`, starting from the seed alone
      (area 1). */
  function FindMaxBlock(g: Grid, o: Orientation, seed: int): (r: Best)
    requires g.Has(seed)
    ensures Reaches(g, o, seed, r)
    ensures r.area >= 1
    // no answer the search may give has a larger area
    ensures forall b :: Reaches(g, o, seed, b) ==> b.area <= r.area
  {
    Coords(g, seed);
    SweepFromSeedIsMax(g, o, seed);
    Sweep(g, o, seed, seed, 0, Best(seed, 1))
  }

  /** A rectangle open from the seed to the corner `k` columns and `d`
      rows away stays open when cut down to `across <= k` columns and
      `along <= d` rows. */
  lemma OpenShrinks(g: Grid, o: Orientation, seed: int, k: nat, d: nat, across: nat, along: nat)
    requires g.Has(seed) && across <= k && along <= d
    requires OpenBlock(g, g.Col(seed), g.Row(seed), g.pixels[seed].colour,
                       Span(g.Col(seed), g.Row(seed), WiderCol(o, g.Col(seed), k), DeeperRow(o, g.Row(seed), d)))
    ensures OpenBlock(g, g.Col(seed), g.Row(seed), g.pixels[seed].colour,
                      Span(g.Col(seed), g.Row(seed), WiderCol(o, g.Col(seed), across), DeeperRow(o, g.Row(seed), along)))
  {
    var sx, sy := g.Col(seed), g.Row(seed);
    var big := Span(sx, sy, WiderCol(o, sx, k), DeeperRow(o, sy, d));
    var small := Span(sx, sy, WiderCol(o, sx, across), DeeperRow(o, sy, along));
    forall x, y | small.Contains(x, y)
      ensures big.Contains(x, y)
    {
    }
  }

  /** A cell `a` columns and `b` rows from the seed, other than the seed,
      inside an open rectangle fits. */
  lemma OpenCell(g: Grid, o: Orientation, seed: int, k: nat, d: nat, a: nat, b: nat)
    requires g.Has(seed) && a <= k && b <= d && (a > 0 || b > 0)
    requires OpenBlock(g, g.Col(seed), g.Row(seed), g.pixels[seed].colour,
                       Span(g.Col(seed), g.Row(seed), WiderCol(o, g.Col(seed), k), DeeperRow(o, g.Row(seed), d)))
    ensures g.Fits(WiderCol(o, g.Col(seed), a), DeeperRow(o, g.Row(seed), b), g.pixels[seed].colour)
  {
    var sx, sy := g.Col(seed), g.Row(seed);
    assert Span(sx, sy, WiderCol(o, sx, k), DeeperRow(o, sy, d)).Contains(WiderCol(o, sx, a), DeeperRow(o, sy, b));
  }

  /** The row below (or above) the candidate corner is clear when the
      rectangle reaching at least one row further is open. */
  lemma NextRowClear(g: Grid, o: Orientation, seed: int, cand: int, across: nat, along: nat, d: nat)
    requires g.Has(seed) && g.Has(cand) && along < d
    requires g.Col(cand) == WiderCol(o, g.Col(seed), across) && g.Row(cand) == DeeperRow(o, g.Row(seed), along)
    requires OpenBlock(g, g.Col(seed), g.Row(seed), g.pixels[seed].colour,
                       Span(g.Col(seed), g.Row(seed), WiderCol(o, g.Col(seed), across), DeeperRow(o, g.Row(seed), d)))
    ensures StepDeeper(g, o, cand) != Blocked && RowIsClear(g, o, StepDeeper(g, o, cand), across)
  {
    var sx, sy, c := g.Col(seed), g.Row(seed), g.pixels[seed].colour;
    Coords(g, seed);
    OpenShrinks(g, o, seed, across, d, across, along);
    ColourInBlock(g, seed, cand, Span(sx, sy, g.Col(cand), g.Row(cand)));
    OpenCell(g, o, seed, across, d, across, along + 1);
    var next := StepDeeper(g, o, cand);
    var y := DeeperRow(o, sy, along + 1);
    forall x | (if o.GrowsRight() then sx <= x < sx + across else sx - across < x <= sx)
      ensures g.Fits(x, y, c)
    {
      OpenCell(g, o, seed, across, d, if o.GrowsRight() then x - sx else sx - x, along + 1);
    }
  }

  /** The number of cells of a rectangle `k + 1` columns wide and `d + 1`
      rows deep, counted column by column. */
  function RectArea(k: nat, d: nat): (n: nat)
    ensures n == (k + 1) * (d + 1)
  {
    if k == 0 then d + 1 else RectArea(k - 1, d) + d + 1
  }

  /** The deepening loop goes at least as deep as any open rectangle of
      its width: from a candidate `along` rows deep, if the rectangle of
      the same width reaching `d >= along` rows is open, the result's
      area is at least that rectangle's. */
  lemma {:induction false} StepOnwardsMax(g: Grid, o: Orientation, seed: int, cand: int, across: nat, along: nat, best: Best, d: nat)
    requires Reaches(g, o, seed, best)
    requires g.Has(cand)
    requires g.Col(cand) == WiderCol(o, g.Col(seed), across) && g.Row(cand) == DeeperRow(o, g.Row(seed), along)
    requires OpenBlock(g, g.Col(seed), g.Row(seed), g.pixels[seed].colour, Span(g.Col(seed), g.Row(seed), g.Col(cand), g.Row(cand)))
    requires along <= d
    requires OpenBlock(g, g.Col(seed), g.Row(seed), g.pixels[seed].colour,
                       Span(g.Col(seed), g.Row(seed), WiderCol(o, g.Col(seed), across), DeeperRow(o, g.Row(seed), d)))
    ensures StepOnwards(g, o, seed, cand, across, along, best).area >= RectArea(across, d)
    decreases d - along
  {
    if along < d {
      var next := NextRow(g, o, seed, cand, across, along, best, d);
      StepOnwardsMax(g, o, seed, next, across, along + 1, best, d);
    } else {
      AtDepth(g, o, seed, cand, across, along, best, d);
    }
  }

  /** The next row of the deepening loop: its corner cell, with the facts
      the loop from there needs. */
  lemma NextRow(g: Grid, o: Orientation, seed: int, cand: int, across: nat, along: nat, best: Best, d: nat)
    returns (next: int)
    requires Reaches(g, o, seed, best)
    requires g.Has(cand)
    requires g.Col(cand) == WiderCol(o, g.Col(seed), across) && g.Row(cand) == DeeperRow(o, g.Row(seed), along)
    requires OpenBlock(g, g.Col(seed), g.Row(seed), g.pixels[seed].colour, Span(g.Col(seed), g.Row(seed), g.Col(cand), g.Row(cand)))
    requires along < d
    requires OpenBlock(g, g.Col(seed), g.Row(seed), g.pixels[seed].colour,
                       Span(g.Col(seed), g.Row(seed), WiderCol(o, g.Col(seed), across), DeeperRow(o, g.Row(seed), d)))
    ensures g.Has(next)
    ensures g.Col(next) == WiderCol(o, g.Col(seed), across) && g.Row(next) == DeeperRow(o, g.Row(seed), along + 1)
    ensures OpenBlock(g, g.Col(seed), g.Row(seed), g.pixels[seed].colour, Span(g.Col(seed), g.Row(seed), g.Col(next), g.Row(next)))
    ensures StepOnwards(g, o, seed, cand, across, along, best) == StepOnwards(g, o, seed, next, across, along + 1, best)
  {
    NextRowClear(g, o, seed, cand, across, along, d);
    ExtendOnwards(g, o, seed, cand, across, along);
    next := StepDeeper(g, o, cand);
  }

  /** At the full depth of an open rectangle, the deepening loop's result
      has at least the rectangle's area. */
  lemma AtDepth(g: Grid, o: Orientation, seed: int, cand: int, across: nat, along: nat, best: Best, d: nat)
    requires Reaches(g, o, seed, best)
    requires g.Has(cand)
    requires g.Col(cand) == WiderCol(o, g.Col(seed), across) && g.Row(cand) == DeeperRow(o, g.Row(seed), along)
    requires OpenBlock(g, g.Col(seed), g.Row(seed), g.pixels[seed].colour, Span(g.Col(seed), g.Row(seed), g.Col(cand), g.Row(cand)))
    requires along == d
    ensures StepOnwards(g, o, seed, cand, across, along, best).area >= RectArea(across, d)
  {
    assert StepOnwards(g, o, seed, cand, across, along, best).area >= (across + 1) * (along + 1);
  }

  /** One turn of the widening loop: the sweep's result is the deepening
      result for this column when no further column is open, and
      otherwise the sweep from the next column; either way at least the
      deepening result. */
  lemma SweepStep(g: Grid, o: Orientation, seed: int, edge: int, across: nat, best: Best)
    requires Reaches(g, o, seed, best)
    requires g.Has(edge)
    requires g.Col(edge) == WiderCol(o, g.Col(seed), across) && g.Row(edge) == g.Row(seed)
    requires OpenBlock(g, g.Col(seed), g.Row(seed), g.pixels[seed].colour, Span(g.Col(seed), g.Row(seed), g.Col(edge), g.Row(edge)))
    ensures var best' := StepOnwards(g, o, seed, edge, across, 0, best);
            var next := StepWider(g, o, edge);
            Sweep(g, o, seed, edge, across, best).area >= best'.area
            && (next != Blocked ==>
                  g.Has(next) && g.Col(next) == WiderCol(o, g.Col(seed), across + 1) && g.Row(next) == g.Row(seed)
                  && OpenBlock(g, g.Col(seed), g.Row(seed), g.pixels[seed].colour, Span(g.Col(seed), g.Row(seed), g.Col(next), g.Row(next)))
                  && Sweep(g, o, seed, edge, across, best) == Sweep(g, o, seed, next, across + 1, best'))
  {
    if StepWider(g, o, edge) != Blocked {
      ExtendSideways(g, o, seed, edge, across);
    }
  }

  /** The widening loop reaches every open rectangle: from the edge cell
      `across` columns out, if the rectangle `k >= across` columns wide
      and `d` rows deep is open, the result's area is at least its
      area. */
  lemma {:induction false} SweepMax(g: Grid, o: Orientation, seed: int, edge: int, across: nat, best: Best, k: nat, d: nat)
    requires Reaches(g, o, seed, best)
    requires g.Has(edge)
    requires g.Col(edge) == WiderCol(o, g.Col(seed), across) && g.Row(edge) == g.Row(seed)
    requires across <= k
    requires OpenBlock(g, g.Col(seed), g.Row(seed), g.pixels[seed].colour, Span(g.Col(seed), g.Row(seed), g.Col(edge), g.Row(edge)))
    requires OpenBlock(g, g.Col(seed), g.Row(seed), g.pixels[seed].colour,
                       Span(g.Col(seed), g.Row(seed), WiderCol(o, g.Col(seed), k), DeeperRow(o, g.Row(seed), d)))
    ensures Sweep(g, o, seed, edge, across, best).area >= RectArea(k, d)
    decreases k - across, 1
  {
    if across < k {
      SweepOn(g, o, seed, edge, across, best, k, d);
    } else {
      LastColumn(g, o, seed, edge, across, best, k, d);
    }
  }

  /** Before the last column of an open rectangle, the sweep moves on to
      the next column with the deepening result as its kept best, and
      from there reaches the rectangle. */
  lemma {:induction false} SweepOn(g: Grid, o: Orientation, seed: int, edge: int, across: nat, best: Best, k: nat, d: nat)
    requires Reaches(g, o, seed, best)
    requires g.Has(edge)
    requires g.Col(edge) == WiderCol(o, g.Col(seed), across) && g.Row(edge) == g.Row(seed)
    requires across < k
    requires OpenBlock(g, g.Col(seed), g.Row(seed), g.pixels[seed].colour, Span(g.Col(seed), g.Row(seed), g.Col(edge), g.Row(edge)))
    requires OpenBlock(g, g.Col(seed), g.Row(seed), g.pixels[seed].colour,
                       Span(g.Col(seed), g.Row(seed), WiderCol(o, g.Col(seed), k), DeeperRow(o, g.Row(seed), d)))
    ensures Sweep(g, o, seed, edge, across, best).area >= RectArea(k, d)
    decreases k - across, 0
  {
    var next, best' := NextColumn(g, o, seed, edge, across, best, k, d);
    SweepMax(g, o, seed, next, across + 1, best', k, d);
  }

  /** The next column of the sweep: its edge cell and kept best, with the
      facts the sweep from there needs. */
  lemma NextColumn(g: Grid, o: Orientation, seed: int, edge: int, across: nat, best: Best, k: nat, d: nat)
    returns (next: int, best': Best)
    requires Reaches(g, o, seed, best)
    requires g.Has(edge)
    requires g.Col(edge) == WiderCol(o, g.Col(seed), across) && g.Row(edge) == g.Row(seed)
    requires across < k
    requires OpenBlock(g, g.Col(seed), g.Row(seed), g.pixels[seed].colour, Span(g.Col(seed), g.Row(seed), g.Col(edge), g.Row(edge)))
    requires OpenBlock(g, g.Col(seed), g.Row(seed), g.pixels[seed].colour,
                       Span(g.Col(seed), g.Row(seed), WiderCol(o, g.Col(seed), k), DeeperRow(o, g.Row(seed), d)))
    ensures Reaches(g, o, seed, best') && g.Has(next)
    ensures g.Col(next) == WiderCol(o, g.Col(seed), across + 1) && g.Row(next) == g.Row(seed)
    ensures OpenBlock(g, g.Col(seed), g.Row(seed), g.pixels[seed].colour, Span(g.Col(seed), g.Row(seed), g.Col(next), g.Row(next)))
    ensures Sweep(g, o, seed, edge, across, best) == Sweep(g, o, seed, next, across + 1, best')
  {
    SweepStep(g, o, seed, edge, across, best);
    WiderIsOpen(g, o, seed, edge, across, k, d);
    best' := StepOnwards(g, o, seed, edge, across, 0, best);
    next := StepWider(g, o, edge);
  }

  /** At the last column of an open rectangle `d` rows deep, the sweep's
      result has at least the rectangle's area. */
  lemma LastColumn(g: Grid, o: Orientation, seed: int, edge: int, across: nat, best: Best, k: nat, d: nat)
    requires Reaches(g, o, seed, best)
    requires g.Has(edge)
    requires g.Col(edge) == WiderCol(o, g.Col(seed), across) && g.Row(edge) == g.Row(seed)
    requires across == k
    requires OpenBlock(g, g.Col(seed), g.Row(seed), g.pixels[seed].colour, Span(g.Col(seed), g.Row(seed), g.Col(edge), g.Row(edge)))
    requires OpenBlock(g, g.Col(seed), g.Row(seed), g.pixels[seed].colour,
                       Span(g.Col(seed), g.Row(seed), WiderCol(o, g.Col(seed), k), DeeperRow(o, g.Row(seed), d)))
    ensures Sweep(g, o, seed, edge, across, best).area >= RectArea(k, d)
  {
    assert DeeperRow(o, g.Row(seed), 0) == g.Row(edge);
    StepOnwardsMax(g, o, seed, edge, across, 0, best, d);
    SweepStep(g, o, seed, edge, across, best);
  }

  /** The column beside the edge cell is open when a wider open rectangle
      covers it. */
  lemma WiderIsOpen(g: Grid, o: Orientation, seed: int, edge: int, across: nat, k: nat, d: nat)
    requires g.Has(seed) && g.Has(edge) && across < k
    requires g.Col(edge) == WiderCol(o, g.Col(seed), across) && g.Row(edge) == g.Row(seed)
    requires OpenBlock(g, g.Col(seed), g.Row(seed), g.pixels[seed].colour,
                       Span(g.Col(seed), g.Row(seed), WiderCol(o, g.Col(seed), k), DeeperRow(o, g.Row(seed), d)))
    ensures StepWider(g, o, edge) != Blocked
  {
    var sx, sy := g.Col(seed), g.Row(seed);
    Coords(g, seed);
    OpenShrinks(g, o, seed, k, d, across, 0);
    ColourInBlock(g, seed, edge, Span(sx, sy, g.Col(edge), g.Row(edge)));
    OpenCell(g, o, seed, k, d, across + 1, 0);
  }

  /** An answer the search may give is at most as large as the one the
      sweep from the seed alone returns. */
  lemma ReachedIsBelow(g: Grid, o: Orientation, seed: int, b: Best)
    requires Reaches(g, o, seed, b)
    ensures Reaches(g, o, seed, Best(seed, 1))
    ensures b.area <= Sweep(g, o, seed, seed, 0, Best(seed, 1)).area
  {
    Coords(g, seed);
    var sx, sy, cx, cy := g.Col(seed), g.Row(seed), g.Col(b.corner), g.Row(b.corner);
    CornerReaches(g, o, seed, seed, 0, 0);
    var k, d := Dist(sx, cx), Dist(sy, cy);
    assert WiderCol(o, sx, k) == cx && DeeperRow(o, sy, d) == cy;
    ReachedArea(g, o, seed, b);
    SweepMax(g, o, seed, seed, 0, Best(seed, 1), k, d);
  }

  /** The area of an answer counts the cells of its rectangle. */
  lemma ReachedArea(g: Grid, o: Orientation, seed: int, b: Best)
    requires Reaches(g, o, seed, b)
    ensures b.area == RectArea(Dist(g.Col(seed), g.Col(b.corner)), Dist(g.Row(seed), g.Row(b.corner)))
  {
  }

  /** No answer the search may give beats the sweep from the seed alone. */
  lemma SweepFromSeedIsMax(g: Grid, o: Orientation, seed: int)
    requires g.Has(seed)
    ensures forall b :: Reaches(g, o, seed, b) ==> b.area <= Sweep(g, o, seed, seed, 0, Best(seed, 1)).area
  {
    forall b | Reaches(g, o, seed, b)
      ensures b.area <= Sweep(g, o, seed, seed, 0, Best(seed, 1)).area
    {
      ReachedIsBelow(g, o, seed, b);
    }
  }
}
