/** The puzzle generator: `RenderData`'s constructor, `randomEmptyIndex`,
    `init` and `initImage`. The calls to `Math.random()` are replaced by
    oracles: the `i`-th draw at a call site is a natural number `d`, and
    `Math.floor(Math.random() * n)` is modelled as `d % n`, so every index
    below `n` can be drawn and nothing is said about the distribution. */
module Generator {
  import opened Cells
  import opened Search
  import opened Carve

  /** The successive draws of one `Math.random()` call site. */
  type Oracle = nat -> nat

  /** A carved block: its labelled seed cell and its rectangle. */
  datatype Block = Block(seed: int, bounds: Bounds)

  /** A grid as the constructor leaves it: every pixel `"?"`, unfilled. */
  predicate Fresh(g: Grid) {
    forall k :: 0 <= k < |g.pixels| ==> g.pixels[k].number == Unassigned && !g.pixels[k].filled
  }

  /** The `RenderData` constructor: one unfilled `"?"` pixel per colour. */
  function New(height: nat, width: nat, colours: seq<Colour>): (g: Grid)
    ensures g.height == height && g.width == width && |g.pixels| == |colours|
    ensures |colours| == height * width ==> g.Valid()
    ensures Fresh(g)
    ensures forall k :: 0 <= k < |colours| ==> g.pixels[k].colour == colours[k]
  {
    Grid(height, width, seq(|colours|, k requires 0 <= k < |colours| => Pixel(colours[k], false, Unassigned)))
  }

  /** The indices below `n` of `"?"` pixels, in increasing order: what the
      loop of `randomEmptyIndex` has collected after `n` iterations. */
  function EmptyIndices(ps: seq<Pixel>, n: nat): (r: seq<int>)
    requires n <= |ps|
    ensures forall k :: k in r <==> 0 <= k < n && ps[k].number == Unassigned
    ensures forall a, b :: 0 <= a < b < |r| ==> r[a] < r[b]
  {
    if n == 0 then []
    else
      var r := EmptyIndices(ps, n - 1);
      assert forall a :: 0 <= a < |r| ==> r[a] in r;
      r + (if ps[n - 1].number == Unassigned then [n - 1] else [])
  }

  /** `randomEmptyIndex`: -1 when no `"?"` pixel is left, otherwise the
      `"?"` pixel the draw selects among all of them. */
  method RandomEmptyIndex(g: Grid, draw: nat) returns (r: int)
    ensures r == -1 <==> forall k :: 0 <= k < |g.pixels| ==> g.pixels[k].number != Unassigned
    ensures r != -1 ==> 0 <= r < |g.pixels| && g.pixels[r].number == Unassigned
    ensures r != -1 ==> var e := EmptyIndices(g.pixels, |g.pixels|); r == e[draw % |e|]
  {
    var empty: seq<int> := [];
    var i := 0;
    while i < |g.pixels|
      invariant 0 <= i <= |g.pixels|
      invariant empty == EmptyIndices(g.pixels, i)
    {
      assert EmptyIndices(g.pixels, i + 1)
        == empty + (if g.pixels[i].number == Unassigned then [i] else []);
      if g.pixels[i].number == Unassigned {
        empty := empty + [i];
      }
      i := i + 1;
    }
    assert empty == EmptyIndices(g.pixels, |g.pixels|);
    if |empty| == 0 {
      forall k | 0 <= k < |g.pixels|
        ensures g.pixels[k].number != Unassigned
      {
        assert k !in empty;
      }
      return -1;
    }
    r := empty[draw % |empty|];
    assert r in empty;
  }

  /** `Math.floor(width * height * 0.02)`. The double product of a natural
      number below 2^50 and 0.02 rounds to a value whose floor is the exact
      quotient, so the float is not modelled. */
  function SingleCount(g: Grid): (n: nat)
    ensures n * 50 <= g.width * g.height < (n + 1) * 50
  {
    (g.width * g.height) / 50
  }

  /** Cell `(x, y)` lies on the grid, has colour `c`, and is either the
      seed `seed` or consumed: a cell of a carved block. */
  ghost predicate Carved(g: Grid, x: int, y: int, c: Colour, seed: int) {
    0 <= x < g.width && 0 <= y < g.height && 0 <= g.Idx(x, y) < |g.pixels|
    && g.pixels[g.Idx(x, y)].colour == c
    && (g.Idx(x, y) == seed || g.pixels[g.Idx(x, y)].number == Consumed)
  }

  /** `blk` is laid out in `g`: its seed sits at one of its corners and is
      labelled with its area, and every cell of it shares the seed's colour
      and is consumed. */
  ghost predicate Laid(g: Grid, blk: Block) {
    var b := blk.bounds;
    g.Has(blk.seed) && b.WellFormed()
    && (g.Col(blk.seed) == b.startX || g.Col(blk.seed) == b.endX)
    && (g.Row(blk.seed) == b.startY || g.Row(blk.seed) == b.endY)
    && g.pixels[blk.seed].number == Label(b.Area())
    && forall x, y :: b.Contains(x, y) ==> Carved(g, x, y, g.pixels[blk.seed].colour, blk.seed)
  }

  /** Every block is laid out. */
  ghost predicate AllLaid(g: Grid, blocks: seq<Block>) {
    forall i :: 0 <= i < |blocks| ==> Laid(g, blocks[i])
  }

  /** No cell lies in two blocks. */
  ghost predicate Disjoint(blocks: seq<Block>) {
    forall i, j, x, y :: 0 <= i < j < |blocks| && blocks[i].bounds.Contains(x, y) ==> !blocks[j].bounds.Contains(x, y)
  }

  /** Every pixel that is no longer `"?"` lies in some block. */
  ghost predicate Covers(g: Grid, blocks: seq<Block>)
    requires g.Valid()
  {
    forall k :: 0 <= k < |g.pixels| && g.pixels[k].number != Unassigned ==>
      exists i :: 0 <= i < |blocks| && blocks[i].bounds.Contains(g.Col(k), g.Row(k))
  }

  /** A pixel is filled exactly when it is labelled 1. */
  ghost predicate FilledSingles(g: Grid) {
    forall k :: 0 <= k < |g.pixels| ==> (g.pixels[k].filled <==> g.pixels[k].number == Label(1))
  }

  /** The generator's invariant: the blocks are laid out, pairwise
      disjoint, and cover every pixel that is no longer `"?"`; a pixel is
      filled exactly when it is labelled 1. */
  ghost predicate Partition(g: Grid, blocks: seq<Block>) {
    g.Valid() && AllLaid(g, blocks) && Disjoint(blocks) && Covers(g, blocks) && FilledSingles(g)
  }

  /** The effect of `fillMaxBlock` (and, for a 1x1 block, of planting a
      forced single): `block` had only `"?"` cells of the seed's colour, the
      seed is now labelled with the area and the rest is consumed. */
  ghost predicate Claims(g: Grid, g': Grid, seed: int, block: Bounds) {
    g.Has(seed) && g.pixels[seed].number == Unassigned
    && g'.height == g.height && g'.width == g.width && |g'.pixels| == |g.pixels|
    && block.WellFormed()
    && (g.Col(seed) == block.startX || g.Col(seed) == block.endX)
    && (g.Row(seed) == block.startY || g.Row(seed) == block.endY)
    && (forall x, y :: block.Contains(x, y) ==> g.Fits(x, y, g.pixels[seed].colour))
    && forall k :: 0 <= k < |g.pixels| ==>
         g'.pixels[k] == if k == seed then g.pixels[k].(number := Label(block.Area()), filled := g.pixels[k].filled || block.Area() == 1)
                         else Cleared(g, block, k)
  }

  /** A claim changes no pixel that was not `"?"`. */
  lemma ClaimKeepsAssigned(g: Grid, g': Grid, seed: int, block: Bounds, k: int)
    requires Claims(g, g', seed, block)
    requires 0 <= k < |g.pixels| && g.pixels[k].number != Unassigned
    ensures g'.pixels[k] == g.pixels[k]
  {
    Coords(g, k);
  }

  /** No cell of a laid-out block is `"?"`. */
  lemma LaidCellsAssigned(g: Grid, blk: Block, x: int, y: int)
    requires Laid(g, blk) && blk.bounds.Contains(x, y)
    ensures 0 <= g.Idx(x, y) < |g.pixels| && g.pixels[g.Idx(x, y)].number != Unassigned
  {
    assert Carved(g, x, y, g.pixels[blk.seed].colour, blk.seed);
  }

  /** A claim keeps every existing block laid out. */
  lemma ClaimKeepsLaid(g: Grid, g': Grid, seed: int, block: Bounds, blk: Block)
    requires Claims(g, g', seed, block) && Laid(g, blk)
    ensures Laid(g', blk)
  {
    var c := g.pixels[blk.seed].colour;
    Coords(g, blk.seed);
    LaidCellsAssigned(g, blk, g.Col(blk.seed), g.Row(blk.seed));
    ClaimKeepsAssigned(g, g', seed, block, blk.seed);
    forall x, y | blk.bounds.Contains(x, y)
      ensures Carved(g', x, y, c, blk.seed)
    {
      LaidCellsAssigned(g, blk, x, y);
      ClaimKeepsAssigned(g, g', seed, block, g.Idx(x, y));
    }
  }

  /** The claimed block itself is laid out afterwards. */
  lemma ClaimLays(g: Grid, g': Grid, seed: int, block: Bounds)
    requires Claims(g, g', seed, block)
    ensures Laid(g', Block(seed, block))
  {
    var c := g.pixels[seed].colour;
    forall x, y | block.Contains(x, y)
      ensures Carved(g', x, y, c, seed)
    {
      assert g.Fits(x, y, c);
      Index(g, x, y);
    }
  }

  lemma ClaimKeepsAllLaid(g: Grid, g': Grid, seed: int, block: Bounds, blocks: seq<Block>)
    requires Claims(g, g', seed, block) && AllLaid(g, blocks)
    ensures AllLaid(g', blocks + [Block(seed, block)])
  {
    var blocks' := blocks + [Block(seed, block)];
    forall i | 0 <= i < |blocks'|
      ensures Laid(g', blocks'[i])
    {
      if i < |blocks| {
        ClaimKeepsLaid(g, g', seed, block, blocks[i]);
      } else {
        ClaimLays(g, g', seed, block);
      }
    }
  }

  lemma ClaimKeepsDisjoint(g: Grid, g': Grid, seed: int, block: Bounds, blocks: seq<Block>)
    requires Claims(g, g', seed, block) && AllLaid(g, blocks) && Disjoint(blocks)
    ensures Disjoint(blocks + [Block(seed, block)])
  {
    var blocks' := blocks + [Block(seed, block)];
    forall i, j, x, y | 0 <= i < j < |blocks'| && blocks'[i].bounds.Contains(x, y)
      ensures !blocks'[j].bounds.Contains(x, y)
    {
      if j == |blocks| && block.Contains(x, y) {
        LaidCellsAssigned(g, blocks[i], x, y);
      }
    }
  }

  lemma ClaimKeepsCovers(g: Grid, g': Grid, seed: int, block: Bounds, blocks: seq<Block>)
    requires Claims(g, g', seed, block) && Covers(g, blocks)
    ensures g'.Valid() && Covers(g', blocks + [Block(seed, block)])
  {
    var blocks' := blocks + [Block(seed, block)];
    forall k | 0 <= k < |g'.pixels| && g'.pixels[k].number != Unassigned
      ensures exists i :: 0 <= i < |blocks'| && blocks'[i].bounds.Contains(g'.Col(k), g'.Row(k))
    {
      Coords(g, k);
      if g.pixels[k].number != Unassigned {
        ClaimKeepsAssigned(g, g', seed, block, k);
        var i :| 0 <= i < |blocks| && blocks[i].bounds.Contains(g.Col(k), g.Row(k));
        assert blocks'[i] == blocks[i];
      } else {
        assert blocks'[|blocks|].bounds.Contains(g'.Col(k), g'.Row(k));
      }
    }
  }

  lemma ClaimKeepsFilledSingles(g: Grid, g': Grid, seed: int, block: Bounds)
    requires Claims(g, g', seed, block) && FilledSingles(g)
    ensures FilledSingles(g')
  {
    forall k | 0 <= k < |g'.pixels|
      ensures g'.pixels[k].filled <==> g'.pixels[k].number == Label(1)
    {
      Coords(g, k);
    }
  }

  /** A claim keeps the partition invariant, with the claimed block added. */
  lemma ClaimKeepsPartition(g: Grid, g': Grid, seed: int, block: Bounds, blocks: seq<Block>)
    requires Claims(g, g', seed, block) && Partition(g, blocks)
    ensures Partition(g', blocks + [Block(seed, block)])
  {
    ClaimKeepsAllLaid(g, g', seed, block, blocks);
    ClaimKeepsDisjoint(g, g', seed, block, blocks);
    ClaimKeepsCovers(g, g', seed, block, blocks);
    ClaimKeepsFilledSingles(g, g', seed, block);
  }

  /** Planting a forced single on a `"?"` pixel claims the 1x1 block at it. */
  lemma PlantClaims(g: Grid, index: int)
    requires g.Has(index) && g.pixels[index].number == Unassigned
    ensures var block := Span(g.Col(index), g.Row(index), g.Col(index), g.Row(index));
            block.Area() == 1
            && Claims(g, g.(pixels := g.pixels[index := g.pixels[index].(number := Label(1), filled := true)]), index, block)
  {
    var x, y := g.Col(index), g.Row(index);
    var block := Span(x, y, x, y);
    var g' := g.(pixels := g.pixels[index := g.pixels[index].(number := Label(1), filled := true)]);
    Coords(g, index);
    forall k | 0 <= k < |g.pixels| && k != index
      ensures g'.pixels[k] == Cleared(g, block, k)
    {
      Coords(g, k);
    }
  }

  /** The pixel at `k` is a forced single: labelled 1 and filled. */
  predicate ForcedSingle(g: Grid, k: int) {
    0 <= k < |g.pixels| && g.pixels[k].number == Label(1) && g.pixels[k].filled
  }

  /** One forced single: the pixel at `index` becomes labelled 1 and
      filled. On a `"?"` pixel that lays a new 1x1 block; on a pixel planted
      before (the only other kind while planting) it changes nothing. */
  lemma PlantKeepsPartition(g: Grid, index: int, blocks: seq<Block>)
    requires g.Has(index) && Partition(g, blocks)
    requires OnlySingles(g)
    ensures var g' := g.(pixels := g.pixels[index := g.pixels[index].(number := Label(1), filled := true)]);
            var x, y := g.Col(index), g.Row(index);
            if g.pixels[index].number == Unassigned
            then Partition(g', blocks + [Block(index, Span(x, y, x, y))])
            else g' == g
  {
    var g' := g.(pixels := g.pixels[index := g.pixels[index].(number := Label(1), filled := true)]);
    var x, y := g.Col(index), g.Row(index);
    if g.pixels[index].number == Unassigned {
      PlantClaims(g, index);
      ClaimKeepsPartition(g, g', index, Span(x, y, x, y), blocks);
    } else {
      assert g.pixels[index].(number := Label(1), filled := true) == g.pixels[index];
    }
  }

  /** Every pixel is `"?"` or labelled 1: the state while planting. */
  predicate OnlySingles(g: Grid) {
    forall k :: 0 <= k < |g.pixels| ==> g.pixels[k].number in {Unassigned, Label(1)}
  }

  /** One round of the first loop of `init`: the pixel at `index` becomes
      labelled 1 and filled, and no other pixel changes. */
  method PlantOne(g: Grid, index: int, ghost blocks: seq<Block>) returns (g': Grid, ghost blocks': seq<Block>)
    requires g.Has(index)
    ensures g'.height == g.height && g'.width == g.width && g'.Valid()
    ensures ForcedSingle(g', index) && g'.pixels[index].colour == g.pixels[index].colour
    ensures forall k :: 0 <= k < |g.pixels| && k != index ==> g'.pixels[k] == g.pixels[k]
    ensures Partition(g, blocks) && OnlySingles(g) ==> Partition(g', blocks') && OnlySingles(g')
  {
    g' := g.(pixels := g.pixels[index := g.pixels[index].(number := Label(1), filled := true)]);
    blocks' := blocks;
    if Partition(g, blocks) && OnlySingles(g) {
      PlantKeepsPartition(g, index, blocks);
      if g.pixels[index].number == Unassigned {
        var x, y := g.Col(index), g.Row(index);
        blocks' := blocks + [Block(index, Span(x, y, x, y))];
      }
    }
  }

  /** The first loop of `init`: `SingleCount(g)` draws, each planting a
      forced single at the drawn index. */
  method PlantSingles(g: Grid, singles: Oracle) returns (g': Grid, ghost blocks: seq<Block>)
    requires g.Valid()
    ensures g'.height == g.height && g'.width == g.width && g'.Valid()
    ensures forall k :: 0 <= k < |g.pixels| ==> g'.pixels[k].colour == g.pixels[k].colour
    ensures forall t :: 0 <= t < SingleCount(g) ==> ForcedSingle(g', singles(t) % |g.pixels|)
    // a pixel no draw selects is unchanged
    ensures forall k :: 0 <= k < |g.pixels| && (forall t :: 0 <= t < SingleCount(g) ==> singles(t) % |g.pixels| != k) ==>
              g'.pixels[k] == g.pixels[k]
    ensures Fresh(g) ==> Partition(g', blocks)
  {
    var n := SingleCount(g);
    g', blocks := g, [];
    var i := 0;
    while i < n
      invariant 0 <= i <= n
      invariant g'.height == g.height && g'.width == g.width && g'.Valid()
      invariant forall k :: 0 <= k < |g.pixels| ==> g'.pixels[k].colour == g.pixels[k].colour
      invariant forall t :: 0 <= t < i ==> ForcedSingle(g', singles(t) % |g.pixels|)
      invariant forall k :: 0 <= k < |g.pixels| && (forall t :: 0 <= t < i ==> singles(t) % |g.pixels| != k) ==>
                  g'.pixels[k] == g.pixels[k]
      invariant Fresh(g) ==> Partition(g', blocks) && OnlySingles(g')
    {
      var index := singles(i) % |g'.pixels|;
      Inhabited(g', index);
      g', blocks := PlantOne(g', index, blocks);
      i := i + 1;
    }
  }

  /** `fillMaxBlock` seen through the partition invariant: it claims the
      block it carves. */
  method ClaimBlock(g: Grid, seed: int) returns (g': Grid, block: Bounds)
    requires g.Has(seed) && g.pixels[seed].number == Unassigned
    ensures g'.Valid() && Claims(g, g', seed, block)
    ensures CountUnassigned(g'.pixels) < CountUnassigned(g.pixels)
    // the block is the largest open rectangle with the seed at a corner
    ensures forall o, b :: Reaches(g, o, seed, b) ==> b.area <= block.Area()
    ensures exists o :: block == GetBlockBounds(g, seed, FindMaxBlock(g, o, seed).corner, o)
  {
    var from;
    g', from, block := FillMaxBlock(g, seed);
  }

  /** One round of the second loop of `init`: carve the largest block at a
      `"?"` seed. Only `"?"` pixels change, and at least one of them (the
      seed) stops being `"?"`. */
  method CarveOne(g: Grid, seed: int, ghost blocks: seq<Block>) returns (g': Grid, ghost blocks': seq<Block>)
    requires g.Valid() && 0 <= seed < |g.pixels| && g.pixels[seed].number == Unassigned
    ensures g'.height == g.height && g'.width == g.width && g'.Valid()
    ensures forall k :: 0 <= k < |g.pixels| ==> g'.pixels[k].colour == g.pixels[k].colour
    ensures forall k :: 0 <= k < |g.pixels| && g.pixels[k].number != Unassigned ==> g'.pixels[k] == g.pixels[k]
    ensures CountUnassigned(g'.pixels) < CountUnassigned(g.pixels)
    ensures Partition(g, blocks) ==> Partition(g', blocks')
    // the round records one block at the seed, the largest open rectangle there
    ensures |blocks'| == |blocks| + 1 && blocks'[..|blocks|] == blocks && blocks'[|blocks|].seed == seed
    ensures g.Has(seed) && forall o, b :: Reaches(g, o, seed, b) ==> b.area <= blocks'[|blocks|].bounds.Area()
    ensures exists o :: blocks'[|blocks|].bounds == GetBlockBounds(g, seed, FindMaxBlock(g, o, seed).corner, o)
  {
    Inhabited(g, seed);
    var block;
    g', block := ClaimBlock(g, seed);
    forall k | 0 <= k < |g.pixels|
      ensures g'.pixels[k].colour == g.pixels[k].colour
      ensures g.pixels[k].number != Unassigned ==> g'.pixels[k] == g.pixels[k]
    {
      if g.pixels[k].number != Unassigned {
        ClaimKeepsAssigned(g, g', seed, block, k);
      }
    }
    if Partition(g, blocks) {
      ClaimKeepsPartition(g, g', seed, block, blocks);
    }
    blocks' := blocks + [Block(seed, block)];
  }

  /** The second loop of `init`: while a `"?"` pixel is left, draw one as
      seed and carve the largest block at it. Every round consumes at least
      the seed, so the loop ends, and it ends with no `"?"` pixel. */
  method CarveAll(g: Grid, seeds: Oracle, ghost blocks: seq<Block>) returns (g': Grid, ghost blocks': seq<Block>)
    requires g.Valid()
    ensures g'.height == g.height && g'.width == g.width && g'.Valid()
    ensures forall k :: 0 <= k < |g.pixels| ==> g'.pixels[k].colour == g.pixels[k].colour
    ensures forall k :: 0 <= k < |g'.pixels| ==> g'.pixels[k].number != Unassigned
    ensures forall k :: 0 <= k < |g.pixels| && g.pixels[k].number != Unassigned ==> g'.pixels[k] == g.pixels[k]
    ensures Partition(g, blocks) ==> Partition(g', blocks')
  {
    g', blocks' := g, blocks;
    var t := 0;
    while true
      invariant g'.height == g.height && g'.width == g.width && g'.Valid()
      invariant forall k :: 0 <= k < |g.pixels| ==> g'.pixels[k].colour == g.pixels[k].colour
      invariant forall k :: 0 <= k < |g.pixels| && g.pixels[k].number != Unassigned ==> g'.pixels[k] == g.pixels[k]
      invariant Partition(g, blocks) ==> Partition(g', blocks')
      decreases CountUnassigned(g'.pixels)
    {
      var seed := RandomEmptyIndex(g', seeds(t));
      if seed == -1 {
        break;
      }
      g', blocks' := CarveOne(g', seed, blocks');
      t := t + 1;
    }
  }

  /** `init`: plants the forced singles, then carves blocks until no `"?"`
      pixel is left. `blocks` records the carved blocks, the forced singles
      included, for the specification. */
  method Init(g: Grid, singles: Oracle, seeds: Oracle) returns (g': Grid, ghost blocks: seq<Block>)
    requires g.Valid()
    ensures g'.height == g.height && g'.width == g.width && g'.Valid()
    ensures forall k :: 0 <= k < |g.pixels| ==> g'.pixels[k].colour == g.pixels[k].colour
    ensures forall k :: 0 <= k < |g'.pixels| ==> g'.pixels[k].number != Unassigned
    ensures forall t :: 0 <= t < SingleCount(g) ==> ForcedSingle(g', singles(t) % |g.pixels|)
    ensures Fresh(g) ==> Partition(g', blocks)
  {
    var planted;
    ghost var singleBlocks;
    planted, singleBlocks := PlantSingles(g, singles);
    g', blocks := CarveAll(planted, seeds, singleBlocks);
  }

  /** `initImage`: a fresh grid from the colours, then `init`. With one
      colour per cell, the result is a partition of the whole grid into
      single-coloured rectangles, each labelled at a corner with its area. */
  method InitImage(height: nat, width: nat, colours: seq<Colour>, singles: Oracle, seeds: Oracle)
    returns (g: Grid, ghost blocks: seq<Block>)
    requires |colours| == height * width
    ensures g.height == height && g.width == width && g.Valid()
    ensures forall k :: 0 <= k < |colours| ==> g.pixels[k].colour == colours[k]
    ensures forall k :: 0 <= k < |g.pixels| ==> g.pixels[k].number != Unassigned
    ensures forall t :: 0 <= t < (width * height) / 50 ==> ForcedSingle(g, singles(t) % |colours|)
    ensures Partition(g, blocks)
  {
    g, blocks := Init(New(height, width, colours), singles, seeds);
  }

  /** In a partition, a labelled pixel is the seed of a block whose area is
      the label. */
  lemma LabelIsArea(g: Grid, blocks: seq<Block>, k: int)
    requires Partition(g, blocks) && 0 <= k < |g.pixels| && g.pixels[k].number.Label?
    ensures exists i :: 0 <= i < |blocks| && blocks[i].seed == k && blocks[i].bounds.Area() == g.pixels[k].number.area
  {
    Inhabited(g, k);
    Coords(g, k);
    var i :| 0 <= i < |blocks| && blocks[i].bounds.Contains(g.Col(k), g.Row(k));
    assert Laid(g, blocks[i]);
    assert Carved(g, g.Col(k), g.Row(k), g.pixels[blocks[i].seed].colour, blocks[i].seed);
  }

  /** In a partition with no `"?"` left, every pixel lies in exactly one
      block. */
  lemma InOneBlock(g: Grid, blocks: seq<Block>, k: int)
    requires Partition(g, blocks) && 0 <= k < |g.pixels|
    requires forall k :: 0 <= k < |g.pixels| ==> g.pixels[k].number != Unassigned
    ensures g.width > 0
    ensures exists i :: 0 <= i < |blocks| && blocks[i].bounds.Contains(g.Col(k), g.Row(k))
    ensures forall i, j ::
              (0 <= i < |blocks| && 0 <= j < |blocks| && blocks[i].bounds.Contains(g.Col(k), g.Row(k))
               && blocks[j].bounds.Contains(g.Col(k), g.Row(k))) ==> i == j
  {
    Inhabited(g, k);
    assert g.pixels[k].number != Unassigned;
  }
}
