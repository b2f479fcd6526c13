# Fillomino-style puzzle generator and hex colour codec, in Dafny

This project models the puzzle generator of a grid game. `RenderData`
takes a `height × width` grid of base colours, stored y-major in one flat
array with `index = y * width + x`. It partitions the grid into
rectangles of one colour each. Every rectangle has a seed cell at one of
its corners, and the seed is labelled with the rectangle's area.

The generator works in two phases:

- It plants a few forced single-cell blocks.
- It then repeatedly draws a random cell that is still `"?"` and runs
  four greedy rectangle searches from it, one for each corner the seed
  could occupy.
- It keeps the largest area, the earliest search winning ties. It sets
  the rectangle's cells to `""` and writes the area on the seed.

The project also models the small `Color` class: `#rrggbb` parsing,
printing and channel inversion.

Modules, one per concern:

- `Cells` (`cells.dfy`):
  - the pixel record; its `number` field is a `Mark`: `Unassigned` for
    `"?"`, `Consumed` for `""`, and `Label(n)` for the decimal text of an
    area;
  - the flat grid and the inclusive rectangle type `Bounds`;
  - the index/column/row arithmetic;
  - the count of `"?"` cells, which is the generator's termination
    measure.
- `Neighbours` (`neighbours.dfy`): the four `get*NeighborIndex` lookups
  and the two row scans built on them.
- `Search` (`search.dfy`): the four `findMaxBlockFrom*` searches and
  their `stepDown*` / `stepUp*` helpers. The source writes them as four
  mirror-image copies; here one search takes the seed's corner (an
  `Orientation`) as a parameter. The step directions follow from it, and
  the branches, the order of steps and the strict `>` are kept. The
  search is shown to be exact: its answer is the largest rectangle with
  the seed at that corner whose other cells are `"?"` and of the seed's
  colour.
- `Carve` (`carve.dfy`): `getBlockBounds`, `clearBlock` and
  `fillMaxBlock`.
- `Generator` (`generator.dfy`): the constructor, `randomEmptyIndex`,
  `init` and `initImage`, plus the partition invariant.
  - The invariant says the carved blocks are laid out, pairwise disjoint
    and cover every cell that is not `"?"`, and a cell is filled exactly
    when it is labelled 1.
  - `Init` ends with no `"?"` cell and, from a fresh grid, with that
    invariant. The list of blocks is a ghost record kept only for the
    specification.
- `Colors` (`colors.dfy`): `Color`, `fromHex`, `toHex`, `inverted` and
  `invertedHex`, with the round trips between text and channels.

The calls to `Math.random()` are parameters. Each call site becomes an
oracle `nat -> nat`, and a draw `d` stands for
`Math.floor(Math.random() * n)` as `d % n`. Any index below `n` can be
drawn this way, and nothing is assumed about the distribution.

Two details of the code shape the model:

- Planting a forced single does not check whether the cell is still
  `"?"`. This changes nothing, because during planting every cell is
  `"?"` or an earlier single. `PlantKeepsPartition` states both cases.
- The code records no owned-block rectangle and does not repaint any
  cell. The model's blocks are a ghost record, not pixel state.

## Model

| member | source | states |
|---|---|---|
| Neighbours.RightNeighbour | src/scripts/renderData.ts:146-153 | -1 exactly when the cell is in the last column or the cell to its right is not `"?"` or has another colour; otherwise `index + 1`, the same row one column on |
| Neighbours.LeftNeighbour | src/scripts/renderData.ts:155-162 | -1 exactly when the cell is in the first column or the cell to its left is not `"?"` or has another colour; otherwise `index - 1`, the same row one column back |
| Neighbours.BottomNeighbour | src/scripts/renderData.ts:164-171 | -1 exactly when the cell is in the last row or the cell below is not `"?"` or has another colour; otherwise `index + width`, the same column one row down |
| Neighbours.TopNeighbour | src/scripts/renderData.ts:173-180 | -1 exactly when the cell is in the first row or the cell above is not `"?"` or has another colour; otherwise `index - width`, the same column one row up |
| Neighbours.RowFromLeftIsClear | src/scripts/renderData.ts:182-192 | true exactly when the `n` cells left of the end cell are on its row, `"?"` and of the end cell's colour |
| Neighbours.RowFromRightIsClear | src/scripts/renderData.ts:194-204 | true exactly when the `n` cells right of the end cell are on its row, `"?"` and of the end cell's colour |
| Search.StepOnwards | src/scripts/renderData.ts:223-241 | soundness of the deepening loop: from a candidate corner whose rectangle is clear, the result is a reachable corner: it lies in the quadrant, its area is the spanned rectangle's area, and that rectangle is `"?"` and of the seed's colour; the result is at least the kept best and at least the candidate's area |
| Search.StepOnwardsMax | src/scripts/renderData.ts:223-241 | completeness of the deepening loop: if the rectangle of the candidate's width reaching `d` rows from the seed is open, the loop's result has at least that rectangle's area |
| Search.Sweep | src/scripts/renderData.ts:206-221 | soundness of the widening loop: from a clear edge cell it keeps the best reachable, and never lowers the kept area |
| Search.SweepMax | src/scripts/renderData.ts:206-221 | completeness of the widening loop: if the rectangle `k` columns wide and `d` rows deep is open and `k` is not less than the current column, the result has at least that rectangle's area |
| Search.SweepFromSeedIsMax | src/scripts/renderData.ts:206-221 | no rectangle anchored at the seed's corner and open beats the sweep that starts from the seed alone |
| Search.FindMaxBlock | src/scripts/renderData.ts:206-352 | each of the four searches returns the largest rectangle with the seed at its corner: the answer's area is `(|Δcol|+1)*(|Δrow|+1)` between the seed and the returned corner, at least 1; the corner lies in the orientation's quadrant; every other cell of the spanned rectangle is `"?"` and of the seed's colour; and no other corner with that property spans a larger area |
| Carve.GetBlockBounds | src/scripts/renderData.ts:97-131 | the seed sits at the corner named by the direction and the best index at the opposite corner; the bounds are well formed exactly when the best index lies in the direction's quadrant, and then they are the rectangle the two cells span |
| Carve.ReachedBlockFits | src/scripts/renderData.ts:89 | for a search result and a `"?"` seed, the bounds are well formed, their area is the search's area, and every cell inside them is `"?"` and of the seed's colour |
| Carve.ClearBlock | src/scripts/renderData.ts:133-144 | every pixel inside the inclusive bounds gets `number = ""`, and every other pixel is unchanged |
| Carve.ChooseCorner | src/scripts/renderData.ts:67-87 | the kept result is the largest of the four searches' areas, and every orientation earlier in the order tl, tr, bl, br has a strictly smaller area; no open rectangle with the seed at any corner is larger |
| Carve.FillMaxBlock | src/scripts/renderData.ts:66-95 | the block is the rectangle `getBlockBounds` builds from the seed and the winning search's corner; it is well formed, has the seed at the winning corner, and has the largest area with the earliest-wins tie-break; no open rectangle with the seed at any of its corners is larger; all its cells were `"?"` and of the seed's colour; afterwards the seed carries the area and is filled when the area is 1, the rest of the block is `""`, nothing else changes, and the number of `"?"` cells drops |
| Cells.CountUnassigned | src/scripts/renderData.ts:53-62 | the count is zero exactly when no pixel is `"?"` |
| Cells.CountDecreases | src/scripts/renderData.ts:44-50 | an update that creates no `"?"` and removes one strictly lowers the count, which is the termination measure of the second loop of `init` |
| Cells.Coords | src/scripts/renderData.ts:98-101 | the column `index % width` and the row `floor(index / width)` of a pixel lie on the grid and give back the index |
| Cells.Index | src/scripts/renderData.ts:140 | `j * width + i` addresses a pixel for every on-grid column `i` and row `j`, and its column and row are `i` and `j` |
| Generator.New | src/scripts/renderData.ts:19-29 | one pixel per colour, in order, each `"?"` and unfilled; with one colour per cell the grid is well formed |
| Generator.EmptyIndices | src/scripts/renderData.ts:54-59 | the collected indices are exactly the `"?"` pixels below `n`, in increasing order |
| Generator.RandomEmptyIndex | src/scripts/renderData.ts:53-64 | -1 exactly when no pixel is `"?"`; otherwise a `"?"` index, the one the draw selects among the `"?"` indices in increasing order |
| Generator.SingleCount | src/scripts/renderData.ts:38 | the number of forced singles is the floor of `width * height / 50`: it times 50 is at most the cell count, which is less than it plus one times 50 |
| Generator.PlantOne | src/scripts/renderData.ts:40-42 | one planting round labels the drawn pixel 1 and fills it, keeps its colour, leaves every other pixel alone, and keeps a partition of singles a partition of singles |
| Generator.PlantKeepsPartition | src/scripts/renderData.ts:40-42 | planting a single on a `"?"` cell adds a 1x1 block and keeps the partition invariant, and planting it on an earlier single changes nothing |
| Generator.PlantSingles | src/scripts/renderData.ts:38-43 | `floor(width*height/50)` draws; every drawn index ends labelled 1 and filled, every pixel no draw selects is unchanged, colours are kept, and from a fresh grid the planted singles form a partition |
| Generator.ClaimBlock | src/scripts/renderData.ts:49 | calling `fillMaxBlock` at a `"?"` seed claims a block of `"?"` cells of the seed's colour, lowers the `"?"` count, and the block is the `getBlockBounds` rectangle of one corner's search, at least as large as every open rectangle with the seed at a corner |
| Generator.ClaimKeepsPartition | src/scripts/renderData.ts:89-94 | carving a block of `"?"` cells of one colour keeps the blocks laid out, pairwise disjoint and covering every non-`"?"` cell, and keeps "filled exactly when labelled 1" |
| Generator.CarveOne | src/scripts/renderData.ts:45-49 | one round changes only `"?"` pixels, keeps colours, strictly lowers the `"?"` count and keeps the partition invariant; it records exactly one new block, seeded at the drawn cell, which is the rectangle `getBlockBounds` builds for one of the four corners and is at least as large as every open rectangle with the seed at a corner |
| Generator.CarveAll | src/scripts/renderData.ts:44-50 | the loop ends with no `"?"` pixel, changes no pixel that was not `"?"`, keeps colours and keeps the partition invariant |
| Generator.Init | src/scripts/renderData.ts:37-51 | afterwards no pixel is `"?"`, every forced single is labelled 1 and filled, colours are kept, and from a fresh grid the labelled blocks partition the grid |
| Generator.InitImage | src/scripts/renderData.ts:31-35 | with one colour per cell, the result is a full partition into single-colour rectangles, with no `"?"` left and the colours in place |
| Generator.LabelIsArea | src/scripts/renderData.ts:91 | in a partition, a pixel labelled `n` is the seed of a block of area `n` |
| Generator.InOneBlock | src/scripts/renderData.ts:44-50 | once no `"?"` is left, every pixel lies in exactly one block |
| Colors.NatToHex | src/scripts/colors.ts:24 | `toString(16)` of a natural number is non-empty, made of lower-case hex digits, has no leading zero, and reads back in base 16 as the number |
| Colors.IntToHexReads | src/scripts/colors.ts:24 | `toString(16)` of any integer reads back as the integer: digits with no leading zero, preceded by `-` exactly for a negative number |
| Colors.Channel | src/scripts/colors.ts:24 | a channel in 0..255 prints, after padding, as two hex digits that read back as the channel; a larger channel prints unpadded with more than two digits |
| Colors.ParseHexBound | src/scripts/colors.ts:17-19 | `parseInt(_, 16)` of `k` hex digits is less than `16^k`, so a two-digit field is at most 255 |
| Colors.Strip | src/scripts/colors.ts:14-16 | the text is kept as a suffix with at most one character dropped, and a character is dropped exactly when the text starts with `#` |
| Colors.PadStart | src/scripts/colors.ts:24 | `padStart` pads on the left with the fill character to the target length and keeps the original text as the suffix |
| Colors.ToHex | src/scripts/colors.ts:23-28 | for channels in 0..255, `#` followed by the high and low base-16 digit of red, green and blue, in lower case |
| Colors.FromHex | src/scripts/colors.ts:12-21 | each channel read from valid text, after one optional `#`, is `16 * first + second` of its two-digit field, so it lies in 0..255 |
| Colors.Field | src/scripts/colors.ts:17-19 | the field at offset `j` reads as `16 * first + second` of its two digits |
| Colors.TwoDigits | src/scripts/colors.ts:17-19 | a two-digit field reads as `16 * first + second` |
| Colors.Inverted | src/scripts/colors.ts:30-32 | each channel `c` becomes `255 - c`, so channels in 0..255 stay in 0..255 |
| Colors.InvertedInvolution | src/scripts/colors.ts:30-32 | inverting twice gives the colour back |
| Colors.InvertedHex | src/scripts/colors.ts:34-36 | the inverse of valid text is again valid text of seven characters starting with `#`, and it reads back as the inverted colour of what the input reads as |
| Colors.FromHexToHex | src/scripts/colors.ts:12-28 | for channels in 0..255, printing then reading gives the same channels |
| Colors.ToHexFromHex | src/scripts/colors.ts:12-28 | reading valid text and printing it gives `#` and the six digits read, in lower case, with or without the leading `#` |
| Colors.InvertedHexTwice | src/scripts/colors.ts:34-36 | inverting valid text twice gives what reading and printing it gives |

## Left out

- `Math.random()`: the draws are oracle parameters, and nothing about their distribution is modelled.
- Generator.SingleCount: `Math.floor(width * height * 0.02)` is modelled as the integer quotient `(width * height) / 50`. The two agree for every grid small enough to render, because 0.02 is rounded to a double and the product is an exact integer. The floating-point multiply itself is not modelled.
- Generator.Init: requires a well-formed grid, one colour per cell. The constructor does not check the length of the colour array, and for a mismatched array the source reads past the pixel array or leaves cells unvisited. `InitImage` states the requirement on its caller.
- Generator.Init: its contract states the final partition, labels and colours, not that each block was the largest open rectangle at its seed when it was carved; that fact is stated per round by `CarveOne`, against the grid of that round.
- Generator.CarveAll: likewise states the partition it keeps, not the per-round maximality `CarveOne` states.
- Colors.Channel: states nothing about a negative channel, which `fromHex` and `inverted` never produce from valid text.
- Carve.FillMaxBlock: requires a `"?"` seed. Its one caller, `init`, only passes an index that `randomEmptyIndex` returned.
- Colors.FromHex: requires valid text: after one optional `#`, at least six characters whose first six are hex digits. `parseInt` on other text yields `NaN` or a partial parse, and that is not modelled.
- `Color.darkened` and `darkenedHex`: they multiply by a floating-point factor and take the floor. Floating point is not modelled.
- The fifth branch of `getBlockBounds`, which throws on an unknown direction string: the `Orientation` type has only the four directions, so the branch cannot arise.
- `src/scripts/mandelbrot.ts`: the fractal colour source is floating-point numerics. The model takes the colours as an input.
- The React and Next.js user interface: rendering, pointer events, timers and routing.
- Owned-block records, drag selection, commit and validation, `correctSelection`, border flags and completion detection: none of these exists in the generator's code.
- Aliasing and mutation of the pixel objects: the model passes the grid as an immutable value, and each operation returns the updated grid.
