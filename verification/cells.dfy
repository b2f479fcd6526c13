/** The cell model of a puzzle grid: pixels stored y-major in one flat
    sequence, `index = y * width + x`, plus the rectangle type the
    generator carves and the arithmetic that links an index to its
    column and row. */
module Cells {

  /** A base colour as the image source supplies it (hex text); the
      generator only ever compares two colours for equality. */
  type Colour = string

  /** The `number` field of a pixel: `"?"` is Unassigned (still free for
      block growth), `""` is Consumed (inside a carved block), and the
      decimal text of a block's area is Label(area). */
  datatype Mark = Unassigned | Consumed | Label(area: nat)

  datatype Pixel = Pixel(colour: Colour, filled: bool, number: Mark)

  datatype Grid = Grid(height: nat, width: nat, pixels: seq<Pixel>) {

    /** One pixel per grid position. */
    predicate Valid() {
      |pixels| == height * width
    }

    /** `i` addresses a pixel of a well-formed grid (whose width is then
        positive). */
    predicate Has(i: int) {
      Valid() && 0 <= i < |pixels| && width > 0
    }

    function Idx(x: int, y: int): int {
      y * width + x
    }

    function Col(i: int): int
      requires width > 0
    {
      i % width
    }

    function Row(i: int): int
      requires width > 0
    {
      i / width
    }

    /** Cell `(x, y)` lies on the grid, is still `"?"` and has colour `c`:
        the cells a block of colour `c` may still grow into. */
    predicate Fits(x: int, y: int, c: Colour) {
      0 <= x < width && 0 <= y < height && 0 <= Idx(x, y) < |pixels|
      && pixels[Idx(x, y)].number == Unassigned && pixels[Idx(x, y)].colour == c
    }
  }

  /** An axis-aligned rectangle of cells, both ends inclusive. */
  datatype Bounds = Bounds(startX: int, startY: int, endX: int, endY: int) {

    predicate WellFormed() {
      startX <= endX && startY <= endY
    }

    function Area(): (a: int)
      ensures WellFormed() ==> a >= 1
    {
      ProductPositive(endX - startX + 1, endY - startY + 1);
      (endX - startX + 1) * (endY - startY + 1)
    }

    predicate Contains(x: int, y: int) {
      startX <= x <= endX && startY <= y <= endY
    }
  }

  /** Every cell of `b` except `(sx, sy)` is on the grid, still `"?"` and
      of colour `c`: the rectangle a seed at `(sx, sy)` may claim. */
  ghost predicate OpenBlock(g: Grid, sx: int, sy: int, c: Colour, b: Bounds) {
    forall x, y :: b.Contains(x, y) && (x != sx || y != sy) ==> g.Fits(x, y, c)
  }

  /** Cells `x0..x1` of row `y` are all on the grid, `"?"` and of colour `c`. */
  ghost predicate RunFits(g: Grid, y: int, x0: int, x1: int, c: Colour) {
    forall x :: x0 <= x <= x1 ==> g.Fits(x, y, c)
  }

  function Min(a: int, b: int): int { if a <= b then a else b }

  function Max(a: int, b: int): int { if a <= b then b else a }

  function Dist(a: int, b: int): nat { if a <= b then b - a else a - b }

  /** The rectangle with opposite corners `(x0, y0)` and `(x1, y1)`. */
  function Span(x0: int, y0: int, x1: int, y1: int): (b: Bounds)
    ensures b.WellFormed()
    ensures b.Area() == (Dist(x0, x1) + 1) * (Dist(y0, y1) + 1)
    ensures b.Contains(x0, y0) && b.Contains(x1, y1)
    ensures forall x, y :: b.Contains(x, y) <==> Dist(x, x0) + Dist(x, x1) == Dist(x0, x1) && Dist(y, y0) + Dist(y, y1) == Dist(y0, y1)
  {
    Bounds(Min(x0, x1), Min(y0, y1), Max(x0, x1), Max(y0, y1))
  }

  /** Number of pixels still marked `"?"`: the generator's termination measure. */
  function CountUnassigned(ps: seq<Pixel>): (n: nat)
    ensures n <= |ps|
    ensures n == 0 <==> forall k :: 0 <= k < |ps| ==> ps[k].number != Unassigned
  {
    if ps == [] then 0
    else (if ps[0].number == Unassigned then 1 else 0) + CountUnassigned(ps[1..])
  }

  /** Replacing pixels so that no `"?"` appears where there was none, and
      at least one `"?"` disappears, strictly lowers the count. */
  lemma {:induction false} CountDecreases(ps: seq<Pixel>, qs: seq<Pixel>, k: int)
    requires |ps| == |qs|
    requires forall i :: 0 <= i < |qs| && qs[i].number == Unassigned ==> ps[i].number == Unassigned
    requires 0 <= k < |ps| && ps[k].number == Unassigned && qs[k].number != Unassigned
    ensures CountUnassigned(qs) < CountUnassigned(ps)
  {
    if k == 0 {
      CountNoMore(ps[1..], qs[1..]);
    } else {
      CountDecreases(ps[1..], qs[1..], k - 1);
    }
  }

  lemma {:induction false} CountNoMore(ps: seq<Pixel>, qs: seq<Pixel>)
    requires |ps| == |qs|
    requires forall i :: 0 <= i < |qs| && qs[i].number == Unassigned ==> ps[i].number == Unassigned
    ensures CountUnassigned(qs) <= CountUnassigned(ps)
  {
    if ps != [] {
      CountNoMore(ps[1..], qs[1..]);
    }
  }

  lemma {:induction false} MulNonNegative(a: nat, b: nat)
    ensures a * b >= 0
  {
    if a > 0 {
      MulNonNegative(a - 1, b);
      assert a * b == (a - 1) * b + b;
    }
  }

  lemma ProductPositive(a: int, b: int)
    ensures a >= 1 && b >= 1 ==> a * b >= 1
  {
    if a >= 1 && b >= 1 {
      MulMonotone(1, a, b);
    }
  }

  lemma MulMonotone(a: int, b: int, w: nat)
    requires a <= b
    ensures a * w <= b * w
  {
    MulNonNegative(b - a, w);
    assert b * w - a * w == (b - a) * w;
  }

  /** Euclidean division has exactly one quotient and remainder. */
  lemma DivModUnique(i: int, w: int, q: int, r: int)
    requires w > 0 && 0 <= r < w && i == q * w + r
    ensures i / w == q && i % w == r
  {
    var q', r' := i / w, i % w;
    assert i == q' * w + r';
    if q > q' {
      MulMonotone(q' + 1, q, w);
    } else if q < q' {
      MulMonotone(q + 1, q', w);
    }
  }

  /** Every index of a well-formed grid is `Row * width + Col` with both
      coordinates on the grid. */
  lemma Coords(g: Grid, i: int)
    requires g.Has(i)
    ensures g.width > 0 && g.height > 0
    ensures 0 <= g.Col(i) < g.width && 0 <= g.Row(i) < g.height
    ensures g.Idx(g.Col(i), g.Row(i)) == i
  {
    var x, y := g.Col(i), g.Row(i);
    assert i == y * g.width + x;
    if y >= g.height {
      MulMonotone(g.height, y, g.width);
    }
    if y < 0 {
      MulMonotone(y, -1, g.width);
    }
  }

  /** A grid with a pixel has a positive width and height. */
  lemma Inhabited(g: Grid, i: int)
    requires g.Valid() && 0 <= i < |g.pixels|
    ensures g.Has(i) && g.height > 0
  {
  }

  /** Every on-grid coordinate pair addresses a pixel and is recovered
      from its index. */
  lemma Index(g: Grid, x: int, y: int)
    requires g.Valid() && 0 <= x < g.width && 0 <= y < g.height
    ensures g.Has(g.Idx(x, y))
    ensures g.Col(g.Idx(x, y)) == x && g.Row(g.Idx(x, y)) == y
  {
    MulMonotone(y + 1, g.height, g.width);
    MulNonNegative(y, g.width);
    assert (y + 1) * g.width == y * g.width + g.width;
    DivModUnique(g.Idx(x, y), g.width, y, x);
  }
}
