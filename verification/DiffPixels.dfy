// The regions of a diff image seen as pixels instead of cells.

module DiffPixels {
  import opened Basics
  import opened GridComponents
  import opened DiffRegions

  datatype Pixel = Pixel(x: nat, y: nat)

  lemma MulSign(t: int, k: nat)
    ensures t >= 0 ==> t * k >= 0
  {}

  lemma CellsOrdered(k: nat, q: int, r: int, x: nat)
    requires k > 0 && q * k <= x < r * k + k
    ensures q <= r
  {
    MulSign(q - r - 1, k);
    assert (q - r - 1) * k == q * k - r * k - k;
  }

  /** The grid is as small as it can be: its last row and column still hold pixels. */
  lemma CeilDivExactly(a: nat, b: nat)
    requires b > 0
    ensures a <= CeilDiv(a, b) * b < a + b
  {}

  lemma QuotientOf(q: nat, k: nat, i: nat)
    requires i < k
    ensures q * k + i >= 0 && (q * k + i) / k == q
  {
    MulSign(q, k);
    CellsOrdered(k, (q * k + i) / k, q, q * k + i);
    CellsOrdered(k, q, (q * k + i) / k, q * k + i);
  }

  lemma CellOfPixel(c: Cell, k: nat, i: nat, j: nat)
    requires c.x >= 0 && c.y >= 0 && i < k && j < k
    ensures var x, y := c.x * k + i, c.y * k + j; x >= 0 && y >= 0 && CellOf(x, y, k) == c
  {
    QuotientOf(c.x, k, i);
    QuotientOf(c.y, k, j);
  }

  /** Two pixels side by side or one above the other. */
  predicate NextTo(x: nat, y: nat, u: nat, v: nat) {
    (y == v && (u == x + 1 || x == u + 1)) || (x == u && (v == y + 1 || y == v + 1))
  }

  lemma StepOfPixel(x: nat, k: nat)
    requires k > 0
    ensures (x + 1) / k == x / k || (x + 1) / k == x / k + 1
  {
    CellsOrdered(k, (x + 1) / k, x / k + 1, x + 1);
    CellsOrdered(k, x / k, (x + 1) / k, x + 1);
  }

  lemma NextMultiple(q: int, k: nat)
    ensures (q + 1) * k == q * k + k
  {}

  /** Some pixel of one cell is next to some pixel of the other. */
  ghost predicate Meet(a: Cell, b: Cell, k: nat)
    requires k > 0
  {
    exists x: nat, y: nat, u: nat, v: nat :: NextTo(x, y, u, v) && CellOf(x, y, k) == a && CellOf(u, v, k) == b
  }

  /** Pixels on both sides of the border between a cell and the one to its right. */
  lemma MeetRight(a: Cell, b: Cell, k: nat)
    requires k > 0 && a.x >= 0 && a.y >= 0 && b == Cell(a.x + 1, a.y)
    ensures Meet(a, b, k) && Meet(b, a, k)
  {
    CellOfPixel(a, k, k - 1, 0);
    CellOfPixel(b, k, 0, 0);
    NextMultiple(a.x, k);
    var x, y := a.x * k + (k - 1), a.y * k + 0;
    assert NextTo(x, y, x + 1, y) && NextTo(x + 1, y, x, y);
  }

  lemma MeetBelow(a: Cell, b: Cell, k: nat)
    requires k > 0 && a.x >= 0 && a.y >= 0 && b == Cell(a.x, a.y + 1)
    ensures Meet(a, b, k) && Meet(b, a, k)
  {
    CellOfPixel(a, k, 0, k - 1);
    CellOfPixel(b, k, 0, 0);
    NextMultiple(a.y, k);
    var x, y := a.x * k + 0, a.y * k + (k - 1);
    assert NextTo(x, y, x, y + 1) && NextTo(x, y + 1, x, y);
  }

  lemma NextToAdjacent(x: nat, y: nat, u: nat, v: nat, k: nat)
    requires k > 0 && NextTo(x, y, u, v) && CellOf(x, y, k) != CellOf(u, v, k)
    ensures Adjacent(CellOf(x, y, k), CellOf(u, v, k))
  {
    StepOfPixel(x, k);
    StepOfPixel(y, k);
    StepOfPixel(u, k);
    StepOfPixel(v, k);
  }

  /** What adjacency of cells means for pixels: two different cells are adjacent exactly if they meet in two pixels next
      to each other; cells that meet in a corner only are not. */
  lemma AdjacentInPixels(a: Cell, b: Cell, k: nat)
    requires k > 0 && a.x >= 0 && a.y >= 0 && b.x >= 0 && b.y >= 0
    ensures Adjacent(a, b) <==> a != b && Meet(a, b, k)
  {
    if Adjacent(a, b) {
      if b.x == a.x + 1 {
        MeetRight(a, b, k);
      } else if a.x == b.x + 1 {
        MeetRight(b, a, k);
      } else if b.y == a.y + 1 {
        MeetBelow(a, b, k);
      } else {
        MeetBelow(b, a, k);
      }
    }
    if a != b && Meet(a, b, k) {
      var x: nat, y: nat, u: nat, v: nat :| NextTo(x, y, u, v) && CellOf(x, y, k) == a && CellOf(u, v, k) == b;
      NextToAdjacent(x, y, u, v, k);
    }
  }

  // ---- tightness, pixel by pixel ----

  /** The non-black pixels of the image whose cell belongs to `comp`. */
  ghost function PixelsOf(data: seq<byte>, width: nat, height: nat, cellSize: nat, comp: set<Cell>): set<Pixel>
    requires cellSize > 0
  {
    set x: nat, y: nat | x < width && y < height && NonBlack(data, width, x, y) && CellOf(x, y, cellSize) in comp :: Pixel(x, y)
  }

  /** Some pixel lies in the given part of the plane. */
  ghost predicate Touches(pixels: set<Pixel>, x0: int, y0: int, x1: int, y1: int) {
    exists p :: p in pixels && x0 <= p.x < x1 && y0 <= p.y < y1
  }

  function Times(q: int, k: int): int {
    q * k
  }

  ghost predicate Multiple(k: nat, n: int) {
    exists q :: Times(q, k) == n
  }

  ghost predicate WholeCells(k: nat, b: Box) {
    Multiple(k, b.x) && Multiple(k, b.y) && Multiple(k, b.width) && Multiple(k, b.height)
  }

  /** `b` consists of whole cells, holds all the pixels, and has one in the outermost row or column of
      cells along each of its four sides. */
  ghost predicate HugsPixels(pixels: set<Pixel>, cellSize: nat, b: Box)
    requires cellSize > 0
  {
    var right, bottom := b.x + b.width, b.y + b.height;
    && WholeCells(cellSize, b)
    && (forall p :: p in pixels ==> Contains(b, p.x, p.y))
    && Touches(pixels, b.x, b.y, b.x + cellSize, bottom)
    && Touches(pixels, right - cellSize, b.y, right, bottom)
    && Touches(pixels, b.x, b.y, right, b.y + cellSize)
    && Touches(pixels, b.x, bottom - cellSize, right, bottom)
  }

  lemma PixelInCell(p: nat, cellSize: nat)
    requires cellSize > 0
    ensures p / cellSize * cellSize <= p < p / cellSize * cellSize + cellSize
  {}

  lemma MultiplesOf(cellSize: nat, a: int, b: int)
    ensures Multiple(cellSize, a * cellSize) && Multiple(cellSize, (b - a + 1) * cellSize)
    ensures a * cellSize + (b - a + 1) * cellSize == b * cellSize + cellSize
  {
    assert Times(a, cellSize) == a * cellSize && Times(b - a + 1, cellSize) == (b - a + 1) * cellSize;
  }

  /** Every cell of a component of marked cells holds one of its pixels. */
  lemma PixelOfCell(data: seq<byte>, width: nat, height: nat, cellSize: nat, comp: set<Cell>, c: Cell) returns (p: Pixel)
    requires cellSize > 0 && comp <= MarkedCells(data, width, height, cellSize) && c in comp
    ensures p in PixelsOf(data, width, height, cellSize, comp)
    ensures c.x * cellSize <= p.x < c.x * cellSize + cellSize && c.y * cellSize <= p.y < c.y * cellSize + cellSize
  {
    var x: nat, y: nat :| x < width && y < height && NonBlack(data, width, x, y) && CellOf(x, y, cellSize) == c;
    PixelInCell(x, cellSize);
    PixelInCell(y, cellSize);
    p := Pixel(x, y);
  }

  /** A tight box of cells is tight around the pixels. */
  lemma TightBoxHugs(data: seq<byte>, width: nat, height: nat, cellSize: nat, comp: set<Cell>, b: Box)
    requires cellSize > 0 && comp <= MarkedCells(data, width, height, cellSize) && TightBox(comp, cellSize, b)
    ensures HugsPixels(PixelsOf(data, width, height, cellSize, comp), cellSize, b)
  {
    var x0, y0, x1, y1 :| Spans(comp, x0, y0, x1, y1) && b == Scaled(cellSize, x0, y0, x1, y1);
    MultiplesOf(cellSize, x0, x1);
    MultiplesOf(cellSize, y0, y1);
    forall p | p in PixelsOf(data, width, height, cellSize, comp) ensures Contains(b, p.x, p.y) {
      PixelInTightBox(comp, cellSize, b, p.x, p.y);
    }
    var left :| left in comp && left.x == x0;
    var right :| right in comp && right.x == x1;
    var top :| top in comp && top.y == y0;
    var bottom :| bottom in comp && bottom.y == y1;
    var p := PixelOfCell(data, width, height, cellSize, comp, left);
    var q := PixelOfCell(data, width, height, cellSize, comp, right);
    var r := PixelOfCell(data, width, height, cellSize, comp, top);
    var s := PixelOfCell(data, width, height, cellSize, comp, bottom);
    assert Contains(b, p.x, p.y) && Contains(b, q.x, q.y) && Contains(b, r.x, r.y) && Contains(b, s.x, s.y);
  }

  /** Main result, in pixels: every reported box hugs the non-black pixels of its component. */
  lemma RegionsHugPixels(data: seq<byte>, width: nat, height: nat, cellSize: nat, seeds: seq<Cell>, regions: seq<Box>, i: nat)
    requires cellSize > 0 && i < |regions|
    requires ExactRegions(MarkedCells(data, width, height, cellSize), cellSize, seeds, regions)
    ensures var comp := Component(MarkedCells(data, width, height, cellSize), seeds[i]);
      HugsPixels(PixelsOf(data, width, height, cellSize, comp), cellSize, regions[i])
  {
    TightBoxHugs(data, width, height, cellSize, Component(MarkedCells(data, width, height, cellSize), seeds[i]), regions[i]);
  }

  lemma SameMultiple(k: nat, a: int, b: int, x: nat, y: nat)
    requires k > 0 && Multiple(k, a) && Multiple(k, b)
    requires a <= y < b + k && b <= x < a + k
    ensures a == b
  {
    var q :| Times(q, k) == a;
    var r :| Times(r, k) == b;
    CellsOrdered(k, q, r, y);
    CellsOrdered(k, r, q, x);
  }

  /** A pixel in the outermost column or row of cells of each side of `b`, which another hugging box holds too. */
  lemma HugsSides(pixels: set<Pixel>, cellSize: nat, b: Box, b': Box)
    returns (left: Pixel, right: Pixel, top: Pixel, bottom: Pixel)
    requires cellSize > 0 && HugsPixels(pixels, cellSize, b) && HugsPixels(pixels, cellSize, b')
    ensures Contains(b', left.x, left.y) && b.x <= left.x < b.x + cellSize
    ensures Contains(b', right.x, right.y) && b.x + b.width - cellSize <= right.x
    ensures Contains(b', top.x, top.y) && b.y <= top.y < b.y + cellSize
    ensures Contains(b', bottom.x, bottom.y) && b.y + b.height - cellSize <= bottom.y
  {
    left :| left in pixels && b.x <= left.x < b.x + cellSize;
    right :| right in pixels && b.x + b.width - cellSize <= right.x;
    top :| top in pixels && b.y <= top.y < b.y + cellSize;
    bottom :| bottom in pixels && b.y + b.height - cellSize <= bottom.y;
  }

  lemma SumOfMultiples(k: nat, a: int, b: int)
    requires Multiple(k, a) && Multiple(k, b)
    ensures Multiple(k, a + b - k)
  {
    var q :| Times(q, k) == a;
    var r :| Times(r, k) == b;
    assert Times(q + r - 1, k) == a + b - k;
  }

  lemma SameBox(k: nat, b: Box, b': Box, left: nat, right: nat, top: nat, bottom: nat,
                left': nat, right': nat, top': nat, bottom': nat)
    requires k > 0 && WholeCells(k, b) && WholeCells(k, b')
    requires b.x <= left' && b'.x <= left && left < b.x + k && left' < b'.x + k
    requires b.y <= top' && b'.y <= top && top < b.y + k && top' < b'.y + k
    requires b.x + b.width - k <= right < b'.x + b'.width && b'.x + b'.width - k <= right' < b.x + b.width
    requires b.y + b.height - k <= bottom < b'.y + b'.height && b'.y + b'.height - k <= bottom' < b.y + b.height
    ensures b == b'
  {
    SumOfMultiples(k, b.x, b.width);
    SumOfMultiples(k, b'.x, b'.width);
    SumOfMultiples(k, b.y, b.height);
    SumOfMultiples(k, b'.y, b'.height);
    SameMultiple(k, b.x, b'.x, left, left');
    SameMultiple(k, b.y, b'.y, top, top');
    SameMultiple(k, b.x + b.width - k, b'.x + b'.width - k, right', right);
    SameMultiple(k, b.y + b.height - k, b'.y + b'.height - k, bottom', bottom);
  }

  /** Hugging determines the box. */
  lemma HugsUnique(pixels: set<Pixel>, cellSize: nat, b: Box, b': Box)
    requires cellSize > 0 && HugsPixels(pixels, cellSize, b) && HugsPixels(pixels, cellSize, b')
    ensures b == b'
  {
    var left, right, top, bottom := HugsSides(pixels, cellSize, b, b');
    var left', right', top', bottom' := HugsSides(pixels, cellSize, b', b);
    SameBox(cellSize, b, b', left.x, right.x, top.y, bottom.y, left'.x, right'.x, top'.y, bottom'.y);
  }
}
