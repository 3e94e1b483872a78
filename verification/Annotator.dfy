/** Drawing box outlines into a pixel buffer, and exactly which bytes that changes. */
module Annotator {
  import opened Basics

  datatype RGBA = RGBA(r: int, g: int, b: int, a: int)

  datatype Box = Box(x: int, y: int, width: int, height: int)

  datatype RealBox = RealBox(x: real, y: real, width: real, height: real)

  datatype Point = Point(x: int, y: int)

  /** Storing a number into a byte buffer keeps its low eight bits. */
  function ToByte(n: int): byte { (n % 256) as byte }

  function Blend(c: int, prior: byte, a: int): byte {
    var f := a as real / 255.0;
    ToByte(Round(c as real * f + prior as int as real * (1.0 - f)))
  }

  function Opaque(color: RGBA, k: nat): byte {
    if k == 0 then ToByte(color.r) else if k == 1 then ToByte(color.g) else if k == 2 then ToByte(color.b) else 255
  }

  /** What painting makes of the k-th byte of a pixel. */
  function Painted(color: RGBA, k: nat, prior: byte): byte {
    if color.a == 255 then Opaque(color, k)
    else if k == 0 then Blend(color.r, prior, color.a)
    else if k == 1 then Blend(color.g, prior, color.a)
    else if k == 2 then Blend(color.b, prior, color.a)
    else ToByte(Min(255, prior as int + color.a))
  }

  /** The pixel that the i-th byte belongs to. */
  function PixelAt(i: nat, width: nat): Point {
    if width == 0 then Point(-1, -1) else Point((i / 4) % width, (i / 4) / width)
  }

  predicate InImage(p: Point, width: nat, height: nat) {
    0 <= p.x < width && 0 <= p.y < height
  }

  lemma MulSign(k: int, w: nat)
    ensures k >= 1 ==> k * w >= w
    ensures k <= -1 ==> k * w <= 0 - w
    ensures k >= 0 ==> k * w >= 0
  {}

  lemma DivModUnique(p: nat, w: nat, x: nat, y: nat)
    requires w > 0 && x < w
    ensures p == y * w + x <==> p % w == x && p / w == y
  {
    var q, r := p / w, p % w;
    assert p == q * w + r;
    assert (q - y) * w == q * w - y * w;
    MulSign(q - y, w);
  }

  lemma IndexInBounds(x: nat, y: nat, width: nat, height: nat)
    requires x < width && y < height
    ensures (y * width + x) * 4 + 4 <= width * height * 4
  {
    assert (height - 1 - y) * width >= 0;
    assert (height - 1 - y) * width == height * width - width - y * width;
  }

  /** From `before` to `after` exactly the bytes of the pixels `pts` are painted: all other bytes are
      untouched, and painted ones carry the colour if it is opaque. */
  ghost predicate Paints(before: seq<byte>, after: seq<byte>, width: nat, color: RGBA, pts: set<Point>) {
    && |after| == |before|
    && forall i :: 0 <= i < |before| ==>
      if PixelAt(i, width) !in pts then after[i] == before[i] else color.a == 255 ==> after[i] == Opaque(color, i % 4)
  }

  lemma BytesOfPixel(i: nat, width: nat, x: nat, y: nat)
    requires x < width
    ensures var idx := (y * width + x) * 4;
      PixelAt(i, width) == Point(x, y) <==> i == idx + i % 4
  {
    DivModUnique(i / 4, width, x, y);
  }

  lemma ByteInside(i: nat, width: nat, height: nat)
    requires i < width * height * 4
    ensures InImage(PixelAt(i, width), width, height)
  {
    assert width == 0 ==> width * height == 0;
    if width > 0 {
      var p := i / 4;
      var q := p / width;
      assert p < width * height;
      assert p == q * width + p % width;
      assert (q - height) * width == q * width - height * width;
      MulSign(q - height, width);
    }
  }

  lemma NoByteOutside(width: nat, height: nat, p: Point)
    requires !InImage(p, width, height)
    ensures forall i :: 0 <= i < width * height * 4 ==> PixelAt(i, width) != p
  {
    forall i | 0 <= i < width * height * 4 ensures PixelAt(i, width) != p {
      ByteInside(i, width, height);
    }
  }

  method SetPixel(data: array<byte>, width: nat, height: nat, x: int, y: int, color: RGBA)
    requires data.Length == width * height * 4
    modifies data
    ensures forall i :: 0 <= i < data.Length ==>
      data[i] == if PixelAt(i, width) == Point(x, y) then Painted(color, i % 4, old(data[i])) else old(data[i])
  {
    ghost var before := data[..];
    if x < 0 || x >= width || y < 0 || y >= height {
      NoByteOutside(width, height, Point(x, y));
      return;
    }
    var idx := (y * width + x) * 4;
    IndexInBounds(x, y, width, height);
    if color.a == 255 {
      data[idx] := ToByte(color.r);
      data[idx + 1] := ToByte(color.g);
      data[idx + 2] := ToByte(color.b);
      data[idx + 3] := 255;
    } else {
      data[idx] := Blend(color.r, data[idx], color.a);
      data[idx + 1] := Blend(color.g, data[idx + 1], color.a);
      data[idx + 2] := Blend(color.b, data[idx + 2], color.a);
      data[idx + 3] := ToByte(Min(255, data[idx + 3] as int + color.a));
    }
    forall i | 0 <= i < data.Length
      ensures data[i] == if PixelAt(i, width) == Point(x, y) then Painted(color, i % 4, before[i]) else before[i]
    {
      BytesOfPixel(i, width, x, y);
    }
  }

  // ---- drawRect ----

  /** How far a point lies outside the box, counted in outlines: negative strictly inside, 0 on the
      outline itself, l on the outline outset by l. */
  function Depth(b: Box, p: Point): int {
    Max(Max(b.x - p.x, p.x - (b.x + b.width)), Max(b.y - p.y, p.y - (b.y + b.height)))
  }

  /** The box outset by `lw - 1`, without the strict interior of the box. */
  predicate InFrame(b: Box, lw: int, p: Point) {
    && b.x - (lw - 1) <= p.x <= b.x + b.width + (lw - 1)
    && b.y - (lw - 1) <= p.y <= b.y + b.height + (lw - 1)
    && !(b.x < p.x < b.x + b.width && b.y < p.y < b.y + b.height)
  }

  /** The points of the two edges drawn by one of the inner loops, up to `end`. */
  predicate OnHorizontals(b: Box, l: int, p: Point, end: int) {
    b.x - l <= p.x < end && (p.y == b.y - l || p.y == b.y + b.height + l)
  }

  predicate OnVerticals(b: Box, l: int, p: Point, end: int) {
    b.y - l <= p.y < end && (p.x == b.x - l || p.x == b.x + b.width + l)
  }

  lemma PaintMore(before: seq<byte>, mid: seq<byte>, after: seq<byte>, width: nat, color: RGBA, pts: set<Point>, p: Point)
    requires Paints(before, mid, width, color, pts) && |after| == |mid|
    requires forall i :: 0 <= i < |mid| ==>
      after[i] == if PixelAt(i, width) == p then Painted(color, i % 4, mid[i]) else mid[i]
    ensures Paints(before, after, width, color, pts + {p})
  {}

  /** One of the two inner loops' bodies: a pixel on each of two parallel edges. */
  method SetTwo(data: array<byte>, width: nat, height: nat, p: Point, q: Point, color: RGBA,
                ghost before: seq<byte>, ghost pts: set<Point>)
    requires data.Length == width * height * 4 && Paints(before, data[..], width, color, pts)
    modifies data
    ensures Paints(before, data[..], width, color, pts + {p, q})
  {
    ghost var d0 := data[..];
    SetPixel(data, width, height, p.x, p.y, color);
    ghost var d1 := data[..];
    PaintMore(before, d0, d1, width, color, pts, p);
    SetPixel(data, width, height, q.x, q.y, color);
    PaintMore(before, d1, data[..], width, color, pts + {p}, q);
    assert pts + {p} + {q} == pts + {p, q};
  }

  lemma OutlineIsDepth(b: Box, l: int)
    requires b.width >= 0 && b.height >= 0 && l >= 0
    ensures forall p :: OnHorizontals(b, l, p, b.x + b.width + l + 1) || OnVerticals(b, l, p, b.y + b.height + l + 1) <==> Depth(b, p) == l
  {}

  lemma FrameIsDepth(b: Box, lw: int)
    requires b.width >= 0 && b.height >= 0
    ensures forall p :: InFrame(b, lw, p) <==> 0 <= Depth(b, p) < lw
  {}

  /** Main result: exactly the pixels of the frame that lie in the image are painted, with every byte
      index in bounds and every other byte untouched; an opaque colour replaces them. */
  method DrawRect(data: array<byte>, imgW: nat, imgH: nat, box: Box, color: RGBA, lw: int)
    requires data.Length == imgW * imgH * 4
    requires box.width >= 0 && box.height >= 0
    modifies data
    ensures forall i :: 0 <= i < data.Length ==>
      if !InFrame(box, lw, PixelAt(i, imgW)) then data[i] == old(data[i])
      else color.a == 255 ==> data[i] == Opaque(color, i % 4)
  {
    ghost var before, pts: set<Point> := data[..], {};
    var l := 0;
    while l < lw
      invariant 0 <= l && (l <= lw || l == 0)
      invariant Paints(before, data[..], imgW, color, pts)
      invariant forall p :: p in pts <==> 0 <= Depth(box, p) < l
    {
      ghost var outer := pts;
      var px := box.x - l;
      while px <= box.x + box.width + l
        invariant box.x - l <= px <= box.x + box.width + l + 1
        invariant Paints(before, data[..], imgW, color, pts)
        invariant forall p :: p in pts <==> p in outer || OnHorizontals(box, l, p, px)
      {
        SetTwo(data, imgW, imgH, Point(px, box.y - l), Point(px, box.y + box.height + l), color, before, pts);
        pts := pts + {Point(px, box.y - l), Point(px, box.y + box.height + l)};
        px := px + 1;
      }
      ghost var half := pts;
      var py := box.y - l;
      while py <= box.y + box.height + l
        invariant box.y - l <= py <= box.y + box.height + l + 1
        invariant Paints(before, data[..], imgW, color, pts)
        invariant forall p :: p in pts <==> p in half || OnVerticals(box, l, p, py)
      {
        SetTwo(data, imgW, imgH, Point(box.x - l, py), Point(box.x + box.width + l, py), color, before, pts);
        pts := pts + {Point(box.x - l, py), Point(box.x + box.width + l, py)};
        py := py + 1;
      }
      OutlineIsDepth(box, l);
      l := l + 1;
    }
    FrameIsDepth(box, lw);
  }

  // ---- clampBox ----

  /** A clamped box can be drawn; it starts at the rounded position, or at 0 if that is negative; it ends inside the image
      when it starts inside, in the last row or column if it was cut; and it is the rounded box itself when that
      already fits. */
  function ClampBox(box: RealBox, imgW: nat, imgH: nat): (b: Box)
    ensures b.x >= 0 && b.y >= 0 && b.width >= 0 && b.height >= 0
    ensures b.x < imgW ==> b.x + b.width < imgW
    ensures b.y < imgH ==> b.y + b.height < imgH
    ensures (Round(box.x) <= 0 ==> b.x == 0) && (Round(box.x) >= 0 ==> b.x == Round(box.x))
    ensures (Round(box.y) <= 0 ==> b.y == 0) && (Round(box.y) >= 0 ==> b.y == Round(box.y))
    ensures b.x < imgW && b.x + Round(box.width) >= imgW ==> b.x + b.width == imgW - 1
    ensures b.y < imgH && b.y + Round(box.height) >= imgH ==> b.y + b.height == imgH - 1
    ensures b.x + Round(box.width) < imgW ==> b.width == Max(0, Round(box.width))
    ensures b.y + Round(box.height) < imgH ==> b.height == Max(0, Round(box.height))
    ensures 0 <= Round(box.x) && 0 <= Round(box.width) && Round(box.x) + Round(box.width) < imgW
      ==> b.x == Round(box.x) && b.width == Round(box.width)
    ensures 0 <= Round(box.y) && 0 <= Round(box.height) && Round(box.y) + Round(box.height) < imgH
      ==> b.y == Round(box.y) && b.height == Round(box.height)
  {
    var x, y := Max(0, Round(box.x)), Max(0, Round(box.y));
    Box(x, y, Max(0, Min(Round(box.width), imgW - x - 1)), Max(0, Min(Round(box.height), imgH - y - 1)))
  }

  // ---- colours ----

  /** Which channel each byte of a pixel is: red, green, blue, and the alpha. */
  lemma OpaqueReplaces(color: RGBA, prior: byte)
    requires color.a == 255 && 0 <= color.r < 256 && 0 <= color.g < 256 && 0 <= color.b < 256
    ensures Painted(color, 0, prior) as int == color.r && Painted(color, 1, prior) as int == color.g
    ensures Painted(color, 2, prior) as int == color.b && Painted(color, 3, prior) == 255
  {}

  lemma MeanScaled(c: int, p: int, a: int)
    ensures var f := a as real / 255.0;
      255.0 * (c as real * f + p as real * (1.0 - f)) == (c * a + p * (255 - a)) as real
  {
    var f := a as real / 255.0;
    assert 255.0 * f == a as real;
    assert 255.0 * (c as real * f) == c as real * a as real == (c * a) as real;
    assert 255.0 * (p as real * (1.0 - f)) == p as real * (255.0 - a as real) == (p * (255 - a)) as real;
  }

  lemma ProductNotNegative(x: int, y: int)
    requires x >= 0 && y >= 0
    ensures x * y >= 0
  {}

  lemma DistributeMinus(m: int, c: int, a: int)
    ensures (m - c) * a == m * a - c * a
  {}

  lemma MeanInRange(c: int, p: int, a: int)
    requires 0 <= c < 256 && 0 <= p < 256 && 0 <= a <= 255
    ensures 0 <= c * a + p * (255 - a) <= 255 * 255
  {
    ProductNotNegative(c, a);
    ProductNotNegative(p, 255 - a);
    ProductNotNegative(255 - c, a);
    ProductNotNegative(255 - p, 255 - a);
    DistributeMinus(255, c, a);
    DistributeMinus(255, p, 255 - a);
  }

  /** A translucent channel becomes the whole number nearest to the mean of colour and pixel, weighted by the alpha. */
  lemma BlendIsMean(c: int, prior: byte, a: int)
    requires 0 <= c < 256 && 0 <= a <= 255
    ensures var mean := c * a + prior as int * (255 - a);
      -255 < 2 * (255 * (Blend(c, prior, a) as int) - mean) <= 255
  {
    var f := a as real / 255.0;
    var x := c as real * f + prior as int as real * (1.0 - f);
    MeanScaled(c, prior as int, a);
    assert 255.0 * x == (c * a + prior as int * (255 - a)) as real;
    MeanInRange(c, prior as int, a);
    assert 0.0 <= x <= 255.0;
    assert 0 <= Round(x) <= 255;
  }

  /** A translucent colour blends each channel with its own byte, and adds up the alphas, up to full. */
  lemma TranslucentBlends(color: RGBA, prior: byte)
    requires 0 <= color.a < 255
    ensures Painted(color, 0, prior) == Blend(color.r, prior, color.a)
    ensures Painted(color, 1, prior) == Blend(color.g, prior, color.a)
    ensures Painted(color, 2, prior) == Blend(color.b, prior, color.a)
    ensures var sum := prior as int + color.a; Painted(color, 3, prior) as int == if sum > 255 then 255 else sum
  {}
}
