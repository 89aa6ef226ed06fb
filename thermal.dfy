/**
 The per-frame "thermal camera" renderer: every sixth pixel of the video
 frame, in both directions, is read from the RGBA buffer, classified as
 black (too dark) or given a hue running from blue (dark) to red (bright),
 and painted as a square centred on the sampled pixel.
 */
module Thermal {

  /** Distance between two sampled pixels, horizontally and vertically. */
  const Step: nat := 6
  /** Hue of the darkest and of the brightest non-black block. */
  const ColdHue: real := 240.0
  const HotHue: real := 0.0

  /** One channel of the canvas's RGBA image data. */
  type Byte = b: int | 0 <= b <= 255

  datatype Colour = Black | Hue(degrees: real)

  datatype Point = Point(x: nat, y: nat)

  /** An axis-aligned filled rectangle, as handed to the canvas's fillRect. */
  datatype Rect = Rect(left: real, top: real, width: real, height: real, colour: Colour)

  // ---------------------------------------------------------------------
  // Classification of one sampled pixel
  // ---------------------------------------------------------------------

  function Min3(a: int, b: int, c: int): int
  {
    if a <= b && a <= c then a else if b <= c then b else c
  }

  function Max3(a: int, b: int, c: int): int
  {
    if a >= b && a >= c then a else if b >= c then b else c
  }

  /** Mean of the three colour channels. */
  function Brightness(r: Byte, g: Byte, b: Byte): (v: real)
    ensures 0.0 <= v <= 255.0
    ensures Min3(r, g, b) as real <= v <= Max3(r, g, b) as real
    ensures r == g == b ==> v == r as real
  {
    (r + g + b) as real / 3.0
  }

  /** Hue for a brightness: 240 (blue) when dark, falling linearly to 0 (red). */
  function HueOf(brightness: real): (h: real)
    ensures 0.0 <= brightness <= 255.0 ==> HotHue <= h <= ColdHue
    ensures brightness == 0.0 ==> h == ColdHue
    ensures brightness == 255.0 ==> h == HotHue
  {
    240.0 - (brightness / 255.0) * 240.0
  }

  /** Brighter never means a higher (bluer) hue; strictly brighter means strictly redder. */
  lemma HueDecreasing(a: real, b: real)
    requires a <= b
    ensures HueOf(b) <= HueOf(a)
    ensures a < b ==> HueOf(b) < HueOf(a)
  {
  }

  /** The colour of the block sampled at a pixel with channels r, g, b. */
  function Classify(r: Byte, g: Byte, b: Byte, blackThreshold: int): (c: Colour)
    ensures c == Black <==> r + g + b < 3 * blackThreshold
    ensures c.Hue? ==> HotHue <= c.degrees <= ColdHue
    ensures c.Hue? ==> c.degrees == HueOf(Brightness(r, g, b))
    ensures c.Hue? ==> c.degrees <= HueOf(blackThreshold as real)
  {
    var brightness := Brightness(r, g, b);
    if brightness < blackThreshold as real then Black else Hue(HueOf(brightness))
  }

  // ---------------------------------------------------------------------
  // The sampling grid
  // ---------------------------------------------------------------------

  /** The sample points x, x + Step, ... below w on row y, left to right. */
  function RowPoints(w: nat, x: nat, y: nat): (ps: seq<Point>)
    ensures forall k :: 0 <= k < |ps| ==> ps[k].y == y && x <= ps[k].x < w
    decreases w - x
  {
    if x >= w then [] else [Point(x, y)] + RowPoints(w, x + Step, y)
  }

  /** The sample points of rows y, y + Step, ... below h, row by row. */
  function GridPoints(w: nat, h: nat, y: nat): (ps: seq<Point>)
    ensures forall k :: 0 <= k < |ps| ==> ps[k].x < w && y <= ps[k].y < h
    decreases h - y
  {
    if y >= h then [] else RowPoints(w, 0, y) + GridPoints(w, h, y + Step)
  }

  /** Every point sampled from a w by h frame, in the order they are visited. */
  function SamplePoints(w: nat, h: nat): seq<Point>
  {
    GridPoints(w, h, 0)
  }

  /** Number of multiples of Step in [0, n): that is, the ceiling of n / Step. */
  function Blocks(n: int): nat
  {
    if n <= 0 then 0 else (n + Step - 1) / Step
  }

  lemma {:induction false} RowPointsCount(w: nat, x: nat, y: nat)
    ensures |RowPoints(w, x, y)| == Blocks(w - x)
    decreases w - x
  {
    if x < w {
      RowPointsCount(w, x + Step, y);
    }
  }

  lemma {:induction false} GridPointsCount(w: nat, h: nat, y: nat)
    ensures |GridPoints(w, h, y)| == Blocks(w) * Blocks(h - y)
    decreases h - y
  {
    if y < h {
      RowPointsCount(w, 0, y);
      GridPointsCount(w, h, y + Step);
      assert Blocks(h - y) == 1 + Blocks(h - (y + Step));
    }
  }

  /** A w by h frame is sampled ceil(w / 6) * ceil(h / 6) times. */
  lemma SamplePointsCount(w: nat, h: nat)
    ensures |SamplePoints(w, h)| == Blocks(w) * Blocks(h)
  {
    GridPointsCount(w, h, 0);
  }

  lemma {:induction false} RowPointsMember(w: nat, x: nat, y: nat, p: Point)
    requires x % Step == 0
    ensures p in RowPoints(w, x, y) <==> p.y == y && x <= p.x < w && p.x % Step == 0
    decreases w - x
  {
    if x < w {
      RowPointsMember(w, x + Step, y, p);
    }
  }

  lemma {:induction false} GridPointsMember(w: nat, h: nat, y: nat, p: Point)
    requires y % Step == 0
    ensures p in GridPoints(w, h, y) <==>
              y <= p.y < h && p.y % Step == 0 && p.x < w && p.x % Step == 0
    decreases h - y
  {
    if y < h {
      RowPointsMember(w, 0, y, p);
      GridPointsMember(w, h, y + Step, p);
    }
  }

  /** The sampled points are exactly the pixels whose coordinates are both multiples of Step. */
  lemma SamplePointsExact(w: nat, h: nat, p: Point)
    ensures p in SamplePoints(w, h) <==> p.x < w && p.y < h && p.x % Step == 0 && p.y % Step == 0
  {
    GridPointsMember(w, h, 0, p);
  }

  /** Row-major order: p is visited before q. */
  predicate Before(p: Point, q: Point)
  {
    p.y < q.y || (p.y == q.y && p.x < q.x)
  }

  predicate RowMajor(ps: seq<Point>)
  {
    forall i, j :: 0 <= i < j < |ps| ==> Before(ps[i], ps[j])
  }

  lemma RowMajorAppend(a: seq<Point>, b: seq<Point>)
    requires RowMajor(a) && RowMajor(b)
    requires forall i, j :: 0 <= i < |a| && 0 <= j < |b| ==> Before(a[i], b[j])
    ensures RowMajor(a + b)
  {
  }

  lemma {:induction false} RowPointsRowMajor(w: nat, x: nat, y: nat)
    ensures RowMajor(RowPoints(w, x, y))
    decreases w - x
  {
    if x < w {
      RowPointsRowMajor(w, x + Step, y);
      RowMajorAppend([Point(x, y)], RowPoints(w, x + Step, y));
    }
  }

  lemma {:induction false} GridPointsRowMajor(w: nat, h: nat, y: nat)
    ensures RowMajor(GridPoints(w, h, y))
    decreases h - y
  {
    if y < h {
      RowPointsRowMajor(w, 0, y);
      GridPointsRowMajor(w, h, y + Step);
      RowMajorAppend(RowPoints(w, 0, y), GridPoints(w, h, y + Step));
    }
  }

  /** Points are visited row by row, left to right, and none twice. */
  lemma SamplePointsRowMajor(w: nat, h: nat)
    ensures RowMajor(SamplePoints(w, h))
    ensures forall i, j :: 0 <= i < j < |SamplePoints(w, h)| ==> SamplePoints(w, h)[i] != SamplePoints(w, h)[j]
  {
    GridPointsRowMajor(w, h, 0);
  }

  // ---------------------------------------------------------------------
  // Reading the frame buffer
  // ---------------------------------------------------------------------

  /** Offset of the red channel of pixel p in a frame w pixels wide. */
  function PixelIndex(w: nat, p: Point): nat
  {
    (p.y * w + p.x) * 4
  }

  /** A row further down starts further into the buffer: (y + 1) * w <= h * w for y < h. */
  lemma RowStartBelow(w: nat, h: nat, y: nat)
    requires y < h
    ensures y * w + w <= w * h
  {
    var below: nat := h - (y + 1);
    assert w * h == w * (y + 1) + w * below;
    assert w * (y + 1) == w * y + w;
  }

  /** All three channels of an in-frame pixel lie inside the w * h * 4 buffer. */
  lemma PixelIndexInBounds(w: nat, h: nat, p: Point)
    requires p.x < w && p.y < h
    ensures PixelIndex(w, p) + 2 < w * h * 4
  {
    RowStartBelow(w, h, p.y);
  }

  // ---------------------------------------------------------------------
  // Painting
  // ---------------------------------------------------------------------

  /** A pixelSize square centred on p. */
  function Square(p: Point, pixelSize: int, colour: Colour): (r: Rect)
    ensures r.left + r.width / 2.0 == p.x as real
    ensures r.top + r.height / 2.0 == p.y as real
    ensures r.width == r.height == pixelSize as real
    ensures r.colour == colour
  {
    var half := pixelSize as real / 2.0;
    Rect(p.x as real - half, p.y as real - half, pixelSize as real, pixelSize as real, colour)
  }

  /** The square painted for the sample at p. */
  function BlockAt(frame: seq<Byte>, w: nat, h: nat, p: Point, pixelSize: int, blackThreshold: int): Rect
    requires |frame| == w * h * 4
    requires p.x < w && p.y < h
  {
    PixelIndexInBounds(w, h, p);
    var i := PixelIndex(w, p);
    Square(p, pixelSize, Classify(frame[i], frame[i + 1], frame[i + 2], blackThreshold))
  }

  /** The squares painted for row y from column x on, left to right: one pass of the inner loop. */
  function RowSquares(frame: seq<Byte>, w: nat, h: nat, x: nat, y: nat, pixelSize: int, blackThreshold: int): seq<Rect>
    requires |frame| == w * h * 4
    requires y < h
    decreases w - x
  {
    if x >= w then []
    else [BlockAt(frame, w, h, Point(x, y), pixelSize, blackThreshold)]
         + RowSquares(frame, w, h, x + Step, y, pixelSize, blackThreshold)
  }

  /** The squares painted for rows y, y + Step, ... below h: the outer loop from row y on. */
  function GridSquares(frame: seq<Byte>, w: nat, h: nat, y: nat, pixelSize: int, blackThreshold: int): seq<Rect>
    requires |frame| == w * h * 4
    decreases h - y
  {
    if y >= h then []
    else RowSquares(frame, w, h, 0, y, pixelSize, blackThreshold)
         + GridSquares(frame, w, h, y + Step, pixelSize, blackThreshold)
  }

  /** Row y paints one square per sample point of the row, the k-th for the k-th point. */
  lemma {:induction false} RowSquaresAt(frame: seq<Byte>, w: nat, h: nat, x: nat, y: nat, pixelSize: int, blackThreshold: int)
    requires |frame| == w * h * 4
    requires y < h
    ensures var rs := RowSquares(frame, w, h, x, y, pixelSize, blackThreshold);
            var ps := RowPoints(w, x, y);
            && |rs| == |ps|
            && forall k :: 0 <= k < |ps| ==> rs[k] == BlockAt(frame, w, h, ps[k], pixelSize, blackThreshold)
    decreases w - x
  {
    if x < w {
      RowSquaresAt(frame, w, h, x + Step, y, pixelSize, blackThreshold);
    }
  }

  /** The grid from row y paints one square per sample point, the k-th for the k-th point. */
  lemma {:induction false} GridSquaresAt(frame: seq<Byte>, w: nat, h: nat, y: nat, pixelSize: int, blackThreshold: int)
    requires |frame| == w * h * 4
    ensures var rs := GridSquares(frame, w, h, y, pixelSize, blackThreshold);
            var ps := GridPoints(w, h, y);
            && |rs| == |ps|
            && forall k :: 0 <= k < |ps| ==> rs[k] == BlockAt(frame, w, h, ps[k], pixelSize, blackThreshold)
    decreases h - y
  {
    if y < h {
      RowSquaresAt(frame, w, h, 0, y, pixelSize, blackThreshold);
      GridSquaresAt(frame, w, h, y + Step, pixelSize, blackThreshold);
      var row, rest := RowPoints(w, 0, y), GridPoints(w, h, y + Step);
      var rowSquares := RowSquares(frame, w, h, 0, y, pixelSize, blackThreshold);
      var restSquares := GridSquares(frame, w, h, y + Step, pixelSize, blackThreshold);
      forall k | 0 <= k < |row + rest|
        ensures (rowSquares + restSquares)[k] == BlockAt(frame, w, h, (row + rest)[k], pixelSize, blackThreshold)
      {
        if k < |row| {
          assert (row + rest)[k] == row[k];
        } else {
          assert (row + rest)[k] == rest[k - |row|];
        }
      }
    }
  }

  /** What the canvas holds after a non-empty frame: a black background, then one square per sample. */
  function Render(frame: seq<Byte>, w: nat, h: nat, pixelSize: int, blackThreshold: int): (rs: seq<Rect>)
    requires |frame| == w * h * 4
    ensures |rs| == 1 + |SamplePoints(w, h)|
    ensures rs[0] == Rect(0.0, 0.0, w as real, h as real, Black)
  {
    GridSquaresAt(frame, w, h, 0, pixelSize, blackThreshold);
    [Rect(0.0, 0.0, w as real, h as real, Black)] + GridSquares(frame, w, h, 0, pixelSize, blackThreshold)
  }

  /**
   The rendering rule: after the full-canvas black background, the k-th
   square is a pixelSize square centred on the k-th sample point; it is
   black exactly when the pixel's channel sum is below three times the
   threshold, and otherwise carries the hue of its brightness, in [0, 240].
   */
  lemma RenderSpec(frame: seq<Byte>, w: nat, h: nat, pixelSize: int, blackThreshold: int, k: nat)
    requires |frame| == w * h * 4
    requires k < |SamplePoints(w, h)|
    ensures var rs := Render(frame, w, h, pixelSize, blackThreshold);
            var p := SamplePoints(w, h)[k];
            var i := PixelIndex(w, p);
            && |rs| == 1 + Blocks(w) * Blocks(h)
            && rs[0] == Rect(0.0, 0.0, w as real, h as real, Black)
            && p.x % Step == 0 && p.y % Step == 0 && p.x < w && p.y < h
            && i + 2 < |frame|
            && rs[k + 1].left + rs[k + 1].width / 2.0 == p.x as real
            && rs[k + 1].top + rs[k + 1].height / 2.0 == p.y as real
            && rs[k + 1].width == rs[k + 1].height == pixelSize as real
            && (rs[k + 1].colour == Black <==> frame[i] + frame[i + 1] + frame[i + 2] < 3 * blackThreshold)
            && (rs[k + 1].colour.Hue? ==>
                  rs[k + 1].colour.degrees == HueOf(Brightness(frame[i], frame[i + 1], frame[i + 2]))
                  && HotHue <= rs[k + 1].colour.degrees <= ColdHue)
  {
    var ps := SamplePoints(w, h);
    SamplePointsCount(w, h);
    SamplePointsExact(w, h, ps[k]);
    PixelIndexInBounds(w, h, ps[k]);
    GridSquaresAt(frame, w, h, 0, pixelSize, blackThreshold);
  }

  // ---------------------------------------------------------------------
  // The canvas and the per-frame callback
  // ---------------------------------------------------------------------

  /** The drawing state of the output canvas and its 2D context. */
  class Canvas {
    var width: nat
    var height: nat
    var fillStyle: Colour
    /** Every rectangle filled since the canvas was last cleared, oldest first. */
    var painted: seq<Rect>

    constructor (width: nat, height: nat)
      ensures this.width == width && this.height == height
      ensures fillStyle == Black && painted == []
    {
      this.width := width;
      this.height := height;
      fillStyle := Black;
      painted := [];
    }

    /**
     The segmentation callback. A frame of size 0 leaves the canvas alone;
     otherwise the canvas is resized (which clears it), blacked out, and
     one square is filled per sample point. The segmentation mask is not
     read, so it is not a parameter.
     */
    method OnResults(frame: seq<Byte>, w: nat, h: nat, pixelSize: int, blackThreshold: int)
      requires |frame| == w * h * 4
      modifies this
      ensures w == 0 || h == 0 ==> unchanged(this)
      ensures w > 0 && h > 0 ==>
                && width == w && height == h
                && painted == Render(frame, w, h, pixelSize, blackThreshold)
                && fillStyle == painted[|painted| - 1].colour
    {
      if w == 0 || h == 0 {
        return;
      }
      width, height := w, h;
      painted := [];
      fillStyle := Black;
      painted := painted + [Rect(0.0, 0.0, w as real, h as real, fillStyle)];

      ghost var target := Render(frame, w, h, pixelSize, blackThreshold);
      var y: nat := 0;
      while y < h
        invariant width == w && height == h
        invariant painted != [] && fillStyle == painted[|painted| - 1].colour
        invariant painted + GridSquares(frame, w, h, y, pixelSize, blackThreshold) == target
        decreases h - y
      {
        ghost var before := painted;
        ghost var row := RowSquares(frame, w, h, 0, y, pixelSize, blackThreshold);
        ghost var later := GridSquares(frame, w, h, y + Step, pixelSize, blackThreshold);
        PaintRow(frame, w, h, y, pixelSize, blackThreshold);
        assert before + (row + later) == painted + later;
        y := y + Step;
      }
    }

    /** One pass of the inner loop: the squares of row y, left to right. */
    method PaintRow(frame: seq<Byte>, w: nat, h: nat, y: nat, pixelSize: int, blackThreshold: int)
      requires |frame| == w * h * 4
      requires y < h
      requires painted != [] && fillStyle == painted[|painted| - 1].colour
      modifies this`painted, this`fillStyle
      ensures painted == old(painted) + RowSquares(frame, w, h, 0, y, pixelSize, blackThreshold)
      ensures painted != [] && fillStyle == painted[|painted| - 1].colour
    {
      ghost var goal := painted + RowSquares(frame, w, h, 0, y, pixelSize, blackThreshold);
      var x: nat := 0;
      while x < w
        invariant painted != [] && fillStyle == painted[|painted| - 1].colour
        invariant painted + RowSquares(frame, w, h, x, y, pixelSize, blackThreshold) == goal
        decreases w - x
      {
        ghost var before := painted;
        ghost var block := BlockAt(frame, w, h, Point(x, y), pixelSize, blackThreshold);
        ghost var later := RowSquares(frame, w, h, x + Step, y, pixelSize, blackThreshold);
        PaintBlock(frame, w, h, x, y, pixelSize, blackThreshold);
        assert before + ([block] + later) == painted + later;
        x := x + Step;
      }
    }

    /** The body of the inner loop: read the sampled pixel, set the fill style, fill its square. */
    method PaintBlock(frame: seq<Byte>, w: nat, h: nat, x: nat, y: nat, pixelSize: int, blackThreshold: int)
      requires |frame| == w * h * 4
      requires x < w && y < h
      modifies this`painted, this`fillStyle
      ensures painted == old(painted) + [BlockAt(frame, w, h, Point(x, y), pixelSize, blackThreshold)]
      ensures fillStyle == painted[|painted| - 1].colour
    {
      var i := (y * w + x) * 4;
      PixelIndexInBounds(w, h, Point(x, y));
      fillStyle := Classify(frame[i], frame[i + 1], frame[i + 2], blackThreshold);
      painted := painted + [Square(Point(x, y), pixelSize, fillStyle)];
    }
  }
}
