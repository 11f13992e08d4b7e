/** `filterImage`: the imperative filter, proved against `OilSpec`. */
module OilFilter {
  import opened Pixels
  import opened OilSpec
  import Arith

  /** The four histogram arrays and the two scalars hold histogram `h`. */
  ghost predicate Holds(histogram: array<nat>, r: array<nat>, g: array<nat>, b: array<nat>,
                        maxValue: nat, maxIndex: nat, h: Histogram)
    reads histogram, r, g, b
  {
    && histogram.Length == |h.count| && r.Length == |h.sum0|
    && g.Length == |h.sum1| && b.Length == |h.sum2|
    && (forall j {:trigger histogram[j]} :: 0 <= j < histogram.Length ==> histogram[j] == h.count[j])
    && (forall j {:trigger r[j]} :: 0 <= j < r.Length ==> r[j] == h.sum0[j])
    && (forall j {:trigger g[j]} :: 0 <= j < g.Length ==> g[j] == h.sum1[j])
    && (forall j {:trigger b[j]} :: 0 <= j < b.Length ==> b[j] == h.sum2[j])
    && maxValue == h.maxValue && maxIndex == h.maxIndex
  }

  /** The body of the window scan: count `pixel` in its bucket, let the
      bucket take over as the mode if its count now exceeds `maxValue`, and
      add the pixel's channels to the bucket's sums. */
  method AddPixel(histogram: array<nat>, r: array<nat>, g: array<nat>, b: array<nat>,
                  maxValue: nat, maxIndex: nat, pixel: Pixel, levels: nat, ghost h: Histogram)
    returns (maxValue': nat, maxIndex': nat)
    requires h.Valid(levels) && Holds(histogram, r, g, b, maxValue, maxIndex, h)
    requires histogram != r && histogram != g && histogram != b && r != g && r != b && g != b
    modifies histogram, r, g, b
    ensures Holds(histogram, r, g, b, maxValue', maxIndex', Add(h, pixel, levels))
  {
    var intensity := Bucket(pixel, levels);
    maxValue', maxIndex' := maxValue, maxIndex;

    histogram[intensity] := histogram[intensity] + 1;
    if histogram[intensity] > maxValue' {
      maxValue' := histogram[intensity];
      maxIndex' := intensity;
    }
    r[intensity] := r[intensity] + pixel.c0;
    g[intensity] := g[intensity] + pixel.c1;
    b[intensity] := b[intensity] + pixel.c2;
  }

  /** The inner scan loop: rows `yStart .. yEnd-1` of column `frameX`,
      each added to the histogram in turn. */
  method ScanColumn(img: array2<Pixel>, frameX: nat, yStart: nat, yEnd: nat, levels: nat,
                    histogram: array<nat>, r: array<nat>, g: array<nat>, b: array<nat>,
                    maxValue: nat, maxIndex: nat, ghost grid: Grid, ghost h: Histogram)
    returns (maxValue': nat, maxIndex': nat)
    requires Shows(img, grid) && 0 < img.Length0
    requires frameX < img.Length1 && yStart <= yEnd <= img.Length0
    requires h.Valid(levels) && Holds(histogram, r, g, b, maxValue, maxIndex, h)
    requires histogram != r && histogram != g && histogram != b && r != g && r != b && g != b
    modifies histogram, r, g, b
    ensures Holds(histogram, r, g, b, maxValue', maxIndex', AddColumn(h, grid, frameX, yStart, yEnd, levels))
  {
    ghost var hist := h;
    maxValue', maxIndex' := maxValue, maxIndex;
    var frameY := yStart;
    while frameY < yEnd
      invariant yStart <= frameY <= yEnd
      invariant hist == AddColumn(h, grid, frameX, yStart, frameY, levels) && hist.Valid(levels)
      invariant Holds(histogram, r, g, b, maxValue', maxIndex', hist)
    {
      var pixel := img[frameY, frameX];
      assert pixel == grid[frameY][frameX];
      maxValue', maxIndex' := AddPixel(histogram, r, g, b, maxValue', maxIndex', pixel, levels, hist);
      assert AddColumn(h, grid, frameX, yStart, frameY + 1, levels) == Add(hist, pixel, levels);
      hist := Add(hist, pixel, levels);
      frameY := frameY + 1;
    }
  }

  /** Fresh histogram arrays of `length` slots, zeroed one slot at a time. */
  method NewHistogram(length: nat) returns (histogram: array<nat>, r: array<nat>, g: array<nat>, b: array<nat>)
    ensures fresh(histogram) && fresh(r) && fresh(g) && fresh(b)
    ensures histogram != r && histogram != g && histogram != b && r != g && r != b && g != b
    ensures histogram.Length == r.Length == g.Length == b.Length == length
    ensures forall j :: 0 <= j < length ==> histogram[j] == 0 && r[j] == 0 && g[j] == 0 && b[j] == 0
  {
    histogram, r, g, b := new nat[length], new nat[length], new nat[length], new nat[length];
    for i := 0 to length
      invariant forall j :: 0 <= j < i ==> histogram[j] == 0 && r[j] == 0 && g[j] == 0 && b[j] == 0
    {
      histogram[i], r[i], g[i], b[i] := 0, 0, 0, 0;
    }
  }

  /** The outer scan loop: columns `xStart .. xEnd-1` of the window, each
      scanned top to bottom. */
  method ScanWindow(img: array2<Pixel>, xStart: nat, xEnd: nat, yStart: nat, yEnd: nat, levels: nat,
                    histogram: array<nat>, r: array<nat>, g: array<nat>, b: array<nat>,
                    maxValue: nat, maxIndex: nat, ghost grid: Grid, ghost seed: nat)
    returns (maxValue': nat, maxIndex': nat)
    requires Shows(img, grid) && 0 < img.Length0
    requires xStart <= xEnd <= img.Length1 && yStart <= yEnd <= img.Length0
    requires Holds(histogram, r, g, b, maxValue, maxIndex, EmptyHistogram(levels, seed))
    requires histogram != r && histogram != g && histogram != b && r != g && r != b && g != b
    modifies histogram, r, g, b
    ensures Holds(histogram, r, g, b, maxValue', maxIndex',
                  Scan(Visited(grid, xStart, yStart, yEnd, xEnd, yStart), levels, seed))
  {
    ghost var hist := EmptyHistogram(levels, seed);
    maxValue', maxIndex' := maxValue, maxIndex;
    var frameX := xStart;
    while frameX < xEnd
      invariant xStart <= frameX <= xEnd
      invariant hist == Scan(Visited(grid, xStart, yStart, yEnd, frameX, yStart), levels, seed)
      invariant Holds(histogram, r, g, b, maxValue', maxIndex', hist)
    {
      maxValue', maxIndex' := ScanColumn(img, frameX, yStart, yEnd, levels, histogram, r, g, b,
                                         maxValue', maxIndex', grid, hist);
      ScanDown(grid, xStart, yStart, yEnd, frameX, yEnd, levels, seed);
      ScanRight(grid, xStart, yStart, yEnd, frameX, levels, seed);
      hist := Scan(Visited(grid, xStart, yStart, yEnd, frameX + 1, yStart), levels, seed);
      frameX := frameX + 1;
    }
  }

  /** One output pixel: zero the four histogram arrays of `levels + 1`
      slots, clamp the window, seed `maxValue`, scan the window, then divide
      the winning bucket's sums by `maxValue`. */
  method FilterPixel(img: array2<Pixel>, x: nat, y: nat, radius: nat, levels: nat, seed: nat, ghost grid: Grid)
    returns (p: Pixel)
    requires Shows(img, grid) && x < img.Length1 && y < img.Length0
    requires radius >= 1 || seed >= 1
    ensures p == OilPixel(grid, x, y, radius, levels, seed)
  {
    var width, height := img.Length1, img.Length0;
    var length := levels + 1;
    var histogram, r, g, b := NewHistogram(length);

    var xStart := if x < radius then 0 else x - radius;
    var yStart := if y < radius then 0 else y - radius;
    var xEnd := if x + radius > width then width else x + radius;
    var yEnd := if y + radius > height then height else y + radius;

    var maxValue: nat := seed;
    var maxIndex: nat := 0;
    assert Holds(histogram, r, g, b, maxValue, maxIndex, EmptyHistogram(levels, seed));
    maxValue, maxIndex := ScanWindow(img, xStart, xEnd, yStart, yEnd, levels, histogram, r, g, b,
                                     maxValue, maxIndex, grid, seed);

    ghost var w := WindowAt(x, y, width, height, radius);
    assert w == Window(xStart, xEnd, yStart, yEnd);
    ghost var ps := WindowPixels(grid, w);
    if radius >= 1 {
      assert w.Contains(x, y);
      WindowNonEmpty(grid, w);
    }
    ModePixelFrom(ps, levels, seed, r[maxIndex], g[maxIndex], b[maxIndex], maxValue, maxIndex);

    var maxR := r[maxIndex] / maxValue;
    var maxG := g[maxIndex] / maxValue;
    var maxB := b[maxIndex] / maxValue;
    p := Pixel(maxR, maxG, maxB);
  }

  /** The inner loop of the filter: rows 0 .. height-1 of column `x` of
      `output` get their filtered value; no other pixel changes. */
  method FilterColumn(img: array2<Pixel>, output: array2<Pixel>, x: nat, radius: nat, levels: nat, seed: nat,
                      ghost grid: Grid)
    requires output != img && Shows(img, grid)
    requires output.Length0 == img.Length0 && output.Length1 == img.Length1 && x < img.Length1
    requires radius >= 1 || seed >= 1
    modifies output
    ensures forall yy :: 0 <= yy < img.Length0 ==> output[yy, x] == OilPixel(grid, x, yy, radius, levels, seed)
    ensures forall yy, xx :: 0 <= yy < img.Length0 && 0 <= xx < img.Length1 && xx != x ==>
      output[yy, xx] == old(output[yy, xx])
  {
    ghost var col: seq<Pixel> := [];
    for y := 0 to img.Length0
      invariant |col| == y && FilteredColumn(col, grid, x, radius, levels, seed)
      invariant forall yy :: 0 <= yy < y ==> output[yy, x] == col[yy]
      invariant forall yy, xx :: 0 <= yy < img.Length0 && 0 <= xx < img.Length1 && xx != x ==>
        output[yy, xx] == old(output[yy, xx])
    {
      var p := FilterPixel(img, x, y, radius, levels, seed, grid);
      FilteredColumnSnoc(col, p, grid, x, radius, levels, seed);
      output[y, x] := p;
      col := col + [p];
    }
  }

  /** The whole filter: a fresh image of the input's width and height whose
      pixel (x, y) is the filter's value at (x, y), filled column by column,
      each pixel written once. */
  method FilterImage(img: array2<Pixel>, radius: nat, levels: nat, seed: nat)
    returns (output: array2<Pixel>)
    requires radius >= 1 || seed >= 1
    ensures fresh(output)
    ensures output.Length0 == img.Length0 && output.Length1 == img.Length1
    ensures forall y, x :: 0 <= y < img.Length0 && 0 <= x < img.Length1 ==>
      output[y, x] == OilPixel(Snapshot(img), x, y, radius, levels, seed)
  {
    ghost var grid := Snapshot(img);
    output := new Pixel[img.Length0, img.Length1]((_, _) => Black);
    for x := 0 to img.Length1
      invariant forall yy, xx :: 0 <= yy < img.Length0 && 0 <= xx < x ==>
        output[yy, xx] == OilPixel(grid, xx, yy, radius, levels, seed)
    {
      FilterColumn(img, output, x, radius, levels, seed, grid);
    }
  }
}
