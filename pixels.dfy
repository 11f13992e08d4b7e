/** Pixel values shared by every stage: an 8-bit sample and a three-channel
    colour sample, channel 0 first (the codec's blue-green-red order). */
module Pixels {

  /** An 8-bit channel sample (`unsigned char`). */
  type Byte = b: int | 0 <= b < 256

  /** A `Vec3b`: channels 0, 1 and 2 in the order the image stores them. */
  datatype Pixel = Pixel(c0: Byte, c1: Byte, c2: Byte)

  /** The value `Mat::zeros` fills an image with. */
  const Black := Pixel(0, 0, 0)

  /** Channel `ch` of `p`, as `pixel[ch]`. */
  function Channel(p: Pixel, ch: nat): Byte
    requires ch < 3
  {
    if ch == 0 then p.c0 else if ch == 1 then p.c1 else p.c2
  }

  /** An image as a value: rows top to bottom, `g[y][x]` the pixel in
      column `x` of row `y`. */
  type Grid = seq<seq<Pixel>>

  /** The width of a grid: that of its first row. */
  function Width(g: Grid): nat
  {
    if |g| == 0 then 0 else |g[0]|
  }

  /** Every row as wide as the first. */
  predicate Rectangular(g: Grid)
  {
    forall y :: 0 <= y < |g| ==> |g[y]| == Width(g)
  }

  /** `g` holds the contents of `img`, row by row. */
  ghost predicate Shows(img: array2<Pixel>, g: Grid)
    reads img
  {
    && |g| == img.Length0 && Rectangular(g) && (|g| > 0 ==> Width(g) == img.Length1)
    && forall y, x {:trigger img[y, x]} :: 0 <= y < img.Length0 && 0 <= x < img.Length1 ==> g[y][x] == img[y, x]
  }

  /** The contents of a `Mat`, read row by row into a grid. */
  function Snapshot(img: array2<Pixel>): (g: Grid)
    reads img
    ensures Shows(img, g)
  {
    seq(img.Length0, y requires 0 <= y < img.Length0 reads img =>
      seq(img.Length1, x requires 0 <= x < img.Length1 reads img => img[y, x]))
  }
}
