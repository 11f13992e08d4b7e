/** The rectangle-threshold loop of `computeMask`: a single-channel mask,
    0xFF inside a rectangle wherever the hue is below a threshold and 0
    everywhere else. The colour conversion before it and the dilation
    after it are not part of this model; the HSV image is an input. */
module Mask {
  import opened Pixels

  /** A `cv::Rect`: top-left column and row, width and height. */
  datatype Rect = Rect(x: nat, y: nat, width: nat, height: nat)
  {
    /** Column `c`, row `r` lies in the half-open rectangle. */
    predicate Contains(c: int, r: int)
    {
      x <= c < x + width && y <= r < y + height
    }

    /** The rectangle fits in an image of `w` columns and `h` rows. */
    predicate Within(w: nat, h: nat)
    {
      x + width <= w && y + height <= h
    }
  }

  /** The mask value the loop leaves at column `c`, row `r` whose HSV pixel
      is `p`: 0xFF exactly when the pixel is in the rectangle and its hue
      (channel 0) is below `threshold`, and otherwise the 0 of the zeroed
      mask. */
  function MaskValue(p: Pixel, rect: Rect, c: int, r: int, threshold: int): (v: Byte)
    ensures v == 0xFF <==> rect.Contains(c, r) && p.c0 < threshold
    ensures v != 0xFF ==> v == 0
  {
    if rect.Contains(c, r) && p.c0 < threshold then 0xFF else 0
  }

  /** Every cell of `mask` holds 0xFF where the loops have already visited
      a below-threshold pixel, and 0 elsewhere. The loops have visited
      columns `rect.x .. x-1` of the rectangle in full and rows
      `rect.y .. y-1` of column `x`. */
  ghost predicate MaskedUpTo(mask: array2<Byte>, hsv: array2<Pixel>, rect: Rect, threshold: int, x: nat, y: nat)
    reads mask, hsv
  {
    && mask.Length0 == hsv.Length0 && mask.Length1 == hsv.Length1
    && forall r, c {:trigger mask[r, c]} :: 0 <= r < mask.Length0 && 0 <= c < mask.Length1 ==>
         mask[r, c] == (if (rect.x <= c < x || (c == x && r < y)) && rect.y <= r < rect.y + rect.height
                           && hsv[r, c].c0 < threshold
                        then 0xFF else 0)
  }

  /** The mask of `hsv` before dilation: a fresh single-channel image of
      the same size, zeroed, then set to 0xFF at each pixel of the
      rectangle whose hue is below `threshold`, column by column and each
      column top to bottom. */
  method ThresholdMask(hsv: array2<Pixel>, rect: Rect, threshold: int) returns (mask: array2<Byte>)
    requires rect.Within(hsv.Length1, hsv.Length0)
    ensures fresh(mask)
    ensures mask.Length0 == hsv.Length0 && mask.Length1 == hsv.Length1
    ensures forall r, c :: 0 <= r < hsv.Length0 && 0 <= c < hsv.Length1 ==>
      mask[r, c] == MaskValue(hsv[r, c], rect, c, r, threshold)
  {
    mask := new Byte[hsv.Length0, hsv.Length1]((_, _) => 0);
    var maskToX := rect.x + rect.width;
    var maskToY := rect.y + rect.height;
    for x := rect.x to maskToX
      invariant MaskedUpTo(mask, hsv, rect, threshold, x, rect.y)
    {
      for y := rect.y to maskToY
        invariant MaskedUpTo(mask, hsv, rect, threshold, x, y)
      {
        var pixel := hsv[y, x];
        if pixel.c0 < threshold {
          mask[y, x] := 0xFF;
        }
      }
    }
  }
}
