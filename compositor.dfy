/** `combineFilteredImageAndMask`: where the mask is set the original
    pixel is kept, elsewhere the filtered one is used. */
module Compositor {
  import opened Pixels

  /** The output pixel for mask value `m`: the original pixel `o` when `m`
      is non-zero, the filtered pixel `f` otherwise; always one of the two. */
  function Pick(m: Byte, o: Pixel, f: Pixel): (p: Pixel)
    ensures m != 0 ==> p == o
    ensures m == 0 ==> p == f
    ensures p == o || p == f
  {
    if m != 0 then o else f
  }

  /** A fresh image of the original's size whose pixel at column `x`, row
      `y` is picked by the mask at (x, y) from the original and the
      filtered image at the same (x, y). An all-non-zero mask gives back
      the original, an all-zero mask the filtered image. */
  method Combine(original: array2<Pixel>, filtered: array2<Pixel>, mask: array2<Byte>)
    returns (output: array2<Pixel>)
    requires filtered.Length0 == original.Length0 && filtered.Length1 == original.Length1
    requires mask.Length0 == original.Length0 && mask.Length1 == original.Length1
    ensures fresh(output)
    ensures output.Length0 == original.Length0 && output.Length1 == original.Length1
    ensures forall y, x :: 0 <= y < original.Length0 && 0 <= x < original.Length1 ==>
      output[y, x] == Pick(mask[y, x], original[y, x], filtered[y, x])
    ensures (forall y, x :: 0 <= y < original.Length0 && 0 <= x < original.Length1 ==> mask[y, x] != 0) ==>
      forall y, x :: 0 <= y < original.Length0 && 0 <= x < original.Length1 ==> output[y, x] == original[y, x]
    ensures (forall y, x :: 0 <= y < original.Length0 && 0 <= x < original.Length1 ==> mask[y, x] == 0) ==>
      forall y, x :: 0 <= y < original.Length0 && 0 <= x < original.Length1 ==> output[y, x] == filtered[y, x]
  {
    output := new Pixel[original.Length0, original.Length1]((_, _) => Black);
    var imageWidth := original.Length1;
    var imageHeight := original.Length0;
    for x := 0 to imageWidth
      invariant forall yy, xx {:trigger output[yy, xx]} :: 0 <= yy < imageHeight && 0 <= xx < x ==>
        output[yy, xx] == Pick(mask[yy, xx], original[yy, xx], filtered[yy, xx])
    {
      for y := 0 to imageHeight
        invariant forall yy, xx {:trigger output[yy, xx]} :: 0 <= yy < imageHeight && 0 <= xx < x ==>
          output[yy, xx] == Pick(mask[yy, xx], original[yy, xx], filtered[yy, xx])
        invariant forall yy {:trigger output[yy, x]} :: 0 <= yy < y ==>
          output[yy, x] == Pick(mask[yy, x], original[yy, x], filtered[yy, x])
      {
        var maskValue := mask[y, x];
        output[y, x] := if maskValue != 0 then original[y, x] else filtered[y, x];
      }
    }
  }
}
