# Oil filter with mask compositing, modelled in Dafny

The program produces a stylised "oil painting" version of a colour image.
It then keeps the original pixels inside a hue-threshold mask.

It has three per-pixel stages:

- **`filterImage`** works out each output pixel `(x, y)` in four steps:
  - It clamps the half-open square `[x - radius, x + radius) x [y - radius, y + radius)` to the image.
  - It visits the window column by column, each column top to bottom.
  - It puts every window pixel into a brightness bucket `0 .. levels` and keeps, per bucket, a count and three channel sums. It also keeps a running `maxValue`/`maxIndex`, seeded with 1 and 0 and taken over only on a strictly greater count.
  - It writes the winning bucket's channel sums divided by `maxValue`.
- **`computeMask`** starts from a zeroed single-channel mask. It sets 0xFF at each pixel of a rectangle whose hue is below a threshold.
- **`combineFilteredImageAndMask`** takes the original pixel where the mask is non-zero and the filtered pixel elsewhere.

## Files

- `pixels.dfy`: bytes, `Pixel` (a `Vec3b`), and images as `array2<Pixel>` indexed `[row, column]` like `Mat::at(y, x)`.
  - `Grid` is a value image, and `Shows`/`Snapshot` tie an array to it.
- `arith.dfy`: small lemmas about products and truncating division.
- `oil_spec.dfy` (module `OilSpec`): what `filterImage` computes, as functions:
  - the window (`WindowAt`) and the scan order (`Visited`);
  - the bucket (`Bucket`);
  - the histogram state after each scanned pixel (`Add`, `Scan`);
  - the output pixel (`ModePixel`, `OilPixel`).
  - It also holds independent reference definitions that count and sum the pixels of each bucket (`Count`, `Sum`), and lemmas relating scan and reference.
- `oil_filter.dfy` (module `OilFilter`): the filter itself, as methods over arrays.
  - The four histogram arrays are updated in place. `maxValue`/`maxIndex` are updated step by step.
  - The nested loops are the source's loops, each split into its own method with its invariants.
  - Every method is proved against `OilSpec`.
- `mask.dfy` (module `Mask`): the rectangle-threshold loop of `computeMask`, taking the hue image as input.
- `compositor.dfy` (module `Compositor`): `combineFilteredImageAndMask`.

The bucket is modelled as the exact integer `floor((c0 + c1 + c2) * levels / 765)`. The source computes it in single-precision floating point.

The seed of `maxValue` is a parameter `seed`; the source's value is `OilSpec.SourceSeed` (1). This makes the seed-1 behaviour and the seed-0 correction (see Findings) two instances of one model.

An oil filter is meant to reproduce every pixel of a uniformly coloured image. The code does this only for windows of at least two pixels, or for a lone pixel whose colour falls in bucket 0 (such as black), which `OilSpec.SeedCase` covers. The model follows the code: `OilSpec.UniformImage` needs a window larger than the seed, and `OilSpec.LoneCornerTurnsBlack` shows the exception.

## Model

| member | source | states |
|---|---|---|
| OilSpec.Bucket | main.cpp:54-56 | the bucket of any pixel is at most `levels`, so every histogram index is in bounds for arrays of `levels + 1` slots |
| OilSpec.BucketIsFloor | main.cpp:54 | the bucket `q` satisfies `q * 765 <= (c0 + c1 + c2) * levels < (q + 1) * 765`: the mean brightness scaled by `levels / 255`, rounded down |
| OilSpec.WindowAt | main.cpp:37-48 | a pixel is in the window exactly when it is in the image and in the half-open square `[x - radius, x + radius) x [y - radius, y + radius)`; the window never leaves the image and contains `(x, y)` when `radius >= 1` |
| OilSpec.VisitedLength | main.cpp:50-51 | the nested window loops visit `(columns done) * height + (rows done)` pixels, each once |
| OilSpec.Visited | main.cpp:50-52 | the pixels the two window loops have visited on reaching column `x`, row `y`; its order is given by `OilSpec.VisitedAt` and its length by `OilSpec.VisitedLength` |
| OilSpec.WindowPixels | main.cpp:50-52 | the pixels of a window in visiting order, exactly one per pixel of the window (`(xe - xs) * (ye - ys)` of them) |
| OilSpec.VisitedAt | main.cpp:50-52 | the scan is column-major: the pixel at column `xs + i`, row `ys + j` is visited at position `Arith.Times(i, ye - ys) + j`, the product of `Arith.TimesIsProduct` |
| OilSpec.VisitedPosition | main.cpp:50-52 | the same with the position written as the ordinary product: the pixel at column `xs + i`, row `ys + j` is the `i * (ye - ys) + j`-th one visited |
| OilSpec.EmptyHistogram | main.cpp:31-43 | the state before the first window pixel is well formed: `levels + 1` slots in each array and `maxIndex` indexing them; `Scan` of no pixels is this state |
| OilSpec.Add | main.cpp:54-65 | adding one pixel keeps the histogram well formed; what the tallies and the takeover then hold is proved in `OilSpec.ScanTallies` and `OilSpec.ScanMax` |
| OilSpec.Scan | main.cpp:42-61 | after any scan every slot array has `levels + 1` entries, `maxIndex <= levels`, `maxValue` is at least the seed and, once a pixel was scanned, at least 1 |
| OilSpec.ScanTallies | main.cpp:56-65 | after a scan, slot `k` holds the number of scanned pixels in bucket `k` and, per channel, the sum of their samples, channel 0 in the first sum array and so on |
| OilSpec.ScanMax | main.cpp:42-61 | `maxValue` is at least every bucket's count; above the seed it is the count of `maxIndex`; while it equals the seed `maxIndex` is 0 |
| OilSpec.ScanTieBreak | main.cpp:50-61 | with the strict `>`, above the seed, `maxIndex` reached `maxValue` at or before the point in the scan where any other bucket did |
| OilSpec.ScanMode | main.cpp:42-61 | the running maximum and the tie-break together |
| OilSpec.ScanDown | main.cpp:51-66 | part way down a column, the scan of what the loops have visited is the state at the column's top with the rows above added in order |
| OilSpec.ModeFits | main.cpp:69-71 | the winning slot's sums are at most `255 * maxValue` and `maxValue >= 1`, so the divisions are defined and fit a byte |
| OilSpec.ModePixel | main.cpp:69-73 | the pixel written after a scan; its value is the winning bucket's mean by `OilSpec.ModeIsMean`, and black or bucket 0's lone pixel by `OilSpec.SeedCase` |
| OilSpec.ModePixelFrom | main.cpp:69-73 | the output pixel is the winning slot's three sums each divided by `maxValue` with truncation, every channel at most 255, in channel order |
| OilSpec.ModeIsMean | main.cpp:63-73 | once a bucket has overtaken the seed, the output is the truncating per-channel mean of the pixels in the winning bucket, which holds `maxValue` pixels |
| OilSpec.SeedCase | main.cpp:42-71 | with the seed of 1 and no bucket reaching two pixels, `maxIndex` stays 0, and the output is black if bucket 0 is empty, otherwise bucket 0's single pixel |
| OilSpec.UniformWindow | main.cpp:54-73 | a window of one colour holding more pixels than the seed yields that colour |
| OilSpec.WindowNonEmpty | main.cpp:37-51 | a window with at least one column and one row scans at least one pixel |
| OilSpec.OilPixel | main.cpp:31-73 | output pixel `(x, y)`: the mode pixel of its clamped window in visiting order; the loops compute it by `OilFilter.FilterPixel`, and `OilSpec.UniformImage` and `OilSpec.GlobalMode` give its value on one-colour and whole-image windows |
| OilSpec.UniformImage | main.cpp:29-73 | a pixel whose whole window has one colour is reproduced when the window holds more pixels than the seed (two or more with the source's seed) |
| OilSpec.GlobalMode | main.cpp:37-48 | with a radius at least the image's width and height, every window is the whole image and every output pixel is the same |
| OilSpec.LoneCornerTurnsBlack | main.cpp:42-43 | as written: radius 1, 20 levels, a white corner pixel comes out black |
| OilSpec.UniformImageIntended | main.cpp:42-43 | corrected: seeded with 0, every pixel whose window has one colour is reproduced, for every radius of at least 1 |
| OilFilter.AddPixel | main.cpp:54-65 | bumping the pixel's bucket, the strict-`>` takeover and the three sum updates leave the arrays holding the histogram with that pixel added |
| OilFilter.ScanColumn | main.cpp:51-66 | the inner window loop leaves the arrays holding the incoming histogram with rows `yStart .. yEnd-1` of the column added, top to bottom |
| OilFilter.NewHistogram | main.cpp:31-35 | four distinct fresh arrays of `levels + 1` zeros |
| OilFilter.ScanWindow | main.cpp:50-67 | the two window loops leave the arrays holding the scan of the window in column-major order |
| OilFilter.FilterPixel | main.cpp:31-73 | the pixel computed for `(x, y)` is `OilSpec.OilPixel` of the input at `(x, y)`: the mode pixel of its window |
| OilFilter.FilterColumn | main.cpp:30-74 | every row of column `x` of the output receives its filtered pixel and no other column changes |
| OilFilter.FilterImage | main.cpp:19-78 | a fresh image of the input's width and height whose every pixel is the filtered value of the input at that position |
| Mask.MaskValue | main.cpp:99-101 | a mask value is 0xFF exactly when the pixel is inside the rectangle and its hue is below the threshold, otherwise 0 |
| Mask.ThresholdMask | main.cpp:85-103 | a fresh mask of the image's size, 0xFF exactly at the in-rectangle pixels with hue below the threshold and 0 everywhere else |
| Compositor.Pick | main.cpp:121-122 | the original pixel for a non-zero mask value, the filtered one for zero, always one of the two |
| Compositor.Combine | main.cpp:114-124 | a fresh image of the original's size; each pixel is the original or the filtered pixel at the same position as the mask there says; an all-non-zero mask gives the original, an all-zero mask the filtered image |

## Left out

- `main` (main.cpp:129-142) is file reading and writing with compiled-in paths and constants. It is not modelled.
- The colour conversion `cvtColor(..., CV_BGR2HSV)` (main.cpp:87-88) is an OpenCV call computed in floating point. `Mask.ThresholdMask` takes the converted image as its input.
- The dilation with an elliptical structuring element (main.cpp:105) is an OpenCV call. `Mask.ThresholdMask` is the mask before dilation.
- OilSpec.Bucket: the bucket is the exact rational floor. The source's single-precision product can round differently where the exact value is an integer or lies just below one.
- Unsigned 32-bit wrap-around is not modelled:
  - of the counts and sums, which cannot wrap below about 16 million pixels per bucket;
  - of `x + radius`, which cannot wrap for any `int` radius on an image narrower than 2^31 columns.
- The signed `x - radius` of main.cpp:37 is modelled as `max(0, x - radius)`, which is what lines 45-46 make of it for every radius that fits an `int`.
- Negative `radius` or `levels` are not modelled: both are natural numbers. `levels = 0` (one bucket) is included.
- A `cv::Rect` with a negative width or height is not modelled: the fields of `Mask.Rect` are natural numbers. In the source such a rectangle makes the unsigned loop bound of main.cpp:92-95 wrap below its start or far past the image, so the loop is either empty (mask all zero) or reads outside the image.
- The unchecked image accesses with out-of-range coordinates are not modelled. This covers a rectangle that leaves the image and images of different sizes given to the compositor. `Mask.ThresholdMask` requires the rectangle inside the image, and `Compositor.Combine` requires equal sizes.
- OilFilter.FilterImage, OilPixel and FilterPixel: `radius = 0` with seed 0 is excluded. It divides by a zero `maxValue`. With the source's seed of 1 and `radius = 0` the model gives black, as the code does.
- OilFilter.FilterImage: states the value of every output pixel but not that each pixel is written exactly once.
- OilFilter.ScanColumn and OilFilter.ScanWindow: both also require an image with at least one row. They are only reached from a pixel of the image.

## Findings

| source | as written | input that shows it | evidently intended | confidence | as-written member | corrected member |
|---|---|---|---|---|---|---|
| main.cpp:42 | `maxValue` starts at 1, so a bucket takes over only from two pixels; a window whose buckets all hold one pixel reports bucket 0, black if bucket 0 is empty | radius 1, levels 20, a white pixel at (0, 0): the window is that pixel alone, its bucket is 20, and the output is black (even when the whole image is white) | start `maxValue` at 0, so that the most frequent bucket always wins and a one-colour window is reproduced at any size | not executed | OilSpec.LoneCornerTurnsBlack | OilSpec.UniformImageIntended |
