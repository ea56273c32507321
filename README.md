# ImageShop image transformations in Dafny

ImageShop is a small photo editor. Its buttons call a handful of image transformations
nested inside `ImageShop()`: horizontal and vertical flips, left and right quarter turns
built on a `transpose` primitive, a luminance-histogram equalizer, and a green-screen
compositor. This project models those transformations and proves what they do.

An image is its pixel array: a `seq<seq<T>>` of `H` rows of `W` pixels, row-major. The
geometric transforms are generic in the pixel type. The equalizer and the compositor work
on `Pixel`, a datatype of three 8-bit channels (`Level`, the integers 0..255).

Modules, one per component:

- `Images` (images.dfy): `Level`, `Pixel`, `Gray` (the pixel `createRGBPixel(v, v, v)`
  builds), `Width`, `Rectangular` and `Reverse` (Python's `list.reverse()` and `[::-1]`).
- `Geometry` (geometry.dfy): `Transpose` and `FlipVertical` are functions, as in
  `ImageShop.py`, which uses a comprehension and a slice. `FlipHorizontal`, `RotateLeft` and
  `RotateRight` are methods. They run `ImageShop.py`'s own loop over the rows, reversing each
  row in turn. Each is proved equal to a specification function (`Mirrored`,
  `RotatedLeft`, `RotatedRight`) whose index formulas and algebraic laws are proved.
- `Histograms` (histograms.dfy): `ImageHistogram` and `CumulativeHistogram` are methods
  with the loops of `ImageShop.py`. They are specified by counting functions over the list of
  pixel luminances (`Luminances`, `Count`, `CountAtMost`) and by `Sum`.
- `Equalizer` (equalizer.dfy): `RoundHalfEven` is Python 3's `round` on an exact quotient.
  `EqualizedLevel` is the remapping `round(255 * cH[L] / total)`, written with the count of
  pixels at most as bright as `L`. `Equalize` is the method with the
  nested loops of `ImageShop.py`.
- `ChromaKey` (chroma_key.dfy): `Replaces` is the test on a foreground pixel. `Composite`
  is the cell-by-cell specification. `GreenScreen` is the method with the nested loops.

The luminance function comes from a module that is not part of this model
(`GrayscaleImage`). Every operation that needs it takes it as a parameter
`lum: Pixel -> Level`, so the results hold for any luminance function into 0..255.

Behaviour on edge cases, as the Python code has it:

- On an array with no rows, `transpose` and `equalizer` fail at `lists[0]` and `array[0]`.
  `Transpose`, `RotateLeft`, `RotateRight` and `Equalize` therefore require a row.
- `equalizer` on rows that are empty computes a total of 0 but never divides by it: the
  division sits inside the empty column loop, and the array comes back unchanged.
  `Equalize` accepts such arrays.
- `GreenScreen` needs no row. When the overlap has no rows, its outer loop never runs, so
  row 0 is never read.
- The code does not clamp `newLum`. The model proves it lies in 0..255 (`EqualizedLevel`
  returns a `Level`).

## Model

| member | source | states |
|---|---|---|
| Images.Gray | ImageShop.py:157 | the pixel built from `newLum` has red, green and blue all equal to `newLum` |
| Images.Reverse | ImageShop.py:107 | reversing keeps the length and puts element `n-1-k` at position `k` |
| Geometry.Transpose | ImageShop.py:128-130 | needs one row and every row at least as long as the first; gives `W` rows of length `H` with `r[i][j] == lists[j][i]` |
| Geometry.TransposeInvolution | ImageShop.py:128-130 | transposing a rectangular array with at least one row and one column twice gives it back |
| Geometry.FlipVertical | ImageShop.py:110-112 | same number of rows; row `k` is row `H-1-k` of the image, unchanged; a rectangular image keeps its width |
| Geometry.FlipVerticalInvolution | ImageShop.py:110-112 | flipping vertically twice gives back the image |
| Geometry.Mirrored | ImageShop.py:106-107 | every row keeps its length `n` and `r[k][c] == image[k][n-1-c]` |
| Geometry.MirroredInvolution | ImageShop.py:104-108 | reversing every row twice gives back the image |
| Geometry.FlipHorizontal | ImageShop.py:104-108 | the row-reversal loop keeps the dimensions, gives `result[r][c] == image[r][n-1-c]` for a row of length `n`, and equals `Mirrored(image)` |
| Geometry.RotatedLeft | ImageShop.py:114-119 | for an image with a row: `W` rows of length `H`, rectangular, `r[i][j] == image[j][W-1-i]` |
| Geometry.RotatedRight | ImageShop.py:121-126 | for an image with a row: `W` rows of length `H`, rectangular, `r[i][j] == image[H-1-j][i]` |
| Geometry.RotateLeft | ImageShop.py:114-119 | reversing each row and then transposing yields `RotatedLeft(image)` |
| Geometry.RotateRight | ImageShop.py:121-126 | transposing and then reversing each row of the result yields `RotatedRight(image)` |
| Geometry.RotateRightUndoesLeft | ImageShop.py:114-126 | a right turn after a left turn gives back any image with a row and a column |
| Geometry.RotateLeftUndoesRight | ImageShop.py:114-126 | a left turn after a right turn gives back any image with a row and a column |
| Geometry.RotatedLeftTwice | ImageShop.py:114-119 | two left turns reverse both the rows and the columns |
| Geometry.HalfTurnTwice | ImageShop.py:114-119 | two half turns give back the image |
| Geometry.RotateLeftFourTimes | ImageShop.py:114-119 | four left turns give back the image |
| Histograms.SumUpdate | ImageShop.py:138 | adding `d` to one counter adds `d` to the sum of the counters |
| Histograms.LuminancesLength | ImageShop.py:152 | a rectangular image has `len(array) * len(array[0])` pixels |
| Histograms.CountAtMostMonotone | ImageShop.py:141-146 | the number of pixels at most as bright as `v` does not decrease as `v` grows |
| Histograms.ImageHistogram | ImageShop.py:132-139 | 256 counters; counter `v` is the number of pixels of luminance `v`; the counters sum to the number of pixels |
| Histograms.CumulativeHistogram | ImageShop.py:141-146 | 256 entries with `cH[0] == h[0]` and `cH[i] == h[i] + cH[i-1]`; `cH[i]` is the sum of `h[0..i]`; non-decreasing when the counts are non-negative |
| Histograms.PrefixSumsMonotone | ImageShop.py:141-146 | over non-negative counts, running totals never decrease |
| Histograms.PrefixSumCountsAtMost | ImageShop.py:151 | the cumulative histogram at `v` counts the pixels whose luminance is at most `v` |
| Equalizer.RoundHalfEven | ImageShop.py:156 | the result is within one half of `n / d`; an exact half goes to the even neighbour |
| Equalizer.RoundHalfEvenMonotone | ImageShop.py:156 | rounding never reverses the order of two quotients |
| Equalizer.RoundHalfEvenAtMost | ImageShop.py:156 | a quotient at most `k` rounds to at most `k`, and exactly `k` rounds to `k`, so `newLum <= 255` |
| Equalizer.EqualizedLevel | ImageShop.py:156 | the new level of luminance `v` lies within one half of `255 * cH[v] / total`, where `cH[v]` counts the pixels at most as bright as `v`; it is in 0..255 |
| Equalizer.EqualizedLevelExamples | ImageShop.py:156 | four pixels of luminances 0, 85, 170, 255 remap 0 to 64 and 255 to 255; the tie 127.5 rounds to 128 |
| Equalizer.EqualizedLevelMonotone | ImageShop.py:148-158 | a brighter original luminance never gets a darker gray |
| Equalizer.EqualizedBrightestIsWhite | ImageShop.py:151-156 | the largest luminance present is remapped to 255 |
| Equalizer.BrightestPixelBecomesWhite | ImageShop.py:148-158 | in an image, the pixels of the brightest luminance present become white |
| Equalizer.Equalize | ImageShop.py:148-158 | needs a row (rows may be empty); dimensions kept; every pixel becomes the gray pixel `R == G == B == round(255 * (pixels at most as bright) / total)` of its own luminance |
| ChromaKey.Replaces | ImageShop.py:166 | a foreground pixel replaces the main pixel exactly when its green is below twice its blue or below twice its red, i.e. below `2*max(blue, red)` |
| ChromaKey.Composite | ImageShop.py:160-168 | the main image's dimensions; cells outside the overlap of both images keep the main pixel; inside, the foreground pixel when it passes the test, else the main pixel |
| ChromaKey.CompositeIdempotent | ImageShop.py:160-168 | compositing the same foreground a second time changes nothing more |
| ChromaKey.GreenScreen | ImageShop.py:160-168 | the main image's dimensions; cells outside the overlap unchanged; inside it, the foreground pixel when `green < 2*max(blue, red)`, else the main pixel; equals `Composite` |

## Left out

- The user interface: the window, the button column, `addButton`, `setImage`, every
  `*Action` callback, the reset bookkeeping and the file chooser. They are event handling
  and file I/O.
- `GImage` itself: loading images, `getPixelArray` and the packing of pixels into
  integers. A pixel is a value of three channels. The alpha channel is not modelled
  because no transformation reads it. The pixel array `getPixelArray` returns is a fresh
  copy, so each operation here takes the array as a value and returns a new one.
- `luminance` and `createGrayscaleImage` from `GrayscaleImage` are not part of this model.
  Luminance is the parameter `lum`, with values in 0..255, and the Grayscale button is not
  modelled.
- Equalizer.Equalize: `255*cHistogram[oldLum]/totalPixels` is floating-point division in
  `ImageShop.py`. The model rounds the exact rational quotient half-to-even, as Python's
  `round` does. The two agree while the pixel count stays far below 2^53.
- `row.reverse()` mutates a row list in place. The model replaces the row by its reversed
  copy (`Reverse`). Aliasing between rows cannot arise because the rows are values.
- Ragged pixel arrays: the rotations, `Equalize` and `GreenScreen` take a rectangular
  array, the only shape an image's pixel array has. `Transpose` keeps the code's weaker
  need (every row at least as long as the first), and the flips and `ImageHistogram` take
  any array.
