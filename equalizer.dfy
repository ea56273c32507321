/**
 * Histogram equalization: every pixel becomes a gray pixel whose level is
 * round(255 * cH[L] / total), where L is its luminance, cH the cumulative histogram
 * and total the number of pixels.
 */
module Equalizer {
  import opened Images
  import opened Histograms

  /**
   * Python's `round` applied to the exact quotient `n / d`: the nearest integer,
   * and the even one of the two when `n / d` lies exactly half-way between them.
   */
  function RoundHalfEven(n: nat, d: nat): (r: nat)
    requires d > 0
    ensures 2 * (n - r * d) <= d && 2 * (r * d - n) <= d
    ensures 2 * (n - r * d) == d || 2 * (r * d - n) == d ==> r % 2 == 0
  {
    var q, m := n / d, n % d;
    assert n == q * d + m;
    assert (q + 1) * d == q * d + d;
    if 2 * m < d then q
    else if 2 * m > d then q + 1
    else if q % 2 == 0 then q
    else q + 1
  }

  /** Multiples of `d` by distinct factors lie at least `d` apart. */
  lemma {:induction false} MultiplesApart(a: nat, b: nat, d: nat)
    requires a > b
    ensures a * d >= b * d + d
  {
    assert a * d == (a - 1) * d + d;
    if a - 1 > b {
      MultiplesApart(a - 1, b, d);
    }
  }

  /** Rounding preserves order: a larger quotient never rounds to a smaller integer. */
  lemma RoundHalfEvenMonotone(n1: nat, n2: nat, d: nat)
    requires d > 0 && n1 <= n2
    ensures RoundHalfEven(n1, d) <= RoundHalfEven(n2, d)
  {
    var r1, r2 := RoundHalfEven(n1, d), RoundHalfEven(n2, d);
    if r1 > r2 {
      MultiplesApart(r1, r2, d);
      assert false;
    }
  }

  /** A quotient of at most `k` rounds to at most `k`; an exact `k` rounds to `k`. */
  lemma RoundHalfEvenAtMost(n: nat, d: nat, k: nat)
    requires d > 0 && n <= k * d
    ensures RoundHalfEven(n, d) <= k
    ensures n == k * d ==> RoundHalfEven(n, d) == k
  {
    var r := RoundHalfEven(n, d);
    var p, q := r * d, k * d;
    assert 2 * (p - n) <= d && 2 * (n - p) <= d;
    if r > k {
      MultiplesApart(r, k, d);
    }
    if n == q && r < k {
      MultiplesApart(k, r, d);
    }
  }

  /**
   * The gray level that equalization gives to luminance `v` in an image whose
   * luminances are `levels`: 255 times the share of pixels at most as bright, rounded.
   */
  function EqualizedLevel(levels: seq<Level>, v: Level): (r: Level)
    requires |levels| > 0
    ensures 2 * (255 * CountAtMost(levels, v) - r * |levels|) <= |levels|
    ensures 2 * (r * |levels| - 255 * CountAtMost(levels, v)) <= |levels|
  {
    RoundHalfEvenAtMost(255 * CountAtMost(levels, v), |levels|, 255);
    RoundHalfEven(255 * CountAtMost(levels, v), |levels|)
  }

  /** A brighter original never gets a darker gray: the remapping is non-decreasing. */
  lemma EqualizedLevelMonotone(levels: seq<Level>, v: Level, w: Level)
    requires |levels| > 0 && v <= w
    ensures EqualizedLevel(levels, v) <= EqualizedLevel(levels, w)
  {
    CountAtMostMonotone(levels, v, w);
    RoundHalfEvenMonotone(255 * CountAtMost(levels, v), 255 * CountAtMost(levels, w), |levels|);
  }

  /** The brightest luminance present is mapped to white (255). */
  lemma EqualizedBrightestIsWhite(levels: seq<Level>, v: Level)
    requires |levels| > 0
    requires forall k :: 0 <= k < |levels| ==> levels[k] <= v
    ensures EqualizedLevel(levels, v) == 255
  {
    CountAtMostAll(levels, v);
    RoundHalfEvenAtMost(255 * |levels|, |levels|, 255);
  }

  /**
   * Two worked cases of the remapping. Four pixels of distinct luminances 0, 85, 170, 255:
   * the darkest gets round(255 / 4) = 64, the brightest 255. Two pixels: the darker gets
   * round(127.5), which ties and goes to the even 128.
   */
  lemma EqualizedLevelExamples()
    ensures EqualizedLevel([0, 85, 170, 255], 0) == 64
    ensures EqualizedLevel([0, 85, 170, 255], 255) == 255
    ensures EqualizedLevel([0, 85], 0) == 128
  {
    var s1: seq<Level> := [0];
    var s2: seq<Level> := [0, 85];
    var s3: seq<Level> := [0, 85, 170];
    var s4: seq<Level> := [0, 85, 170, 255];
    assert s4[..3] == s3 && s3[..2] == s2 && s2[..1] == s1;
    assert CountAtMost(s2, 0) == 1 && CountAtMost(s2, 255) == 2;
    assert CountAtMost(s3, 0) == 1 && CountAtMost(s3, 255) == 3;
    assert CountAtMost(s4, 0) == 1 && CountAtMost(s4, 255) == 4;
  }

  /** In an equalized image, the pixels of the brightest luminance present become white. */
  lemma BrightestPixelBecomesWhite(image: seq<seq<Pixel>>, lum: Pixel -> Level, i: nat, j: nat)
    requires Rectangular(image) && i < |image| && j < Width(image)
    requires forall r, c :: 0 <= r < |image| && 0 <= c < |image[r]| ==> lum(image[r][c]) <= lum(image[i][j])
    ensures |Luminances(image, lum)| > 0
    ensures EqualizedLevel(Luminances(image, lum), lum(image[i][j])) == 255
  {
    LuminancesLength(image, lum);
    LuminancesBounded(image, lum, lum(image[i][j]));
    EqualizedBrightestIsWhite(Luminances(image, lum), lum(image[i][j]));
  }

  /**
   * `equalizer`: builds the cumulative histogram of the image, then overwrites every
   * pixel with the gray pixel of its remapped luminance. The pixel count comes from
   * `len(array) * len(array[0])`, so the image needs a row; with empty rows the
   * division is never reached and the array comes back unchanged.
   */
  method Equalize(image: seq<seq<Pixel>>, lum: Pixel -> Level) returns (result: seq<seq<Pixel>>)
    requires |image| >= 1 && Rectangular(image)
    ensures |result| == |image| && Rectangular(result) && Width(result) == Width(image)
    ensures forall i, j :: 0 <= i < |image| && 0 <= j < Width(image) ==>
      result[i][j] == Gray(EqualizedLevel(Luminances(image, lum), lum(image[i][j])))
  {
    var pixels := image;
    var histogram := ImageHistogram(pixels, lum);
    var cHistogram := CumulativeHistogram(histogram);
    var totalPixels := |pixels| * |pixels[0]|;
    ghost var levels := Luminances(image, lum);
    LuminancesLength(image, lum);
    assert totalPixels == |levels|;
    assert Width(image) >= 1 ==> totalPixels > 0 by {
      if Width(image) >= 1 {
        MultiplesApart(|pixels|, 0, |pixels[0]|);
      }
    }
    forall v | 0 <= v < 256
      ensures cHistogram[v] == CountAtMost(levels, v)
    {
      PrefixSumCountsAtMost(levels, histogram, v);
    }
    for i := 0 to |pixels|
      invariant |pixels| == |image| && Rectangular(pixels) && Width(pixels) == Width(image)
      invariant forall r, c :: 0 <= r < i && 0 <= c < Width(image) ==>
        pixels[r][c] == Gray(EqualizedLevel(levels, lum(image[r][c])))
      invariant forall r :: i <= r < |image| ==> pixels[r] == image[r]
    {
      for j := 0 to |pixels[0]|
        invariant |pixels| == |image| && Rectangular(pixels) && Width(pixels) == Width(image)
        invariant forall r, c :: 0 <= r < i && 0 <= c < Width(image) ==>
          pixels[r][c] == Gray(EqualizedLevel(levels, lum(image[r][c])))
        invariant forall c :: 0 <= c < j ==> pixels[i][c] == Gray(EqualizedLevel(levels, lum(image[i][c])))
        invariant forall c :: j <= c < Width(image) ==> pixels[i][c] == image[i][c]
        invariant forall r :: i < r < |image| ==> pixels[r] == image[r]
      {
        var oldLum := lum(pixels[i][j]);
        var newLum := RoundHalfEven(255 * cHistogram[oldLum], totalPixels);
        assert newLum == EqualizedLevel(levels, oldLum);
        pixels := pixels[i := pixels[i][j := Gray(newLum)]];
      }
    }
    result := pixels;
  }
}
