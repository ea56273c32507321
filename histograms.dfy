/**
 * The luminance histogram of an image and its cumulative (prefix-sum) histogram.
 * The luminance function comes from outside the model; it is a parameter `lum`
 * whose values are 8-bit levels.
 */
module Histograms {
  import opened Images

  /** Sum of a sequence of integers. */
  function Sum(s: seq<int>): int {
    if |s| == 0 then 0 else Sum(s[..|s| - 1]) + s[|s| - 1]
  }

  /** Adding `d` to one entry adds `d` to the sum. */
  lemma {:induction false} SumUpdate(s: seq<int>, k: nat, d: int)
    requires k < |s|
    ensures Sum(s[k := s[k] + d]) == Sum(s) + d
  {
    var t := s[k := s[k] + d];
    var n := |s| - 1;
    assert t[..n] == if k == n then s[..n] else s[..n][k := s[k] + d];
    if k < n {
      SumUpdate(s[..n], k, d);
    }
  }

  /** A sequence of zeros sums to zero. */
  lemma {:induction false} SumZeros(s: seq<int>)
    requires forall k :: 0 <= k < |s| ==> s[k] == 0
    ensures Sum(s) == 0
  {
    if |s| > 0 {
      SumZeros(s[..|s| - 1]);
    }
  }

  /** The luminance of every pixel of one row, left to right. */
  function RowLuminances(row: seq<Pixel>, lum: Pixel -> Level): seq<Level> {
    seq(|row|, k requires 0 <= k < |row| => lum(row[k]))
  }

  /** The luminance of every pixel of an image, row after row. */
  function Luminances(image: seq<seq<Pixel>>, lum: Pixel -> Level): seq<Level> {
    if |image| == 0 then []
    else Luminances(image[..|image| - 1], lum) + RowLuminances(image[|image| - 1], lum)
  }

  /** A rectangular image of `H` rows of `W` pixels has `H * W` luminances. */
  lemma {:induction false} LuminancesLength(image: seq<seq<Pixel>>, lum: Pixel -> Level)
    requires Rectangular(image)
    ensures |Luminances(image, lum)| == |image| * Width(image)
  {
    if |image| > 0 {
      var init := image[..|image| - 1];
      assert Rectangular(init) && (|init| > 0 ==> Width(init) == Width(image));
      LuminancesLength(init, lum);
      assert |Luminances(image, lum)| == |init| * Width(image) + Width(image);
    }
  }

  /** Every luminance of the list is the luminance of some pixel of the image. */
  lemma {:induction false} LuminancesBounded(image: seq<seq<Pixel>>, lum: Pixel -> Level, m: int)
    requires forall r, c :: 0 <= r < |image| && 0 <= c < |image[r]| ==> lum(image[r][c]) <= m
    ensures forall k :: 0 <= k < |Luminances(image, lum)| ==> Luminances(image, lum)[k] <= m
  {
    if |image| > 0 {
      var init := image[..|image| - 1];
      LuminancesBounded(init, lum, m);
    }
  }

  /** Number of entries of `levels` equal to `v`. */
  function Count(levels: seq<Level>, v: int): nat {
    if |levels| == 0 then 0
    else Count(levels[..|levels| - 1], v) + (if levels[|levels| - 1] == v then 1 else 0)
  }

  /** Appending one level adds one to its own count and leaves the others alone. */
  lemma CountAppend(levels: seq<Level>, x: Level, v: int)
    ensures Count(levels + [x], v) == Count(levels, v) + (if x == v then 1 else 0)
  {
  }

  /** Number of entries of `levels` at most `v`. */
  function CountAtMost(levels: seq<Level>, v: int): (n: nat)
    ensures n <= |levels|
  {
    if |levels| == 0 then 0
    else CountAtMost(levels[..|levels| - 1], v) + (if levels[|levels| - 1] <= v then 1 else 0)
  }

  /** Counting the entries at most `v` splits into those below `v` and those equal to it. */
  lemma {:induction false} CountAtMostStep(levels: seq<Level>, v: int)
    ensures CountAtMost(levels, v) == CountAtMost(levels, v - 1) + Count(levels, v)
  {
    if |levels| > 0 {
      CountAtMostStep(levels[..|levels| - 1], v);
    }
  }

  /** No level is negative. */
  lemma {:induction false} CountAtMostNegative(levels: seq<Level>)
    ensures CountAtMost(levels, -1) == 0
  {
    if |levels| > 0 {
      CountAtMostNegative(levels[..|levels| - 1]);
    }
  }

  /** Raising the bound never lowers the count. */
  lemma {:induction false} CountAtMostMonotone(levels: seq<Level>, v: int, w: int)
    requires v <= w
    ensures CountAtMost(levels, v) <= CountAtMost(levels, w)
  {
    if |levels| > 0 {
      CountAtMostMonotone(levels[..|levels| - 1], v, w);
    }
  }

  /** When no entry exceeds `v`, every entry is counted. */
  lemma {:induction false} CountAtMostAll(levels: seq<Level>, v: int)
    requires forall k :: 0 <= k < |levels| ==> levels[k] <= v
    ensures CountAtMost(levels, v) == |levels|
  {
    if |levels| > 0 {
      CountAtMostAll(levels[..|levels| - 1], v);
    }
  }

  /**
   * `imageHistogram`: 256 counters, one per luminance, each incremented once for every
   * pixel of that luminance while the nested loops walk the image.
   */
  method ImageHistogram(imageArray: seq<seq<Pixel>>, lum: Pixel -> Level) returns (histogram: seq<nat>)
    ensures |histogram| == 256
    ensures forall v :: 0 <= v < 256 ==> histogram[v] == Count(Luminances(imageArray, lum), v)
    ensures Sum(histogram) == |Luminances(imageArray, lum)|
  {
    histogram := seq(256, _ => 0);
    ghost var seen: seq<Level> := [];
    SumZeros(histogram);
    for i := 0 to |imageArray|
      invariant |histogram| == 256
      invariant seen == Luminances(imageArray[..i], lum)
      invariant forall v :: 0 <= v < 256 ==> histogram[v] == Count(seen, v)
      invariant Sum(histogram) == |seen|
    {
      var row := imageArray[i];
      assert imageArray[..i + 1][..i] == imageArray[..i];
      for j := 0 to |row|
        invariant |histogram| == 256
        invariant seen == Luminances(imageArray[..i], lum) + RowLuminances(row[..j], lum)
        invariant forall v :: 0 <= v < 256 ==> histogram[v] == Count(seen, v)
        invariant Sum(histogram) == |seen|
      {
        var luminanceP := lum(row[j]);
        SumUpdate(histogram, luminanceP, 1);
        histogram := histogram[luminanceP := histogram[luminanceP] + 1];
        assert RowLuminances(row[..j + 1], lum) == RowLuminances(row[..j], lum) + [luminanceP];
        forall v | 0 <= v < 256
          ensures Count(seen + [luminanceP], v) == Count(seen, v) + (if luminanceP == v then 1 else 0)
        {
          CountAppend(seen, luminanceP, v);
        }
        seen := seen + [luminanceP];
      }
      assert row[..|row|] == row;
    }
    assert imageArray[..|imageArray|] == imageArray;
  }

  /**
   * `cumulativeHistogram`: starts from the first count and appends, for each later level,
   * its count plus the previous running total. Reads the first 256 entries of its input.
   */
  method CumulativeHistogram(nHistogram: seq<int>) returns (cHistogram: seq<int>)
    requires |nHistogram| >= 256
    ensures |cHistogram| == 256
    ensures cHistogram[0] == nHistogram[0]
    ensures forall i :: 1 <= i < 256 ==> cHistogram[i] == nHistogram[i] + cHistogram[i - 1]
    ensures forall i :: 0 <= i < 256 ==> cHistogram[i] == Sum(nHistogram[..i + 1])
    ensures (forall k :: 0 <= k < 256 ==> nHistogram[k] >= 0) ==>
      forall a, b :: 0 <= a <= b < 256 ==> cHistogram[a] <= cHistogram[b]
  {
    assert nHistogram[..1][..0] == [];
    cHistogram := [nHistogram[0]];
    for i := 1 to 256
      invariant |cHistogram| == i
      invariant cHistogram[0] == nHistogram[0]
      invariant forall k :: 1 <= k < i ==> cHistogram[k] == nHistogram[k] + cHistogram[k - 1]
      invariant forall k :: 0 <= k < i ==> cHistogram[k] == Sum(nHistogram[..k + 1])
    {
      assert nHistogram[..i + 1][..i] == nHistogram[..i];
      cHistogram := cHistogram + [nHistogram[i] + cHistogram[i - 1]];
    }
    if forall k :: 0 <= k < 256 ==> nHistogram[k] >= 0 {
      forall a, b | 0 <= a <= b < 256
        ensures cHistogram[a] <= cHistogram[b]
      {
        PrefixSumsMonotone(nHistogram, a + 1, b + 1);
      }
    }
  }

  /** Over non-negative entries, a longer prefix never has a smaller sum. */
  lemma {:induction false} PrefixSumsMonotone(s: seq<int>, m: nat, n: nat)
    requires m <= n <= |s|
    requires forall k :: 0 <= k < n ==> s[k] >= 0
    ensures Sum(s[..m]) <= Sum(s[..n])
  {
    if m < n {
      assert s[..n][..n - 1] == s[..n - 1];
      PrefixSumsMonotone(s, m, n - 1);
    }
  }

  /**
   * When `histogram` counts the levels of `levels`, its running total at `v` is the
   * number of levels at most `v`.
   */
  lemma {:induction false} PrefixSumCountsAtMost(levels: seq<Level>, histogram: seq<int>, v: int)
    requires |histogram| >= 256 && 0 <= v < 256
    requires forall u :: 0 <= u < 256 ==> histogram[u] == Count(levels, u)
    ensures Sum(histogram[..v + 1]) == CountAtMost(levels, v)
  {
    CountAtMostStep(levels, v);
    assert histogram[..v + 1][..v] == histogram[..v];
    if v == 0 {
      CountAtMostNegative(levels);
    } else {
      PrefixSumCountsAtMost(levels, histogram, v - 1);
    }
  }
}
