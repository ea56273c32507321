/**
 * The geometric transforms of ImageShop: flips, rotations and the transpose they
 * are built on. Pixels play no part here, so every operation is generic in the pixel type.
 */
module Geometry {
  import opened Images

  /**
   * `transpose`: row `i` of the result collects column `i` of `lists`. The comprehension
   * reads `lists[0]` for the width, so it needs a row, and every row at least as long as it.
   */
  function Transpose<T>(lists: seq<seq<T>>): (r: seq<seq<T>>)
    requires |lists| >= 1
    requires forall j :: 0 <= j < |lists| ==> |lists[0]| <= |lists[j]|
    ensures |r| == |lists[0]|
    ensures forall i :: 0 <= i < |r| ==> |r[i]| == |lists|
    ensures forall i, j :: 0 <= i < |r| && 0 <= j < |lists| ==> r[i][j] == lists[j][i]
  {
    seq(|lists[0]|, i requires 0 <= i < |lists[0]| =>
      seq(|lists|, j requires 0 <= j < |lists| => lists[j][i]))
  }

  /** Transposing a rectangular array with at least one column twice gives it back. */
  lemma TransposeInvolution<T>(g: seq<seq<T>>)
    requires |g| >= 1 && Width(g) >= 1 && Rectangular(g)
    ensures Transpose(Transpose(g)) == g
  {
    var t := Transpose(g);
    var tt := Transpose(t);
    assert |tt| == |g|;
    forall j | 0 <= j < |g|
      ensures tt[j] == g[j]
    {
      assert |tt[j]| == |g[j]|;
    }
  }

  /** `flipVertical`: the rows in reverse order (`array[::-1]`), each row untouched. */
  function FlipVertical<T>(image: seq<seq<T>>): (r: seq<seq<T>>)
    ensures |r| == |image|
    ensures forall k :: 0 <= k < |image| ==> r[k] == image[|image| - 1 - k]
    ensures Rectangular(image) ==> Rectangular(r) && Width(r) == Width(image)
  {
    Reverse(image)
  }

  /** Flipping vertically twice gives back the original array. */
  lemma FlipVerticalInvolution<T>(image: seq<seq<T>>)
    ensures FlipVertical(FlipVertical(image)) == image
  {
  }

  /** Every row reversed: the pixel array once `flipHorizontal` has reversed each row. */
  function Mirrored<T>(image: seq<seq<T>>): (r: seq<seq<T>>)
    ensures |r| == |image|
    ensures forall k :: 0 <= k < |image| ==> |r[k]| == |image[k]|
    ensures forall k, c :: 0 <= k < |image| && 0 <= c < |image[k]| ==>
      r[k][c] == image[k][|image[k]| - 1 - c]
  {
    seq(|image|, k requires 0 <= k < |image| => Reverse(image[k]))
  }

  /** Mirroring twice gives back the original array. */
  lemma MirroredInvolution<T>(image: seq<seq<T>>)
    ensures Mirrored(Mirrored(image)) == image
  {
    var m := Mirrored(Mirrored(image));
    forall k | 0 <= k < |image|
      ensures m[k] == image[k]
    {
      assert |m[k]| == |image[k]|;
    }
  }

  /** `flipHorizontal`: reverses every row of the image's pixel array in place. */
  method FlipHorizontal<T>(image: seq<seq<T>>) returns (result: seq<seq<T>>)
    ensures |result| == |image|
    ensures forall r :: 0 <= r < |image| ==> |result[r]| == |image[r]|
    ensures forall r, c :: 0 <= r < |image| && 0 <= c < |image[r]| ==>
      result[r][c] == image[r][|image[r]| - 1 - c]
    ensures result == Mirrored(image)
  {
    var grid := image;
    for r := 0 to |grid|
      invariant |grid| == |image|
      invariant forall k :: 0 <= k < r ==> grid[k] == Reverse(image[k])
      invariant forall k :: r <= k < |image| ==> grid[k] == image[k]
    {
      grid := grid[r := Reverse(grid[r])];
    }
    result := grid;
  }

  /**
   * The image turned a quarter turn anticlockwise: the transpose of the mirrored array.
   * Width and height swap; column `W-1-i` of the image becomes row `i`.
   */
  function RotatedLeft<T>(image: seq<seq<T>>): (r: seq<seq<T>>)
    requires |image| >= 1 && Rectangular(image)
    ensures |r| == Width(image) && Rectangular(r)
    ensures |r| >= 1 ==> Width(r) == |image|
    ensures forall i :: 0 <= i < |r| ==> |r[i]| == |image|
    ensures forall i, j :: 0 <= i < |r| && 0 <= j < |image| ==>
      r[i][j] == image[j][Width(image) - 1 - i]
  {
    Transpose(Mirrored(image))
  }

  /**
   * The image turned a quarter turn clockwise: the transposed array with every row reversed.
   * Width and height swap; row `H-1-j` of the image becomes column `j`.
   */
  function RotatedRight<T>(image: seq<seq<T>>): (r: seq<seq<T>>)
    requires |image| >= 1 && Rectangular(image)
    ensures |r| == Width(image) && Rectangular(r)
    ensures |r| >= 1 ==> Width(r) == |image|
    ensures forall i :: 0 <= i < |r| ==> |r[i]| == |image|
    ensures forall i, j :: 0 <= i < |r| && 0 <= j < |image| ==>
      r[i][j] == image[|image| - 1 - j][i]
  {
    Mirrored(Transpose(image))
  }

  /** `rotateLeft`: reverses every row in place, then transposes. */
  method RotateLeft<T>(image: seq<seq<T>>) returns (result: seq<seq<T>>)
    requires |image| >= 1 && Rectangular(image)
    ensures result == RotatedLeft(image)
  {
    var grid := image;
    for r := 0 to |grid|
      invariant |grid| == |image|
      invariant forall k :: 0 <= k < r ==> grid[k] == Reverse(image[k])
      invariant forall k :: r <= k < |image| ==> grid[k] == image[k]
    {
      grid := grid[r := Reverse(grid[r])];
    }
    assert grid == Mirrored(image);
    result := Transpose(grid);
  }

  /** `rotateRight`: transposes, then reverses every row of the result in place. */
  method RotateRight<T>(image: seq<seq<T>>) returns (result: seq<seq<T>>)
    requires |image| >= 1 && Rectangular(image)
    ensures result == RotatedRight(image)
  {
    var resultArray := Transpose(image);
    ghost var transposed := resultArray;
    for r := 0 to |resultArray|
      invariant |resultArray| == |transposed|
      invariant forall k :: 0 <= k < r ==> resultArray[k] == Reverse(transposed[k])
      invariant forall k :: r <= k < |transposed| ==> resultArray[k] == transposed[k]
    {
      resultArray := resultArray[r := Reverse(resultArray[r])];
    }
    result := resultArray;
  }

  /** Turning right undoes turning left, for an image with at least one row and one column. */
  lemma RotateRightUndoesLeft<T>(image: seq<seq<T>>)
    requires |image| >= 1 && Width(image) >= 1 && Rectangular(image)
    ensures RotatedRight(RotatedLeft(image)) == image
  {
    var back := RotatedRight(RotatedLeft(image));
    forall j | 0 <= j < |image|
      ensures back[j] == image[j]
    {
      assert |back[j]| == |image[j]|;
    }
  }

  /** Turning left undoes turning right, for an image with at least one row and one column. */
  lemma RotateLeftUndoesRight<T>(image: seq<seq<T>>)
    requires |image| >= 1 && Width(image) >= 1 && Rectangular(image)
    ensures RotatedLeft(RotatedRight(image)) == image
  {
    var back := RotatedLeft(RotatedRight(image));
    forall j | 0 <= j < |image|
      ensures back[j] == image[j]
    {
      assert |back[j]| == |image[j]|;
    }
  }

  /** `h` is `image` turned half a turn: same dimensions, rows and columns both reversed. */
  ghost predicate IsHalfTurn<T>(image: seq<seq<T>>, h: seq<seq<T>>)
    requires Rectangular(image)
  {
    && |h| == |image| && Rectangular(h) && Width(h) == Width(image)
    && forall i, j :: 0 <= i < |image| && 0 <= j < Width(image) ==>
         h[i][j] == image[|image| - 1 - i][Width(image) - 1 - j]
  }

  /** Two left turns make a half turn. */
  lemma RotatedLeftTwice<T>(image: seq<seq<T>>)
    requires |image| >= 1 && Width(image) >= 1 && Rectangular(image)
    ensures IsHalfTurn(image, RotatedLeft(RotatedLeft(image)))
  {
  }

  /** Two half turns give back the original array. */
  lemma {:induction false} HalfTurnTwice<T>(image: seq<seq<T>>, half: seq<seq<T>>, full: seq<seq<T>>)
    requires Rectangular(image) && IsHalfTurn(image, half) && IsHalfTurn(half, full)
    ensures full == image
  {
    var h, w := |image|, Width(image);
    forall i | 0 <= i < h
      ensures full[i] == image[i]
    {
      forall j | 0 <= j < w
        ensures full[i][j] == image[i][j]
      {
        assert full[i][j] == half[h - 1 - i][w - 1 - j];
      }
      assert |full[i]| == |image[i]|;
    }
  }

  /** Four left turns give back the original image. */
  lemma RotateLeftFourTimes<T>(image: seq<seq<T>>)
    requires |image| >= 1 && Width(image) >= 1 && Rectangular(image)
    ensures RotatedLeft(RotatedLeft(RotatedLeft(RotatedLeft(image)))) == image
  {
    RotatedLeftTwice(image);
    var half := RotatedLeft(RotatedLeft(image));
    RotatedLeftTwice(half);
    HalfTurnTwice(image, half, RotatedLeft(RotatedLeft(half)));
  }
}
