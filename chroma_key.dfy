/**
 * The green-screen compositor: over the region where the main image and the
 * foreground image overlap, a foreground pixel replaces the main pixel when its
 * green channel is below twice the larger of its blue and red channels.
 */
module ChromaKey {
  import opened Images

  function Max(a: int, b: int): int {
    if a >= b then a else b
  }

  function Min(a: int, b: int): int {
    if a <= b then a else b
  }

  /** The test applied to each foreground pixel: green below twice the larger of blue and red. */
  predicate Replaces(pixel: Pixel)
    ensures Replaces(pixel) <==> pixel.green < 2 * pixel.blue || pixel.green < 2 * pixel.red
  {
    pixel.green < 2 * Max(pixel.blue, pixel.red)
  }

  /** The composite image, cell by cell: the specification of `GreenScreen`. */
  function Composite(mainImage: seq<seq<Pixel>>, greenImage: seq<seq<Pixel>>): (r: seq<seq<Pixel>>)
    requires Rectangular(greenImage)
    ensures |r| == |mainImage| && forall i :: 0 <= i < |mainImage| ==> |r[i]| == |mainImage[i]|
    ensures forall i, j ::
      (0 <= i < |mainImage| && 0 <= j < |mainImage[i]| && !(i < |greenImage| && j < Width(greenImage)))
      ==> r[i][j] == mainImage[i][j]
    ensures forall i, j ::
      (0 <= i < |mainImage| && 0 <= j < |mainImage[i]| && i < |greenImage| && j < Width(greenImage))
      ==> (Replaces(greenImage[i][j]) ==> r[i][j] == greenImage[i][j])
          && (!Replaces(greenImage[i][j]) ==> r[i][j] == mainImage[i][j])
  {
    seq(|mainImage|, i requires 0 <= i < |mainImage| =>
      seq(|mainImage[i]|, j requires 0 <= j < |mainImage[i]| =>
        if i < |greenImage| && j < Width(greenImage) && Replaces(greenImage[i][j])
        then greenImage[i][j] else mainImage[i][j]))
  }

  /** Compositing the same foreground a second time changes nothing more. */
  lemma CompositeIdempotent(mainImage: seq<seq<Pixel>>, greenImage: seq<seq<Pixel>>)
    requires Rectangular(greenImage)
    ensures Composite(Composite(mainImage, greenImage), greenImage) == Composite(mainImage, greenImage)
  {
    var once := Composite(mainImage, greenImage);
    var twice := Composite(once, greenImage);
    forall i | 0 <= i < |mainImage|
      ensures twice[i] == once[i]
    {
      assert |twice[i]| == |once[i]|;
    }
  }

  /**
   * `GreenScreen`: walks the rows and columns both images have and overwrites
   * each main pixel whose foreground pixel passes the test.
   */
  method GreenScreen(mainImage: seq<seq<Pixel>>, greenImage: seq<seq<Pixel>>) returns (result: seq<seq<Pixel>>)
    requires Rectangular(mainImage) && Rectangular(greenImage)
    ensures |result| == |mainImage| && Rectangular(result) && Width(result) == Width(mainImage)
    ensures forall i, j ::
      (0 <= i < |mainImage| && 0 <= j < Width(mainImage) && !(i < |greenImage| && j < Width(greenImage)))
      ==> result[i][j] == mainImage[i][j]
    ensures forall i, j ::
      (0 <= i < |mainImage| && 0 <= j < Width(mainImage) && i < |greenImage| && j < Width(greenImage))
      ==> result[i][j] == if Replaces(greenImage[i][j]) then greenImage[i][j] else mainImage[i][j]
    ensures result == Composite(mainImage, greenImage)
  {
    var mainArray := mainImage;
    var greenArray := greenImage;
    for i := 0 to Min(|greenArray|, |mainArray|)
      invariant |mainArray| == |mainImage| && Rectangular(mainArray) && Width(mainArray) == Width(mainImage)
      invariant forall r :: 0 <= r < i ==> mainArray[r] == Composite(mainImage, greenImage)[r]
      invariant forall r :: i <= r < |mainImage| ==> mainArray[r] == mainImage[r]
    {
      for j := 0 to Min(|greenArray[0]|, |mainArray[0]|)
        invariant |mainArray| == |mainImage| && Rectangular(mainArray) && Width(mainArray) == Width(mainImage)
        invariant forall r :: 0 <= r < i ==> mainArray[r] == Composite(mainImage, greenImage)[r]
        invariant forall r :: i < r < |mainImage| ==> mainArray[r] == mainImage[r]
        invariant forall c :: 0 <= c < j ==> mainArray[i][c] == Composite(mainImage, greenImage)[i][c]
        invariant forall c :: j <= c < Width(mainImage) ==> mainArray[i][c] == mainImage[i][c]
      {
        var pixel := greenArray[i][j];
        if Replaces(pixel) {
          mainArray := mainArray[i := mainArray[i][j := pixel]];
        }
      }
      assert mainArray[i] == Composite(mainImage, greenImage)[i];
    }
    forall r | 0 <= r < |mainImage|
      ensures mainArray[r] == Composite(mainImage, greenImage)[r]
    {
      if r >= Min(|greenArray|, |mainArray|) {
        assert mainArray[r] == mainImage[r];
      }
    }
    result := mainArray;
  }
}
