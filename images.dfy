/** Pixels and pixel arrays shared by every image operation of ImageShop. */
module Images {

  /** An 8-bit intensity: the value of one colour channel, or a luminance. */
  type Level = x: int | 0 <= x < 256

  /** A colour pixel as the image library unpacks it: red, green and blue channels. */
  datatype Pixel = Pixel(red: Level, green: Level, blue: Level)

  /** The pixel the image library builds from three equal channels (`createRGBPixel(v, v, v)`). */
  function Gray(v: Level): (p: Pixel)
    ensures p.red == v && p.green == v && p.blue == v
  {
    Pixel(v, v, v)
  }

  /** Width of a pixel array: the length of its first row, 0 when it has no rows. */
  function Width<T>(g: seq<seq<T>>): nat {
    if |g| == 0 then 0 else |g[0]|
  }

  /** The pixel array of an image is rectangular: every row is as long as the first. */
  ghost predicate Rectangular<T>(g: seq<seq<T>>) {
    forall r :: 0 <= r < |g| ==> |g[r]| == Width(g)
  }

  /** The elements of `s` in the opposite order: Python's `list.reverse()` and `s[::-1]`. */
  function Reverse<T>(s: seq<T>): (r: seq<T>)
    ensures |r| == |s|
    ensures forall k :: 0 <= k < |s| ==> r[k] == s[|s| - 1 - k]
  {
    if |s| == 0 then [] else [s[|s| - 1]] + Reverse(s[..|s| - 1])
  }
}
