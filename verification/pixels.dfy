/** The bitmap the renderer samples once the image library has resized,
    tone-adjusted and (optionally) quantised it: a row-major grid of RGB
    pixels together with the same grid in 8-bit luminance. */
module Pixels {

  type Channel = x: int | 0 <= x <= 255

  datatype Rgb = Rgb(r: Channel, g: Channel, b: Channel)

  const Black := Rgb(0, 0, 0)
  const White := Rgb(255, 255, 255)

  /** `rgb` is the RGB view and `lum` the luminance view of the same
      `width` x `height` image, both flattened row by row. */
  datatype Bitmap = Bitmap(width: nat, height: nat, rgb: seq<Rgb>, lum: seq<Channel>) {

    /** A successfully resized bitmap has both sides at least 1. */
    predicate Valid() {
      width >= 1 && height >= 1 && |rgb| == width * height && |lum| == width * height
    }

    /** The RGB pixel at column `x`, row `y`. */
    function Pixel(x: nat, y: nat): Rgb
      requires Valid() && x < width && y < height
    {
      var i := width * y + x;
      GridIndex(x, y, width, height);
      rgb[i]
    }
  }

  lemma {:induction false} GridIndex(x: nat, y: nat, w: nat, h: nat)
    requires x < w && y < h
    ensures w * y + x < w * h
    decreases h
  {
    if y < h - 1 {
      GridIndex(x, y, w, h - 1);
    }
    assert w * h == w * (h - 1) + w;
  }
}
