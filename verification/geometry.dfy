/** Stage one of the render: the size the source image is resampled to.
    The width is the requested one; the height keeps the source's aspect
    ratio, and every mode except the two block-colour modes squashes it
    further to 55% because a text cell is taller than it is wide. */
module Geometry {

  datatype Size = Size(width: nat, height: nat)

  /** The outcome of the resize step: a target size, or the failure that
      makes the whole render answer with an error message. */
  datatype Resized = Resized(size: Size) | ResizeError

  /** The block-colour modes draw one block per pixel (or pixel pair) and
      skip the 0.55 squash. */
  predicate BlockMode(mode: string) {
    mode == "subpixel" || mode == "solid"
  }

  /** The source height scaled by `width / srcW`, rounded down. */
  function ScaledHeight(srcW: nat, srcH: nat, width: nat): (h: nat)
    requires srcW >= 1
    ensures srcW * h <= srcH * width < srcW * (h + 1)
  {
    srcH * width / srcW
  }

  /** `h * 0.55` truncated to an integer. */
  function Squashed(h: nat): (s: nat)
    ensures 100 * s <= 55 * h < 100 * (s + 1)
    ensures s <= h
  {
    h * 55 / 100
  }

  /** The height the image is resampled to for a mode. */
  function TargetHeight(srcW: nat, srcH: nat, width: nat, mode: string): (h: nat)
    requires srcW >= 1
    ensures BlockMode(mode) ==> srcW * h <= srcH * width < srcW * (h + 1)
    ensures !BlockMode(mode) ==> 100 * h <= 55 * ScaledHeight(srcW, srcH, width) < 100 * (h + 1)
  {
    var h := ScaledHeight(srcW, srcH, width);
    if BlockMode(mode) then h else Squashed(h)
  }

  /** The resize fails for a source of width zero (the scale factor divides
      by it) and for a target side below one pixel, which the image library
      refuses; otherwise the width is exactly the requested one. */
  function TargetSize(srcW: nat, srcH: nat, width: int, mode: string): (r: Resized)
    ensures srcW == 0 || width < 1 ==> r == ResizeError
    ensures srcW >= 1 && width >= 1 ==>
              (r.Resized? <==> TargetHeight(srcW, srcH, width, mode) >= 1)
    ensures r.Resized? ==>
              srcW >= 1 && width >= 1 && r.size == Size(width, TargetHeight(srcW, srcH, width, mode))
  {
    if srcW == 0 || width < 1 then ResizeError
    else
      var h := TargetHeight(srcW, srcH, width, mode);
      if h < 1 then ResizeError else Resized(Size(width, h))
  }

  /** The text modes never come out taller than the block modes for the
      same source and width. */
  lemma TextModesShorter(srcW: nat, srcH: nat, width: nat, text: string, block: string)
    requires srcW >= 1 && !BlockMode(text) && BlockMode(block)
    ensures TargetHeight(srcW, srcH, width, text) <= TargetHeight(srcW, srcH, width, block)
  {
  }

  /** Under the exact rounded-down height of this model, a source at least
      as tall as it is wide keeps at least the requested width in block
      modes, so it never fails to resize there. */
  lemma TallSourceResizes(srcW: nat, srcH: nat, width: int, mode: string)
    requires 1 <= srcW <= srcH && width >= 1 && BlockMode(mode)
    ensures TargetSize(srcW, srcH, width, mode).Resized?
    ensures TargetSize(srcW, srcH, width, mode).size.height >= width
  {
    var h := TargetHeight(srcW, srcH, width, mode);
    MulMonotone(srcW, srcH, width);
    if h < width {
      MulMonotone(h + 1, width, srcW);
      assert false;
    }
  }

  lemma MulMonotone(a: nat, b: nat, c: nat)
    requires a <= b
    ensures a * c <= b * c && c * a <= c * b
  {
    assert b * c == a * c + (b - a) * c;
  }
}
