# TextCanvas `process_image` in Dafny

TextCanvas turns an uploaded picture into text art. Its core is
`process_image` in `app.py`. It takes a decoded image and the user's
settings and returns two strings:

- HTML markup made of styled `<span>` cells and `<br>` row breaks;
- raw text made of glyphs and newlines, filled only by the glyph-ramp modes.

The call runs in four stages:

1. **Resize.** The image is resized to the requested width. The height
   keeps the aspect ratio and is squashed to 55% except in the block modes
   `subpixel` and `solid`. A failure returns `("Error resizing", "")`.
2. **Tone.** Contrast, brightness or edge detection is applied by the image
   library.
3. **Dither gate.** The image is quantised to black and white only when the
   flag is exactly `"true"` and the mode is not `subpixel`, `solid` or
   `ascii_color`.
4. **Dispatch.** One of four rendering branches runs:
   - half-block pixel pairs (`subpixel`);
   - full blocks (`solid`);
   - a luminance-gated random glyph rain (`matrix`);
   - a luminance-bucketed character ramp (every other mode).

The project has one module per concern:

- `Pixels` (`pixels.dfy`): the resampled bitmap, as a row-major RGB grid
  plus the same grid in luminance.
- `Geometry` (`geometry.dfy`): the target size and when the resize fails.
- `Charsets` (`charsets.dfy`):
  - the `CHAR_SETS` ramps and how a mode picks one;
  - the luminance bucket, with its range and monotonicity;
  - the `<`/`>` escaping.
- `Styles` (`styles.dfy`):
  - the inline CSS of each mode and the colour-override rule;
  - Python's integer and two-decimal opacity text.
- `Markup` (`markup.dfy`):
  - the output as a sequence of pieces (`Break` or `Cell(style, glyph)`), with `Html` and `Text` as its two renderings;
  - the two row layouts: breaks *between* rows (matrix and ramp) and a break *after* every row (subpixel and solid);
  - counting lemmas for both layouts.
- `Render` (`render.dfy`):
  - each branch as a method with the loops of the source;
  - each method proved to build exactly the markup (and raw text) of its specification function;
  - layout lemmas about those functions.
- `Pipeline` (`pipeline.dfy`):
  - `ProcessImage`, proved equal to the specification `Output`;
  - lemmas relating outputs across settings (override, dither flag, error message);
  - two worked examples.

The image library's results enter as inputs:

- `toned` is the resized and tone-adjusted bitmap;
- `quantized` is its black-and-white version;
- `pick` holds one glyph index per pixel in place of `random.choice`.

Both bitmaps must have the computed target size (`Pipeline.Supplied`).

The opacity `round(val / 255, 2)` (app.py:103) is modelled exactly, as a
count of hundredths `(200 * val + 255) / 510`. The exact quotient
`val / 255` is never half-way between two hundredths: `200 * val` is even
and `255 * (2k + 1)` is odd. So rounding to nearest is never ambiguous.
Python prints the result in its shortest form (`1.0`, `0.5`, `0.47`,
`0.05`), which is what `AlphaText` produces.

The ramp index `int((val / 255) * (n - 1))` is modelled as the exact floor
`val * (n - 1) / 255`. For the ramp lengths used (at most 22) the float
product never lands below an integer it should reach. The squash
`int(h * 0.55)` is modelled as `h * 55 / 100`. These agree for every
scaled height below 100000.

A white 2 x 2 source rendered 2 characters wide with the standard ramp
comes out as ONE row of two spaces, with no line break. The scaled height
2 is squashed to `int(2 * 0.55) = 1`
(`Pipeline.WhiteSquareStandard`). A two-row answer would need the block
modes' unsquashed height.

## Model

| member | source | states |
|---|---|---|
| Charsets.Ramp | app.py:119-122 | dots, line and binary force their own ramp; any other mode uses the ramp named by the charset key, or the standard ramp when the key names none; every ramp has at least 3 glyphs and is one of `CHAR_SETS` |
| Charsets.RampIndex | app.py:133 | the bucket is the floor of `val * (n - 1) / 255`: `255k <= val(n-1) < 255(k+1)` and `k < n`, so it always indexes the ramp |
| Charsets.RampIndexMonotone | app.py:133 | a brighter pixel never selects an earlier glyph |
| Charsets.RampIndexEnds | app.py:133 | luminance 0 selects the first glyph and 255 the last |
| Charsets.Escape | app.py:148-149 | `<` becomes `&lt;`, `>` becomes `&gt;`, anything else is kept; the result never contains `<` or `>` |
| Charsets.EscapeInjective | app.py:148-149 | escaping maps distinct glyphs to distinct strings |
| Charsets.OnlyLineRampEscapes | app.py:13-20 | of the six ramps, exactly the line ramp holds a glyph that escaping changes |
| Geometry.ScaledHeight | app.py:31-32 | the proportional height is the floor of `srcH * width / srcW` |
| Geometry.Squashed | app.py:34-35 | the text-mode squash is the floor of `0.55 h` and never exceeds `h` |
| Geometry.TargetHeight | app.py:31-35 | block modes keep the proportional height; all other modes take the floor of 0.55 times it |
| Geometry.TargetSize | app.py:30-37 | a zero source width or a non-positive requested width fails; otherwise the resize succeeds exactly when the computed height is at least 1, and the size is (requested width, computed height) |
| Geometry.TextModesShorter | app.py:33-35 | for the same source and width a text mode is never taller than a block mode |
| Geometry.TallSourceResizes | app.py:31-36 | under the exact rounded-down height, in block modes a source at least as tall as wide always resizes, to a height of at least the requested width |
| Styles.Decimal | app.py:81 | integers are written as non-empty digit strings without leading zeros |
| Styles.DecimalRoundTrip | app.py:81 | reading the decimal text back gives the number |
| Styles.RgbText | app.py:81 | a pixel's colour is written `rgb(r,g,b)` with each channel in decimal (its decoding property is `Styles.RgbTextPrefixFree`) |
| Styles.RgbTextPrefixFree | app.py:81 | a colour text is never a proper prefix of another: whatever follows it, the colour and the rest can be read back |
| Styles.SubpixelStyle | app.py:81 | the half-block style takes its foreground from the top pixel and its background from the bottom one, with no override (its decoding property is `Styles.SubpixelStyleInjective`) |
| Styles.SubpixelStyleInjective | app.py:81 | both pixels of a half-block cell can be read back from its style: equal styles mean equal pixel pairs |
| Styles.OverrideActive | app.py:91 | a colour override applies exactly when it is non-empty and not the placeholder `#ffffff`; the same test appears at app.py lines 105 and 140 |
| Styles.SolidStyle | app.py:91 | an active override gives `color:<hex>;`, otherwise the pixel's `color:rgb(r,g,b);` |
| Styles.RampStyle | app.py:136-145 | `ascii_color` always takes the pixel colour; other ramp modes take an active override, else an empty style |
| Styles.HasSubstring | app.py:106 | Python's `sub in s` on strings: true exactly when `sub` occurs at some position |
| Styles.AlphaHundredths | app.py:103 | the opacity in hundredths is `val / 255` rounded to nearest (at most 100) |
| Styles.AlphaText | app.py:103 | the opacity text is Python's shortest form: `d.d` or `d.dd`, digits everywhere but the point, no trailing zero in a fourth character, and a leading `1` exactly for full opacity |
| Styles.AlphaTextRoundTrip | app.py:103 | the opacity text reads back as the hundredths it was made from |
| Styles.MatrixStyle | app.py:104-111 | an active override containing `#` and not `rgba` is used with an `opacity` property; everything else falls back to `rgba(0, 255, 70, alpha)` |
| Markup.Span | app.py:82 | one cell is written `<span style="STYLE">GLYPH</span>`; the same format is used at app.py lines 92, 113, 115 and 151 (its decoding property is `Markup.SpanFields`) |
| Markup.SpanFields | app.py:82 | a span is 22 characters longer than its style and glyph, and both sit at fixed offsets, so both can be read back |
| Markup.TerminatedFrom | app.py:83 | every piece of rows each closed by a break is a break or a piece of one of the rows |
| Markup.EnumeratedIsJoined | app.py:128-131 | the flat pixel walk that breaks before every index `i` with `i % width == 0 and i != 0` produces the rows of `width` cells joined by single breaks |
| Markup.EnumeratedLayout | app.py:99-100 | a walk over `width * height` cells has `width * height` cells and `height - 1` breaks, laid out as rows joined by breaks |
| Markup.TerminatedCounts | app.py:83 | rows each followed by a break have one break per row |
| Markup.HtmlStartsWithTag | app.py:151 | rendered markup is empty or opens with `<` |
| Render.SubpixelPieces | app.py:69-83 | every cell the subpixel branch writes is a half block `▀` |
| Render.SubpixelLayout | app.py:71-83 | the subpixel markup has `width * (height / 2)` cells and `height / 2` breaks |
| Render.SubpixelEmpty | app.py:71 | a one-row image gives empty subpixel markup; any taller image gives some |
| Render.SubpixelCellAt | app.py:74-82 | cell `x` of output row `k` is a half block coloured by pixel (x, 2k) in front and pixel (x, 2k+1) behind |
| Render.SubpixelCellHtml | app.py:81-82 | the span written for one pixel pair |
| Render.RenderSubpixel | app.py:69-83 | the loop over row pairs builds exactly the subpixel markup; raw text stays empty |
| Render.RenderSubpixelLine | app.py:72-82 | the inner loop builds exactly the markup of one row pair |
| Render.SolidPieces | app.py:85-93 | every cell the solid branch writes is a full block `█` |
| Render.SolidLayout | app.py:86-93 | the solid markup has `width * height` cells and `height` breaks, one closing each row |
| Render.SolidCellHtml | app.py:89-92 | the span written for one pixel |
| Render.RenderSolid | app.py:85-93 | the loop over rows builds exactly the solid markup; raw text stays empty |
| Render.RenderSolidLine | app.py:87-92 | the inner loop builds exactly the markup of one row |
| Render.MatrixPieces | app.py:95-115 | every cell the matrix branch writes is the blank cell or a single glyph of the matrix set |
| Render.MatrixLayout | app.py:99-100 | the matrix markup has `width * height` cells and `height - 1` breaks, only between rows |
| Render.MatrixCellContent | app.py:101-115 | a pixel of luminance at most 30 becomes the blank cell; a brighter one becomes a span around a single glyph of the matrix set |
| Render.MatrixCellAt | app.py:99-115 | cell `x` of grid row `y` is the cell for pixel `width * y + x`, the pixel at column `x` of row `y` |
| Render.DarkCellHtml | app.py:115 | the blank cell is exactly `<span style="color:black">&nbsp;</span>` |
| Render.MatrixCellHtml | app.py:101-115 | the span written for one matrix pixel |
| Render.RenderMatrix | app.py:95-115 | the walk over the luminance pixels builds exactly the matrix markup; raw text stays empty |
| Render.RampPieces | app.py:117-152 | every cell a ramp mode writes holds one character of its ramp, escaped |
| Render.RampLayout | app.py:128-131 | ramp output has `width * height` glyph cells and `height - 1` breaks (newlines in the raw text), only between rows |
| Render.RampCellAt | app.py:128-145 | cell `x` of grid row `y` is styled from the pixel at column `x` of row `y` and holds the ramp character for that pixel's luminance |
| Render.RampGlyphsEscaped | app.py:147-152 | no glyph in ramp output contains `<` or `>` |
| Render.RampCellOutput | app.py:133-152 | one pixel's span carries the mode's style and the escaped bucket glyph; the raw text gets the same escaped glyph |
| Render.RenderRamp | app.py:117-152 | the walk over the pixels builds exactly the ramp markup and raw text |
| Pipeline.DitherApplies | app.py:56-58 | the image is quantised only when the flag is exactly `"true"` and the mode is not `subpixel`, `solid` or `ascii_color` |
| Pipeline.Sampled | app.py:56-62 | the branches read the quantised bitmap for the flag `"true"` in a mode without true colour, and the toned bitmap for any other flag or for `subpixel`, `solid` and `ascii_color` |
| Pipeline.Output | app.py:28-154 | a failed resize gives exactly `("Error resizing", "")`; subpixel, solid and matrix never write raw text |
| Pipeline.ProcessImage | app.py:28-154 | the whole call returns the specified markup and raw text for every request, including `("Error resizing", "")` when the resize fails |
| Pipeline.ErrorExactlyOnResizeFailure | app.py:30-37 | the markup is the error message exactly when the resize fails, and the raw text is then empty |
| Pipeline.PlaceholderIsNoOverride | app.py:91 | the override `#ffffff` gives the same output as no override, in every mode |
| Pipeline.InactiveOverridesAgree | app.py:105 | two inactive overrides give identical solid, matrix and ramp pieces |
| Pipeline.SolidRowsAgree | app.py:91 | two inactive overrides give identical solid rows |
| Pipeline.RampCellsAgree | app.py:136-145 | two inactive overrides, or any two in `ascii_color`, give identical ramp cells |
| Pipeline.OverrideIgnoredByTrueColourModes | app.py:136-139 | subpixel and `ascii_color` output does not depend on the override |
| Pipeline.DitherIgnoredByTrueColourModes | app.py:56-62 | subpixel, solid and `ascii_color` output does not depend on the dither flag |
| Pipeline.OnlyTrueDithers | app.py:56 | any flag other than `"true"` behaves like `"false"` |
| Pipeline.DitheredRampUsesEnds | app.py:58-60 | on a dithered image a ramp mode writes only the ramp's first and last glyph |
| Pipeline.DitheredMatrixIsBinary | app.py:101-111 | on a dithered image every matrix cell is blank or a glyph at the opacity of white |
| Pipeline.WhiteIsOpaque | app.py:103 | luminance 255 is written with opacity `1.0` |
| Pipeline.BlackOverWhiteStyle | app.py:81 | the style of a black-over-white pair, character for character |
| Pipeline.BlackOverWhitePieces | app.py:69-83 | a 1 x 2 black-over-white bitmap makes one half-block cell and one break |
| Pipeline.SubpixelBlackOverWhite | app.py:28-83 | a 1 x 2 black-over-white source at width 1 in subpixel mode renders one half block, black on white, then `<br>` |
| Pipeline.WhitePairPieces | app.py:128-152 | two white pixels in the standard ramp make two unstyled space cells |
| Pipeline.WhiteSquareStandard | app.py:28-152 | a white 2 x 2 source at width 2 in standard mode resizes to 2 x 1 and renders two unstyled spaces, with raw text two spaces |

## Left out

- Resampling, the tone transforms (contrast, brightness, edge detection, inversion), the grey conversion and the 1-bit quantisation belong to the image library. Their results are inputs: a `toned` bitmap and a black-and-white `quantized` bitmap of the target size, each with its luminance view. Contrast and brightness are therefore not fields of `Pipeline.Request`. That the tone stage swallows its own errors is not modelled.
- Geometry.ScaledHeight: computes the exact floor. The source computes `int(srcH * (width / srcW))` in floating point, which can fall one short; for example width 1 on a 49 x 49 source gives 0.
- Geometry.TallSourceResizes: holds only for the exact rounded-down height of this model. The source's floating-point product can fall short: a 49 x 49 source at width 1 fails to resize, and an 11 x 11 source at width 15 gets height 14.
- Geometry.TargetSize: treats a target side below 1 as a resize failure. This is the image library's refusal of empty sizes, taken as given.
- `random.choice` in the matrix mode is an injected sequence `pick` of glyph indices, one per pixel. The sequence is consulted only for bright pixels.
- The Flask routes, template rendering, the URL fetch and form parsing of the API endpoint, and the stub batch download are not part of this model. They are web and I/O plumbing around `process_image`.
- Calling the render twice with the same inputs gives the same output. This holds by construction, since `Output` is a function, and is not stated as a separate lemma.
