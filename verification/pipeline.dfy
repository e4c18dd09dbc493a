/** `process_image`: resize, tone, dither gate, then dispatch on the mode
    to one of the four rendering branches.  The image library's resampling,
    tone and colour-mode conversions are not modelled; their results are
    supplied as bitmaps of the computed target size. */
module Pipeline {
  import opened Pixels
  import opened Markup
  import opened Styles
  import opened Charsets
  import opened Geometry
  import opened Render

  /** The render settings the branches read.  Contrast and brightness only
      feed the tone transform, whose result is supplied as a bitmap. */
  datatype Request = Request(width: int, mode: string, charsetKey: string, colorHex: string, dither: string)

  const ResizeFailure := "Error resizing"

  /** The image is quantised to pure black and white only when the dither
      flag is the exact string "true" and the mode keeps no true colour. */
  predicate DitherApplies(dither: string, mode: string) {
    dither == "true" && mode != "subpixel" && mode != "solid" && mode != "ascii_color"
  }

  /** Every pixel is pure black or pure white, in both views. */
  predicate BlackWhite(img: Bitmap) {
    |img.lum| == |img.rgb| &&
    forall i | 0 <= i < |img.rgb| ::
      (img.rgb[i] == Black && img.lum[i] == 0) || (img.rgb[i] == White && img.lum[i] == 255)
  }

  predicate HasSize(img: Bitmap, size: Size) {
    img.Valid() && img.width == size.width && img.height == size.height
  }

  /** What the image library hands back once the size is known: the
      resampled and tone-adjusted bitmap, its 1-bit quantisation, and one
      random glyph choice per pixel for the matrix mode. */
  predicate Prepared(size: Size, toned: Bitmap, quantized: Bitmap, pick: seq<nat>) {
    HasSize(toned, size) && HasSize(quantized, size) && BlackWhite(quantized) && ValidPicks(toned, pick)
  }

  predicate Supplied(srcW: nat, srcH: nat, req: Request, toned: Bitmap, quantized: Bitmap, pick: seq<nat>) {
    var r := TargetSize(srcW, srcH, req.width, req.mode);
    r.Resized? ==> Prepared(r.size, toned, quantized, pick)
  }

  /** The bitmap the branches sample: the quantised one only for the flag
      "true" in a mode without true colour, the toned one otherwise. */
  function Sampled(req: Request, toned: Bitmap, quantized: Bitmap): (img: Bitmap)
    ensures req.dither != "true" ==> img == toned
    ensures req.mode in {"subpixel", "solid", "ascii_color"} ==> img == toned
    ensures req.dither == "true" && req.mode !in {"subpixel", "solid", "ascii_color"} ==> img == quantized
  {
    if DitherApplies(req.dither, req.mode) then quantized else toned
  }

  /** The markup and raw text of one render: the error message alone when
      the resize fails, and raw text only from the ramp modes. */
  function Output(srcW: nat, srcH: nat, req: Request, toned: Bitmap, quantized: Bitmap, pick: seq<nat>): (r: (string, string))
    requires Supplied(srcW, srcH, req, toned, quantized, pick)
    ensures TargetSize(srcW, srcH, req.width, req.mode) == ResizeError ==> r == (ResizeFailure, "")
    ensures req.mode in {"subpixel", "solid", "matrix"} ==> r.1 == ""
  {
    match TargetSize(srcW, srcH, req.width, req.mode)
    case ResizeError => (ResizeFailure, "")
    case Resized(_) =>
      var img := Sampled(req, toned, quantized);
      if req.mode == "subpixel" then (Html(SubpixelPieces(img)), "")
      else if req.mode == "solid" then (Html(SolidPieces(img, req.colorHex)), "")
      else if req.mode == "matrix" then (Html(MatrixPieces(img, req.colorHex, pick)), "")
      else
        var pieces := RampPieces(img, Ramp(req.mode, req.charsetKey), req.mode, req.colorHex);
        (Html(pieces), Text(pieces))
  }

  method ProcessImage(srcW: nat, srcH: nat, req: Request, toned: Bitmap, quantized: Bitmap, pick: seq<nat>)
    returns (html: string, raw: string)
    requires Supplied(srcW, srcH, req, toned, quantized, pick)
    ensures (html, raw) == Output(srcW, srcH, req, toned, quantized, pick)
  {
    var resized := TargetSize(srcW, srcH, req.width, req.mode);
    if resized.ResizeError? {
      return ResizeFailure, "";
    }
    var img := if DitherApplies(req.dither, req.mode) then quantized else toned;
    if req.mode == "subpixel" {
      html, raw := RenderSubpixel(img);
    } else if req.mode == "solid" {
      html, raw := RenderSolid(img, req.colorHex);
    } else if req.mode == "matrix" {
      html, raw := RenderMatrix(img, req.colorHex, pick);
    } else {
      var chars := Ramp(req.mode, req.charsetKey);
      html, raw := RenderRamp(img, chars, req.mode, req.colorHex);
    }
  }

  // ------------------------------------------------------------ properties

  /** The error message is returned exactly when the resize fails: rendered
      markup is empty or opens with a tag, so it never spells the message. */
  lemma ErrorExactlyOnResizeFailure(srcW: nat, srcH: nat, req: Request, toned: Bitmap, quantized: Bitmap, pick: seq<nat>)
    requires Supplied(srcW, srcH, req, toned, quantized, pick)
    ensures Output(srcW, srcH, req, toned, quantized, pick).0 == ResizeFailure
        <==> TargetSize(srcW, srcH, req.width, req.mode) == ResizeError
    ensures TargetSize(srcW, srcH, req.width, req.mode) == ResizeError
        ==> Output(srcW, srcH, req, toned, quantized, pick).1 == ""
  {
    var out := Output(srcW, srcH, req, toned, quantized, pick);
    if TargetSize(srcW, srcH, req.width, req.mode).Resized? {
      var img := Sampled(req, toned, quantized);
      if req.mode == "subpixel" {
        HtmlStartsWithTag(SubpixelPieces(img));
      } else if req.mode == "solid" {
        HtmlStartsWithTag(SolidPieces(img, req.colorHex));
      } else if req.mode == "matrix" {
        HtmlStartsWithTag(MatrixPieces(img, req.colorHex, pick));
      } else {
        HtmlStartsWithTag(RampPieces(img, Ramp(req.mode, req.charsetKey), req.mode, req.colorHex));
      }
      assert out.0 == "" || out.0[0] == '<';
      assert ResizeFailure[0] == 'E';
    }
  }

  /** The placeholder colour is the same as no override in every mode. */
  lemma PlaceholderIsNoOverride(srcW: nat, srcH: nat, req: Request, toned: Bitmap, quantized: Bitmap, pick: seq<nat>)
    requires Supplied(srcW, srcH, req, toned, quantized, pick)
    ensures Output(srcW, srcH, req.(colorHex := Placeholder), toned, quantized, pick)
         == Output(srcW, srcH, req.(colorHex := ""), toned, quantized, pick)
  {
    if TargetSize(srcW, srcH, req.width, req.mode).Resized? {
      var img := Sampled(req, toned, quantized);
      InactiveOverridesAgree(img, req.mode, Ramp(req.mode, req.charsetKey), pick, Placeholder, "");
    }
  }

  /** Two inactive overrides give the same cells in every branch. */
  lemma InactiveOverridesAgree(img: Bitmap, mode: string, chars: string, pick: seq<nat>, hex1: string, hex2: string)
    requires img.Valid() && ValidPicks(img, pick) && |chars| >= 1
    requires !OverrideActive(hex1) && !OverrideActive(hex2)
    ensures SolidPieces(img, hex1) == SolidPieces(img, hex2)
    ensures MatrixPieces(img, hex1, pick) == MatrixPieces(img, hex2, pick)
    ensures RampPieces(img, chars, mode, hex1) == RampPieces(img, chars, mode, hex2)
  {
    SolidRowsAgree(img, hex1, hex2);
    assert MatrixCells(img, hex1, pick) == MatrixCells(img, hex2, pick);
    RampCellsAgree(img, chars, mode, hex1, hex2);
  }

  lemma SolidRowsAgree(img: Bitmap, hex1: string, hex2: string)
    requires img.Valid() && !OverrideActive(hex1) && !OverrideActive(hex2)
    ensures SolidRows(img, hex1) == SolidRows(img, hex2)
  {
    forall y | 0 <= y < img.height
      ensures SolidRow(img, hex1, y) == SolidRow(img, hex2, y)
    {
    }
  }

  lemma RampCellsAgree(img: Bitmap, chars: string, mode: string, hex1: string, hex2: string)
    requires img.Valid() && |chars| >= 1
    requires mode == "ascii_color" || (!OverrideActive(hex1) && !OverrideActive(hex2))
    ensures RampCells(img, chars, mode, hex1) == RampCells(img, chars, mode, hex2)
  {
  }

  /** Subpixel and colour ASCII ignore the override altogether. */
  lemma OverrideIgnoredByTrueColourModes(srcW: nat, srcH: nat, req: Request, toned: Bitmap, quantized: Bitmap, pick: seq<nat>, hex: string)
    requires Supplied(srcW, srcH, req, toned, quantized, pick)
    requires req.mode == "subpixel" || req.mode == "ascii_color"
    ensures Output(srcW, srcH, req.(colorHex := hex), toned, quantized, pick)
         == Output(srcW, srcH, req, toned, quantized, pick)
  {
    if TargetSize(srcW, srcH, req.width, req.mode).Resized? && req.mode == "ascii_color" {
      var img := Sampled(req, toned, quantized);
      RampCellsAgree(img, Ramp(req.mode, req.charsetKey), req.mode, hex, req.colorHex);
    }
  }

  /** The true-colour modes never see the dither flag. */
  lemma DitherIgnoredByTrueColourModes(srcW: nat, srcH: nat, req: Request, toned: Bitmap, quantized: Bitmap, pick: seq<nat>, dither: string)
    requires Supplied(srcW, srcH, req, toned, quantized, pick)
    requires req.mode == "subpixel" || req.mode == "solid" || req.mode == "ascii_color"
    ensures Output(srcW, srcH, req.(dither := dither), toned, quantized, pick)
         == Output(srcW, srcH, req, toned, quantized, pick)
  {
  }

  /** Any flag other than the exact string "true" leaves dithering off. */
  lemma OnlyTrueDithers(srcW: nat, srcH: nat, req: Request, toned: Bitmap, quantized: Bitmap, pick: seq<nat>)
    requires Supplied(srcW, srcH, req, toned, quantized, pick)
    requires req.dither != "true"
    ensures Output(srcW, srcH, req, toned, quantized, pick)
         == Output(srcW, srcH, req.(dither := "false"), toned, quantized, pick)
  {
  }

  /** After dithering a ramp mode draws only the ramp's first glyph (for
      black) and its last (for white). */
  lemma DitheredRampUsesEnds(img: Bitmap, chars: string, mode: string, hex: string)
    requires img.Valid() && BlackWhite(img) && |chars| >= 1
    ensures forall i | 0 <= i < |img.lum| ::
              RampCells(img, chars, mode, hex)[i].glyph in {Escape(chars[0]), Escape(chars[|chars| - 1])}
  {
    RampIndexEnds(|chars|);
  }

  /** After dithering the matrix mode shows, per pixel, either the blank
      cell (black) or a glyph at full opacity (white). */
  lemma DitheredMatrixIsBinary(img: Bitmap, hex: string, pick: seq<nat>)
    requires img.Valid() && BlackWhite(img) && ValidPicks(img, pick)
    ensures forall i | 0 <= i < |img.lum| ::
              var c := MatrixCells(img, hex, pick)[i];
              c == DarkCell || (c.Cell? && c.style == MatrixStyle(hex, 255))
  {
  }

  /** White is shown at full opacity, written "1.0". */
  lemma WhiteIsOpaque()
    ensures AlphaText(AlphaHundredths(255)) == "1.0"
  {
  }

  // -------------------------------------------------------------- examples

  /** A one-pixel-wide source, black above white. */
  const BlackOverWhite := Bitmap(1, 2, [Black, White], [0, 255])

  /** The style of a black-over-white cell, character for character. */
  lemma BlackOverWhiteStyle()
    ensures SubpixelStyle(Black, White) == "color:rgb(0,0,0);background-color:rgb(255,255,255);"
  {
    BlackWhiteRgbText();
    BlackForeground();
    var mid := "color:" + "rgb(0,0,0)" + ";background-color:";
    var low := mid + "rgb(255,255,255)";
    assert low == "color:rgb(0,0,0);background-color:rgb(255,255,255)";
    assert low + ";" == "color:rgb(0,0,0);background-color:rgb(255,255,255);";
  }

  lemma BlackForeground()
    ensures "color:" + "rgb(0,0,0)" + ";background-color:" == "color:rgb(0,0,0);background-color:"
  {
    assert "color:" + "rgb(0,0,0)" == "color:rgb(0,0,0)";
  }

  lemma BlackWhiteRgbText()
    ensures RgbText(Black) == "rgb(0,0,0)"
    ensures RgbText(White) == "rgb(255,255,255)"
  {
    ChannelEndsDecimal();
  }

  lemma ChannelEndsDecimal()
    ensures Decimal(0) == "0" && Decimal(255) == "255"
  {
    assert Digit(0) == '0' && Digit(2) == '2' && Digit(5) == '5';
    assert Decimal(25) == "25";
  }

  /** The black-over-white source makes one half-block cell and a break. */
  lemma BlackOverWhitePieces()
    ensures SubpixelPieces(BlackOverWhite) == [Cell(SubpixelStyle(Black, White), HalfBlock), Break]
  {
    var img := BlackOverWhite;
    assert img.Pixel(0, 0) == Black && img.Pixel(0, 1) == White;
    var row := SubpixelRow(img, 0);
    assert row == [Cell(SubpixelStyle(Black, White), HalfBlock)];
    var rows := SubpixelRows(img);
    assert rows == [row];
    assert rows[..0] == [];
    assert Terminated(rows) == Terminated(rows[..0]) + rows[0] + [Break];
  }

  /** Rendered one pixel wide in subpixel mode, the black-over-white source
      gives a single half-block with black foreground on a white
      background, then the row's break. */
  lemma SubpixelBlackOverWhite()
    ensures Output(1, 2, Request(1, "subpixel", "standard", "", "false"), BlackOverWhite, BlackOverWhite, [0, 0])
         == (Span(SubpixelStyle(Black, White), HalfBlock) + "<br>", "")
  {
    var req := Request(1, "subpixel", "standard", "", "false");
    assert TargetSize(1, 2, 1, "subpixel") == Resized(Size(1, 2));
    assert Sampled(req, BlackOverWhite, BlackOverWhite) == BlackOverWhite;
    assert Output(1, 2, req, BlackOverWhite, BlackOverWhite, [0, 0]) == (Html(SubpixelPieces(BlackOverWhite)), "");
    BlackOverWhitePieces();
    var ps := [Cell(SubpixelStyle(Black, White), HalfBlock), Break];
    assert ps[..1][..0] == [] && ps[..1] == [ps[0]];
    assert Html(ps[..1]) == Html(ps[..1][..0]) + PieceHtml(ps[0]);
    assert "" + PieceHtml(ps[0]) == PieceHtml(ps[0]);
    assert Html(ps) == Html(ps[..1]) + "<br>";
  }

  /** A white bitmap of two pixels side by side. */
  const WhitePair := Bitmap(2, 1, [White, White], [255, 255])

  /** Two white pixels in the standard ramp make two unstyled spaces. */
  lemma WhitePairPieces()
    ensures RampPieces(WhitePair, Standard, "standard", "") == [Cell("", " "), Cell("", " ")]
  {
    var space := Cell("", " ");
    RampIndexEnds(|Standard|);
    assert Standard[9] == ' ';
    var cells := RampCells(WhitePair, Standard, "standard", "");
    assert cells[0] == space && cells[1] == space;
    assert cells[..1][..0] == [] && cells[..2][..1] == cells[..1];
    assert Enumerated(cells[..1], 2) == [space];
    assert Enumerated(cells[..2], 2) == [space, space];
    assert cells[..2] == cells;
  }

  /** A white 2 x 2 source rendered two characters wide with the standard
      ramp: the 0.55 squash leaves a single row, so the output is two
      unstyled spaces (the ramp's lightest glyph) and no break. */
  lemma WhiteSquareStandard()
    ensures TargetSize(2, 2, 2, "standard") == Resized(Size(2, 1))
    ensures Output(2, 2, Request(2, "standard", "standard", "", "false"), WhitePair, WhitePair, [0, 0])
         == (Span("", " ") + Span("", " "), "  ")
  {
    var req := Request(2, "standard", "standard", "", "false");
    assert TargetSize(2, 2, 2, "standard") == Resized(Size(2, 1));
    assert Sampled(req, WhitePair, WhitePair) == WhitePair;
    assert Ramp("standard", "standard") == Standard;
    WhitePairPieces();
    var ps := [Cell("", " "), Cell("", " ")];
    assert Output(2, 2, req, WhitePair, WhitePair, [0, 0]) == (Html(ps), Text(ps));
    assert ps[..1][..0] == [] && ps[..1] == [ps[0]];
    assert Html(ps[..1]) == "" + Span("", " ");
    assert Text(ps[..1]) == "" + " ";
    assert Html(ps) == Html(ps[..1]) + Span("", " ");
    assert Text(ps) == Text(ps[..1]) + " ";
    assert "" + Span("", " ") == Span("", " ") && "" + " " == " " && " " + " " == "  ";
  }
}
