/** The four rendering branches of the image processor.  Each branch is a
    loop that grows the markup (and, for ramp text, the raw text) one cell
    at a time; each is proved to produce the pieces its specification
    function describes, and the layout of those pieces is stated as lemmas. */
module Render {
  import opened Pixels
  import opened Markup
  import opened Styles
  import opened Charsets

  const HalfBlock := "▀"
  const FullBlock := "█"

  /** The blank matrix cell, written for dark pixels. */
  const DarkCell := Cell("color:black", "&nbsp;")

  // ---------------------------------------------------------------- subpixel

  function SubpixelCell(img: Bitmap, x: nat, y: nat): Piece
    requires img.Valid() && x < img.width && y + 1 < img.height
  {
    Cell(SubpixelStyle(img.Pixel(x, y), img.Pixel(x, y + 1)), HalfBlock)
  }

  /** The half-block cells pairing image rows `y` and `y + 1`. */
  function SubpixelRow(img: Bitmap, y: nat): seq<Piece>
    requires img.Valid() && y + 1 < img.height
  {
    seq(img.width, x requires 0 <= x < img.width => SubpixelCell(img, x, y))
  }

  /** Row `k` pairs image rows `2k` and `2k + 1`; an odd last row is dropped. */
  function SubpixelRows(img: Bitmap): seq<seq<Piece>>
    requires img.Valid()
  {
    seq(img.height / 2, k requires 0 <= k < img.height / 2 => SubpixelRow(img, 2 * k))
  }

  /** Every cell the subpixel branch writes is a half block. */
  function SubpixelPieces(img: Bitmap): (ps: seq<Piece>)
    requires img.Valid()
    ensures forall p | p in ps :: p == Break || (p.Cell? && p.glyph == HalfBlock)
  {
    var rows := SubpixelRows(img);
    TerminatedFrom(rows);
    Terminated(rows)
  }

  /** `height / 2` rows of `width` half-block cells, each row closed by a
      break. */
  lemma SubpixelLayout(img: Bitmap)
    requires img.Valid()
    ensures CellCount(SubpixelPieces(img)) == img.width * (img.height / 2)
    ensures BreakCount(SubpixelPieces(img)) == img.height / 2
  {
    var rows := SubpixelRows(img);
    FlattenCells(rows, img.width);
    AllCellsCount(Flatten(rows));
    TerminatedCounts(rows);
  }

  /** A one-row image has no row pair, so it yields no markup at all; any
      taller image yields some. */
  lemma SubpixelEmpty(img: Bitmap)
    requires img.Valid()
    ensures img.height == 1 <==> Html(SubpixelPieces(img)) == ""
  {
    SubpixelLayout(img);
    HtmlEmpty(SubpixelPieces(img));
  }

  /** Cell `x` of output row `k` takes its foreground from pixel (`x`, `2k`)
      and its background from pixel (`x`, `2k + 1`). */
  lemma SubpixelCellAt(img: Bitmap, k: nat, x: nat)
    requires img.Valid() && k < img.height / 2 && x < img.width
    ensures 2 * k + 1 < img.height
    ensures SubpixelRows(img)[k][x] == Cell(SubpixelStyle(img.Pixel(x, 2 * k), img.Pixel(x, 2 * k + 1)), HalfBlock)
  {
  }

  /** The markup of the cell pairing rows `y` and `y + 1` at column `x`. */
  lemma SubpixelCellHtml(img: Bitmap, y: nat, x: nat)
    requires img.Valid() && y + 1 < img.height && x < img.width
    ensures PieceHtml(SubpixelRow(img, y)[x])
         == Span(SubpixelStyle(img.Pixel(x, y), img.Pixel(x, y + 1)), HalfBlock)
  {
  }

  method RenderSubpixel(img: Bitmap) returns (html: string, raw: string)
    requires img.Valid()
    ensures html == Html(SubpixelPieces(img))
    ensures raw == ""
  {
    ghost var rows := SubpixelRows(img);
    html, raw := "", "";
    var y := 0;
    ghost var k := 0;
    while y < img.height - 1
      invariant 0 <= k <= |rows| && y == 2 * k
      invariant html == Html(Terminated(rows[..k]))
    {
      var line := RenderSubpixelLine(img, y);
      assert rows[k] == SubpixelRow(img, y);
      HtmlOfTerminatedPrefix(rows, k);
      html := html + line + "<br>";
      y, k := y + 2, k + 1;
    }
    assert rows[..k] == rows;
  }

  /** One output line: the half-block cells for image rows `y` and `y + 1`. */
  method RenderSubpixelLine(img: Bitmap, y: nat) returns (line: string)
    requires img.Valid() && y + 1 < img.height
    ensures line == Html(SubpixelRow(img, y))
  {
    ghost var row := SubpixelRow(img, y);
    line := "";
    var x := 0;
    while x < img.width
      invariant 0 <= x <= img.width
      invariant line == Html(row[..x])
    {
      var style := SubpixelStyle(img.Pixel(x, y), img.Pixel(x, y + 1));
      HtmlOfPrefix(row, x);
      SubpixelCellHtml(img, y, x);
      line := line + Span(style, HalfBlock);
      x := x + 1;
    }
    assert row[..img.width] == row;
  }

  // ------------------------------------------------------------------- solid

  function SolidCell(img: Bitmap, hex: string, x: nat, y: nat): Piece
    requires img.Valid() && x < img.width && y < img.height
  {
    Cell(SolidStyle(hex, img.Pixel(x, y)), FullBlock)
  }

  /** The full-block cells of image row `y`. */
  function SolidRow(img: Bitmap, hex: string, y: nat): seq<Piece>
    requires img.Valid() && y < img.height
  {
    seq(img.width, x requires 0 <= x < img.width => SolidCell(img, hex, x, y))
  }

  function SolidRows(img: Bitmap, hex: string): seq<seq<Piece>>
    requires img.Valid()
  {
    seq(img.height, y requires 0 <= y < img.height => SolidRow(img, hex, y))
  }

  /** Every cell the solid branch writes is a full block. */
  function SolidPieces(img: Bitmap, hex: string): (ps: seq<Piece>)
    requires img.Valid()
    ensures forall p | p in ps :: p == Break || (p.Cell? && p.glyph == FullBlock)
  {
    var rows := SolidRows(img, hex);
    TerminatedFrom(rows);
    Terminated(rows)
  }

  /** One full-block cell per pixel and a break after every row. */
  lemma SolidLayout(img: Bitmap, hex: string)
    requires img.Valid()
    ensures CellCount(SolidPieces(img, hex)) == img.width * img.height
    ensures BreakCount(SolidPieces(img, hex)) == img.height
  {
    var rows := SolidRows(img, hex);
    FlattenCells(rows, img.width);
    AllCellsCount(Flatten(rows));
    TerminatedCounts(rows);
  }

  /** The markup of the cell for pixel (`x`, `y`). */
  lemma SolidCellHtml(img: Bitmap, hex: string, y: nat, x: nat)
    requires img.Valid() && y < img.height && x < img.width
    ensures PieceHtml(SolidRow(img, hex, y)[x]) == Span(SolidStyle(hex, img.Pixel(x, y)), FullBlock)
  {
  }

  method RenderSolid(img: Bitmap, hex: string) returns (html: string, raw: string)
    requires img.Valid()
    ensures html == Html(SolidPieces(img, hex))
    ensures raw == ""
  {
    ghost var rows := SolidRows(img, hex);
    html, raw := "", "";
    for y := 0 to img.height
      invariant html == Html(Terminated(rows[..y]))
    {
      var line := RenderSolidLine(img, hex, y);
      HtmlOfTerminatedPrefix(rows, y);
      html := html + line + "<br>";
    }
    assert rows[..img.height] == rows;
  }

  /** One output line: a full-block cell per pixel of image row `y`. */
  method RenderSolidLine(img: Bitmap, hex: string, y: nat) returns (line: string)
    requires img.Valid() && y < img.height
    ensures line == Html(SolidRow(img, hex, y))
  {
    ghost var row := SolidRow(img, hex, y);
    line := "";
    for x := 0 to img.width
      invariant line == Html(row[..x])
    {
      var style := SolidStyle(hex, img.Pixel(x, y));
      HtmlOfPrefix(row, x);
      SolidCellHtml(img, hex, y, x);
      line := line + Span(style, FullBlock);
    }
    assert row[..img.width] == row;
  }

  // ------------------------------------------------------------------ matrix

  /** One injected glyph choice per pixel, each a position in the glyph set. */
  predicate ValidPicks(img: Bitmap, pick: seq<nat>) {
    |pick| == |img.lum| && forall i | 0 <= i < |pick| :: pick[i] < |MatrixGlyphs|
  }

  function MatrixCell(img: Bitmap, hex: string, pick: seq<nat>, i: nat): Piece
    requires ValidPicks(img, pick) && i < |img.lum|
  {
    if img.lum[i] > MatrixThreshold then Cell(MatrixStyle(hex, img.lum[i]), [MatrixGlyphs[pick[i]]])
    else DarkCell
  }

  function MatrixCells(img: Bitmap, hex: string, pick: seq<nat>): seq<Piece>
    requires ValidPicks(img, pick)
  {
    seq(|img.lum|, i requires 0 <= i < |img.lum| => MatrixCell(img, hex, pick, i))
  }

  /** Every cell the matrix branch writes is the blank cell or a single
      glyph of the matrix set. */
  function MatrixPieces(img: Bitmap, hex: string, pick: seq<nat>): (ps: seq<Piece>)
    requires img.Valid() && ValidPicks(img, pick)
    ensures forall p | p in ps ::
              p == Break || p == DarkCell || (p.Cell? && |p.glyph| == 1 && p.glyph[0] in MatrixGlyphs)
  {
    var cells := MatrixCells(img, hex, pick);
    EnumeratedFrom(cells, img.width);
    Enumerated(cells, img.width)
  }

  /** `height` rows of `width` cells with one break between rows; a dark
      pixel becomes the blank cell, a bright one a single glyph of the set. */
  lemma MatrixLayout(img: Bitmap, hex: string, pick: seq<nat>)
    requires img.Valid() && ValidPicks(img, pick)
    ensures MatrixPieces(img, hex, pick) == Joined(Rows(MatrixCells(img, hex, pick), img.width, img.height))
    ensures CellCount(MatrixPieces(img, hex, pick)) == img.width * img.height
    ensures BreakCount(MatrixPieces(img, hex, pick)) == img.height - 1
  {
    EnumeratedLayout(MatrixCells(img, hex, pick), img.width, img.height);
  }

  /** A dark pixel becomes the blank cell; a bright one becomes a span
      around a single glyph of the matrix set. */
  lemma MatrixCellContent(img: Bitmap, hex: string, pick: seq<nat>, i: nat)
    requires ValidPicks(img, pick) && i < |img.lum|
    ensures img.lum[i] <= MatrixThreshold ==> MatrixCells(img, hex, pick)[i] == DarkCell
    ensures img.lum[i] > MatrixThreshold ==>
              var c := MatrixCells(img, hex, pick)[i];
              c.Cell? && |c.glyph| == 1 && c.glyph[0] in MatrixGlyphs
  {
  }

  /** Cell `x` of grid row `y` is the cell for the pixel at `(x, y)`. */
  lemma MatrixCellAt(img: Bitmap, hex: string, pick: seq<nat>, y: nat, x: nat)
    requires img.Valid() && ValidPicks(img, pick) && y < img.height && x < img.width
    ensures img.width * y + x < |img.lum|
    ensures x < |Rows(MatrixCells(img, hex, pick), img.width, img.height)[y]|
         && Rows(MatrixCells(img, hex, pick), img.width, img.height)[y][x]
         == MatrixCell(img, hex, pick, img.width * y + x)
  {
    var cells := MatrixCells(img, hex, pick);
    var i := img.width * y + x;
    RowsAt(cells, img.width, img.height, y);
    GridIndex(x, y, img.width, img.height);
    assert cells[i] == MatrixCell(img, hex, pick, i);
    assert Rows(cells, img.width, img.height)[y][x] == cells[i];
  }

  /** The blank cell's markup, character for character. */
  lemma DarkCellHtml()
    ensures PieceHtml(DarkCell) == "<span style=\"color:black\">&nbsp;</span>"
  {
  }

  lemma MatrixCellHtml(img: Bitmap, hex: string, pick: seq<nat>, i: nat)
    requires ValidPicks(img, pick) && i < |img.lum|
    ensures PieceHtml(MatrixCells(img, hex, pick)[i])
         == if img.lum[i] > MatrixThreshold then Span(MatrixStyle(hex, img.lum[i]), [MatrixGlyphs[pick[i]]])
            else PieceHtml(DarkCell)
  {
  }

  method RenderMatrix(img: Bitmap, hex: string, pick: seq<nat>) returns (html: string, raw: string)
    requires img.Valid() && ValidPicks(img, pick)
    ensures html == Html(MatrixPieces(img, hex, pick))
    ensures raw == ""
  {
    ghost var cells := MatrixCells(img, hex, pick);
    var width := img.width;
    html, raw := "", "";
    for i := 0 to |img.lum|
      invariant html == Html(Enumerated(cells[..i], width))
    {
      EnumeratedOfPrefix(cells, width, i);
      var newRow := i % width == 0 && i != 0;
      html := html + (if newRow then "<br>" else "");
      var val := img.lum[i];
      var span;
      if val > MatrixThreshold {
        var glyph := MatrixGlyphs[pick[i]];
        var style := MatrixStyle(hex, val);
        span := Span(style, [glyph]);
      } else {
        span := PieceHtml(DarkCell);
      }
      MatrixCellHtml(img, hex, pick, i);
      html := html + span;
    }
    assert cells[..|img.lum|] == cells;
  }

  // ------------------------------------------------------------- ramp text

  function RampCell(img: Bitmap, chars: string, mode: string, hex: string, i: nat): Piece
    requires img.Valid() && |chars| >= 1 && i < |img.lum|
  {
    Cell(RampStyle(mode, hex, img.rgb[i]), Escape(chars[RampIndex(img.lum[i], |chars|)]))
  }

  function RampCells(img: Bitmap, chars: string, mode: string, hex: string): seq<Piece>
    requires img.Valid() && |chars| >= 1
  {
    seq(|img.lum|, i requires 0 <= i < |img.lum| => RampCell(img, chars, mode, hex, i))
  }

  /** Every cell a ramp mode writes holds one character of its ramp,
      escaped. */
  function RampPieces(img: Bitmap, chars: string, mode: string, hex: string): (ps: seq<Piece>)
    requires img.Valid() && |chars| >= 1
    ensures forall p | p in ps :: p == Break || (p.Cell? && exists c | c in chars :: p.glyph == Escape(c))
  {
    var cells := RampCells(img, chars, mode, hex);
    EnumeratedFrom(cells, img.width);
    Enumerated(cells, img.width)
  }

  /** `height` rows of `width` glyph cells with one break between rows, so
      the raw text has `width * height` glyphs and `height - 1` newlines. */
  lemma RampLayout(img: Bitmap, chars: string, mode: string, hex: string)
    requires img.Valid() && |chars| >= 1
    ensures RampPieces(img, chars, mode, hex) == Joined(Rows(RampCells(img, chars, mode, hex), img.width, img.height))
    ensures CellCount(RampPieces(img, chars, mode, hex)) == img.width * img.height
    ensures BreakCount(RampPieces(img, chars, mode, hex)) == img.height - 1
  {
    EnumeratedLayout(RampCells(img, chars, mode, hex), img.width, img.height);
  }

  /** Cell `x` of grid row `y` is styled from the pixel at `(x, y)` and
      holds the ramp character for that pixel's luminance. */
  lemma RampCellAt(img: Bitmap, chars: string, mode: string, hex: string, y: nat, x: nat)
    requires img.Valid() && |chars| >= 1 && y < img.height && x < img.width
    ensures img.width * y + x < |img.lum|
    ensures x < |Rows(RampCells(img, chars, mode, hex), img.width, img.height)[y]|
         && Rows(RampCells(img, chars, mode, hex), img.width, img.height)[y][x]
         == Cell(RampStyle(mode, hex, img.Pixel(x, y)), Escape(chars[RampIndex(img.lum[img.width * y + x], |chars|)]))
  {
    var cells := RampCells(img, chars, mode, hex);
    RowsAt(cells, img.width, img.height, y);
    GridIndex(x, y, img.width, img.height);
    assert Rows(cells, img.width, img.height)[y][x] == cells[img.width * y + x];
  }

  /** No glyph written by a ramp mode contains an unescaped angle bracket. */
  lemma RampGlyphsEscaped(img: Bitmap, chars: string, mode: string, hex: string)
    requires img.Valid() && |chars| >= 1
    ensures forall p | p in RampPieces(img, chars, mode, hex) :: p.Cell? ==> '<' !in p.glyph && '>' !in p.glyph
  {
    EnumeratedFrom(RampCells(img, chars, mode, hex), img.width);
  }

  /** The markup and raw text of the cell for pixel `i`. */
  lemma RampCellOutput(img: Bitmap, chars: string, mode: string, hex: string, i: nat)
    requires img.Valid() && |chars| >= 1 && i < |img.lum|
    ensures PieceHtml(RampCells(img, chars, mode, hex)[i])
         == Span(RampStyle(mode, hex, img.rgb[i]), Escape(chars[RampIndex(img.lum[i], |chars|)]))
    ensures PieceText(RampCells(img, chars, mode, hex)[i]) == Escape(chars[RampIndex(img.lum[i], |chars|)])
  {
  }

  method RenderRamp(img: Bitmap, chars: string, mode: string, hex: string) returns (html: string, raw: string)
    requires img.Valid() && |chars| >= 1
    ensures html == Html(RampPieces(img, chars, mode, hex))
    ensures raw == Text(RampPieces(img, chars, mode, hex))
  {
    ghost var cells := RampCells(img, chars, mode, hex);
    var width := img.width;
    html, raw := "", "";
    for i := 0 to |img.lum|
      invariant html == Html(Enumerated(cells[..i], width))
      invariant raw == Text(Enumerated(cells[..i], width))
    {
      EnumeratedOfPrefix(cells, width, i);
      var newRow := i % width == 0 && i != 0;
      html := html + (if newRow then "<br>" else "");
      raw := raw + (if newRow then "\n" else "");
      var c := chars[RampIndex(img.lum[i], |chars|)];
      var style := RampStyle(mode, hex, img.rgb[i]);
      var glyph := Escape(c);
      RampCellOutput(img, chars, mode, hex, i);
      html := html + Span(style, glyph);
      raw := raw + glyph;
    }
    assert cells[..|img.lum|] == cells;
  }
}
