/** The output of a render is built as a sequence of pieces: a row break or a
    styled cell holding one glyph.  The markup and the raw text are two
    renderings of the same pieces, so every structural fact proved about the
    pieces holds of both strings. */
module Markup {

  datatype Piece = Break | Cell(style: string, glyph: string)

  /** One glyph wrapped in a span carrying its inline style. */
  function Span(style: string, glyph: string): string {
    "<span style=\"" + style + "\">" + glyph + "</span>"
  }

  /** The markup of one piece: `<br>` or a styled span. */
  function PieceHtml(p: Piece): string {
    match p
    case Break => "<br>"
    case Cell(style, glyph) => Span(style, glyph)
  }

  /** The raw text of one piece: a newline or the glyph itself. */
  function PieceText(p: Piece): string {
    match p
    case Break => "\n"
    case Cell(_, glyph) => glyph
  }

  function Html(ps: seq<Piece>): string
    decreases |ps|
  {
    if |ps| == 0 then "" else Html(ps[..|ps| - 1]) + PieceHtml(ps[|ps| - 1])
  }

  function Text(ps: seq<Piece>): string
    decreases |ps|
  {
    if |ps| == 0 then "" else Text(ps[..|ps| - 1]) + PieceText(ps[|ps| - 1])
  }

  function CellCount(ps: seq<Piece>): nat
    decreases |ps|
  {
    if |ps| == 0 then 0 else CellCount(ps[..|ps| - 1]) + (if ps[|ps| - 1].Cell? then 1 else 0)
  }

  function BreakCount(ps: seq<Piece>): nat
    decreases |ps|
  {
    if |ps| == 0 then 0 else BreakCount(ps[..|ps| - 1]) + (if ps[|ps| - 1].Break? then 1 else 0)
  }

  predicate AllCells(ps: seq<Piece>) {
    forall i | 0 <= i < |ps| :: ps[i].Cell?
  }

  /** Rendering and counting distribute over concatenation. */
  lemma Concat(a: seq<Piece>, b: seq<Piece>)
    ensures Html(a + b) == Html(a) + Html(b)
    ensures Text(a + b) == Text(a) + Text(b)
    ensures CellCount(a + b) == CellCount(a) + CellCount(b)
    ensures BreakCount(a + b) == BreakCount(a) + BreakCount(b)
  {
    HtmlConcat(a, b);
    TextConcat(a, b);
    CountConcat(a, b);
  }

  lemma Associative(x: string, y: string, z: string)
    ensures x + y + z == x + (y + z)
  {
  }

  lemma {:induction false} HtmlConcat(a: seq<Piece>, b: seq<Piece>)
    ensures Html(a + b) == Html(a) + Html(b)
    decreases |b|
  {
    if b == [] {
      assert a + b == a;
    } else {
      var b', last := b[..|b| - 1], PieceHtml(b[|b| - 1]);
      assert (a + b)[..|a + b| - 1] == a + b';
      assert (a + b)[|a + b| - 1] == b[|b| - 1];
      HtmlConcat(a, b');
      calc {
        Html(a + b);
        Html(a + b') + last;
        Html(a) + Html(b') + last;
        { Associative(Html(a), Html(b'), last); }
        Html(a) + (Html(b') + last);
        Html(a) + Html(b);
      }
    }
  }

  lemma {:induction false} TextConcat(a: seq<Piece>, b: seq<Piece>)
    ensures Text(a + b) == Text(a) + Text(b)
    decreases |b|
  {
    if b == [] {
      assert a + b == a;
    } else {
      var b', last := b[..|b| - 1], PieceText(b[|b| - 1]);
      assert (a + b)[..|a + b| - 1] == a + b';
      assert (a + b)[|a + b| - 1] == b[|b| - 1];
      TextConcat(a, b');
      calc {
        Text(a + b);
        Text(a + b') + last;
        Text(a) + Text(b') + last;
        { Associative(Text(a), Text(b'), last); }
        Text(a) + (Text(b') + last);
        Text(a) + Text(b);
      }
    }
  }

  lemma {:induction false} CountConcat(a: seq<Piece>, b: seq<Piece>)
    ensures CellCount(a + b) == CellCount(a) + CellCount(b)
    ensures BreakCount(a + b) == BreakCount(a) + BreakCount(b)
    decreases |b|
  {
    if b == [] {
      assert a + b == a;
    } else {
      var b' := b[..|b| - 1];
      assert (a + b)[..|a + b| - 1] == a + b';
      CountConcat(a, b');
    }
  }

  lemma {:induction false} AllCellsCount(ps: seq<Piece>)
    requires AllCells(ps)
    ensures CellCount(ps) == |ps| && BreakCount(ps) == 0
    decreases |ps|
  {
    if ps != [] {
      AllCellsCount(ps[..|ps| - 1]);
    }
  }

  /** The flat enumeration the renderer performs: cell `i` is preceded by a
      break exactly when `i` is a non-zero multiple of the row width. */
  function Enumerated(cells: seq<Piece>, w: nat): seq<Piece>
    requires w > 0
    decreases |cells|
  {
    if cells == [] then []
    else
      var i := |cells| - 1;
      Enumerated(cells[..i], w) + (if i % w == 0 && i != 0 then [Break] else []) + [cells[i]]
  }

  /** Rows of exactly `w` cells, separated by one break each. */
  function Joined(rows: seq<seq<Piece>>): seq<Piece>
    decreases |rows|
  {
    if rows == [] then []
    else if |rows| == 1 then rows[0]
    else Joined(rows[..|rows| - 1]) + [Break] + rows[|rows| - 1]
  }

  /** Rows each followed by one break, the last one included. */
  function Terminated(rows: seq<seq<Piece>>): seq<Piece>
    decreases |rows|
  {
    if rows == [] then [] else Terminated(rows[..|rows| - 1]) + rows[|rows| - 1] + [Break]
  }

  /** Splits `w * h` cells into `h` consecutive rows of `w`. */
  function Rows(cells: seq<Piece>, w: nat, h: nat): (rows: seq<seq<Piece>>)
    requires |cells| == w * h
    ensures |rows| == h
    decreases h
  {
    if h == 0 then [] else Rows(cells[..w * (h - 1)], w, h - 1) + [cells[w * (h - 1)..]]
  }

  function Flatten(rows: seq<seq<Piece>>): seq<Piece>
    decreases |rows|
  {
    if rows == [] then [] else Flatten(rows[..|rows| - 1]) + rows[|rows| - 1]
  }

  lemma {:induction false} MulAtLeast(a: nat, w: nat)
    requires a >= 1
    ensures w * a >= w
    decreases a
  {
    if a > 1 {
      MulAtLeast(a - 1, w);
      assert w * a == w * (a - 1) + w;
    }
  }

  lemma Distribute(w: int, d: int, k: int)
    ensures w * d == w * k + w * (d - k)
  {
  }

  /** Position `j` of row `k` has column `j` and row `k`. */
  lemma ModOfRowStart(k: nat, w: nat, j: nat)
    requires w > 0 && j < w
    ensures (w * k + j) % w == j
    ensures (w * k + j) / w == k
  {
    var n := w * k + j;
    var d, m := n / w, n % w;
    assert n == w * d + m && 0 <= m < w;
    if d > k {
      Distribute(w, d, k);
      MulAtLeast(d - k, w);
      assert false;
    } else if d < k {
      Distribute(w, k, d);
      MulAtLeast(k - d, w);
      assert false;
    }
  }

  lemma EnumeratedSnoc(s: seq<Piece>, p: Piece, w: nat)
    requires w > 0
    ensures Enumerated(s + [p], w) == Enumerated(s, w) + (if |s| % w == 0 && |s| != 0 then [Break] else []) + [p]
  {
    assert (s + [p])[..|s|] == s;
  }

  /** Appending the first `j` cells of a new row to `k` complete rows. */
  lemma {:induction false} EnumeratedExtend(a: seq<Piece>, r: seq<Piece>, w: nat, k: nat, j: nat)
    requires w > 0 && |a| == w * k && j <= |r| && j <= w
    ensures Enumerated(a + r[..j], w)
         == Enumerated(a, w) + (if j > 0 && a != [] then [Break] else []) + r[..j]
    decreases j
  {
    if j == 0 {
      assert a + r[..0] == a;
    } else {
      var s := a + r[..j - 1];
      assert a + r[..j] == s + [r[j - 1]];
      EnumeratedSnoc(s, r[j - 1], w);
      ModOfRowStart(k, w, j - 1);
      EnumeratedExtend(a, r, w, k, j - 1);
      assert r[..j] == r[..j - 1] + [r[j - 1]];
    }
  }

  lemma JoinedSnoc(rows: seq<seq<Piece>>, r: seq<Piece>)
    ensures Joined(rows + [r]) == if rows == [] then r else Joined(rows) + [Break] + r
  {
    assert (rows + [r])[..|rows|] == rows;
  }

  lemma RowsSnoc(cells: seq<Piece>, w: nat, h: nat)
    requires |cells| == w * h && h > 0
    ensures w * (h - 1) + w == |cells|
    ensures Rows(cells, w, h) == Rows(cells[..w * (h - 1)], w, h - 1) + [cells[w * (h - 1)..]]
  {
    assert w * h == w * (h - 1) + w;
  }

  /** The flat enumeration with modulus test produces exactly the row layout:
      `h` rows of `w` cells, one break between consecutive rows. */
  lemma {:induction false} EnumeratedIsJoined(cells: seq<Piece>, w: nat, h: nat)
    requires w > 0 && |cells| == w * h
    ensures Enumerated(cells, w) == Joined(Rows(cells, w, h))
    decreases h
  {
    if h > 0 {
      RowsSnoc(cells, w, h);
      var k := w * (h - 1);
      var a, r := cells[..k], cells[k..];
      assert r[..w] == r;
      assert a + r == cells;
      EnumeratedExtend(a, r, w, h - 1, w);
      EnumeratedIsJoined(a, w, h - 1);
      JoinedSnoc(Rows(a, w, h - 1), r);
      assert a == [] <==> h - 1 == 0;
    }
  }

  lemma BreakCounts()
    ensures CellCount([Break]) == 0 && BreakCount([Break]) == 1
  {
    assert [Break][..0] == [];
  }

  /** Joining rows adds one break between each two of them. */
  lemma {:induction false} JoinedCounts(rows: seq<seq<Piece>>)
    ensures CellCount(Joined(rows)) == CellCount(Flatten(rows))
    ensures BreakCount(Joined(rows)) == BreakCount(Flatten(rows)) + (if rows == [] then 0 else |rows| - 1)
    decreases |rows|
  {
    var n := |rows|;
    if n == 1 {
      assert Flatten(rows) == Flatten(rows[..0]) + rows[0];
      assert Flatten(rows[..0]) == [];
      assert [] + rows[0] == rows[0];
    } else if n > 1 {
      var front, last := rows[..n - 1], rows[n - 1];
      JoinedCounts(front);
      BreakCounts();
      CountConcat(Joined(front), [Break]);
      CountConcat(Joined(front) + [Break], last);
      CountConcat(Flatten(front), last);
    }
  }

  /** Terminating rows adds one break after each of them. */
  lemma {:induction false} TerminatedCounts(rows: seq<seq<Piece>>)
    ensures CellCount(Terminated(rows)) == CellCount(Flatten(rows))
    ensures BreakCount(Terminated(rows)) == BreakCount(Flatten(rows)) + |rows|
    decreases |rows|
  {
    var n := |rows|;
    if n > 0 {
      var front, last := rows[..n - 1], rows[n - 1];
      TerminatedCounts(front);
      BreakCounts();
      CountConcat(Terminated(front), last);
      CountConcat(Terminated(front) + last, [Break]);
      CountConcat(Flatten(front), last);
    }
  }

  /** Rows of `w` cells flatten to `w` cells per row. */
  lemma {:induction false} FlattenCells(rows: seq<seq<Piece>>, w: nat)
    requires forall y | 0 <= y < |rows| :: |rows[y]| == w && AllCells(rows[y])
    ensures |Flatten(rows)| == w * |rows| && AllCells(Flatten(rows))
    decreases |rows|
  {
    var n := |rows|;
    if n > 0 {
      var front := rows[..n - 1];
      assert forall y | 0 <= y < n - 1 :: front[y] == rows[y];
      FlattenCells(front, w);
      assert w * n == w * (n - 1) + w;
    }
  }

  /** Where row `y` of a `w`-wide grid of `h` rows starts and ends. */
  lemma RowBounds(w: nat, h: nat, y: nat)
    requires y < h
    ensures w * h == w * (h - 1) + w
    ensures w * y + w <= w * h
    ensures y < h - 1 ==> w * y + w <= w * (h - 1)
  {
    MulSucc(w, h - 1);
    MulSucc(w, y);
    if y < h - 1 {
      Distribute(w, h - 1, y + 1);
      MulNonneg(w, h - 1 - (y + 1));
    }
  }

  lemma MulSucc(w: int, k: int)
    ensures w * (k + 1) == w * k + w
  {
  }

  lemma MulNonneg(a: nat, b: nat)
    ensures a * b >= 0
  {
  }

  /** Row `y` of the split is the slice of cells from `w * y` to `w * y + w`:
      every row has exactly `w` cells, taken in order. */
  lemma {:induction false} RowsAt(cells: seq<Piece>, w: nat, h: nat, y: nat)
    requires |cells| == w * h && y < h
    ensures w * y + w <= |cells| && Rows(cells, w, h)[y] == cells[w * y .. w * y + w]
    decreases h
  {
    RowBounds(w, h, y);
    var start := w * (h - 1);
    var front := cells[..start];
    assert Rows(cells, w, h) == Rows(front, w, h - 1) + [cells[start..]];
    if y < h - 1 {
      RowsAt(front, w, h - 1, y);
      assert front[w * y .. w * y + w] == cells[w * y .. w * y + w];
    } else {
      assert w * y == start;
    }
  }

  /** Rows of the split flatten back to the cells they came from. */
  lemma {:induction false} RowsFlatten(cells: seq<Piece>, w: nat, h: nat)
    requires |cells| == w * h
    ensures Flatten(Rows(cells, w, h)) == cells
    decreases h
  {
    if h > 0 {
      RowBounds(w, h, h - 1);
      var start := w * (h - 1);
      var front := cells[..start];
      RowsFlatten(front, w, h - 1);
      var rows := Rows(cells, w, h);
      assert rows == Rows(front, w, h - 1) + [cells[start..]];
      assert rows[..h - 1] == Rows(front, w, h - 1);
      assert Flatten(rows) == Flatten(rows[..h - 1]) + rows[h - 1];
      assert front + cells[start..] == cells;
    }
  }

  /** Layout of an enumerated grid of `w * h` cells: the rows of the split
      joined by single breaks, all the cells, and `h - 1` breaks. */
  lemma EnumeratedLayout(cells: seq<Piece>, w: nat, h: nat)
    requires w > 0 && h > 0 && |cells| == w * h && AllCells(cells)
    ensures Enumerated(cells, w) == Joined(Rows(cells, w, h))
    ensures CellCount(Enumerated(cells, w)) == w * h
    ensures BreakCount(Enumerated(cells, w)) == h - 1
  {
    EnumeratedIsJoined(cells, w, h);
    RowsFlatten(cells, w, h);
    JoinedCounts(Rows(cells, w, h));
    AllCellsCount(cells);
  }

  /** Every piece of the enumeration is a break or one of the cells. */
  lemma {:induction false} EnumeratedFrom(cells: seq<Piece>, w: nat)
    requires w > 0
    ensures forall p | p in Enumerated(cells, w) :: p == Break || p in cells
    decreases |cells|
  {
    if cells != [] {
      EnumeratedFrom(cells[..|cells| - 1], w);
    }
  }
  /** Every piece of the terminated rows is a break or a piece of one of
      the rows. */
  lemma {:induction false} TerminatedFrom(rows: seq<seq<Piece>>)
    ensures forall p | p in Terminated(rows) :: p == Break || exists y | 0 <= y < |rows| :: p in rows[y]
    decreases |rows|
  {
    if rows != [] {
      var n := |rows|;
      var front := rows[..n - 1];
      TerminatedFrom(front);
      forall p | p in Terminated(rows)
        ensures p == Break || exists y | 0 <= y < n :: p in rows[y]
      {
        if p != Break && p in Terminated(front) {
          var y :| 0 <= y < n - 1 && p in front[y];
          assert p in rows[y];
        }
      }
    }
  }

  /** The style and the glyph sit at fixed offsets of a span, so both can
      be read back from its markup. */
  lemma SpanFields(style: string, glyph: string)
    ensures |Span(style, glyph)| == |style| + |glyph| + 22
    ensures Span(style, glyph)[13 .. 13 + |style|] == style
    ensures Span(style, glyph)[15 + |style| .. 15 + |style| + |glyph|] == glyph
  {
    var s := Span(style, glyph);
    assert s == ("<span style=\"" + style) + ("\">" + glyph + "</span>");
    assert s[13 .. 13 + |style|] == ("<span style=\"" + style)[13..];
    assert s == ("<span style=\"" + style + "\">") + glyph + "</span>";
  }

  /** Every piece has non-empty markup, so only no pieces render as "". */
  lemma HtmlEmpty(ps: seq<Piece>)
    ensures Html(ps) == "" <==> ps == []
  {
    if ps != [] {
      assert |PieceHtml(ps[|ps| - 1])| > 0;
    }
  }

  /** Markup is either empty or opens with a tag. */
  lemma {:induction false} HtmlStartsWithTag(ps: seq<Piece>)
    ensures Html(ps) == "" || Html(ps)[0] == '<'
    decreases |ps|
  {
    if |ps| > 0 {
      var front := ps[..|ps| - 1];
      HtmlStartsWithTag(front);
      assert PieceHtml(ps[|ps| - 1])[0] == '<';
      assert Html(ps) == Html(front) + PieceHtml(ps[|ps| - 1]);
    }
  }

  /** One more piece of a sequence adds that piece's markup. */
  lemma HtmlOfPrefix(ps: seq<Piece>, x: nat)
    requires x < |ps|
    ensures Html(ps[..x + 1]) == Html(ps[..x]) + PieceHtml(ps[x])
  {
    assert ps[..x + 1][..x] == ps[..x];
  }

  /** One more terminated row adds its markup and a `<br>`. */
  lemma HtmlOfTerminatedPrefix(rows: seq<seq<Piece>>, k: nat)
    requires k < |rows|
    ensures Html(Terminated(rows[..k + 1])) == Html(Terminated(rows[..k])) + Html(rows[k]) + "<br>"
  {
    assert rows[..k + 1][..k] == rows[..k];
    var front := Terminated(rows[..k]);
    HtmlConcat(front, rows[k]);
    HtmlConcat(front + rows[k], [Break]);
    assert Html([Break]) == "<br>" by {
      assert [Break][..0] == [];
    }
  }

  /** One more enumerated cell adds an optional break and the cell, in both
      the markup and the raw text. */
  lemma EnumeratedOfPrefix(cells: seq<Piece>, w: nat, i: nat)
    requires w > 0 && i < |cells|
    ensures Html(Enumerated(cells[..i + 1], w))
         == Html(Enumerated(cells[..i], w)) + (if i % w == 0 && i != 0 then "<br>" else "") + PieceHtml(cells[i])
    ensures Text(Enumerated(cells[..i + 1], w))
         == Text(Enumerated(cells[..i], w)) + (if i % w == 0 && i != 0 then "\n" else "") + PieceText(cells[i])
  {
    var front := Enumerated(cells[..i], w);
    var brk: seq<Piece> := if i % w == 0 && i != 0 then [Break] else [];
    assert cells[..i + 1][..i] == cells[..i];
    assert Enumerated(cells[..i + 1], w) == front + brk + [cells[i]];
    HtmlConcat(front, brk);
    HtmlConcat(front + brk, [cells[i]]);
    TextConcat(front, brk);
    TextConcat(front + brk, [cells[i]]);
    assert [cells[i]][..0] == [];
    assert [Break][..0] == [];
  }
}
