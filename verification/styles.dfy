/** The inline CSS each rendering mode writes into a cell, and the colour
    override rule shared by the modes that honour an override. */
module Styles {
  import opened Pixels

  function Digit(d: nat): (c: char)
    requires d < 10
    ensures '0' <= c <= '9' && c as int - '0' as int == d
  {
    ('0' as int + d) as char
  }

  /** Decimal notation of a natural number, as Python formats an int. */
  function Decimal(n: nat): (s: string)
    ensures 1 <= |s|
    ensures forall i | 0 <= i < |s| :: '0' <= s[i] <= '9'
    ensures s[0] == '0' ==> n == 0
    decreases n
  {
    if n < 10 then [Digit(n)] else Decimal(n / 10) + [Digit(n % 10)]
  }

  /** Reads a string of decimal digits back as a number. */
  function DecimalValue(s: string): int
    decreases |s|
  {
    if s == [] then 0 else DecimalValue(s[..|s| - 1]) * 10 + (s[|s| - 1] as int - '0' as int)
  }

  lemma {:induction false} DecimalRoundTrip(n: nat)
    ensures DecimalValue(Decimal(n)) == n
    decreases n
  {
    if n >= 10 {
      var s := Decimal(n);
      assert s[..|s| - 1] == Decimal(n / 10);
      DecimalRoundTrip(n / 10);
    }
  }

  function RgbText(c: Rgb): string {
    "rgb(" + Decimal(c.r) + "," + Decimal(c.g) + "," + Decimal(c.b) + ")"
  }

  /** The number of decimal digits `s` starts with. */
  function DigitRun(s: string): (n: nat)
    ensures n <= |s|
    decreases |s|
  {
    if s != [] && '0' <= s[0] <= '9' then 1 + DigitRun(s[1..]) else 0
  }

  lemma {:induction false} DigitRunAfter(a: string, c: char, x: string)
    requires forall i | 0 <= i < |a| :: '0' <= a[i] <= '9'
    requires !('0' <= c <= '9')
    ensures DigitRun(a + [c] + x) == |a|
    decreases |a|
  {
    if a != [] {
      assert (a + [c] + x)[1..] == a[1..] + [c] + x;
      DigitRunAfter(a[1..], c, x);
    }
  }

  /** Two digit strings, each followed by the same non-digit, split the
      same way. */
  lemma DigitsThen(a: string, x: string, b: string, y: string, c: char)
    requires forall i | 0 <= i < |a| :: '0' <= a[i] <= '9'
    requires forall i | 0 <= i < |b| :: '0' <= b[i] <= '9'
    requires !('0' <= c <= '9')
    requires a + [c] + x == b + [c] + y
    ensures a == b && x == y
  {
    var s := a + [c] + x;
    DigitRunAfter(a, c, x);
    DigitRunAfter(b, c, y);
    assert a == s[..|a|] == b;
    assert x == s[|a| + 1..] == y;
  }

  /** The colour text followed by `x`, split at its separators. */
  lemma RgbTextFields(c: Rgb, x: string)
    ensures RgbText(c) + x == "rgb(" + (Decimal(c.r) + [','] + (Decimal(c.g) + [','] + (Decimal(c.b) + [')'] + x)))
  {
    var r, g, b := Decimal(c.r), Decimal(c.g), Decimal(c.b);
    assert RgbText(c) == "rgb(" + r + [','] + g + [','] + b + [')'];
  }

  /** The colour text of a pixel is never a proper prefix of another
      colour text: whatever follows it, the colour can be read back. */
  lemma RgbTextPrefixFree(c1: Rgb, c2: Rgb, x: string, y: string)
    requires RgbText(c1) + x == RgbText(c2) + y
    ensures c1 == c2 && x == y
  {
    var b1, b2 := Decimal(c1.b) + [')'] + x, Decimal(c2.b) + [')'] + y;
    var g1, g2 := Decimal(c1.g) + [','] + b1, Decimal(c2.g) + [','] + b2;
    var r1, r2 := Decimal(c1.r) + [','] + g1, Decimal(c2.r) + [','] + g2;
    RgbTextFields(c1, x);
    RgbTextFields(c2, y);
    assert r1 == (RgbText(c1) + x)[4..] == r2;
    DigitsThen(Decimal(c1.r), g1, Decimal(c2.r), g2, ',');
    DigitsThen(Decimal(c1.g), b1, Decimal(c2.g), b2, ',');
    DigitsThen(Decimal(c1.b), x, Decimal(c2.b), y, ')');
    DecimalRoundTrip(c1.r);
    DecimalRoundTrip(c2.r);
    DecimalRoundTrip(c1.g);
    DecimalRoundTrip(c2.g);
    DecimalRoundTrip(c1.b);
    DecimalRoundTrip(c2.b);
  }

  /** The colour picker's default value, treated as "no override". */
  const Placeholder := "#ffffff"

  /** An override applies when it is non-empty and not the placeholder. */
  predicate OverrideActive(hex: string) {
    hex != "" && hex != Placeholder
  }

  /** Half-block cell: foreground from the top pixel, background from the
      bottom one; there is no override parameter at all. */
  function SubpixelStyle(top: Rgb, bottom: Rgb): string {
    "color:" + RgbText(top) + ";background-color:" + RgbText(bottom) + ";"
  }

  /** Both pixels of a half-block cell can be read back from its style. */
  lemma SubpixelStyleInjective(top1: Rgb, bottom1: Rgb, top2: Rgb, bottom2: Rgb)
    requires SubpixelStyle(top1, bottom1) == SubpixelStyle(top2, bottom2)
    ensures top1 == top2 && bottom1 == bottom2
  {
    var t1 := ";background-color:" + (RgbText(bottom1) + ";");
    var t2 := ";background-color:" + (RgbText(bottom2) + ";");
    SubpixelStyleFields(top1, bottom1);
    SubpixelStyleFields(top2, bottom2);
    SamePrefix("color:", RgbText(top1) + t1, RgbText(top2) + t2);
    RgbTextPrefixFree(top1, top2, t1, t2);
    SamePrefix(";background-color:", RgbText(bottom1) + ";", RgbText(bottom2) + ";");
    RgbTextPrefixFree(bottom1, bottom2, ";", ";");
  }

  lemma SubpixelStyleFields(top: Rgb, bottom: Rgb)
    ensures SubpixelStyle(top, bottom) == "color:" + (RgbText(top) + (";background-color:" + (RgbText(bottom) + ";")))
  {
  }

  lemma SamePrefix(p: string, u: string, v: string)
    requires p + u == p + v
    ensures u == v
  {
    assert u == (p + u)[|p|..];
  }

  function SolidStyle(hex: string, c: Rgb): (s: string)
    ensures OverrideActive(hex) ==> s == "color:" + hex + ";"
    ensures !OverrideActive(hex) ==> s == "color:" + RgbText(c) + ";"
  {
    if OverrideActive(hex) then "color:" + hex + ";" else "color:" + RgbText(c) + ";"
  }

  /** Ramp text cells: colour ASCII always takes the pixel's colour; the
      other ramp modes take an active override or no colour at all. */
  function RampStyle(mode: string, hex: string, c: Rgb): (s: string)
    ensures mode == "ascii_color" ==> s == "color:" + RgbText(c) + ";"
    ensures mode != "ascii_color" && OverrideActive(hex) ==> s == "color:" + hex + ";"
    ensures mode != "ascii_color" && !OverrideActive(hex) ==> s == ""
  {
    if mode == "ascii_color" then "color:" + RgbText(c) + ";"
    else if OverrideActive(hex) then "color:" + hex + ";"
    else ""
  }

  /** Cells at or below this luminance are blank in matrix mode. */
  const MatrixThreshold: Channel := 30

  const MatrixGreen := "rgba(0, 255, 70, 1)"

  /** `sub` appears in `s` starting at position `i`. */
  predicate OccursAt(s: string, sub: string, i: int) {
    0 <= i && i + |sub| <= |s| && forall k | 0 <= k < |sub| :: s[i + k] == sub[k]
  }

  /** Substring test, `sub in s` for two strings. */
  function HasSubstring(s: string, sub: string): (b: bool)
    ensures b <==> exists i :: OccursAt(s, sub, i)
    decreases |s|
  {
    if |s| < |sub| then false
    else if s[..|sub|] == sub then assert OccursAt(s, sub, 0); true
    else
      var rest := HasSubstring(s[1..], sub);
      assert !OccursAt(s, sub, 0);
      assert forall i | i >= 1 :: OccursAt(s, sub, i) <==> OccursAt(s[1..], sub, i - 1);
      if rest then
        var j :| OccursAt(s[1..], sub, j);
        assert OccursAt(s, sub, j + 1);
        true
      else
        false
  }

  /** Opacity in hundredths: `val / 255` rounded to two decimals.  The
      exact quotient is never half-way between two hundredths, so the
      rounding direction is never in question. */
  function AlphaHundredths(val: Channel): (h: nat)
    ensures h <= 100
    ensures 510 * h <= 200 * val + 255 < 510 * (h + 1)
  {
    (200 * val + 255) / 510
  }

  /** Python's shortest text for the float `h / 100`: "1.0", "0.5", "0.47". */
  function AlphaText(h: nat): (s: string)
    requires h <= 100
    ensures 3 <= |s| <= 4 && s[1] == '.'
    ensures forall i | 0 <= i < |s| && i != 1 :: '0' <= s[i] <= '9'
    ensures |s| == 4 ==> s[3] != '0'
    ensures s[0] == '1' <==> h == 100
  {
    if h == 100 then "1.0"
    else if h % 10 == 0 then "0." + [Digit(h / 10)]
    else if h < 10 then "0.0" + [Digit(h)]
    else
      assert Decimal(h) == Decimal(h / 10) + [Digit(h % 10)];
      "0." + Decimal(h)
  }

  /** Reads a text of the form "d.d" or "d.dd" back as hundredths. */
  function HundredthsValue(s: string): int
    requires 3 <= |s| <= 4
  {
    var whole := s[0] as int - '0' as int;
    var tenths := s[2] as int - '0' as int;
    var rest := if |s| == 4 then s[3] as int - '0' as int else 0;
    100 * whole + 10 * tenths + rest
  }

  lemma AlphaTextRoundTrip(h: nat)
    requires h <= 100
    ensures HundredthsValue(AlphaText(h)) == h
  {
    if h != 100 && h % 10 != 0 && h >= 10 {
      var d := Decimal(h);
      assert d == Decimal(h / 10) + [Digit(h % 10)];
      assert Decimal(h / 10) == [Digit(h / 10)];
    }
  }

  /** Matrix cells: an active override containing '#' (and not "rgba") is
      used with an opacity property; everything else falls back to green
      with the opacity as alpha channel. */
  function MatrixStyle(hex: string, val: Channel): (s: string)
    ensures OverrideActive(hex) && '#' in hex && !HasSubstring(hex, "rgba")
            ==> s == "color:" + hex + "; opacity:" + AlphaText(AlphaHundredths(val)) + ";"
    ensures !(OverrideActive(hex) && '#' in hex && !HasSubstring(hex, "rgba"))
            ==> s == "color:rgba(0, 255, 70, " + AlphaText(AlphaHundredths(val)) + ");"
  {
    var alpha := AlphaText(AlphaHundredths(val));
    var base := if OverrideActive(hex) then hex else MatrixGreen;
    assert HasSubstring(MatrixGreen, "rgba") by {
      assert MatrixGreen[0..4] == "rgba";
    }
    if !HasSubstring(base, "rgba") && '#' in base then "color:" + base + "; opacity:" + alpha + ";"
    else "color:rgba(0, 255, 70, " + alpha + ");"
  }
}
