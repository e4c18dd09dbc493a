/** The named character ramps, the choice of ramp per mode, the luminance
    bucket that selects a glyph, and the HTML escaping of ramp glyphs. */
module Charsets {
  import opened Pixels

  const Standard := "@%#*+=-:. "
  const Simple := "#@. "
  const Blocks := "█▓▒░ "
  const Binary := "10 "
  const Dots := "⣿⣧⣤⣦⣄⣀⠐⠄ "
  const Line := "/\\|()[]{}?-_+~<>!;:,. "

  /** Each ramp runs from the darkest glyph to the lightest (a space). */
  const CharSets: map<string, string> := map[
    "standard" := Standard,
    "simple" := Simple,
    "blocks" := Blocks,
    "binary" := Binary,
    "dots" := Dots,
    "line" := Line
  ]

  /** Modes that force their own ramp whatever the charset key says. */
  predicate ForcesRamp(mode: string) {
    mode == "dots" || mode == "line" || mode == "binary"
  }

  /** The ramp a glyph mode draws from: the mode's own ramp for dots, line
      and binary; otherwise the ramp named by the key, or the standard ramp
      when the key names none. */
  function Ramp(mode: string, key: string): (chars: string)
    ensures chars in CharSets.Values && 3 <= |chars|
    ensures ForcesRamp(mode) ==> mode in CharSets && chars == CharSets[mode]
    ensures !ForcesRamp(mode) && key in CharSets ==> chars == CharSets[key]
    ensures !ForcesRamp(mode) && key !in CharSets ==> chars == Standard
  {
    assert CharSets["standard"] == Standard;
    assert forall k | k in CharSets :: 3 <= |CharSets[k]|;
    if ForcesRamp(mode) then CharSets[mode]
    else if key in CharSets then CharSets[key]
    else CharSets["standard"]
  }

  /** The bucket of luminance `val` in a ramp of `n` glyphs: the floor of
      `val * (n - 1) / 255`. */
  function RampIndex(val: Channel, n: nat): (k: nat)
    requires n >= 1
    ensures k < n
    ensures 255 * k <= val * (n - 1) < 255 * (k + 1)
  {
    assert val * (n - 1) <= 255 * (n - 1) by {
      assert (255 - val) * (n - 1) >= 0;
    }
    val * (n - 1) / 255
  }

  /** Brighter pixels never select an earlier glyph. */
  lemma RampIndexMonotone(v1: Channel, v2: Channel, n: nat)
    requires n >= 1 && v1 <= v2
    ensures RampIndex(v1, n) <= RampIndex(v2, n)
  {
    ScaleMonotone(v1, v2, n - 1);
  }

  lemma {:induction false} ScaleMonotone(a: nat, b: nat, m: nat)
    requires a <= b
    ensures a * m <= b * m
    decreases m
  {
    if m > 0 {
      ScaleMonotone(a, b, m - 1);
      assert a * m == a * (m - 1) + a && b * m == b * (m - 1) + b;
    }
  }

  /** Black selects the first glyph and white the last. */
  lemma RampIndexEnds(n: nat)
    requires n >= 1
    ensures RampIndex(0, n) == 0
    ensures RampIndex(255, n) == n - 1
  {
  }

  /** A ramp glyph as written into the markup and the raw text. */
  function Escape(c: char): (s: string)
    ensures '<' !in s && '>' !in s
    ensures c != '<' && c != '>' ==> s == [c]
    ensures c == '<' ==> s == "&lt;"
    ensures c == '>' ==> s == "&gt;"
  {
    if c == '<' then "&lt;" else if c == '>' then "&gt;" else [c]
  }

  /** Escaping loses nothing: distinct glyphs stay distinct. */
  lemma EscapeInjective(c1: char, c2: char)
    requires Escape(c1) == Escape(c2)
    ensures c1 == c2
  {
    if c1 == '<' || c1 == '>' || c2 == '<' || c2 == '>' {
      assert Escape(c1)[1] == Escape(c2)[1];
    } else {
      assert Escape(c1)[0] == Escape(c2)[0];
    }
  }

  /** The line ramp is the only one holding characters that need escaping. */
  lemma OnlyLineRampEscapes(key: string)
    requires key in CharSets
    ensures key == "line" <==> exists i | 0 <= i < |CharSets[key]| :: Escape(CharSets[key][i]) != [CharSets[key][i]]
  {
    if key == "line" {
      assert Line[14] == '<';
    } else {
      var chars := CharSets[key];
      assert chars == Standard || chars == Simple || chars == Blocks || chars == Binary || chars == Dots;
      assert forall i | 0 <= i < |chars| :: chars[i] != '<' && chars[i] != '>';
    }
  }

  /** Glyphs for the matrix mode: half-width katakana and two digits. */
  const MatrixGlyphs := "ﾊﾐﾋｰｳｼﾅﾓﾆｻﾜﾂｵﾘｱﾎﾃﾏｹﾒｴｶｷﾑﾕﾗｾﾈｽﾀﾇﾍ10"
}
