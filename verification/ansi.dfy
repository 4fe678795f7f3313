/**
 The ANSI side of the colour engine: the style and colour tables, the SGR
 escape sequence ("Select Graphic Rendition", section 8.3.117 of ECMA-48),
 and a reference function that strips such sequences from a string.
 */
module Ansi {
  import opened Results

  /** The escape character 0x1B that introduces every control sequence. */
  const ESC: char := '\U{1B}'

  /** The two style markers the markup accepts: `*` (bold) and `_` (underline). */
  datatype Style = Bold | Underline

  /** The `styles` table: SGR parameter of a style marker; no marker means plain. */
  function StyleCode(style: Option<Style>): (r: string)
    ensures |r| == 1 && '0' <= r[0] <= '9'
  {
    match style
    case Some(Bold) => "1"
    case Some(Underline) => "4"
    case None => "0"
  }

  /** The `colors` table: SGR foreground parameter of a colour letter, if it is one. */
  function ColorCode(c: char): Option<nat>
  {
    match c
    case 'k' => Some(30) case 'K' => Some(90)
    case 'r' => Some(31) case 'R' => Some(91)
    case 'g' => Some(32) case 'G' => Some(92)
    case 'y' => Some(33) case 'Y' => Some(93)
    case 'b' => Some(34) case 'B' => Some(94)
    case 'm' => Some(35) case 'M' => Some(95)
    case 'c' => Some(36) case 'C' => Some(96)
    case 'w' => Some(37) case 'W' => Some(97)
    case _ => None
  }

  /** The lower-case letters of the table, in SGR order (black, red, ..., white). */
  const NormalColors: string := "krgybmcw"

  /** The upper-case (bright) letters of the table, in the same order. */
  const BrightColors: string := "KRGYBMCW"

  /** Decimal rendering of a natural number, as Python's `str` on an int. */
  function Decimal(n: nat): (r: string)
    ensures |r| > 0
    ensures forall k :: 0 <= k < |r| ==> '0' <= r[k] <= '9'
    decreases n
  {
    var d := ['0' + (n % 10) as char];
    if n < 10 then d else Decimal(n / 10) + d
  }


  /**
   The `escape` method: with colour on, the control sequence `ESC [ params m`;
   with colour off, nothing at all.
   */
  function Escape(color: bool, params: string): string
  {
    if color then [ESC, '['] + params + "m" else ""
  }

  /** Drops everything up to and including the first `m`. */
  function DropThroughM(r: string): (d: string)
    ensures |d| <= |r|
    decreases |r|
  {
    if r == [] then []
    else if r[0] == 'm' then r[1..]
    else DropThroughM(r[1..])
  }

  /**
   Removes every control sequence `ESC ... m` from a string and keeps every
   other character: what a reader of the coloured text sees, minus the colours.
   */
  function Strip(r: string): string
    decreases |r|
  {
    if r == [] then []
    else if r[0] == ESC then Strip(DropThroughM(r[1..]))
    else [r[0]] + Strip(r[1..])
  }

  /** Stripping removes a whole SGR sequence whose parameters hold no `m`. */
  lemma {:induction false} StripEscape(params: string, rest: string)
    requires forall k :: 0 <= k < |params| ==> params[k] != 'm'
    ensures Strip(Escape(true, params) + rest) == Strip(rest)
  {
    var s := Escape(true, params) + rest;
    assert s[0] == ESC;
    assert s[1..] == ['['] + params + ['m'] + rest;
    DropThroughMSkips(['['] + params, rest);
  }

  lemma {:induction false} DropThroughMSkips(p: string, rest: string)
    requires forall k :: 0 <= k < |p| ==> p[k] != 'm'
    ensures DropThroughM(p + ['m'] + rest) == rest
    decreases |p|
  {
    if p == [] {
      assert p + ['m'] + rest == ['m'] + rest;
    } else {
      assert (p + ['m'] + rest)[1..] == p[1..] + ['m'] + rest;
      DropThroughMSkips(p[1..], rest);
    }
  }

  /** Stripping keeps text that holds no escape character. */
  lemma {:induction false} StripPlain(t: string, rest: string)
    requires ESC !in t
    ensures Strip(t + rest) == t + Strip(rest)
    decreases |t|
  {
    if t != [] {
      assert (t + rest)[0] == t[0];
      assert (t + rest)[1..] == t[1..] + rest;
      StripPlain(t[1..], rest);
      assert t == [t[0]] + t[1..];
    } else {
      assert t + rest == rest;
    }
  }

  /**
   The colour table: exactly the sixteen letters `krgybmcwKRGYBMCW` have a
   code; the k-th normal letter maps to 30 + k and the k-th bright letter to 90 + k.
   */
  lemma ColorTable(c: char)
    ensures ColorCode(c).Some? <==> c in NormalColors || c in BrightColors
    ensures forall k :: 0 <= k < 8 ==> ColorCode(NormalColors[k]) == Some(30 + k)
    ensures forall k :: 0 <= k < 8 ==> ColorCode(BrightColors[k]) == Some(90 + k)
  {
  }
}
