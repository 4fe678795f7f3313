/**
 `cwrite` and `cprint` as functions that return the text they would write.
 The stream is not modelled: whether it is a terminal is passed in.
 */
module Writers {
  import opened Results
  import opened Ansi
  import opened Markup
  import opened Color
  import opened ColorProperties

  /** Whether `cwrite` colours: an explicit choice wins, otherwise a terminal is coloured. */
  predicate UsesColor(color: Option<bool>, isatty: bool)
  {
    if color.Some? then color.value else isatty
  }

  /**
   `cwrite`: the input rendered, coloured as `UsesColor` decides. Whether the
   call fails, and with which error, does not depend on the colour choice; a
   line without `@` is written as it is; stripped of its escapes the output is
   the plain rendering; and a stream that gets no colour gets only characters
   of the input, so no escape sequence reaches it from the markup.
   */
  function Cwrite(s: string, color: Option<bool>, isatty: bool): (r: Result<string, ColorParseError>)
    ensures r.Err? ==> r.error.input == s
    ensures r.Err? <==> Colorize(s, false).Err?
    ensures r.Err? ==> r == Colorize(s, true) && r == Colorize(s, false)
    ensures '@' !in s ==> r == Ok(s)
    ensures ESC !in s && r.Ok? ==> Colorize(s, false).Ok? && Strip(r.value) == Colorize(s, false).value
    ensures !UsesColor(color, isatty) && r.Ok? ==> forall ch :: ch in r.value ==> ch in s
    ensures UsesColor(color, isatty) ==> r == Colorize(s, true)
    ensures !UsesColor(color, isatty) ==> r == Colorize(s, false)
  {
    var on := UsesColor(color, isatty);
    ColorizeFacts(s, on);
    ErrorsIgnoreColor(s);
    Colorize(s, on)
  }

  /** What every `colorize` result satisfies, whichever the colour flag. */
  lemma ColorizeFacts(s: string, on: bool)
    ensures Colorize(s, on).Err? <==> Colorize(s, false).Err?
    ensures Colorize(s, on).Err? ==> Colorize(s, on) == Colorize(s, false)
    ensures '@' !in s ==> Colorize(s, on) == Ok(s)
    ensures ESC !in s && Colorize(s, on).Ok? ==>
              Colorize(s, false).Ok? && Strip(Colorize(s, on).value) == Colorize(s, false).value
    ensures !on && Colorize(s, on).Ok? ==> forall ch :: ch in Colorize(s, on).value ==> ch in s
  {
    ErrorsIgnoreColor(s);
    if '@' !in s {
      NoMarkupIsIdentity(s, on);
    }
    if Colorize(s, false).Ok? {
      PlainOutputFromInput(s);
    }
    if ESC !in s && Colorize(s, on).Ok? {
      if on {
        ColorOnlyAddsEscapes(s);
      } else {
        var v := Colorize(s, false).value;
        StripPlain(v, []);
        assert v + [] == v;
      }
    }
  }

  /**
   `cprint`: `cwrite` of the input with a newline appended before rendering.
   No match can take the newline, so a successful output always ends with it.
   */
  function Cprint(s: string, color: Option<bool>, isatty: bool): (r: Result<string, ColorParseError>)
    ensures r.Ok? ==> |r.value| > 0 && r.value[|r.value| - 1] == '\n'
    ensures r.Err? ==> r.error.input == s + "\n"
    ensures '@' !in s ==> r == Ok(s + "\n")
    ensures r == Cwrite(s + "\n", color, isatty)
    ensures r.Err? <==> Colorize(s + "\n", false).Err?
  {
    var on := UsesColor(color, isatty);
    LineEndsWithNewline(s, on);
    PlainLine(s, on);
    var r := Cwrite(s + "\n", color, isatty);
    assert r == Colorize(s + "\n", on);
    r
  }

  lemma PlainLine(s: string, color: bool)
    ensures '@' !in s ==> Colorize(s + "\n", color) == Ok(s + "\n")
  {
    if '@' !in s {
      NoMarkupIsIdentity(s + "\n", color);
    }
  }

  lemma LineEndsWithNewline(s: string, color: bool)
    ensures var r := Colorize(s + "\n", color);
            r.Ok? ==> |r.value| > 0 && r.value[|r.value| - 1] == '\n'
  {
    var t := s + "\n";
    RenderEndsWith(t, '\n', color);
    assert EndsWithIfOk(Render(t, color), '\n');
  }
}
