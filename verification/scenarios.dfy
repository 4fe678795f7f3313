/**
 Concrete renderings, including the places where the code departs from its
 own documentation: a `}}` in a body stays two characters, an empty body adds
 no reset, and the colour letter is optional.

 Each example goes through a general lemma that takes the input text as a
 parameter, so that the concrete text only has to be matched against its
 parts.
 */
module Scenarios {
  import opened Results
  import opened Ansi
  import opened Markup
  import opened Color
  import opened ColorProperties

  /**
   `ESC [ params m` spelled out by hand. The examples compare against this
   spelling rather than `Escape(true, ·)`, so they also pin down the escape
   format itself and not only agreement with the renderer's own helper.
   */
  function Sgr(params: string): string
  {
    [ESC] + "[" + params + "m"
  }

  /** A render result becomes the `colorize` result. */
  lemma ColorizeOk(s: string, color: bool, out: string)
    requires Render(s, color) == Ok(out)
    ensures Colorize(s, color) == Ok(out)
  {
  }

  /** Text without `@` renders as itself. */
  lemma RenderPlain(t: string, color: bool)
    requires '@' !in t
    ensures Render(t, color) == Ok(t)
  {
    RenderTextPrefix(t, [], color);
    assert t + [] == t;
  }

  // ---------------------------------------------------------------------------
  // General shapes of the examples.

  /** `@@` followed by plain text. */
  lemma LiteralAtShape(s: string, rest: string, color: bool)
    requires '@' !in rest && s == "@@" + rest
    ensures Colorize(s, color) == Ok("@" + rest)
  {
    LiteralAtFront(rest, color);
    RenderPlain(rest, color);
    ColorizeOk(s, color, "@" + rest);
  }

  /** `@.` followed by plain text. */
  lemma ResetShape(s: string, rest: string, color: bool)
    requires '@' !in rest && s == "@." + rest
    ensures Colorize(s, color) == Ok(Escape(color, "0") + rest)
  {
    ResetFront(rest, color);
    RenderPlain(rest, color);
    ColorizeOk(s, color, Escape(color, "0") + rest);
  }

  /** Plain text, a bare `@`, then text that continues no match. */
  lemma BareAtShape(s: string, p: string, t: string, color: bool)
    requires '@' !in p && NoContinuation(t) && s == p + "@" + t
    ensures Colorize(s, color) == Err(ColorParseError(IncompleteFormat, s))
  {
    BareAtFails(p, t, color);
  }

  /** Plain text, then a span whose letter is not in the table. */
  lemma InvalidLetterShape(s: string, p: string, st: Option<Style>, x: char, t: string, color: bool)
    requires '@' !in p && IsAsciiLetter(x) && ColorCode(x).None?
    requires s == p + "@" + StyleSource(st) + [x] + t
    ensures Colorize(s, color) == Err(ColorParseError(InvalidColor(x), s))
  {
    InvalidLetterFails(p, st, x, t, color);
  }

  /** A single styled block followed by plain text. */
  lemma BlockShape(s: string, st: Option<Style>, l: Option<char>, w: string, n: nat,
                   color: bool, out: string)
    requires l.Some? ==> IsAsciiLetter(l.value) && ColorCode(l.value).Some?
    requires BlockEndsAt(w, n) && '@' !in w[n + 1..]
    requires s == "@" + StyleSource(st) + LetterSource(l) + "{" + w
    requires out == Escape(color, SgrParams(st, l))
                    + (if n > 0 then w[..n] + Escape(color, "0") else "") + w[n + 1..]
    ensures Colorize(s, color) == Ok(out)
  {
    var sgr := Escape(color, SgrParams(st, l));
    var mid := if n > 0 then w[..n] + Escape(color, "0") else "";
    var rest := w[n + 1..];
    BlockRender(st, l, w, n, color);
    RenderPlain(rest, color);
    assert Render(s, color) == Then(Ok(sgr + mid), Ok(rest));
    ColorizeOk(s, color, out);
  }

  /** A single styled span without a block, followed by plain text. */
  lemma SwitchShape(s: string, st: Option<Style>, l: Option<char>, rest: string,
                    color: bool, out: string)
    requires st.Some? || l.Some?
    requires l.Some? ==> IsAsciiLetter(l.value) && ColorCode(l.value).Some?
    requires l.None? ==> rest == [] || !IsAsciiLetter(rest[0])
    requires rest == [] || rest[0] != '{' || Unclosable(rest)
    requires '@' !in rest
    requires s == Source(Span(st, l, None)) + rest
    requires out == Escape(color, SgrParams(st, l)) + rest
    ensures Colorize(s, color) == Ok(out)
  {
    SwitchRender(st, l, rest, color);
    RenderPlain(rest, color);
    assert Render(s, color) == Then(Ok(Escape(color, SgrParams(st, l))), Ok(rest));
    ColorizeOk(s, color, out);
  }

  // ---------------------------------------------------------------------------
  // Values used by the examples.

  lemma Params()
    ensures SgrParams(None, Some('r')) == "0;31"
    ensures SgrParams(Some(Bold), Some('b')) == "1;34"
    ensures SgrParams(None, None) == "0"
    ensures Escape(true, "0;31") == Sgr("0;31")
    ensures Escape(true, "1;34") == Sgr("1;34")
    ensures Escape(true, "0") == Sgr("0")
  {
    TwoDigits(3, 1);
    TwoDigits(3, 4);
  }

  /** `hi}` closes after `hi`. */
  lemma HiEnds()
    ensures BlockEndsAt("hi}", 2)
    ensures "hi}"[..2] == "hi" && "hi}"[3..] == ""
  {
    assert ValidBody("i");
    assert ValidBody("hi");
  }

  /** `}` closes an empty body at once. */
  lemma EmptyEnds()
    ensures BlockEndsAt("}", 0)
    ensures "}"[..0] == "" && "}"[1..] == ""
  {
    assert ValidBody("");
  }

  // ---------------------------------------------------------------------------
  // `@@`, `@.` and the bare `@`.

  /** `@@` gives `@`, whatever the colour flag. */
  lemma LiteralAtExample(color: bool)
    ensures Colorize("@@", color) == Ok("@")
  {
    LiteralAtShape("@@", "", color);
    assert "@" + "" == "@";
  }

  /** `@.` gives the reset sequence with colour on. */
  lemma ResetExample()
    ensures Colorize("@.", true) == Ok(Sgr("0"))
  {
    Params();
    ResetShape("@.", "", true);
    assert Escape(true, "0") + "" == Sgr("0");
  }

  /** `@.` gives nothing with colour off. */
  lemma PlainResetExample()
    ensures Colorize("@.", false) == Ok("")
  {
    ResetShape("@.", "", false);
    assert Escape(false, "0") + "" == "";
  }

  /** A bare `@` at the end of the input is rejected. */
  lemma TrailingAtExample(color: bool)
    ensures Colorize("@", color) == Err(ColorParseError(IncompleteFormat, "@"))
  {
    BareAtShape("@", "", "", color);
  }

  /** An `@` before a character that continues no match is rejected. */
  lemma BareAtExample(color: bool)
    ensures Colorize("a@ b", color) == Err(ColorParseError(IncompleteFormat, "a@ b"))
  {
    assert NoContinuation(" b");
    BareAtShape("a@ b", "a", " b", color);
  }

  /** `@{` with no `}` after it is the bare `@` followed by text, and is rejected. */
  lemma UnclosedBlockFails(body: string, color: bool)
    requires '}' !in body
    ensures Colorize("@{" + body, color) == Err(ColorParseError(IncompleteFormat, "@{" + body))
  {
    var t := "{" + body;
    forall e: nat | e < |t|
      ensures !Closes(t, 1, e)
    {
      if e > 0 {
        assert t[e] == body[e - 1];
      }
    }
    assert NoContinuation(t);
    BareAtShape("@{" + body, "", t, color);
  }

  /** A letter outside the table is rejected, also with colour off. */
  lemma InvalidLetterExample(color: bool)
    ensures Colorize("@x{hi}", color) == Err(ColorParseError(InvalidColor('x'), "@x{hi}"))
  {
    assert ColorCode('x').None?;
    InvalidLetterShape("@x{hi}", "", None, 'x', "{hi}", color);
  }

  // ---------------------------------------------------------------------------
  // Styled blocks.

  /** `@r{hi}`: red text, then one reset. */
  lemma RedBlockExample()
    ensures Colorize("@r{hi}", true) == Ok(Sgr("0;31") + "hi" + Sgr("0"))
  {
    Params();
    HiEnds();
    BlockShape("@r{hi}", None, Some('r'), "hi}", 2, true, Sgr("0;31") + "hi" + Sgr("0"));
  }

  /** `@*b{hi}`: bold blue text, then one reset. */
  lemma BoldBlueBlockExample()
    ensures Colorize("@*b{hi}", true) == Ok(Sgr("1;34") + "hi" + Sgr("0"))
  {
    Params();
    HiEnds();
    BlockShape("@*b{hi}", Some(Bold), Some('b'), "hi}", 2, true, Sgr("1;34") + "hi" + Sgr("0"));
  }

  /** `@r{hi}` with colour off: the text alone. */
  lemma PlainBlockExample()
    ensures Colorize("@r{hi}", false) == Ok("hi")
  {
    HiEnds();
    BlockShape("@r{hi}", None, Some('r'), "hi}", 2, false, "hi");
  }

  /** Inside a block `}}` is not turned into `}`: `@r{a}}b}` keeps `a}}b`. */
  lemma DoubledBraceKeptExample()
    ensures Colorize("@r{a}}b}", true) == Ok(Sgr("0;31") + "a}}b" + Sgr("0"))
  {
    Params();
    var w := "a}}b}";
    assert BlockEndsAt(w, 4) by {
      assert ValidBody("b");
      assert ValidBody("}}b");
      assert ValidBody("a}}b");
    }
    assert w[..4] == "a}}b" && w[5..] == "";
    BlockShape("@r{a}}b}", None, Some('r'), w, 4, true, Sgr("0;31") + "a}}b" + Sgr("0"));
  }

  /** In `@r{a}}b` the block closes at the first `}`, leaving `}b` as text. */
  lemma DoubledBraceSplitExample()
    ensures Colorize("@r{a}}b", true) == Ok(Sgr("0;31") + "a" + Sgr("0") + "}b")
  {
    Params();
    var w := "a}}b";
    assert BlockEndsAt(w, 1) by {
      assert ValidBody("a");
      assert !ValidBody("}");
      assert !ValidBody("a}");
      assert w[..2] == "a}";
    }
    assert w[..1] == "a" && w[2..] == "}b";
    BlockShape("@r{a}}b", None, Some('r'), w, 1, true, Sgr("0;31") + "a" + Sgr("0") + "}b");
  }

  /** An empty block adds no reset: `@r{}`. */
  lemma EmptyRedBlockExample()
    ensures Colorize("@r{}", true) == Ok(Sgr("0;31"))
  {
    Params();
    EmptyEnds();
    BlockShape("@r{}", None, Some('r'), "}", 0, true, Sgr("0;31"));
  }

  /** `@{}` is a reset with no colour code. */
  lemma EmptyBlockExample()
    ensures Colorize("@{}", true) == Ok(Sgr("0"))
  {
    Params();
    EmptyEnds();
    BlockShape("@{}", None, None, "}", 0, true, Sgr("0"));
  }

  // ---------------------------------------------------------------------------
  // Spans without a block.

  /** A span without a block only switches colour on: `@r`. */
  lemma RedSwitchExample()
    ensures Colorize("@r", true) == Ok(Sgr("0;31"))
  {
    Params();
    SwitchShape("@r", None, Some('r'), "", true, Sgr("0;31"));
  }

  /** An unclosed `{` after a letter is plain text: `@r{abc`. */
  lemma UnclosedAfterLetterExample()
    ensures Colorize("@r{abc", true) == Ok(Sgr("0;31") + "{abc")
  {
    Params();
    var t := "{abc";
    assert Unclosable(t) by {
      forall e: nat | e < |t|
        ensures !Closes(t, 1, e)
      {
        assert e == 0 || t[e] != '}';
      }
    }
    SwitchShape("@r{abc", None, Some('r'), t, true, Sgr("0;31") + "{abc");
  }
}
