/**
 The renderer of the colour markup: the `match_to_ansi` handler, `colorize`
 and `cescape`.
 */
module Color {
  import opened Results
  import opened Ansi
  import opened Markup

  /** Why a render call was rejected. */
  datatype ParseErrorKind = IncompleteFormat | InvalidColor(letter: char)

  /** `ColorParseError`: the reason and the whole string that was being rendered. */
  datatype ColorParseError = ColorParseError(kind: ParseErrorKind, input: string)

  /**
   The message the error carries: a 25-character heading, the offending
   fragment in quotes (`'@'` or the letter), ` in `, then the whole input;
   only the invalid-letter message puts quotes around the input.
   */
  function Message(err: ColorParseError): (r: string)
    ensures |r| == 32 + |err.input| + (if err.kind.InvalidColor? then 2 else 0)
    ensures r[25..28] == "'" + (if err.kind.IncompleteFormat? then "@" else [err.kind.letter]) + "'"
    ensures r[28..32] == " in "
    ensures err.kind.IncompleteFormat? ==> r[32..] == err.input
    ensures err.kind.InvalidColor? ==> r[32..] == "'" + err.input + "'"
  {
    match err.kind
    case IncompleteFormat => "Incomplete color format: '@' in " + err.input
    case InvalidColor(c) => "invalid color specifier: '" + [c] + "' in '" + err.input + "'"
  }

  /** An expression the handler rejects: the bare `@`, or a letter outside the table. */
  predicate Invalid(e: Expr)
  {
    && e.Span?
    && ((e.style.None? && e.letter.None? && e.text.None?)
        || (e.letter.Some? && ColorCode(e.letter.value).None?))
  }

  /** What is left of an expression once colours are ignored. */
  function Visible(e: Expr): string
  {
    match e
    case LiteralAt => "@"
    case ResetExpr => ""
    case Span(_, _, text) => if text.Some? then text.value else ""
  }

  /** The SGR parameter of a span: the style code, then `;` and the colour code. */
  function SgrParams(style: Option<Style>, letter: Option<char>): string
    requires letter.Some? ==> ColorCode(letter.value).Some?
  {
    StyleCode(style)
    + if letter.Some? then ";" + Decimal(ColorCode(letter.value).value) else ""
  }

  /**
   `match_to_ansi.__call__`: the replacement for one match. The matched text
   `@` alone is rejected; a letter must be in the colour table; a non-empty
   brace body is followed by one reset, an empty or absent one by nothing.
   */
  function Handle(e: Expr, color: bool): (r: Result<string, ParseErrorKind>)
    requires WellFormed(e)
    ensures r.Err? <==> Invalid(e)
    ensures r.Err? ==> (r.error == IncompleteFormat <==> Source(e) == "@")
    ensures r.Err? && r.error.InvalidColor? ==> e.letter == Some(r.error.letter)
    ensures r.Ok? && !color ==> r.value == Visible(e)
  {
    match e
    case LiteralAt => Ok("@")
    case ResetExpr => Ok(Escape(color, "0"))
    case Span(st, l, text) =>
      if Source(e) == "@" then Err(IncompleteFormat)
      else if l.Some? && ColorCode(l.value).None? then Err(InvalidColor(l.value))
      else
        var colored := if text.Some? && text.value != "" then text.value + Escape(color, "0") else "";
        Ok(Escape(color, SgrParams(st, l)) + colored)
  }

  /** A piece the handler rejects. */
  predicate Bad(p: Piece)
  {
    p.Matched? && Invalid(p.e)
  }

  /** Every matched piece is well formed, as the scanner produces them. */
  predicate Scanned(ps: seq<Piece>)
  {
    forall k :: 0 <= k < |ps| && ps[k].Matched? ==> WellFormed(ps[k].e)
  }

  /** `k` is the first piece the handler rejects. */
  predicate FirstBad(ps: seq<Piece>, k: int)
  {
    0 <= k < |ps| && Bad(ps[k]) && forall j :: 0 <= j < k ==> !Bad(ps[j])
  }

  /**
   `re.sub` with the handler: the replacements of all pieces in order, or the
   error of the first rejected one; nothing is returned in part.
   */
  function RenderPieces(ps: seq<Piece>, color: bool): Result<string, ParseErrorKind>
    requires Scanned(ps)
    decreases |ps|
  {
    if ps == [] then Ok("")
    else
      var head := RenderPiece(ps[0], color);
      if head.Err? then head
      else
        ScannedTail(ps);
        var tail := RenderPieces(ps[1..], color);
        if tail.Err? then tail else Ok(head.value + tail.value)
  }

  /** The replacement of one piece: the character itself, or the handler's result. */
  function RenderPiece(p: Piece, color: bool): Result<string, ParseErrorKind>
    requires p.Matched? ==> WellFormed(p.e)
  {
    match p
    case Verbatim(c) => Ok([c])
    case Matched(e) => Handle(e, color)
  }

  lemma ScannedTail(ps: seq<Piece>)
    requires ps != [] && Scanned(ps)
    ensures Scanned(ps[1..])
  {
    assert forall k :: 1 <= k < |ps| ==> ps[1..][k - 1] == ps[k];
  }

  /**
   The pieces fail to render exactly when one of them is rejected, and then
   with the error of the first rejected piece.
   */
  lemma {:induction false} RenderPiecesFails(ps: seq<Piece>, color: bool)
    requires Scanned(ps)
    ensures RenderPieces(ps, color).Err? <==> exists k :: 0 <= k < |ps| && Bad(ps[k])
    ensures RenderPieces(ps, color).Err? ==>
              exists k :: FirstBad(ps, k) && RenderPieces(ps, color) == Handle(ps[k].e, color)
    decreases |ps|
  {
    if ps != [] {
      var head := RenderPiece(ps[0], color);
      if head.Err? {
        assert FirstBad(ps, 0);
      } else {
        ScannedTail(ps);
        RenderPiecesFails(ps[1..], color);
        var tail := RenderPieces(ps[1..], color);
        assert forall k :: 1 <= k < |ps| ==> ps[k] == ps[1..][k - 1];
        if tail.Err? {
          var k :| FirstBad(ps[1..], k) && tail == Handle(ps[1..][k].e, color);
          assert FirstBad(ps, k + 1);
        }
      }
    }
  }

  /** The markup of `t` rendered, with the error reason alone on failure. */
  function Render(t: string, color: bool): Result<string, ParseErrorKind>
  {
    RenderPieces(Scan(t), color)
  }

  /**
   `colorize`: replaces every colour expression of `s`; with colour off the
   escapes become empty strings. An error carries the whole input.
   */
  function Colorize(s: string, color: bool): (r: Result<string, ColorParseError>)
    ensures r.Err? ==> r.error.input == s
    ensures r.Ok? <==> Render(s, color).Ok?
  {
    match Render(s, color)
    case Ok(out) => Ok(out)
    case Err(kind) => Err(ColorParseError(kind, s))
  }

  /**
   `colorize` fails exactly when one of the matches in `s` is rejected, with
   the reason of the first such match.
   */
  lemma ColorizeFails(s: string, color: bool)
    ensures Colorize(s, color).Err? <==> exists k :: 0 <= k < |Scan(s)| && Bad(Scan(s)[k])
    ensures Colorize(s, color).Err? ==>
              exists k :: FirstBad(Scan(s), k) && Colorize(s, color).error.kind == Handle(Scan(s)[k].e, color).error
  {
    var ps := Scan(s);
    RenderPiecesFails(ps, color);
    var r := RenderPieces(ps, color);
    assert Render(s, color) == r;
    assert Colorize(s, color).Err? <==> r.Err?;
    if r.Err? {
      var k :| FirstBad(ps, k) && r == Handle(ps[k].e, color);
      assert Colorize(s, color) == Err(ColorParseError(r.error, s));
      assert Colorize(s, color).error.kind == Handle(ps[k].e, color).error;
    }
  }

  /**
   `cescape`: every `@` doubled, every other character kept. `CescapeCounts`
   and `CescapeKeepsOthers` count the characters of the result.
   */
  function Cescape(s: string): (r: string)
    ensures '@' !in s ==> r == s
    ensures |r| >= |s|
    decreases |s|
  {
    if s == [] then []
    else
      var rest := Cescape(s[1..]);
      assert '@' !in s ==> s == [s[0]] + s[1..];
      EscapeChar(s[0]) + rest
  }

  /** The escape of a single character: `@` is doubled, anything else stays. */
  function EscapeChar(c: char): (r: string)
  {
    if c == '@' then "@@" else [c]
  }

  /** The escaped string is one character longer per `@` and holds twice as many `@`. */
  lemma {:induction false} CescapeCounts(s: string)
    ensures |Cescape(s)| == |s| + multiset(s)['@']
    ensures multiset(Cescape(s))['@'] == 2 * multiset(s)['@']
    decreases |s|
  {
    if s != [] {
      var rest := Cescape(s[1..]);
      CescapeCounts(s[1..]);
      assert Cescape(s) == EscapeChar(s[0]) + rest;
      CountsCons(s, rest);
    }
  }

  /** The counting step of `CescapeCounts`: one escaped character in front of an escaped rest. */
  lemma CountsCons(s: string, rest: string)
    requires s != []
    requires |rest| == |s[1..]| + multiset(s[1..])['@']
    requires multiset(rest)['@'] == 2 * multiset(s[1..])['@']
    ensures |EscapeChar(s[0]) + rest| == |s| + multiset(s)['@']
    ensures multiset(EscapeChar(s[0]) + rest)['@'] == 2 * multiset(s)['@']
  {
    assert s == [s[0]] + s[1..];
    assert multiset(s) == multiset([s[0]]) + multiset(s[1..]);
    assert multiset(EscapeChar(s[0]) + rest) == multiset(EscapeChar(s[0])) + multiset(rest);
  }

  /** Every character other than `@` occurs in the escaped string exactly as often as before. */
  lemma {:induction false} CescapeKeepsOthers(s: string, c: char)
    requires c != '@'
    ensures multiset(Cescape(s))[c] == multiset(s)[c]
    decreases |s|
  {
    if s != [] {
      var rest := Cescape(s[1..]);
      CescapeKeepsOthers(s[1..], c);
      assert Cescape(s) == EscapeChar(s[0]) + rest;
      OthersCons(s, rest, c);
    }
  }

  /** The counting step of `CescapeKeepsOthers`. */
  lemma OthersCons(s: string, rest: string, c: char)
    requires s != [] && c != '@'
    requires multiset(rest)[c] == multiset(s[1..])[c]
    ensures multiset(EscapeChar(s[0]) + rest)[c] == multiset(s)[c]
  {
    assert s == [s[0]] + s[1..];
    assert multiset(s) == multiset([s[0]]) + multiset(s[1..]);
    assert multiset(EscapeChar(s[0]) + rest) == multiset(EscapeChar(s[0])) + multiset(rest);
  }

  /** Escaping works character by character: it distributes over concatenation. */
  lemma {:induction false} CescapeAppend(a: string, b: string)
    ensures Cescape(a + b) == Cescape(a) + Cescape(b)
    decreases |a|
  {
    if a == [] {
      assert a + b == b;
    } else {
      var ab := a + b;
      assert ab[0] == a[0] && ab[1..] == a[1..] + b;
      CescapeUnfold(ab);
      CescapeUnfold(a);
      CescapeAppend(a[1..], b);
      Regroup(EscapeChar(a[0]), Cescape(a[1..]), Cescape(b));
    }
  }

  /** One step of `Cescape`: the escaped first character, then the escaped rest. */
  lemma CescapeUnfold(s: string)
    requires s != []
    ensures Cescape(s) == EscapeChar(s[0]) + Cescape(s[1..])
  {
  }

  /** Concatenation regrouped, for the step of `CescapeAppend`. */
  lemma Regroup(h: string, x: string, y: string)
    ensures h + (x + y) == (h + x) + y
  {
  }

  /** One character: `@` becomes `@@`, anything else stays. */
  lemma CescapeChar(c: char)
    ensures Cescape([c]) == if c == '@' then "@@" else [c]
  {
  }
}
