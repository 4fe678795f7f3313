/**
 Properties of the colour markup renderer: how rendering composes along the
 input, what each kind of expression renders to, when a call is rejected,
 what the colour flag changes, and the `cescape` round trip.
 */
module ColorProperties {
  import opened Results
  import opened Ansi
  import opened Markup
  import opened Color

  type Outcome = Result<string, ParseErrorKind>

  /** Sequencing of two partial renders: the first error wins, else the texts are joined. */
  function Then(a: Outcome, b: Outcome): Outcome
  {
    if a.Err? then a else if b.Err? then b else Ok(a.value + b.value)
  }

  /** The pieces of text that holds no `@`: one copied character each. */
  function Verbatims(p: string): seq<Piece>
    decreases |p|
  {
    if p == [] then [] else [Verbatim(p[0])] + Verbatims(p[1..])
  }

  // ---------------------------------------------------------------------------
  // Composition.

  lemma {:induction false} VerbatimsScanned(p: string)
    ensures Scanned(Verbatims(p))
    ensures forall k :: 0 <= k < |Verbatims(p)| ==> Verbatims(p)[k].Verbatim?
    decreases |p|
  {
    if p != [] {
      VerbatimsScanned(p[1..]);
    }
  }

  /** Text without `@` is copied character by character ahead of the rest. */
  lemma {:induction false} ScanTextPrefix(p: string, t: string)
    requires '@' !in p
    ensures Scan(p + t) == Verbatims(p) + Scan(t)
    decreases |p|
  {
    if p == [] {
      assert p + t == t;
    } else {
      var u := p + t;
      assert u[0] == p[0] && u[0] != '@';
      assert u[1..] == p[1..] + t;
      ScanTextPrefix(p[1..], t);
      assert Scan(u) == [Verbatim(p[0])] + (Verbatims(p[1..]) + Scan(t));
      assert Verbatims(p) == [Verbatim(p[0])] + Verbatims(p[1..]);
    }
  }

  lemma ScannedAppend(ps: seq<Piece>, qs: seq<Piece>)
    requires Scanned(ps) && Scanned(qs)
    ensures Scanned(ps + qs)
  {
    forall k | 0 <= k < |ps + qs| && (ps + qs)[k].Matched?
      ensures WellFormed((ps + qs)[k].e)
    {
      if k >= |ps| {
        assert (ps + qs)[k] == qs[k - |ps|];
      }
    }
  }

  /** One piece in front: its replacement, then the rendering of the rest. */
  lemma RenderCons(ps: seq<Piece>, color: bool)
    requires ps != [] && Scanned(ps)
    ensures Scanned(ps[1..])
    ensures RenderPieces(ps, color) == Then(RenderPiece(ps[0], color), RenderPieces(ps[1..], color))
  {
    ScannedTail(ps);
  }

  /** Rendering distributes over the concatenation of piece sequences. */
  lemma {:induction false} RenderAppend(ps: seq<Piece>, qs: seq<Piece>, color: bool)
    requires Scanned(ps) && Scanned(qs)
    ensures Scanned(ps + qs)
    ensures RenderPieces(ps + qs, color) == Then(RenderPieces(ps, color), RenderPieces(qs, color))
    decreases |ps|
  {
    ScannedAppend(ps, qs);
    if ps == [] {
      assert ps + qs == qs;
      var b := RenderPieces(qs, color);
      if b.Ok? {
        assert "" + b.value == b.value;
      }
    } else {
      var u := ps + qs;
      assert u[1..] == ps[1..] + qs;
      assert u[0] == ps[0];
      RenderCons(u, color);
      RenderCons(ps, color);
      RenderAppend(ps[1..], qs, color);
      var h := RenderPiece(ps[0], color);
      var a := RenderPieces(ps[1..], color);
      var b := RenderPieces(qs, color);
      ThenAssocAll(h, a, b);
    }
  }

  lemma ThenAssocAll(a: Outcome, b: Outcome, c: Outcome)
    ensures Then(a, Then(b, c)) == Then(Then(a, b), c)
  {
    if a.Ok? && b.Ok? && c.Ok? {
      assert a.value + (b.value + c.value) == (a.value + b.value) + c.value;
    }
  }

  lemma {:induction false} RenderVerbatims(p: string, color: bool)
    requires '@' !in p
    ensures Scanned(Verbatims(p))
    ensures RenderPieces(Verbatims(p), color) == Ok(p)
    decreases |p|
  {
    VerbatimsScanned(p);
    if p != [] {
      RenderVerbatims(p[1..], color);
      assert Verbatims(p)[1..] == Verbatims(p[1..]);
      assert p == [p[0]] + p[1..];
    }
  }

  /** Text without `@` in front of the rest comes out unchanged in front of its rendering. */
  lemma RenderTextPrefix(p: string, t: string, color: bool)
    requires '@' !in p
    ensures Render(p + t, color) == Then(Ok(p), Render(t, color))
  {
    ScanTextPrefix(p, t);
    RenderVerbatims(p, color);
    RenderAppend(Verbatims(p), Scan(t), color);
  }

  /** At an `@`, the match's replacement is followed by the rendering of what is behind it. */
  lemma RenderAtMatch(t: string, color: bool)
    requires |t| > 0 && t[0] == '@'
    ensures Render(t, color) == Then(Handle(MatchAt(t).0, color), Render(t[MatchAt(t).1..], color))
  {
    var m := MatchAt(t);
    var ps := Scan(t);
    assert ps == [Matched(m.0)] + Scan(t[m.1..]);
    assert ps[1..] == Scan(t[m.1..]);
  }

  /** When the match at the start covers exactly `Source(e)`, rendering continues behind it. */
  lemma RenderLeadingMatch(u: string, e: Expr, rest: string, color: bool)
    requires |u| > 0 && u[0] == '@'
    requires u == Source(e) + rest && MatchAt(u) == (e, |Source(e)|)
    ensures WellFormed(e)
    ensures Render(u, color) == Then(Handle(e, color), Render(rest, color))
  {
    RenderAtMatch(u, color);
    assert u[|Source(e)|..] == rest;
  }

  /** Text without `@`, then a match that renders to `v`, then the rest. */
  lemma RenderTextThenMatch(p: string, u: string, e: Expr, rest: string, v: string, color: bool)
    requires '@' !in p
    requires |u| > 0 && u[0] == '@'
    requires u == Source(e) + rest && MatchAt(u) == (e, |Source(e)|)
    requires WellFormed(e) && Handle(e, color) == Ok(v)
    ensures Render(p + u, color) == Then(Ok(p + v), Render(rest, color))
  {
    RenderTextPrefix(p, u, color);
    RenderLeadingMatch(u, e, rest, color);
    ThenAssoc(p, v, Render(rest, color));
  }

  lemma ThenAssoc(p: string, q: string, r: Outcome)
    ensures Then(Ok(p), Then(Ok(q), r)) == Then(Ok(p + q), r)
  {
    if r.Ok? {
      assert p + (q + r.value) == (p + q) + r.value;
    }
  }

  // ---------------------------------------------------------------------------
  // What each expression renders to.

  /** A string without `@` is returned unchanged, whatever the colour flag. */
  lemma NoMarkupIsIdentity(s: string, color: bool)
    requires '@' !in s
    ensures Colorize(s, color) == Ok(s)
  {
    RenderTextPrefix(s, [], color);
    assert s + [] == s;
  }

  /** `@@` renders to one `@`. */
  lemma LiteralAtRendering(p: string, rest: string, color: bool)
    requires '@' !in p
    ensures Render(p + "@@" + rest, color) == Then(Ok(p + "@"), Render(rest, color))
  {
    var t := "@@" + rest;
    assert p + "@@" + rest == p + t;
    RenderTextPrefix(p, t, color);
    LiteralAtFront(rest, color);
    ThenAssoc(p, "@", Render(rest, color));
  }

  lemma LiteralAtFront(rest: string, color: bool)
    ensures Render("@@" + rest, color) == Then(Ok("@"), Render(rest, color))
  {
    var t := "@@" + rest;
    RenderAtMatch(t, color);
    assert MatchAt(t) == (LiteralAt, 2);
    assert t[2..] == rest;
  }

  /** `@.` renders to the reset sequence with colour on and to nothing with colour off. */
  lemma ResetRendering(p: string, rest: string, color: bool)
    requires '@' !in p
    ensures Render(p + "@." + rest, color) == Then(Ok(p + Escape(color, "0")), Render(rest, color))
  {
    var t := "@." + rest;
    assert p + "@." + rest == p + t;
    RenderTextPrefix(p, t, color);
    ResetFront(rest, color);
    ThenAssoc(p, Escape(color, "0"), Render(rest, color));
  }

  lemma ResetFront(rest: string, color: bool)
    ensures Render("@." + rest, color) == Then(Ok(Escape(color, "0")), Render(rest, color))
  {
    var t := "@." + rest;
    RenderAtMatch(t, color);
    assert MatchAt(t) == (ResetExpr, 2);
    assert t[2..] == rest;
  }

  /** The closing positions of `t` are those of `x + t`, moved by `|x|`. */
  lemma ClosesShift(x: string, t: string, k: nat, e: nat)
    ensures Closes(x + t, |x| + k, |x| + e) <==> Closes(t, k, e)
  {
    if k <= e < |t| {
      assert (x + t)[|x| + k..|x| + e] == t[k..e];
      assert (x + t)[|x| + e] == t[e];
    }
  }

  /** No `}` closes a block opened at the start of `t`. */
  predicate Unclosable(t: string)
  {
    forall e: nat :: e < |t| ==> !Closes(t, 1, e)
  }

  /** Seen from `x + t`, a block opened at the start of `t` cannot be closed either. */
  lemma UnclosableShift(x: string, t: string)
    requires |t| > 0 && Unclosable(t)
    ensures BodyEnd(x + t, |x| + 1) == None
  {
    var u := x + t;
    var k := |x| + 1;
    forall e: nat
      ensures !Closes(u, k, e)
    {
      if e >= |x| {
        ClosesShift(x, t, 1, e - |x|);
      }
    }
  }

  /** Seen from `x + w`, a block opened just before `w` closes where it closes in `w`. */
  lemma BlockEndShift(x: string, w: string, n: nat)
    requires BlockEndsAt(w, n)
    ensures BodyEnd(x + w, |x|) == Some(|x| + n)
  {
    var u := x + w;
    var k := |x|;
    ClosesShift(x, w, 0, n);
    forall e: nat | Closes(u, k, e)
      ensures e <= k + n
    {
      ClosesShift(x, w, 0, e - k);
    }
  }

  /**
   Nothing after the `@` can continue a match: the input ends, or the next
   character is none of `@ . * _`, no letter, and not a `{` that can be closed.
   */
  predicate NoContinuation(t: string)
  {
    t == [] ||
    (&& t[0] !in "@.*_"
     && !IsAsciiLetter(t[0])
     && (t[0] == '{' ==> Unclosable(t)))
  }

  /** A bare `@` rejects the whole call, whatever the colour flag. */
  lemma BareAtFails(p: string, t: string, color: bool)
    requires '@' !in p
    requires NoContinuation(t)
    ensures Colorize(p + "@" + t, color) == Err(ColorParseError(IncompleteFormat, p + "@" + t))
  {
    var u := "@" + t;
    assert p + "@" + t == p + u;
    RenderTextPrefix(p, u, color);
    BareAtFront(t, color);
  }

  lemma BareAtFront(t: string, color: bool)
    requires NoContinuation(t)
    ensures Render("@" + t, color) == Err(IncompleteFormat)
  {
    var u := "@" + t;
    RenderAtMatch(u, color);
    BareMatch(t);
    assert Source(Span(None, None, None)) == "@";
  }

  /** Before a character that continues nothing, the match is the bare `@`. */
  lemma BareMatch(t: string)
    requires NoContinuation(t)
    ensures MatchAt("@" + t) == (Span(None, None, None), 1)
  {
    var u := "@" + t;
    if |u| >= 2 && u[1] == '{' {
      UnclosableShift("@", t);
    }
  }

  /** After `@` and an optional style, a letter is always taken into the match. */
  lemma MatchTakesLetter(st: Option<Style>, x: char, t: string)
    requires IsAsciiLetter(x)
    ensures var u := "@" + StyleSource(st) + [x] + t;
            MatchAt(u).0.Span? && MatchAt(u).0.style == st && MatchAt(u).0.letter == Some(x)
  {
    var u := "@" + StyleSource(st) + [x] + t;
    match st {
      case None =>
        assert u[1] == x;
      case Some(Bold) =>
        assert u[1] == '*' && u[2] == x;
      case Some(Underline) =>
        assert u[1] == '_' && u[2] == x;
    }
  }

  /** A letter outside the colour table rejects the whole call, even with colour off. */
  lemma InvalidLetterFails(p: string, st: Option<Style>, x: char, t: string, color: bool)
    requires '@' !in p
    requires IsAsciiLetter(x) && ColorCode(x).None?
    ensures var s := p + "@" + StyleSource(st) + [x] + t;
            Colorize(s, color) == Err(ColorParseError(InvalidColor(x), s))
  {
    var u := "@" + StyleSource(st) + [x] + t;
    assert p + "@" + StyleSource(st) + [x] + t == p + u;
    RenderTextPrefix(p, u, color);
    RenderAtMatch(u, color);
    MatchTakesLetter(st, x, t);
  }

  /** The position of the first character after the style and the letter of a span. */
  function BraceStart(st: Option<Style>, l: Option<char>): nat
  {
    1 + |StyleSource(st)| + |LetterSource(l)|
  }

  /** Style and letter of a span are found again by the greedy groups. */
  lemma MatchStyleLetter(u: string, st: Option<Style>, l: Option<char>, tail: string)
    requires u == "@" + StyleSource(st) + LetterSource(l) + tail
    requires l.Some? ==> IsAsciiLetter(l.value)
    requires l.None? ==> tail == [] || !IsAsciiLetter(tail[0])
    requires l.None? && st.None? ==> tail == [] || tail[0] !in "@.*_"
    ensures |u| > 0 && u[0] == '@'
    ensures !(|u| >= 2 && (u[1] == '@' || u[1] == '.'))
    ensures StyleAt(u, 1) == st
    ensures LetterAt(u, 1 + |StyleSource(st)|) == l
    ensures BraceStart(st, l) <= |u| && u[BraceStart(st, l)..] == tail
  {
    var i := 1 + |StyleSource(st)|;
    if l.Some? {
      assert u[i] == l.value;
    } else if tail != [] {
      assert u[i] == tail[0];
    }
    match st {
      case None =>
      case Some(Bold) => assert u[1] == '*';
      case Some(Underline) => assert u[1] == '_';
    }
  }

  /**
   A block opened just before `w` closes at position `n` of `w`: the body
   `w[..n]` is valid, `w[n]` is `}`, and no later `}` of `w` closes a valid body.
   */
  predicate BlockEndsAt(w: string, n: nat)
  {
    Closes(w, 0, n) && forall e: nat :: n < e < |w| ==> !Closes(w, 0, e)
  }

  /** The span the greedy groups pick is what the matcher returns. */
  lemma GreedyIsMatch(u: string, e: Expr)
    requires |u| > 0 && u[0] == '@'
    requires !(|u| >= 2 && (u[1] == '@' || u[1] == '.'))
    requires GreedySpan(u, e)
    ensures MatchAt(u) == (e, |Source(e)|)
  {
    GreedyUnique(u, e, GreedyAt(u));
  }

  /** The greedy groups: the given style and letter, then the block the brace search finds. */
  lemma GreedyWithBlock(u: string, e: Expr, j: nat, end: nat)
    requires e.Span? && StyleAt(u, 1) == e.style
    requires LetterAt(u, 1 + |StyleSource(e.style)|) == e.letter
    requires j == BraceStart(e.style, e.letter) && j < |u| && u[j] == '{'
    requires BodyEnd(u, j + 1) == Some(end) && e.text == Some(u[j + 1..end])
    ensures GreedySpan(u, e)
  {
  }

  /** The greedy groups: the given style and letter, and no block after them. */
  lemma GreedyWithoutBlock(u: string, e: Expr, j: nat)
    requires e.Span? && StyleAt(u, 1) == e.style
    requires LetterAt(u, 1 + |StyleSource(e.style)|) == e.letter
    requires j == BraceStart(e.style, e.letter) && e.text.None?
    requires j < |u| && u[j] == '{' ==> BodyEnd(u, j + 1).None?
    ensures GreedySpan(u, e)
  {
  }

  /** The text of a span with a block, cut after the block. */
  lemma BlockSplit(st: Option<Style>, l: Option<char>, w: string, n: nat)
    requires n < |w| && w[n] == '}'
    ensures "@" + StyleSource(st) + LetterSource(l) + "{" + w
            == Source(Span(st, l, Some(w[..n]))) + w[n + 1..]
  {
    var front := "@" + StyleSource(st) + LetterSource(l);
    assert Source(Span(st, l, Some(w[..n]))) == front + ("{" + w[..n] + "}");
    CutAtClose(front, w, n);
  }

  /** Cutting `w` at a `}` keeps the text it is part of. */
  lemma CutAtClose(front: string, w: string, n: nat)
    requires n < |w| && w[n] == '}'
    ensures front + "{" + w == front + ("{" + w[..n] + "}") + w[n + 1..]
  {
    assert w == w[..n] + "}" + w[n + 1..];
  }

  /** A block that ends where `BlockEndsAt` says is taken with exactly that body. */
  lemma MatchBlock(st: Option<Style>, l: Option<char>, w: string, n: nat)
    requires l.Some? ==> IsAsciiLetter(l.value)
    requires BlockEndsAt(w, n)
    ensures var e := Span(st, l, Some(w[..n]));
            && "@" + StyleSource(st) + LetterSource(l) + "{" + w == Source(e) + w[n + 1..]
            && MatchAt(Source(e) + w[n + 1..]) == (e, |Source(e)|)
  {
    var e := Span(st, l, Some(w[..n]));
    BlockSplit(st, l, w, n);
    var u := "@" + StyleSource(st) + LetterSource(l) + "{" + w;
    assert u == Source(e) + w[n + 1..];
    MatchStyleLetter(u, st, l, "{" + w);
    MatchBlockAt(u, st, l, w, n);
  }

  /** `MatchBlock` for any text whose style, letter and block are already located. */
  lemma MatchBlockAt(u: string, st: Option<Style>, l: Option<char>, w: string, n: nat)
    requires |u| > 0 && u[0] == '@' && !(|u| >= 2 && (u[1] == '@' || u[1] == '.'))
    requires StyleAt(u, 1) == st && LetterAt(u, 1 + |StyleSource(st)|) == l
    requires BraceStart(st, l) <= |u| && u[BraceStart(st, l)..] == "{" + w
    requires BlockEndsAt(w, n)
    ensures MatchAt(u) == (Span(st, l, Some(w[..n])), |Source(Span(st, l, Some(w[..n])))|)
  {
    var e := Span(st, l, Some(w[..n]));
    var j := BraceStart(st, l);
    BlockAfter(u, j, w, n);
    GreedyWithBlock(u, e, j, j + 1 + n);
    GreedyIsMatch(u, e);
  }

  /** Where the block of `u` that opens at `j` closes, when `w` follows the `{`. */
  lemma BlockAfter(u: string, j: nat, w: string, n: nat)
    requires j <= |u| && u[j..] == "{" + w
    requires BlockEndsAt(w, n)
    ensures j < |u| && u[j] == '{'
    ensures BodyEnd(u, j + 1) == Some(j + 1 + n)
    ensures u[j + 1..j + 1 + n] == w[..n]
  {
    var front := u[..j + 1];
    assert u[j..][0] == '{';
    assert u == front + w by {
      assert u == u[..j] + u[j..];
    }
    BlockEndShift(front, w, n);
    assert u[j + 1..j + 1 + n] == w[..n];
  }

  /** Without a closable block, the span ends after its style and letter. */
  lemma MatchNoBlock(st: Option<Style>, l: Option<char>, rest: string)
    requires st.Some? || l.Some?
    requires l.Some? ==> IsAsciiLetter(l.value)
    requires l.None? ==> rest == [] || !IsAsciiLetter(rest[0])
    requires rest == [] || rest[0] != '{' || Unclosable(rest)
    ensures var e := Span(st, l, None);
            MatchAt(Source(e) + rest) == (e, |Source(e)|)
  {
    var e := Span(st, l, None);
    var u := Source(e) + rest;
    var j := BraceStart(st, l);
    MatchStyleLetter(u, st, l, rest);
    if rest != [] && rest[0] == '{' {
      assert |Source(e)| == j;
      UnclosableShift(Source(e), rest);
    }
    GreedyWithoutBlock(u, e, j);
    GreedyIsMatch(u, e);
  }

  /** A span with a block: escape, the body unchanged, and a reset unless the body is empty. */
  lemma HandleBlock(st: Option<Style>, l: Option<char>, b: string, color: bool)
    requires l.Some? ==> IsAsciiLetter(l.value) && ColorCode(l.value).Some?
    requires ValidBody(b)
    ensures Handle(Span(st, l, Some(b)), color)
            == Ok(Escape(color, SgrParams(st, l)) + (if b != "" then b + Escape(color, "0") else ""))
  {
    var e := Span(st, l, Some(b));
    assert Source(e) == "@" + StyleSource(st) + LetterSource(l) + BraceSource(Some(b));
    assert |Source(e)| >= 3;
  }

  /** A span without a block: the escape alone, with no reset. */
  lemma HandleSwitch(st: Option<Style>, l: Option<char>, color: bool)
    requires st.Some? || l.Some?
    requires l.Some? ==> IsAsciiLetter(l.value) && ColorCode(l.value).Some?
    ensures Handle(Span(st, l, None), color) == Ok(Escape(color, SgrParams(st, l)))
  {
    var e := Span(st, l, None);
    assert Source(e) == "@" + StyleSource(st) + LetterSource(l);
    assert |Source(e)| >= 2;
    assert Escape(color, SgrParams(st, l)) + "" == Escape(color, SgrParams(st, l));
  }

  /**
   A styled span with a block that closes at position `n` of the text `w`
   behind the `{`: the SGR sequence of its style and colour, the body `w[..n]`
   exactly as written (a `}}` stays two characters, an `@` is not read
   again), one reset when the body is not empty, then the rendering of what
   follows the closing `}`.
   */
  lemma StyledBlockRendering(p: string, st: Option<Style>, l: Option<char>, w: string, n: nat,
                             color: bool)
    requires '@' !in p
    requires l.Some? ==> IsAsciiLetter(l.value) && ColorCode(l.value).Some?
    requires BlockEndsAt(w, n)
    ensures Render(p + ("@" + StyleSource(st) + LetterSource(l) + "{" + w), color)
            == Then(Ok(p + Escape(color, SgrParams(st, l))
                        + (if n > 0 then w[..n] + Escape(color, "0") else "")),
                    Render(w[n + 1..], color))
  {
    var u := "@" + StyleSource(st) + LetterSource(l) + "{" + w;
    var v := Escape(color, SgrParams(st, l)) + (if n > 0 then w[..n] + Escape(color, "0") else "");
    RenderTextPrefix(p, u, color);
    BlockRender(st, l, w, n, color);
    ThenAssoc(p, v, Render(w[n + 1..], color));
    assert p + v == p + Escape(color, SgrParams(st, l)) + (if n > 0 then w[..n] + Escape(color, "0") else "");
  }

  /** `StyledBlockRendering` with no text in front. */
  lemma BlockRender(st: Option<Style>, l: Option<char>, w: string, n: nat, color: bool)
    requires l.Some? ==> IsAsciiLetter(l.value) && ColorCode(l.value).Some?
    requires BlockEndsAt(w, n)
    ensures Render("@" + StyleSource(st) + LetterSource(l) + "{" + w, color)
            == Then(Ok(Escape(color, SgrParams(st, l)) + (if n > 0 then w[..n] + Escape(color, "0") else "")),
                    Render(w[n + 1..], color))
  {
    var e := Span(st, l, Some(w[..n]));
    MatchBlock(st, l, w, n);
    HandleBlock(st, l, w[..n], color);
    RenderLeadingMatch(Source(e) + w[n + 1..], e, w[n + 1..], color);
  }

  /**
   A styled span without a block renders only the SGR sequence that turns the
   style and colour on; no reset follows.
   */
  lemma StyledSwitchRendering(p: string, st: Option<Style>, l: Option<char>, rest: string,
                              color: bool)
    requires '@' !in p
    requires st.Some? || l.Some?
    requires l.Some? ==> IsAsciiLetter(l.value) && ColorCode(l.value).Some?
    requires l.None? ==> rest == [] || !IsAsciiLetter(rest[0])
    requires rest == [] || rest[0] != '{' || Unclosable(rest)
    ensures Render(p + Source(Span(st, l, None)) + rest, color)
            == Then(Ok(p + Escape(color, SgrParams(st, l))), Render(rest, color))
  {
    var e := Span(st, l, None);
    var u := Source(e) + rest;
    assert p + Source(e) + rest == p + u;
    RenderTextPrefix(p, u, color);
    MatchNoBlock(st, l, rest);
    RenderLeadingMatch(u, e, rest, color);
    HandleSwitch(st, l, color);
    ThenAssoc(p, Handle(e, color).value, Render(rest, color));
  }

  /** `StyledSwitchRendering` with no text in front. */
  lemma SwitchRender(st: Option<Style>, l: Option<char>, rest: string, color: bool)
    requires st.Some? || l.Some?
    requires l.Some? ==> IsAsciiLetter(l.value) && ColorCode(l.value).Some?
    requires l.None? ==> rest == [] || !IsAsciiLetter(rest[0])
    requires rest == [] || rest[0] != '{' || Unclosable(rest)
    ensures Render(Source(Span(st, l, None)) + rest, color)
            == Then(Ok(Escape(color, SgrParams(st, l))), Render(rest, color))
  {
    var e := Span(st, l, None);
    MatchNoBlock(st, l, rest);
    RenderLeadingMatch(Source(e) + rest, e, rest, color);
    HandleSwitch(st, l, color);
  }

  /**
   The SGR parameter: the style code `1`, `4` or `0`, then, with a letter,
   `;` and 30 to 37 for a lower-case letter or 90 to 97 for an upper-case one.
   */
  lemma SgrParamsShape(st: Option<Style>, k: nat, bright: bool)
    requires k < 8
    ensures var l := if bright then BrightColors[k] else NormalColors[k];
            && SgrParams(st, None) == StyleCode(st)
            && SgrParams(st, Some(l))
               == StyleCode(st) + ";" + (if bright then "9" else "3") + ['0' + k as char]
  {
    ColorTable('k');
    var l := if bright then BrightColors[k] else NormalColors[k];
    var t := if bright then 9 else 3;
    assert ColorCode(l) == Some(10 * t + k);
    TwoDigits(t, k);
    assert SgrParams(st, Some(l)) == StyleCode(st) + (";" + Decimal(10 * t + k));
    assert (if bright then "9" else "3") == ['0' + t as char];
    assert StyleCode(st) + (";" + ['0' + t as char, '0' + k as char])
           == StyleCode(st) + ";" + ['0' + t as char] + ['0' + k as char];
  }

  /** The decimal form of a two-digit number. */
  lemma TwoDigits(t: nat, u: nat)
    requires 1 <= t <= 9 && u <= 9
    ensures Decimal(10 * t + u) == ['0' + t as char, '0' + u as char]
  {
    var n := 10 * t + u;
    assert n / 10 == t && n % 10 == u;
    assert Decimal(n / 10) == ['0' + t as char];
  }

  // ---------------------------------------------------------------------------
  // What the colour flag changes.

  lemma VisibleInSource(e: Expr)
    ensures forall ch :: ch in Visible(e) ==> ch in Source(e)
  {
    if e.Span? && e.text.Some? {
      SpanShape(e);
      var front := "@" + StyleSource(e.style) + LetterSource(e.letter) + "{";
      assert Source(e) == front + e.text.value + "}";
      forall ch | ch in e.text.value
        ensures ch in Source(e)
      {
        var i :| 0 <= i < |e.text.value| && e.text.value[i] == ch;
        assert Source(e)[|front| + i] == ch;
      }
    }
  }

  /** With colour off, every character of the output occurs in the pieces' text. */
  lemma {:induction false} PlainPiecesChars(ps: seq<Piece>)
    requires Scanned(ps) && RenderPieces(ps, false).Ok?
    ensures forall ch :: ch in RenderPieces(ps, false).value ==> ch in Unparse(ps)
    decreases |ps|
  {
    if ps != [] {
      ScannedTail(ps);
      PlainPiecesChars(ps[1..]);
      if ps[0].Matched? {
        VisibleInSource(ps[0].e);
      }
    }
  }

  /**
   With colour off, the output is made only of characters of the input: no
   escape character appears in it unless the input already held one.
   */
  lemma PlainOutputFromInput(s: string)
    requires Colorize(s, false).Ok?
    ensures forall ch :: ch in Colorize(s, false).value ==> ch in s
    ensures ESC !in s ==> ESC !in Colorize(s, false).value
  {
    PlainPiecesChars(Scan(s));
  }

  /** The parameters of an SGR sequence hold no `m`. */
  lemma SgrParamsNoM(st: Option<Style>, l: Option<char>)
    requires l.Some? ==> ColorCode(l.value).Some?
    ensures forall k :: 0 <= k < |SgrParams(st, l)| ==> SgrParams(st, l)[k] != 'm'
  {
    if l.Some? {
      var d := Decimal(ColorCode(l.value).value);
      assert SgrParams(st, l) == StyleCode(st) + ";" + d;
    }
  }

  /** Stripping the coloured replacement of one match leaves its plain replacement. */
  lemma HandleStrip(e: Expr, rest: string)
    requires WellFormed(e) && !Invalid(e) && ESC !in Source(e)
    ensures Strip(Handle(e, true).value + rest) == Handle(e, false).value + Strip(rest)
  {
    VisibleInSource(e);
    match e {
      case LiteralAt =>
        StripPlain("@", rest);
      case ResetExpr =>
        StripEscape("0", rest);
      case Span(_, _, _) =>
        HandleStripSpan(e, rest);
    }
  }

  lemma HandleStripSpan(e: Expr, rest: string)
    requires e.Span? && WellFormed(e) && !Invalid(e) && ESC !in Visible(e)
    ensures Strip(Handle(e, true).value + rest) == Handle(e, false).value + Strip(rest)
  {
    assert Source(e) != "@";
    SgrParamsNoM(e.style, e.letter);
    var params := SgrParams(e.style, e.letter);
    var v := Visible(e);
    var colored := Handle(e, true).value;
    if e.text.Some? && e.text.value != "" {
      assert colored == Escape(true, params) + v + Escape(true, "0");
      assert colored + rest == Escape(true, params) + v + Escape(true, "0") + rest;
      StripBlock(params, v, rest);
    } else {
      assert colored == Escape(true, params) + "";
      assert colored + rest == Escape(true, params) + rest;
      StripEscape(params, rest);
    }
  }

  /** Stripping a coloured block leaves its text. */
  lemma StripBlock(params: string, v: string, rest: string)
    requires forall k :: 0 <= k < |params| ==> params[k] != 'm'
    requires ESC !in v
    ensures Strip(Escape(true, params) + v + Escape(true, "0") + rest) == v + Strip(rest)
  {
    var tail := Escape(true, "0") + rest;
    assert Escape(true, params) + v + Escape(true, "0") + rest == Escape(true, params) + (v + tail);
    StripEscape(params, v + tail);
    StripPlain(v, tail);
    StripEscape("0", rest);
  }

  /** Stripping the coloured rendering of pieces gives their plain rendering. */
  lemma {:induction false} StripPieces(ps: seq<Piece>)
    requires Scanned(ps) && ESC !in Unparse(ps) && RenderPieces(ps, true).Ok?
    ensures RenderPieces(ps, false).Ok?
    ensures Strip(RenderPieces(ps, true).value) == RenderPieces(ps, false).value
    decreases |ps|
  {
    if ps != [] {
      ScannedTail(ps);
      assert Unparse(ps) == PieceSource(ps[0]) + Unparse(ps[1..]);
      StripPieces(ps[1..]);
      var tail := RenderPieces(ps[1..], true).value;
      match ps[0] {
        case Verbatim(c) =>
          assert c != ESC by { assert Unparse(ps)[0] == c; }
          StripPlain([c], tail);
        case Matched(e) =>
          assert ESC !in Source(e) by {
            forall ch | ch in Source(e)
              ensures ch != ESC
            {
              var i :| 0 <= i < |Source(e)| && Source(e)[i] == ch;
              assert Unparse(ps)[i] == ch;
            }
          }
          HandleStrip(e, tail);
      }
    } else {
      assert Strip("") == "";
    }
  }

  /**
   The colour flag only adds escape sequences: for an input without escape
   characters, removing every `ESC ... m` from the coloured output gives the
   plain output, and one of them fails exactly when the other does.
   */
  lemma ColorOnlyAddsEscapes(s: string)
    requires ESC !in s
    ensures Colorize(s, true).Ok? <==> Colorize(s, false).Ok?
    ensures Colorize(s, true).Ok? ==> Strip(Colorize(s, true).value) == Colorize(s, false).value
  {
    ErrorsIgnoreColor(s);
    if Colorize(s, true).Ok? {
      StripPieces(Scan(s));
      assert Render(s, true) == RenderPieces(Scan(s), true);
      assert Render(s, false) == RenderPieces(Scan(s), false);
    }
  }

  /** Errors do not depend on the colour flag: the same error, in either mode. */
  lemma ErrorsIgnoreColor(s: string)
    ensures Colorize(s, true).Err? <==> Colorize(s, false).Err?
    ensures Colorize(s, true).Err? ==> Colorize(s, true) == Colorize(s, false)
  {
    var ps := Scan(s);
    RenderPiecesFails(ps, true);
    RenderPiecesFails(ps, false);
    var a := RenderPieces(ps, true);
    var b := RenderPieces(ps, false);
    assert Render(s, true) == a && Render(s, false) == b;
    assert a.Err? <==> b.Err?;
    if a.Err? {
      var k1 :| FirstBad(ps, k1) && a == Handle(ps[k1].e, true);
      var k2 :| FirstBad(ps, k2) && b == Handle(ps[k2].e, false);
      FirstBadUnique(ps, k1, k2);
      HandleErrorIgnoresColor(ps[k1].e);
      assert Colorize(s, true) == Err(ColorParseError(a.error, s));
      assert Colorize(s, false) == Err(ColorParseError(b.error, s));
    }
  }

  lemma FirstBadUnique(ps: seq<Piece>, k1: int, k2: int)
    requires FirstBad(ps, k1) && FirstBad(ps, k2)
    ensures k1 == k2
  {
  }

  /** A rejected expression is rejected with the same reason in either mode. */
  lemma HandleErrorIgnoresColor(e: Expr)
    requires WellFormed(e) && Invalid(e)
    ensures Handle(e, true) == Handle(e, false)
  {
  }

  // ---------------------------------------------------------------------------
  // The `cescape` round trip.

  lemma {:induction false} CescapeRender(s: string, color: bool)
    ensures Render(Cescape(s), color) == Ok(s)
    decreases |s|
  {
    if s == [] {
      assert Render([], color) == Ok("");
    } else {
      var tail := s[1..];
      calc {
        Render(Cescape(s), color);
      == { CescapeHead(s, color); }
        Then(Ok([s[0]]), Render(Cescape(tail), color));
      == { CescapeRender(tail, color); }
        Then(Ok([s[0]]), Ok(tail));
      == { assert [s[0]] + tail == s; }
        Ok(s);
      }
    }
  }

  /** The escaped first character renders back to itself, ahead of the escaped rest. */
  lemma CescapeHead(s: string, color: bool)
    requires s != []
    ensures Render(Cescape(s), color) == Then(Ok([s[0]]), Render(Cescape(s[1..]), color))
  {
    var rest := Cescape(s[1..]);
    if s[0] == '@' {
      assert Cescape(s) == "@@" + rest;
      LiteralAtFront(rest, color);
    } else {
      assert Cescape(s) == [s[0]] + rest;
      RenderTextPrefix([s[0]], rest, color);
    }
  }

  /** `cescape` then `colorize` gives back the original string and never fails. */
  lemma CescapeRoundTrip(s: string, color: bool)
    ensures Colorize(Cescape(s), color) == Ok(s)
  {
    CescapeRender(s, color);
  }

  // ---------------------------------------------------------------------------
  // The end of the input.

  /** A character no match can end with: a match ends in `@ . * _ }` or a letter. */
  predicate Unmatchable(c: char)
  {
    c !in "@.*_}" && !IsAsciiLetter(c)
  }

  lemma SourceLastChar(e: Expr)
    requires WellFormed(e)
    ensures |Source(e)| > 0 && !Unmatchable(Source(e)[|Source(e)| - 1])
  {
    SpanShapeLast(e);
  }

  lemma SpanShapeLast(e: Expr)
    requires WellFormed(e)
    ensures |Source(e)| > 0
    ensures var c := Source(e)[|Source(e)| - 1];
            c in "@.*_}" || IsAsciiLetter(c)
  {
    if e.Span? {
      SpanShape(e);
      var src := Source(e);
      if e.text.Some? {
        assert src[|src| - 1] == '}';
      } else if e.letter.Some? {
        assert src[|src| - 1] == e.letter.value;
      } else if e.style.Some? {
        assert src == "@" + StyleSource(e.style);
      }
    }
  }

  /** The last piece of a text that ends with an unmatchable character copies it. */
  lemma {:induction false} ScanEndsWith(t: string, c: char)
    requires |t| > 0 && t[|t| - 1] == c && Unmatchable(c)
    ensures |Scan(t)| > 0 && Scan(t)[|Scan(t)| - 1] == Verbatim(c)
    decreases |t|
  {
    if t[0] != '@' {
      if |t| > 1 {
        ScanEndsWith(t[1..], c);
      }
    } else {
      var m := MatchAt(t);
      if m.1 == |t| {
        assert t[..m.1] == t;
        SourceLastChar(m.0);
        assert false;
      }
      assert t[m.1..][|t[m.1..]| - 1] == c;
      ScanEndsWith(t[m.1..], c);
    }
  }

  /** `r` failed, or holds a text that ends with `c`. */
  predicate EndsWithIfOk(r: Result<string, ParseErrorKind>, c: char)
  {
    r.Ok? ==> |r.value| > 0 && r.value[|r.value| - 1] == c
  }

  /** A successful render of a text ending with an unmatchable character ends with it. */
  lemma RenderEndsWith(t: string, c: char, color: bool)
    requires |t| > 0 && t[|t| - 1] == c && Unmatchable(c)
    ensures EndsWithIfOk(Render(t, color), c)
  {
    var ps := Scan(t);
    assert Scanned(ps);
    ScanEndsWith(t, c);
    PiecesEndWith(ps, c, color);
  }

  /** Pieces whose last one copies `c` render, when they do, to a text ending with `c`. */
  lemma PiecesEndWith(ps: seq<Piece>, c: char, color: bool)
    requires Scanned(ps) && |ps| > 0 && ps[|ps| - 1] == Verbatim(c)
    ensures EndsWithIfOk(RenderPieces(ps, color), c)
  {
    var front := ps[..|ps| - 1];
    assert ps == front + [Verbatim(c)];
    assert Scanned(front) by {
      forall k | 0 <= k < |front| && front[k].Matched?
        ensures WellFormed(front[k].e)
      {
        assert front[k] == ps[k];
      }
    }
    RenderCons([Verbatim(c)], color);
    assert [Verbatim(c)][1..] == [];
    assert RenderPieces([Verbatim(c)], color) == Ok([c]) by {
      assert [c] + "" == [c];
    }
    RenderAppend(front, [Verbatim(c)], color);
  }
}
