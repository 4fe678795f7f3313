/**
 The matcher of the colour markup: a hand-written scanner equivalent to the
 fixed regular expression `@(?:@|\.|([*_])?([a-zA-Z])?(?:{((?:[^}]|}})*)})?)`
 applied left to right, leftmost-first and without overlap, as `re.sub` does.
 */
module Markup {
  import opened Results
  import opened Ansi

  /** `[a-zA-Z]`: the letters the regex accepts in the colour position. */
  predicate IsAsciiLetter(c: char)
  {
    'a' <= c <= 'z' || 'A' <= c <= 'Z'
  }

  /** One match of the regex, by the groups it filled. */
  datatype Expr =
    | LiteralAt                     // `@@`
    | ResetExpr                     // `@.`
    | Span(style: Option<Style>, letter: Option<char>, text: Option<string>)
      // `@`, optional style, optional letter, optional `{body}`;
      // all three absent is the bare `@`

  /** The input, cut into characters copied through and matches. */
  datatype Piece = Verbatim(c: char) | Matched(e: Expr)

  /**
   The language of the body group `(?:[^}]|}})*`: a run of tokens, each a
   single character other than `}` or the pair `}}`.
   */
  predicate ValidBody(b: string)
    decreases |b|
  {
    if b == [] then true
    else if b[0] != '}' then ValidBody(b[1..])
    else |b| >= 2 && b[1] == '}' && ValidBody(b[2..])
  }

  /** The `}` at position `e` can close a brace block whose body starts at `k`. */
  predicate Closes(t: string, k: nat, e: nat)
  {
    k <= e < |t| && t[e] == '}' && ValidBody(t[k..e])
  }

  function StyleSource(st: Option<Style>): string
  {
    match st
    case None => ""
    case Some(Bold) => "*"
    case Some(Underline) => "_"
  }

  function LetterSource(l: Option<char>): string
  {
    match l
    case None => ""
    case Some(c) => [c]
  }

  function BraceSource(b: Option<string>): string
  {
    match b
    case None => ""
    case Some(body) => "{" + body + "}"
  }

  /** The text a match covers. */
  function Source(e: Expr): string
  {
    match e
    case LiteralAt => "@@"
    case ResetExpr => "@."
    case Span(st, l, b) => "@" + StyleSource(st) + LetterSource(l) + BraceSource(b)
  }

  /** Every group holds what the regex lets it hold. */
  predicate WellFormed(e: Expr)
  {
    e.Span? ==>
      && (e.letter.Some? ==> IsAsciiLetter(e.letter.value))
      && (e.text.Some? ==> ValidBody(e.text.value))
  }

  /** `e` is one of the matches the regex admits at the start of `t`. */
  predicate Candidate(t: string, e: Expr)
  {
    WellFormed(e) && Source(e) <= t
  }

  /** Concatenation of the text covered by a sequence of pieces. */
  function Unparse(ps: seq<Piece>): string
    decreases |ps|
  {
    if ps == [] then []
    else PieceSource(ps[0]) + Unparse(ps[1..])
  }

  /** The text a single piece covers. */
  function PieceSource(p: Piece): string
  {
    match p
    case Verbatim(c) => [c]
    case Matched(e) => Source(e)
  }

  lemma UnparseCons(p: Piece, ps: seq<Piece>)
    ensures Unparse([p] + ps) == PieceSource(p) + Unparse(ps)
  {
    assert ([p] + ps)[1..] == ps;
  }

  // ---------------------------------------------------------------------------
  // The brace block.

  /**
   Walks the body tokens from `k`, remembering in `best` the last token
   boundary that holds a `}`; this is the order in which backtracking out of
   the greedy `(...)*` tries the closing `}`.
   */
  function LastClose(t: string, k: nat, best: Option<nat>): Option<nat>
    requires k <= |t|
    decreases |t| - k
  {
    var best' := if k < |t| && t[k] == '}' then Some(k) else best;
    if k < |t| && t[k] != '}' then LastClose(t, k + 1, best')
    else if k + 1 < |t| && t[k + 1] == '}' then LastClose(t, k + 2, best')
    else best'
  }

  /**
   Position of the `}` that closes a block whose body starts at `k`: the
   furthest `}` that is preceded by a valid body; none if there is no such `}`.
   */
  function BodyEnd(t: string, k: nat): (r: Option<nat>)
    requires k <= |t|
    ensures r.Some? ==> Closes(t, k, r.value)
    ensures r.Some? ==> forall e: nat :: Closes(t, k, e) ==> e <= r.value
    ensures r.None? ==> forall e: nat :: !Closes(t, k, e)
  {
    assert t[k..k] == [];
    LastCloseIsLongest(t, k, k, None);
    LastClose(t, k, None)
  }

  lemma {:induction false} ValidBodyAppend(a: string, b: string)
    requires ValidBody(a) && ValidBody(b)
    ensures ValidBody(a + b)
    decreases |a|
  {
    if a == [] {
      assert a + b == b;
    } else if a[0] != '}' {
      assert (a + b)[1..] == a[1..] + b;
      ValidBodyAppend(a[1..], b);
    } else {
      assert (a + b)[2..] == a[2..] + b;
      ValidBodyAppend(a[2..], b);
    }
  }

  lemma {:induction false} ValidBodyCancel(a: string, b: string)
    requires ValidBody(a) && ValidBody(a + b)
    ensures ValidBody(b)
    decreases |a|
  {
    if a == [] {
      assert a + b == b;
    } else if a[0] != '}' {
      assert (a + b)[1..] == a[1..] + b;
      ValidBodyCancel(a[1..], b);
    } else {
      assert (a + b)[2..] == a[2..] + b;
      ValidBodyCancel(a[2..], b);
    }
  }

  /** No valid body extends past a `}` that is not doubled. */
  lemma LoneCloseEndsBodies(t: string, k0: nat, k: nat)
    requires k0 <= k < |t| && t[k] == '}' && ValidBody(t[k0..k])
    requires k + 1 == |t| || t[k + 1] != '}'
    ensures forall e :: k < e <= |t| ==> !ValidBody(t[k0..e])
  {
    forall e | k < e <= |t|
      ensures !ValidBody(t[k0..e])
    {
      if ValidBody(t[k0..e]) {
        assert t[k0..e] == t[k0..k] + t[k..e];
        ValidBodyCancel(t[k0..k], t[k..e]);
        assert false;
      }
    }
  }

  lemma {:induction false} LastCloseIsLongest(t: string, k0: nat, k: nat, best: Option<nat>)
    requires k0 <= k <= |t|
    requires ValidBody(t[k0..k])
    requires best.Some? ==> Closes(t, k0, best.value) && best.value < k
    requires forall e: nat :: e < k && Closes(t, k0, e) ==> best.Some? && e <= best.value
    ensures LastClose(t, k, best).Some? ==> Closes(t, k0, LastClose(t, k, best).value)
    ensures LastClose(t, k, best).Some? ==>
              forall e: nat :: Closes(t, k0, e) ==> e <= LastClose(t, k, best).value
    ensures LastClose(t, k, best).None? ==> forall e: nat :: !Closes(t, k0, e)
    decreases |t| - k
  {
    if k < |t| && t[k] != '}' {
      PlainToken(t, k0, k);
      LastCloseIsLongest(t, k0, k + 1, best);
    } else if k + 1 < |t| && t[k + 1] == '}' {
      PairToken(t, k0, k);
      LastCloseIsLongest(t, k0, k + 2, Some(k));
    } else if k < |t| {
      assert Closes(t, k0, k);
      LoneCloseEndsBodies(t, k0, k);
    }
  }

  /** A character other than `}` extends a body and closes nothing. */
  lemma PlainToken(t: string, k0: nat, k: nat)
    requires k0 <= k < |t| && t[k] != '}' && ValidBody(t[k0..k])
    ensures ValidBody(t[k0..k + 1]) && !Closes(t, k0, k)
  {
    assert t[k0..k + 1] == t[k0..k] + [t[k]];
    assert ValidBody([t[k]][1..]);
    ValidBodyAppend(t[k0..k], [t[k]]);
  }

  /**
   A `}}` pair: its first `}` can close the block, its second cannot, and the
   pair extends the body.
   */
  lemma PairToken(t: string, k0: nat, k: nat)
    requires k0 <= k && k + 1 < |t| && t[k] == '}' && t[k + 1] == '}'
    requires ValidBody(t[k0..k])
    ensures Closes(t, k0, k) && !Closes(t, k0, k + 1) && ValidBody(t[k0..k + 2])
  {
    assert t[k0..k + 2] == t[k0..k] + ['}', '}'];
    assert ValidBody(['}', '}'][2..]);
    ValidBodyAppend(t[k0..k], ['}', '}']);
    if ValidBody(t[k0..k + 1]) {
      assert t[k0..k + 1] == t[k0..k] + ['}'];
      ValidBodyCancel(t[k0..k], ['}']);
    }
  }

  // ---------------------------------------------------------------------------
  // One match.

  /** The optional style group `([*_])?` at position `i`. */
  function StyleAt(t: string, i: nat): Option<Style>
  {
    if i < |t| && t[i] == '*' then Some(Bold)
    else if i < |t| && t[i] == '_' then Some(Underline)
    else None
  }

  /** The optional letter group `([a-zA-Z])?` at position `i`. */
  function LetterAt(t: string, i: nat): Option<char>
  {
    if i < |t| && IsAsciiLetter(t[i]) then Some(t[i]) else None
  }

  /**
   The match the regex finds at an `@` and its length. The alternatives are
   tried in order `@@`, `@.`, then the styled span, whose optional parts are
   all greedy; the result is the longest of all the matches the regex admits.
   */
  function MatchAt(t: string): (r: (Expr, nat))
    requires |t| > 0 && t[0] == '@'
    ensures 0 < r.1 <= |t|
    ensures Candidate(t, r.0) && |Source(r.0)| == r.1
    ensures forall e :: Candidate(t, e) ==> |Source(e)| <= r.1
  {
    if |t| >= 2 && t[1] == '@' then
      MatchAtAlternatives(t, LiteralAt);
      (LiteralAt, 2)
    else if |t| >= 2 && t[1] == '.' then
      MatchAtAlternatives(t, ResetExpr);
      (ResetExpr, 2)
    else
      var e := GreedyAt(t);
      SpanIsLongest(t, e);
      (e, |Source(e)|)
  }

  /** The span the greedy optional groups pick: style, then letter, then block. */
  function GreedyAt(t: string): (e: Expr)
    ensures GreedySpan(t, e)
  {
    var st := StyleAt(t, 1);
    var i := 1 + |StyleSource(st)|;
    var l := LetterAt(t, i);
    var j := i + |LetterSource(l)|;
    var b := if j < |t| && t[j] == '{' then BodyEnd(t, j + 1) else None;
    Span(st, l, if b.Some? then Some(t[j + 1..b.value]) else None)
  }

  /** The greedy groups leave no choice. */
  lemma GreedyUnique(t: string, e: Expr, e': Expr)
    requires GreedySpan(t, e) && GreedySpan(t, e')
    ensures e == e'
  {
  }

  /** The characters a styled span shows right after the `@`. */
  lemma SpanShape(e: Expr)
    requires e.Span?
    ensures Source(e) == "@" + StyleSource(e.style) + LetterSource(e.letter) + BraceSource(e.text)
    ensures var i := 1 + |StyleSource(e.style)|;
            && |Source(e)| >= i
            && (e.style.Some? ==> Source(e)[1] == StyleSource(e.style)[0] && Source(e)[1] in "*_")
            && (e.letter.Some? ==> |Source(e)| > i && Source(e)[i] == e.letter.value)
            && (e.letter.None? && e.text.Some? ==> |Source(e)| > i && Source(e)[i] == '{')
            && (e.letter.None? && e.text.None? ==> |Source(e)| == i)
  {
  }

  /** After `@@` or `@.` the only other admitted match is the bare `@`. */
  lemma MatchAtAlternatives(t: string, chosen: Expr)
    requires |t| >= 2 && t[0] == '@'
    requires (chosen == LiteralAt && t[1] == '@') || (chosen == ResetExpr && t[1] == '.')
    ensures Candidate(t, chosen)
    ensures forall e :: Candidate(t, e) ==> |Source(e)| <= 2
  {
    assert Source(chosen) == t[..2];
    forall e | Candidate(t, e)
      ensures |Source(e)| <= 2
    {
      if e.Span? {
        SpanShape(e);
        assert Source(e)[..1] == "@";
      }
    }
  }

  /** The styled span built by the greedy groups is the longest admitted match. */
  lemma SpanIsLongest(t: string, e: Expr)
    requires |t| > 0 && t[0] == '@'
    requires !(|t| >= 2 && (t[1] == '@' || t[1] == '.'))
    requires GreedySpan(t, e)
    ensures Candidate(t, e)
    ensures forall e' :: Candidate(t, e') ==> |Source(e')| <= |Source(e)|
  {
    GreedySpanIsCandidate(t, e);
    forall e' | Candidate(t, e')
      ensures |Source(e')| <= |Source(e)|
    {
      SpanCandidateBound(t, e, e');
    }
  }

  lemma GreedySpanIsCandidate(t: string, e: Expr)
    requires |t| > 0 && t[0] == '@'
    requires GreedySpan(t, e)
    ensures Candidate(t, e)
  {
    GreedyHead(t, e);
    if e.text.Some? {
      var end := GreedyText(t, e);
      SpanWithBlockIsCandidate(t, e, end);
    } else {
      var head := "@" + StyleSource(e.style) + LetterSource(e.letter);
      assert Source(e) == head + "";
    }
  }

  /** A span whose head starts `t` and whose block closes at `end` is admitted at `t`. */
  lemma SpanWithBlockIsCandidate(t: string, e: Expr, end: nat)
    requires e.Span? && e.text.Some?
    requires e.letter.Some? ==> IsAsciiLetter(e.letter.value)
    requires var head := "@" + StyleSource(e.style) + LetterSource(e.letter);
             |head| <= |t| && t[..|head|] == head
    requires var j := 1 + |StyleSource(e.style)| + |LetterSource(e.letter)|;
             && j < |t| && t[j] == '{'
             && Closes(t, j + 1, end) && e.text.value == t[j + 1..end]
    ensures Candidate(t, e)
  {
    var head := "@" + StyleSource(e.style) + LetterSource(e.letter);
    var j := |head|;
    GreedyBrace(t, j, end);
    assert e.text == Some(t[j + 1..end]);
    assert Source(e) == head + BraceSource(e.text);
    PrefixJoin(t, head, end + 1);
  }

  /** A prefix of `t` followed by the next slice of `t` is a longer prefix. */
  lemma PrefixJoin(t: string, head: string, m: nat)
    requires |head| <= m <= |t| && t[..|head|] == head
    ensures head + t[|head|..m] == t[..m]
  {
    assert t[..m] == t[..|head|] + t[|head|..m];
  }

  /** When the greedy span has a block, it is closed where `BodyEnd` says. */
  lemma GreedyText(t: string, e: Expr) returns (end: nat)
    requires GreedySpan(t, e) && e.text.Some?
    ensures var j := 1 + |StyleSource(e.style)| + |LetterSource(e.letter)|;
            && j < |t| && t[j] == '{'
            && Closes(t, j + 1, end) && e.text.value == t[j + 1..end]
  {
    var j := 1 + |StyleSource(e.style)| + |LetterSource(e.letter)|;
    end := BodyEnd(t, j + 1).value;
  }

  /** The style and letter the greedy groups pick are the characters after the `@`. */
  lemma GreedyHead(t: string, e: Expr)
    requires |t| > 0 && t[0] == '@'
    requires GreedySpan(t, e)
    ensures var head := "@" + StyleSource(e.style) + LetterSource(e.letter);
            |head| <= |t| && t[..|head|] == head
    ensures e.letter.Some? ==> IsAsciiLetter(e.letter.value)
  {
    var ss := StyleSource(e.style);
    var ls := LetterSource(e.letter);
    var i := 1 + |ss|;
    if e.style.Some? {
      assert t[..2] == [t[0], t[1]];
    } else {
      assert t[..1] == [t[0]];
    }
    assert t[..i] == "@" + ss;
    if e.letter.Some? {
      assert t[..i + 1] == t[..i] + [t[i]];
    }
  }

  /** A brace block closed at `end` is `{`, a valid body and `}`. */
  lemma GreedyBrace(t: string, j: nat, end: nat)
    requires j < |t| && t[j] == '{'
    requires Closes(t, j + 1, end)
    ensures t[j..end + 1] == BraceSource(Some(t[j + 1..end]))
    ensures ValidBody(t[j + 1..end])
  {
    assert t[j..end + 1] == [t[j]] + t[j + 1..end] + [t[end]];
  }

  /** `e` is the span the greedy optional groups pick at the start of `t`. */
  predicate GreedySpan(t: string, e: Expr)
  {
    && e.Span?
    && e.style == StyleAt(t, 1)
    && e.letter == LetterAt(t, 1 + |StyleSource(e.style)|)
    && var j := 1 + |StyleSource(e.style)| + |LetterSource(e.letter)|;
       var b := if j < |t| && t[j] == '{' then BodyEnd(t, j + 1) else None;
       e.text == if b.Some? then Some(t[j + 1..b.value]) else None
  }

  lemma SpanCandidateBound(t: string, e: Expr, e': Expr)
    requires |t| > 0 && t[0] == '@'
    requires !(|t| >= 2 && (t[1] == '@' || t[1] == '.'))
    requires GreedySpan(t, e)
    requires Candidate(t, e')
    ensures |Source(e')| <= |Source(e)|
  {
    var src := Source(e');
    assert src == t[..|src|];
    SpanShape(e);
    if e'.Span? && |src| > 1 {
      SpanShape(e');
      SameStyle(t, e, e');
      var i := 1 + |StyleSource(e.style)|;
      if |src| > i {
        SameLetter(t, e, e', i);
        if e'.text.Some? {
          SameBrace(t, e, e', i + |LetterSource(e.letter)|);
        }
      }
    }
  }

  lemma SameStyle(t: string, e: Expr, e': Expr)
    requires |t| > 1 && t[0] == '@'
    requires GreedySpan(t, e)
    requires Candidate(t, e') && e'.Span? && |Source(e')| > 1
    ensures e'.style == e.style
  {
    var src := Source(e');
    assert src == t[..|src|];
    SpanShape(e');
    assert src[1] == t[1];
    assert e.style.Some? ==> t[1] in "*_";
  }

  lemma SameLetter(t: string, e: Expr, e': Expr, i: nat)
    requires |t| > 0 && t[0] == '@'
    requires GreedySpan(t, e) && e'.Span? && e'.style == e.style
    requires i == 1 + |StyleSource(e.style)|
    requires Candidate(t, e') && |Source(e')| > i
    ensures e'.letter == e.letter
  {
    var src := Source(e');
    assert src == t[..|src|];
    SpanShape(e');
    assert src[i] == t[i];
  }

  lemma SameBrace(t: string, e: Expr, e': Expr, j: nat)
    requires |t| > 0 && t[0] == '@'
    requires GreedySpan(t, e) && e'.Span? && e'.style == e.style && e'.letter == e.letter
    requires j == 1 + |StyleSource(e.style)| + |LetterSource(e.letter)|
    requires Candidate(t, e') && e'.text.Some?
    ensures |Source(e')| <= |Source(e)|
  {
    CandidateBlockCloses(t, e', j);
    GreedyBlockBound(t, e, j, j + 1 + |e'.text.value|);
  }

  /** An admitted span with a block shows a `}` of `t` that closes a valid body. */
  lemma CandidateBlockCloses(t: string, e: Expr, j: nat)
    requires Candidate(t, e) && e.Span? && e.text.Some?
    requires j == 1 + |StyleSource(e.style)| + |LetterSource(e.letter)|
    ensures var c := j + 1 + |e.text.value|;
            && j < |t| && t[j] == '{' && Closes(t, j + 1, c)
            && |Source(e)| == c + 1
  {
    var src := Source(e);
    var body := e.text.value;
    assert src == t[..|src|];
    assert src == "@" + StyleSource(e.style) + LetterSource(e.letter) + ("{" + body + "}");
    assert |src| == j + |body| + 2;
    assert src[j] == '{';
    assert src[j + 1..j + 1 + |body|] == body;
    assert src[j + 1 + |body|] == '}';
    assert t[j + 1..j + 1 + |body|] == body;
  }

  /** The greedy span reaches at least as far as any `}` that closes its block. */
  lemma GreedyBlockBound(t: string, e: Expr, j: nat, c: nat)
    requires GreedySpan(t, e)
    requires j == 1 + |StyleSource(e.style)| + |LetterSource(e.letter)|
    requires j < |t| && t[j] == '{' && Closes(t, j + 1, c)
    ensures |Source(e)| >= c + 1
  {
    var end := BodyEnd(t, j + 1).value;
    assert e.text == Some(t[j + 1..end]);
    assert Source(e) == "@" + StyleSource(e.style) + LetterSource(e.letter) + ("{" + t[j + 1..end] + "}");
  }

  // ---------------------------------------------------------------------------
  // The whole input.

  /**
   `re.sub`'s walk over the input: a character other than `@` is copied
   through; an `@` starts a match, after which the walk resumes behind it.
   The pieces cover the input exactly, and no copied character is an `@`.
   */
  function Scan(t: string): (r: seq<Piece>)
    ensures Unparse(r) == t
    ensures forall k :: 0 <= k < |r| && r[k].Verbatim? ==> r[k].c != '@'
    ensures forall k :: 0 <= k < |r| && r[k].Matched? ==> WellFormed(r[k].e)
    decreases |t|
  {
    if t == [] then []
    else if t[0] != '@' then
      var rest := Scan(t[1..]);
      ScanStep(t, Verbatim(t[0]), 1, rest);
      [Verbatim(t[0])] + rest
    else
      var m := MatchAt(t);
      var rest := Scan(t[m.1..]);
      assert Source(m.0) == t[..m.1];
      ScanStep(t, Matched(m.0), m.1, rest);
      [Matched(m.0)] + rest
  }

  /**
   `p` is what the walk produces at offset `off` of `t`: the regex's match
   when the character there is an `@`, the character itself otherwise.
   */
  predicate PieceAt(t: string, off: nat, p: Piece)
  {
    && off < |t|
    && if t[off] == '@' then p == Matched(MatchAt(t[off..]).0) else p == Verbatim(t[off])
  }

  /**
   Every piece of the walk is what `re.sub` finds at its offset: the regex's
   (longest) match at each `@`, and the character itself everywhere else.
   */
  lemma {:induction false} ScanMatchesAt(t: string)
    ensures forall k :: 0 <= k < |Scan(t)| ==> PieceAt(t, |Unparse(Scan(t)[..k])|, Scan(t)[k])
    decreases |t|
  {
    if t != [] {
      var p, n := ScanHead(t);
      var rest := Scan(t[n..]);
      ScanMatchesAt(t[n..]);
      forall k | 0 <= k < |[p] + rest|
        ensures PieceAt(t, |Unparse(([p] + rest)[..k])|, ([p] + rest)[k])
      {
        if k == 0 {
          assert ([p] + rest)[..0] == [];
        } else {
          ScanShift(t, p, n, rest, k);
        }
      }
    }
  }

  /** The first piece of the walk, and where the walk resumes after it. */
  lemma ScanHead(t: string) returns (p: Piece, n: nat)
    requires t != []
    ensures 0 < n <= |t| && |PieceSource(p)| == n
    ensures PieceAt(t, 0, p)
    ensures Scan(t) == [p] + Scan(t[n..])
  {
    if t[0] != '@' {
      p, n := Verbatim(t[0]), 1;
    } else {
      p, n := Matched(MatchAt(t).0), MatchAt(t).1;
      assert t[0..] == t;
    }
  }

  /** A piece of the tail walk, moved to its offset in the whole input. */
  lemma ScanShift(t: string, p: Piece, n: nat, rest: seq<Piece>, k: nat)
    requires 0 < n <= |t| && |PieceSource(p)| == n
    requires 0 < k <= |rest|
    requires PieceAt(t[n..], |Unparse(rest[..k - 1])|, rest[k - 1])
    ensures PieceAt(t, |Unparse(([p] + rest)[..k])|, ([p] + rest)[k])
  {
    var off := |Unparse(rest[..k - 1])|;
    var m := |Unparse(([p] + rest)[..k])|;
    OffsetShift(p, rest, k);
    PieceAtShift(t, n, off, m, rest[k - 1]);
  }

  lemma OffsetShift(p: Piece, rest: seq<Piece>, k: nat)
    requires 0 < k <= |rest|
    ensures |Unparse(([p] + rest)[..k])| == |PieceSource(p)| + |Unparse(rest[..k - 1])|
    ensures ([p] + rest)[k] == rest[k - 1]
  {
    assert ([p] + rest)[..k] == [p] + rest[..k - 1];
    UnparseCons(p, rest[..k - 1]);
  }

  lemma PieceAtShift(t: string, n: nat, off: nat, m: nat, q: Piece)
    requires n <= |t| && m == n + off && PieceAt(t[n..], off, q)
    ensures PieceAt(t, m, q)
  {
    assert t[n..][off] == t[n + off];
    assert t[n..][off..] == t[n + off..];
  }

  /** One step of the walk keeps the covering and the piece invariants. */
  lemma ScanStep(t: string, p: Piece, n: nat, rest: seq<Piece>)
    requires n <= |t| && PieceSource(p) == t[..n]
    requires p.Verbatim? ==> p.c != '@'
    requires p.Matched? ==> WellFormed(p.e)
    requires Unparse(rest) == t[n..]
    requires forall k :: 0 <= k < |rest| && rest[k].Verbatim? ==> rest[k].c != '@'
    requires forall k :: 0 <= k < |rest| && rest[k].Matched? ==> WellFormed(rest[k].e)
    ensures Unparse([p] + rest) == t
    ensures forall k :: 0 <= k < |[p] + rest| && ([p] + rest)[k].Verbatim? ==> ([p] + rest)[k].c != '@'
    ensures forall k :: 0 <= k < |[p] + rest| && ([p] + rest)[k].Matched? ==> WellFormed(([p] + rest)[k].e)
  {
    UnparseStep(t, p, n, rest);
    ConsPieces(p, rest);
  }

  lemma UnparseStep(t: string, p: Piece, n: nat, rest: seq<Piece>)
    requires n <= |t| && PieceSource(p) == t[..n]
    requires Unparse(rest) == t[n..]
    ensures Unparse([p] + rest) == t
  {
    UnparseCons(p, rest);
    assert t == t[..n] + t[n..];
  }

  /** Putting a piece in front keeps the piece invariants. */
  lemma ConsPieces(p: Piece, rest: seq<Piece>)
    requires p.Verbatim? ==> p.c != '@'
    requires p.Matched? ==> WellFormed(p.e)
    requires forall k :: 0 <= k < |rest| && rest[k].Verbatim? ==> rest[k].c != '@'
    requires forall k :: 0 <= k < |rest| && rest[k].Matched? ==> WellFormed(rest[k].e)
    ensures forall k :: 0 <= k < |[p] + rest| && ([p] + rest)[k].Verbatim? ==> ([p] + rest)[k].c != '@'
    ensures forall k :: 0 <= k < |[p] + rest| && ([p] + rest)[k].Matched? ==> WellFormed(([p] + rest)[k].e)
  {
    var r := [p] + rest;
    forall k | 0 <= k < |r|
      ensures r[k].Verbatim? ==> r[k].c != '@'
      ensures r[k].Matched? ==> WellFormed(r[k].e)
    {
      if k > 0 {
        assert r[k] == rest[k - 1];
      }
    }
  }
}
