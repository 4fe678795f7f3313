# Colour markup of `llnl.util.tty.color`, in Dafny

This project models the colour-markup engine of Cram's terminal helper
`src/python/llnl/util/tty/color.py` and proves properties of that model. The
engine turns a string such as `@*b{hi} and @@` into text carrying ANSI SGR
escape sequences ("Select Graphic Rendition", section 8.3.117 of ECMA-48), or
into plain text when colour is off. It rejects malformed markup with a
`ColorParseError`.

The modules follow the parts of the source:

- `results.dfy`, module `Results`: `Option`, used for regex groups that took
  no part in a match, and `Result`, used for "output or the error that aborted
  the call".
- `ansi.dfy`, module `Ansi`:
  - the `styles` and `colors` tables;
  - `match_to_ansi.escape`, with `Escape(color, params)`;
  - `str` on a colour code, with `Decimal`;
  - `Strip`, a reference function that deletes every `ESC … m` sequence. It
    gives colour-on output a meaning in terms of colour-off output.
- `markup.dfy`, module `Markup`: the regex `color_re`, as a hand-written
  scanner. `Expr` records the groups a match filled. `MatchAt` is the match
  at an `@`. `Scan` cuts a string into copied characters and matches, leftmost
  first and without overlap, as `re.sub` walks it.
- `color.dfy`, module `Color`:
  - `match_to_ansi.__call__`, modelled by `Handle`;
  - `re.sub` with that handler, modelled by `RenderPieces` and `Render`;
  - `colorize`, modelled by `Colorize`;
  - `cescape`, modelled by `Cescape`;
  - the error values and their messages.
- `writers.dfy`, module `Writers`: `cwrite` and `cprint`, as functions that
  return the text they would write.
- `properties.dfy`, module `ColorProperties`: the behaviour promised by the
  docstring and the code, stated for all inputs.
- `scenarios.dfy`, module `Scenarios`: concrete renderings. They include the
  cases where the code departs from its docstring.

How the regex is modelled:

- Every `@` starts a match, because everything after the `@` in
  `@(?:@|\.|([*_])?([a-zA-Z])?(?:{((?:[^}]|}})*)})?)` is optional.
- The alternatives are tried in order: `@@`, then `@.`, then the optional
  style, the optional letter and the optional brace block.
- A brace body is a sequence of tokens. A token is one character other than
  `}`, or the pair `}}`.
- With backtracking, the block ends at the last `}` that closes a valid
  body. If no `}` does, there is no block, and the `{` is ordinary text.
- `MatchAt` is proved to return the longest match the regex admits at that
  position.

## Where the code and its comments disagree

The model follows the code:

- The module docstring (color.py:73) says `}}` inside braces writes a `}`.
  The handler copies the captured body unchanged (color.py:136-137), so
  `@r{a}}b}` keeps `a}}b`.
- `if text:` (color.py:136) treats an empty body like no body: `@r{}` gives
  only `ESC[0;31m`, with no reset after it.
- The grammar in the docstring (color.py:55) makes both the colour letter
  and the brace block mandatory. The regex makes both optional, so `@*{x}`,
  `@{x}`, `@{}`, `@r` and `@*b` are all expressions.
- The module docstring (color.py:33-35) says `colorize` drops colour when its
  `isatty` keyword is false. `colorize` reads only the `color` keyword
  (color.py:148), and `**kwargs` swallows any other, so `colorize(s,
  isatty=False)` still colours. The model's `Colorize` takes only the colour
  flag.

## Model

| member | source | states |
|---|---|---|
| Ansi.ColorTable | src/python/llnl/util/tty/color.py:89-96 | exactly the sixteen letters `krgybmcwKRGYBMCW` have a colour; the k-th lower-case letter maps to 30+k and the k-th upper-case letter to 90+k |
| Ansi.Decimal | src/python/llnl/util/tty/color.py:133 | `str` of a colour code is a non-empty string of decimal digits |
| Ansi.StripEscape | src/python/llnl/util/tty/color.py:106-109 | `Strip` deletes a whole escape `ESC [ params m` whose parameters hold no `m` and keeps stripping the text after it |
| Markup.ValidBodyAppend | src/python/llnl/util/tty/color.py:99 | two valid brace bodies joined form a valid body |
| Markup.ValidBodyCancel | src/python/llnl/util/tty/color.py:99 | removing a valid front part from a valid body leaves a valid body |
| Markup.LoneCloseEndsBodies | src/python/llnl/util/tty/color.py:99 | once a body reaches a `}` that is not doubled, no longer prefix is a valid body |
| Markup.LastCloseIsLongest | src/python/llnl/util/tty/color.py:99 | the token walk returns a `}` that closes a valid body, and every other closing `}` comes before it; no result means that no `}` closes a body |
| Markup.BodyEnd | src/python/llnl/util/tty/color.py:99 | the block's end is a `}` that closes a valid body, and no later `}` does; no end means the `{` starts no block |
| Markup.MatchAtAlternatives | src/python/llnl/util/tty/color.py:99 | after `@@` or `@.` the regex admits no match longer than two characters |
| Markup.SpanIsLongest | src/python/llnl/util/tty/color.py:99 | the span built by the greedy style, letter and block groups is admitted, and no admitted match is longer |
| Markup.MatchAt | src/python/llnl/util/tty/color.py:99 | the match at an `@` is admitted by the regex, covers at least the `@`, and is at least as long as every admitted match |
| Markup.Scan | src/python/llnl/util/tty/color.py:99 | the pieces cover the input exactly, no copied character is an `@`, and every match fills its groups as the regex allows |
| Markup.ScanMatchesAt | src/python/llnl/util/tty/color.py:149 | every piece is what `re.sub` finds at its offset: at an `@`, the regex's longest match there; anywhere else, that character copied |
| Color.Message | src/python/llnl/util/tty/color.py:125-132 | after the 25-character heading comes the offending fragment in quotes (`'@'` or the letter), then ` in `, then the whole input, which is quoted in the invalid-colour message and bare in the incomplete-format one |
| Color.Handle | src/python/llnl/util/tty/color.py:113-139 | the handler rejects exactly the bare `@` and letters outside the table; the error is `IncompleteFormat` exactly when the matched text is `@`; an invalid-colour error names the letter; with colour off the replacement is the visible text |
| Color.RenderPiecesFails | src/python/llnl/util/tty/color.py:149 | substitution fails exactly when some match is rejected, and then with the handler's error for the first rejected match |
| Color.Colorize | src/python/llnl/util/tty/color.py:142-149 | an error carries the whole input string; `colorize` succeeds exactly when the substitution does |
| Color.ColorizeFails | src/python/llnl/util/tty/color.py:142-149 | `colorize` fails exactly when a match of the input is rejected, with the reason of the first such match |
| Color.Cescape | src/python/llnl/util/tty/color.py:168-170 | a string without `@` is unchanged, and escaping never shortens a string |
| Color.CescapeCounts | src/python/llnl/util/tty/color.py:168-170 | the escaped string is one character longer per `@` of the input and holds exactly twice as many `@` |
| Color.CescapeKeepsOthers | src/python/llnl/util/tty/color.py:168-170 | every character other than `@` occurs in the escaped string exactly as often as in the input |
| Color.CescapeAppend | src/python/llnl/util/tty/color.py:168-170 | escaping a concatenation is the concatenation of the escaped parts, so the replacement is made independently everywhere |
| Color.CescapeChar | src/python/llnl/util/tty/color.py:168-170 | a lone `@` becomes `@@`, and any other single character is kept |
| ColorProperties.RenderAppend | src/python/llnl/util/tty/color.py:149 | rendering two runs of pieces one after the other gives the first output followed by the second; an error in the first run wins |
| ColorProperties.RenderTextPrefix | src/python/llnl/util/tty/color.py:149 | text without `@` in front of the input is copied unchanged ahead of the rest's rendering |
| ColorProperties.RenderAtMatch | src/python/llnl/util/tty/color.py:113-149 | at an `@`, the output is the handler's replacement for the match there, followed by the rendering of what follows the match |
| ColorProperties.NoMarkupIsIdentity | src/python/llnl/util/tty/color.py:142-149 | a string without `@` comes back unchanged, whatever the colour flag |
| ColorProperties.LiteralAtRendering | src/python/llnl/util/tty/color.py:120-121 | `@@` renders as a single `@` |
| ColorProperties.ResetRendering | src/python/llnl/util/tty/color.py:122-123 | `@.` renders as the reset escape with colour on and as nothing with colour off |
| ColorProperties.BareMatch | src/python/llnl/util/tty/color.py:99 | an `@` that no character after it can extend matches as the bare `@` |
| ColorProperties.BareAtFails | src/python/llnl/util/tty/color.py:124-126 | a bare `@` rejects the whole call with `IncompleteFormat`, whatever the colour flag |
| ColorProperties.MatchTakesLetter | src/python/llnl/util/tty/color.py:99 | a letter right after the `@` and the optional style always becomes the colour group |
| ColorProperties.InvalidLetterFails | src/python/llnl/util/tty/color.py:129-132 | a letter outside the table rejects the whole call with that letter, also with colour off |
| ColorProperties.MatchBlock | src/python/llnl/util/tty/color.py:99 | a block takes as body exactly the text before the `}` where the body ends |
| ColorProperties.MatchNoBlock | src/python/llnl/util/tty/color.py:99 | a style or letter that is not followed by a closable `{` matches without a block |
| ColorProperties.HandleBlock | src/python/llnl/util/tty/color.py:128-139 | a span with a block becomes the SGR escape, then the body unchanged, then one reset when the body is not empty |
| ColorProperties.HandleSwitch | src/python/llnl/util/tty/color.py:128-139 | a span without a block becomes the SGR escape alone |
| ColorProperties.StyledBlockRendering | src/python/llnl/util/tty/color.py:128-139 | a styled block renders as its escape, the body exactly as written (`}}` stays two characters, `@` is not read again), one reset unless the body is empty, then the rest |
| ColorProperties.StyledSwitchRendering | src/python/llnl/util/tty/color.py:128-139 | a style or colour switch without a block renders as its escape and adds no reset |
| ColorProperties.SgrParamsShape | src/python/llnl/util/tty/color.py:128-133 | the SGR parameter is the style code `1`, `4` or `0`; with a letter it is followed by `;` and 30-37 for lower case or 90-97 for upper case |
| ColorProperties.TwoDigits | src/python/llnl/util/tty/color.py:133 | `str` of a two-digit code is its tens digit followed by its units digit |
| ColorProperties.PlainOutputFromInput | src/python/llnl/util/tty/color.py:106-139 | with colour off, every output character comes from the input, so no ESC appears unless the input has one |
| ColorProperties.HandleStrip | src/python/llnl/util/tty/color.py:106-139 | stripping the escapes from a coloured replacement leaves exactly the replacement made with colour off |
| ColorProperties.StripPieces | src/python/llnl/util/tty/color.py:149 | stripping the escapes from the coloured output of the pieces leaves their colour-off output |
| ColorProperties.ColorOnlyAddsEscapes | src/python/llnl/util/tty/color.py:142-149 | for input without ESC, colour on and colour off succeed together, and stripping the escapes from the coloured output gives the plain output |
| ColorProperties.ErrorsIgnoreColor | src/python/llnl/util/tty/color.py:120-132 | the colour flag never changes whether or how `colorize` fails |
| ColorProperties.CescapeRender | src/python/llnl/util/tty/color.py:168-170 | the substitution undoes `cescape` |
| ColorProperties.CescapeRoundTrip | src/python/llnl/util/tty/color.py:168-170 | `colorize(cescape(s))` returns `s` and never fails, whatever the colour flag |
| Writers.Cwrite | src/python/llnl/util/tty/color.py:152-161 | the output is `colorize` with colour on when asked for, or when not asked and the stream is a terminal; it fails exactly when the input's markup is malformed, with the input in the error and whatever the colour choice; input without `@` is written as it is; uncoloured output holds only characters of the input; for input without ESC, coloured output with its escapes deleted is the uncoloured output |
| Writers.Cprint | src/python/llnl/util/tty/color.py:164-166 | the output is what `cwrite` gives for the line with a newline appended; it fails exactly when that line's markup is malformed, with the line and newline in the error; a successful output ends with the newline; a line without `@` is written unchanged with a newline |
| ColorProperties.ScanEndsWith | src/python/llnl/util/tty/color.py:99 | a character that no match can end with, at the end of the input, is copied as the last piece |
| ColorProperties.RenderEndsWith | src/python/llnl/util/tty/color.py:164-166 | a successful rendering of such an input ends with that character |
| Scenarios.LiteralAtExample | src/python/llnl/util/tty/color.py:120-121 | `@@` gives `@` |
| Scenarios.ResetExample | src/python/llnl/util/tty/color.py:122-123 | `@.` gives `ESC[0m` with colour on |
| Scenarios.PlainResetExample | src/python/llnl/util/tty/color.py:110-111 | `@.` gives the empty string with colour off |
| Scenarios.TrailingAtExample | src/python/llnl/util/tty/color.py:124-126 | an `@` at the end of the input is rejected |
| Scenarios.BareAtExample | src/python/llnl/util/tty/color.py:124-126 | `a@ b` is rejected as an incomplete format |
| Scenarios.UnclosedBlockFails | src/python/llnl/util/tty/color.py:124-126 | `@{` with no `}` after it is a bare `@` and is rejected |
| Scenarios.InvalidLetterExample | src/python/llnl/util/tty/color.py:129-132 | `@x{hi}` is rejected with the letter `x`, whatever the colour flag |
| Scenarios.RedBlockExample | src/python/llnl/util/tty/color.py:128-139 | `@r{hi}` gives `ESC[0;31m`, `hi`, `ESC[0m` |
| Scenarios.BoldBlueBlockExample | src/python/llnl/util/tty/color.py:128-139 | `@*b{hi}` gives `ESC[1;34m`, `hi`, `ESC[0m` |
| Scenarios.PlainBlockExample | src/python/llnl/util/tty/color.py:135-139 | `@r{hi}` gives `hi` with colour off |
| Scenarios.DoubledBraceKeptExample | src/python/llnl/util/tty/color.py:136-137 | `@r{a}}b}` keeps the body `a}}b` unchanged |
| Scenarios.DoubledBraceSplitExample | src/python/llnl/util/tty/color.py:99 | in `@r{a}}b` the block closes at the first `}`, and `}b` follows as text |
| Scenarios.EmptyRedBlockExample | src/python/llnl/util/tty/color.py:135-139 | `@r{}` gives `ESC[0;31m` and no reset |
| Scenarios.EmptyBlockExample | src/python/llnl/util/tty/color.py:128-139 | `@{}` gives `ESC[0m` alone |
| Scenarios.RedSwitchExample | src/python/llnl/util/tty/color.py:128-139 | `@r` gives `ESC[0;31m` and no reset |
| Scenarios.UnclosedAfterLetterExample | src/python/llnl/util/tty/color.py:99 | `@r{abc` is the match `@r` followed by the text `{abc` |

## Left out

- `ColorStream` (color.py:173-190) is not modelled. It is stream delegation
  that rebuilds its class at run time. Its `writelines` passes an extra
  positional argument to `write` (color.py:190), so that method fails on the
  first element of a non-empty sequence.
- Color.Colorize: the source's `color` keyword defaults to true
  (color.py:148). The model's flag has no default, and every caller passes it
  explicitly.
- Stream I/O is not modelled. `cwrite` and `cprint` return the text they would
  write, the `sys.stdout` default is dropped, and the answer of
  `stream.isatty()` is a parameter.
- `str()` on a non-string argument to `cescape` (color.py:170) is not
  modelled. The model takes strings only.
- Strings are modelled as byte strings or Python 3 `str`. The surrounding code
  is Python 2 (`print` statements, as in src/python/cram/cmd/test.py:45), where
  `str(u'é')` in `cescape` raises `UnicodeEncodeError`. So
  `ColorProperties.CescapeRoundTrip`'s "never fails" does not cover Python 2
  `unicode` arguments with non-ASCII characters.
- Color.Cescape: its own contract says only that `@`-free strings are unchanged
  and that escaping never shortens. The character counts, the
  character-by-character replacement and the one-character cases are the
  lemmas `Color.CescapeCounts`, `Color.CescapeKeepsOthers`,
  `Color.CescapeAppend` and `Color.CescapeChar`.
- Markup.Scan: its own contract states coverage and the shape of each piece.
  That each piece is the regex's match at its offset, as `re.sub` walks the
  string, is the lemma `Markup.ScanMatchesAt`.
- Python's general `re` engine is not modelled. Only the one fixed pattern of
  color.py:99 is modelled, as a scanner, and its match is proved to be the
  longest the pattern admits.
- The wording of the exception is modelled in `Color.Message`. Python's
  exception machinery is replaced by the `Result` datatype: an error aborts
  the whole call and no partial output is returned.
- ColorProperties.PlainOutputFromInput: "no ESC with colour off" is proved
  only for input that holds no ESC itself. Text outside matches and brace
  bodies is copied unchanged, so an ESC in the input reaches the output.
- ColorProperties.ColorOnlyAddsEscapes: stated for input without ESC, for the
  same reason. `ColorProperties.ErrorsIgnoreColor` needs no such premise.
- Ansi.Decimal: its contract says only that the result is non-empty and made
  of digits. The exact text for the codes 30-37 and 90-97 is
  `ColorProperties.TwoDigits`.
- Cram's command-line modules, which only set up arguments and dispatch, are
  not part of this model.
