/**
 * Span assembly in `highlight_code`: each line of the code is fed to the
 * highlighter, each returned `(style, text)` range becomes one span, and a
 * `"\n"` terminator span closes every line.
 */
module Highlight {
  import opened Wrappers
  import opened Colors
  import opened FontStyles
  import opened TextLines
  import opened Themes

  /** syntect's `Style` of one highlighted range. */
  datatype Style = Style(foreground: Color, background: Color, fontStyle: FontStyle)

  /** One `(Style, &str)` range returned for a line. */
  type Range = (Style, string)

  /** `HighlightedSpan`: text, hex colours and the packed font style. */
  datatype HighlightedSpan = HighlightedSpan(
    text: string,
    foreground: string,
    background: string,
    fontStyle: Byte)

  /** `HighlightResult`: the spans in document order and the theme background. */
  datatype HighlightResult = HighlightResult(spans: seq<HighlightedSpan>, background: string)

  /**
   * syntect's `HighlightLines`, seen from outside: `start` builds a
   * highlighter for a syntax and a theme; `highlightLine` feeds it one line,
   * giving the highlighter's next state and the line's ranges, or `None`
   * where syntect reports an error. `S` is the highlighter's parse state,
   * which carries over from line to line.
   */
  datatype Tokenizer<!S> = Tokenizer(
    start: (SyntaxRef, Theme) -> S,
    highlightLine: (S, string) -> (S, Option<seq<Range>>))

  /** The texts of `ranges`, concatenated in order. */
  function JoinTexts(ranges: seq<Range>): string {
    if ranges == [] then [] else JoinTexts(ranges[..|ranges| - 1]) + ranges[|ranges| - 1].1
  }

  /** The texts of `spans`, concatenated in order. */
  function JoinSpanTexts(spans: seq<HighlightedSpan>): string {
    if spans == [] then [] else JoinSpanTexts(spans[..|spans| - 1]) + spans[|spans| - 1].text
  }

  /** The number of spans whose text is exactly `"\n"`. */
  function CountNewlineSpans(spans: seq<HighlightedSpan>): nat {
    if spans == [] then 0
    else CountNewlineSpans(spans[..|spans| - 1]) + (if spans[|spans| - 1].text == "\n" then 1 else 0)
  }

  /** The highlighter's ranges for a line, joined, are exactly that line. */
  ghost predicate CoversEachLine<S(!new)>(tok: Tokenizer<S>) {
    forall s: S, line: string ::
      tok.highlightLine(s, line).1.Some? ==> JoinTexts(tok.highlightLine(s, line).1.value) == line
  }

  /** The highlighter never reports an error. */
  ghost predicate NeverFails<S(!new)>(tok: Tokenizer<S>) {
    forall s: S, line: string :: tok.highlightLine(s, line).1.Some?
  }

  /** The highlighter reports an error on every line. */
  ghost predicate AlwaysFails<S(!new)>(tok: Tokenizer<S>) {
    forall s: S, line: string :: tok.highlightLine(s, line).1.None?
  }

  /** The span pushed for one range. */
  function RangeSpan(range: Range): HighlightedSpan {
    var style := range.0;
    HighlightedSpan(range.1, ColorToHex(style.foreground), ColorToHex(style.background),
                    StyleValue(style.fontStyle))
  }

  /**
   * A range's span keeps its text, carries both colours in upper-case hex
   * and a style byte that decodes back to the range's flags.
   */
  lemma RangeSpanFaithful(range: Range)
    ensures RangeSpan(range).text == range.1
    ensures IsUpperHexColor(RangeSpan(range).foreground) && IsUpperHexColor(RangeSpan(range).background)
    ensures ParseHexColor(RangeSpan(range).foreground) == Some(Channels(range.0.foreground))
    ensures ParseHexColor(RangeSpan(range).background) == Some(Channels(range.0.background))
    ensures RangeSpan(range).fontStyle <= 7 && FlagsOf(RangeSpan(range).fontStyle) == range.0.fontStyle
  {
    StyleValueRoundTrip(range.0.fontStyle);
    ColorToHexRoundTrip(range.0.foreground);
    ColorToHexRoundTrip(range.0.background);
  }

  /** `render` keeps the text of every range it turns into a span. */
  ghost predicate KeepsText(render: Range -> HighlightedSpan) {
    forall r: Range :: render(r).text == r.1
  }

  /** `RangeSpan` keeps the text of its range. */
  lemma RangeSpanKeepsText()
    ensures KeepsText(RangeSpan)
  {
    forall r: Range ensures RangeSpan(r).text == r.1 {
      RangeSpanFaithful(r);
    }
  }

  /**
   * The spans pushed for a line's ranges: one per range, in order, each made
   * by `render` (`highlight_code` uses `RangeSpan`; the structural lemmas
   * below hold for any `render` that keeps the text).
   */
  function ContentSpans(render: Range -> HighlightedSpan, ranges: seq<Range>): (spans: seq<HighlightedSpan>)
    ensures |spans| == |ranges|
  {
    if ranges == [] then [] else ContentSpans(render, ranges[..|ranges| - 1]) + [render(ranges[|ranges| - 1])]
  }

  /** The `k`-th content span is the span of the `k`-th range. */
  lemma {:induction false} ContentSpansAt(render: Range -> HighlightedSpan, ranges: seq<Range>, k: nat)
    requires k < |ranges|
    ensures ContentSpans(render, ranges)[k] == render(ranges[k])
    decreases |ranges|
  {
    var n := |ranges| - 1;
    if k < n {
      ContentSpansAt(render, ranges[..n], k);
    }
  }

  /** The span pushed after every line. */
  function Terminator(theme: Theme): HighlightedSpan {
    HighlightedSpan("\n", TerminatorForeground(theme), ThemeBackground(theme), 0)
  }

  /** The highlighter's state after it has been fed the first `n` lines, starting from `s0`. */
  function StateAfter<S>(tok: Tokenizer<S>, s0: S, lines: seq<string>, n: nat): S
    requires n <= |lines|
  {
    if n == 0 then s0 else tok.highlightLine(StateAfter(tok, s0, lines, n - 1), lines[n - 1]).0
  }

  /** The ranges of line `i`; a failed line gives none (`unwrap_or_default`). */
  function LineRanges<S>(tok: Tokenizer<S>, s0: S, lines: seq<string>, i: nat): seq<Range>
    requires i < |lines|
  {
    tok.highlightLine(StateAfter(tok, s0, lines, i), lines[i]).1.UnwrapOr([])
  }

  /** The spans of the first `n` lines: each line's content spans followed by `term`. */
  function SpansUpTo<S>(tok: Tokenizer<S>, s0: S, lines: seq<string>, n: nat,
                        render: Range -> HighlightedSpan, term: HighlightedSpan): seq<HighlightedSpan>
    requires n <= |lines|
  {
    if n == 0 then []
    else SpansUpTo(tok, s0, lines, n - 1, render, term) + ContentSpans(render, LineRanges(tok, s0, lines, n - 1)) + [term]
  }

  /** What `highlight_code` returns, as a function of its inputs and the loaded tables. */
  function Highlight<S>(ss: SyntaxSet, themes: map<string, Theme>, tok: Tokenizer<S>,
                        code: string, language: string, theme: string): HighlightResult
    requires theme in themes || DefaultThemeName in themes
  {
    var t := ResolveTheme(themes, theme);
    var s0 := tok.start(FindSyntax(ss, language), t);
    var lines := Lines(code);
    HighlightResult(SpansUpTo(tok, s0, lines, |lines|, RangeSpan, Terminator(t)), ThemeBackground(t))
  }

  /**
   * `highlight_code`: resolves syntax and theme, then walks the lines of
   * `code`, pushing each line's range spans and then a terminator.
   */
  method HighlightCode<S>(ss: SyntaxSet, themes: map<string, Theme>, tok: Tokenizer<S>,
                          code: string, language: string, theme: string)
    returns (result: HighlightResult)
    requires theme in themes || DefaultThemeName in themes
    ensures result == Highlight(ss, themes, tok, code, language, theme)
  {
    var syntax := FindSyntax(ss, language);
    var themeObj := ResolveTheme(themes, theme);
    var background := ThemeBackground(themeObj);
    var highlighter := tok.start(syntax, themeObj);
    ghost var s0 := highlighter;
    ghost var term := Terminator(themeObj);
    var spans: seq<HighlightedSpan> := [];
    var lines := Lines(code);
    var i := 0;
    while i < |lines|
      invariant 0 <= i <= |lines|
      invariant highlighter == StateAfter(tok, s0, lines, i)
      invariant spans == SpansUpTo(tok, s0, lines, i, RangeSpan, term)
    {
      var step := tok.highlightLine(highlighter, lines[i]);
      var ranges := step.1.UnwrapOr([]);
      assert ranges == LineRanges(tok, s0, lines, i);
      spans := PushRangeSpans(spans, ranges);
      var terminator := HighlightedSpan("\n", ColorToHex(themeObj.foreground.UnwrapOr(White)),
                                        background, 0);
      assert terminator == term;
      spans := spans + [terminator];
      highlighter := step.0;
      i := i + 1;
    }
    result := HighlightResult(spans, background);
  }

  /** The inner loop of `highlight_code`: one span pushed per range, in order. */
  method PushRangeSpans(spans0: seq<HighlightedSpan>, ranges: seq<Range>)
    returns (spans: seq<HighlightedSpan>)
    ensures spans == spans0 + ContentSpans(RangeSpan, ranges)
  {
    spans := spans0;
    var j := 0;
    while j < |ranges|
      invariant 0 <= j <= |ranges|
      invariant spans == spans0 + ContentSpans(RangeSpan, ranges[..j])
    {
      var (style, text) := ranges[j];
      var fontStyle := FontStyleToU8(style.fontStyle);
      var span := HighlightedSpan(text, ColorToHex(style.foreground),
                                  ColorToHex(style.background), fontStyle as int);
      assert span == RangeSpan(ranges[j]);
      ContentSpansSnoc(ranges, j);
      assert spans0 + ContentSpans(RangeSpan, ranges[..j]) + [span] ==
             spans0 + (ContentSpans(RangeSpan, ranges[..j]) + [span]);
      spans := spans + [span];
      j := j + 1;
    }
    assert ranges[..j] == ranges;
  }

  /** Extending the ranges by one adds that range's span at the end. */
  lemma ContentSpansSnoc(ranges: seq<Range>, j: nat)
    requires j < |ranges|
    ensures ContentSpans(RangeSpan, ranges[..j + 1]) == ContentSpans(RangeSpan, ranges[..j]) + [RangeSpan(ranges[j])]
  {
    assert ranges[..j + 1][..j] == ranges[..j];
  }

  /** `s` has no newline character (a line produced by `str::lines`). */
  predicate NoNewline(s: string) {
    '\n' !in s
  }

  /** Counting `"\n"` spans distributes over concatenation. */
  lemma {:induction false} CountNewlineSpansAppend(a: seq<HighlightedSpan>, b: seq<HighlightedSpan>)
    ensures CountNewlineSpans(a + b) == CountNewlineSpans(a) + CountNewlineSpans(b)
    decreases |b|
  {
    if b == [] {
      assert a + b == a;
    } else {
      var n := |b| - 1;
      assert (a + b)[..|a + b| - 1] == a + b[..n];
      assert (a + b)[|a + b| - 1] == b[n];
      CountNewlineSpansAppend(a, b[..n]);
    }
  }

  /** Joining span texts distributes over concatenation. */
  lemma {:induction false} JoinSpanTextsAppend(a: seq<HighlightedSpan>, b: seq<HighlightedSpan>)
    ensures JoinSpanTexts(a + b) == JoinSpanTexts(a) + JoinSpanTexts(b)
    decreases |b|
  {
    if b == [] {
      assert a + b == a;
    } else {
      var n := |b| - 1;
      assert (a + b)[..|a + b| - 1] == a + b[..n];
      assert (a + b)[|a + b| - 1] == b[n];
      JoinSpanTextsAppend(a, b[..n]);
    }
  }


  /** The spans of a line's ranges carry, joined, the same text as the ranges. */
  lemma {:induction false} JoinContentSpans(render: Range -> HighlightedSpan, ranges: seq<Range>)
    requires KeepsText(render)
    ensures JoinSpanTexts(ContentSpans(render, ranges)) == JoinTexts(ranges)
    decreases |ranges|
  {
    if ranges != [] {
      var n := |ranges| - 1;
      var spans := ContentSpans(render, ranges);
      assert spans[..|spans| - 1] == ContentSpans(render, ranges[..n]);
      JoinContentSpans(render, ranges[..n]);
    }
  }

  /** When the joined text has no newline, neither has any single range. */
  lemma {:induction false} JoinTextsNoNewline(ranges: seq<Range>)
    requires NoNewline(JoinTexts(ranges))
    ensures forall k :: 0 <= k < |ranges| ==> NoNewline(ranges[k].1)
    decreases |ranges|
  {
    if ranges != [] {
      var n := |ranges| - 1;
      assert JoinTexts(ranges) == JoinTexts(ranges[..n]) + ranges[n].1;
      assert NoNewline(JoinTexts(ranges[..n])) && NoNewline(ranges[n].1) by {
        forall ch | ch in JoinTexts(ranges[..n]) ensures ch in JoinTexts(ranges) { }
        forall ch | ch in ranges[n].1 ensures ch in JoinTexts(ranges) { }
      }
      JoinTextsNoNewline(ranges[..n]);
      assert forall k :: 0 <= k < n ==> ranges[..n][k] == ranges[k];
    }
  }

  /** A highlighter that covers each line gives, for a newline-free line, newline-free ranges. */
  lemma LineRangesNoNewline<S(!new)>(tok: Tokenizer<S>, s0: S, lines: seq<string>, i: nat)
    requires CoversEachLine(tok)
    requires i < |lines| && NoNewline(lines[i])
    ensures forall k :: 0 <= k < |LineRanges(tok, s0, lines, i)| ==> NoNewline(LineRanges(tok, s0, lines, i)[k].1)
  {
    var out := tok.highlightLine(StateAfter(tok, s0, lines, i), lines[i]).1;
    if out.Some? {
      JoinTextsNoNewline(out.value);
    }
  }

  /** Spans of newline-free ranges never have the text `"\n"`. */
  lemma {:induction false} ContentSpansHaveNoTerminator(render: Range -> HighlightedSpan, ranges: seq<Range>)
    requires KeepsText(render)
    requires forall k :: 0 <= k < |ranges| ==> NoNewline(ranges[k].1)
    ensures CountNewlineSpans(ContentSpans(render, ranges)) == 0
    ensures forall k :: 0 <= k < |ranges| ==> ContentSpans(render, ranges)[k].text != "\n"
    decreases |ranges|
  {
    forall k | 0 <= k < |ranges| ensures ContentSpans(render, ranges)[k].text != "\n" {
      ContentSpansAt(render, ranges, k);
      assert '\n' in "\n";
    }
    if ranges != [] {
      var n := |ranges| - 1;
      var spans := ContentSpans(render, ranges);
      assert spans[..|spans| - 1] == ContentSpans(render, ranges[..n]);
      assert forall k :: 0 <= k < n ==> ranges[..n][k] == ranges[k];
      ContentSpansHaveNoTerminator(render, ranges[..n]);
    }
  }

  /** The spans of the first `m` lines are a prefix of those of the first `n >= m`. */
  lemma {:induction false} SpansUpToPrefix<S>(tok: Tokenizer<S>, s0: S, lines: seq<string>, m: nat, n: nat,
                                              render: Range -> HighlightedSpan, term: HighlightedSpan)
    requires m <= n <= |lines|
    ensures SpansUpTo(tok, s0, lines, m, render, term) <= SpansUpTo(tok, s0, lines, n, render, term)
    decreases n
  {
    if m < n {
      SpansUpToPrefix(tok, s0, lines, m, n - 1, render, term);
    }
  }

  /** Each of the first `n` lines adds at least its terminator, and the last span is one. */
  lemma {:induction false} SpansUpToCloseEveryLine<S>(tok: Tokenizer<S>, s0: S, lines: seq<string>, n: nat,
                                                      render: Range -> HighlightedSpan, term: HighlightedSpan)
    requires n <= |lines|
    ensures |SpansUpTo(tok, s0, lines, n, render, term)| >= n
    ensures n > 0 ==> SpansUpTo(tok, s0, lines, n, render, term)[|SpansUpTo(tok, s0, lines, n, render, term)| - 1] == term
    decreases n
  {
    if n > 0 {
      SpansUpToCloseEveryLine(tok, s0, lines, n - 1, render, term);
    }
  }

  /** Under a covering highlighter, a newline-free line gets no content span with text `"\n"`. */
  lemma LineSpansHaveNoTerminator<S(!new)>(tok: Tokenizer<S>, s0: S, lines: seq<string>, i: nat,
                                           render: Range -> HighlightedSpan)
    requires CoversEachLine(tok) && KeepsText(render)
    requires i < |lines| && NoNewline(lines[i])
    ensures CountNewlineSpans(ContentSpans(render, LineRanges(tok, s0, lines, i))) == 0
    ensures forall k :: 0 <= k < |LineRanges(tok, s0, lines, i)| ==>
                          ContentSpans(render, LineRanges(tok, s0, lines, i))[k].text != "\n"
  {
    LineRangesNoNewline(tok, s0, lines, i);
    ContentSpansHaveNoTerminator(render, LineRanges(tok, s0, lines, i));
  }

  /** A line whose content has no `"\n"` span adds exactly one with its terminator. */
  lemma CountLineStep(prev: seq<HighlightedSpan>, content: seq<HighlightedSpan>, term: HighlightedSpan)
    requires CountNewlineSpans(content) == 0 && term.text == "\n"
    ensures CountNewlineSpans(prev + content + [term]) == CountNewlineSpans(prev) + 1
  {
    CountNewlineSpansAppend(prev, content);
    CountNewlineSpansAppend(prev + content, [term]);
    assert CountNewlineSpans([term]) == 1 by {
      assert [term][..0] == [];
    }
  }

  /**
   * With a highlighter that covers each line and newline-free lines, there
   * is exactly one `"\n"` span per line.
   */
  lemma {:induction false} SpansUpToTerminatorCount<S(!new)>(tok: Tokenizer<S>, s0: S, lines: seq<string>, n: nat,
                                                            render: Range -> HighlightedSpan, term: HighlightedSpan)
    requires CoversEachLine(tok) && KeepsText(render)
    requires forall i :: 0 <= i < |lines| ==> NoNewline(lines[i])
    requires term.text == "\n"
    requires n <= |lines|
    ensures CountNewlineSpans(SpansUpTo(tok, s0, lines, n, render, term)) == n
    decreases n
  {
    if n > 0 {
      var prev := SpansUpTo(tok, s0, lines, n - 1, render, term);
      var content := ContentSpans(render, LineRanges(tok, s0, lines, n - 1));
      SpansUpToTerminatorCount(tok, s0, lines, n - 1, render, term);
      LineSpansHaveNoTerminator(tok, s0, lines, n - 1, render);
      CountLineStep(prev, content, term);
    }
  }

  /**
   * With a highlighter that covers each line and newline-free lines, every
   * `"\n"` span is a terminator: all of them equal `term`.
   */
  lemma {:induction false} SpansUpToTerminatorsUniform<S(!new)>(tok: Tokenizer<S>, s0: S, lines: seq<string>, n: nat,
                                                               render: Range -> HighlightedSpan, term: HighlightedSpan)
    requires CoversEachLine(tok) && KeepsText(render)
    requires forall i :: 0 <= i < |lines| ==> NoNewline(lines[i])
    requires n <= |lines|
    ensures forall k :: 0 <= k < |SpansUpTo(tok, s0, lines, n, render, term)|
                        && SpansUpTo(tok, s0, lines, n, render, term)[k].text == "\n" ==>
                          SpansUpTo(tok, s0, lines, n, render, term)[k] == term
    decreases n
  {
    if n > 0 {
      var prev := SpansUpTo(tok, s0, lines, n - 1, render, term);
      var content := ContentSpans(render, LineRanges(tok, s0, lines, n - 1));
      SpansUpToTerminatorsUniform(tok, s0, lines, n - 1, render, term);
      LineSpansHaveNoTerminator(tok, s0, lines, n - 1, render);
      var all := prev + content + [term];
      assert all == SpansUpTo(tok, s0, lines, n, render, term);
      forall k | 0 <= k < |all| && all[k].text == "\n" ensures all[k] == term {
        if k < |prev| {
          assert all[k] == prev[k];
        } else if k < |prev| + |content| {
          assert false;
        }
      }
    }
  }

  /** A highlighter that fails on every line leaves nothing but terminators. */
  lemma {:induction false} SpansUpToAllFailed<S(!new)>(tok: Tokenizer<S>, s0: S, lines: seq<string>, n: nat,
                                                      render: Range -> HighlightedSpan, term: HighlightedSpan)
    requires AlwaysFails(tok)
    requires n <= |lines|
    ensures SpansUpTo(tok, s0, lines, n, render, term) == seq(n, _ => term)
    decreases n
  {
    if n > 0 {
      SpansUpToAllFailed(tok, s0, lines, n - 1, render, term);
      assert tok.highlightLine(StateAfter(tok, s0, lines, n - 1), lines[n - 1]).1.None?;
      assert seq(n - 1, _ => term) + [term] == seq(n, _ => term);
    }
  }

  /** A line's spans, joined, are the line's text; its terminator adds the `\n`. */
  lemma JoinLineStep(prev: seq<HighlightedSpan>, content: seq<HighlightedSpan>, term: HighlightedSpan, line: string)
    requires JoinSpanTexts(content) == line && term.text == "\n"
    ensures JoinSpanTexts(prev + content + [term]) == JoinSpanTexts(prev) + line + "\n"
  {
    JoinSpanTextsAppend(prev, content);
    JoinSpanTextsAppend(prev + content, [term]);
    assert JoinSpanTexts([term]) == "\n" by {
      assert [term][..0] == [];
    }
  }

  /** Terminating one more line appends that line and a `\n`. */
  lemma JoinTerminatedSnoc(lines: seq<string>, n: nat)
    requires 0 < n <= |lines|
    ensures JoinTerminated(lines[..n]) == JoinTerminated(lines[..n - 1]) + lines[n - 1] + "\n"
  {
    assert lines[..n] == lines[..n - 1] + [lines[n - 1]];
    JoinTerminatedAppend(lines[..n - 1], [lines[n - 1]]);
    assert JoinTerminated([lines[n - 1]]) == lines[n - 1] + "\n" by {
      assert [lines[n - 1]][1..] == [];
    }
  }

  /** Under a highlighter that never fails and covers each line, a line's spans join to the line. */
  lemma LineSpansJoinToLine<S(!new)>(tok: Tokenizer<S>, s0: S, lines: seq<string>, i: nat,
                                     render: Range -> HighlightedSpan)
    requires CoversEachLine(tok) && NeverFails(tok) && KeepsText(render)
    requires i < |lines|
    ensures JoinSpanTexts(ContentSpans(render, LineRanges(tok, s0, lines, i))) == lines[i]
  {
    assert tok.highlightLine(StateAfter(tok, s0, lines, i), lines[i]).1.Some?;
    JoinContentSpans(render, LineRanges(tok, s0, lines, i));
  }

  /**
   * A highlighter that never fails and covers each line hands back all the
   * text: joining the span texts gives every line followed by `\n`.
   */
  lemma {:induction false} SpansUpToRebuildText<S(!new)>(tok: Tokenizer<S>, s0: S, lines: seq<string>, n: nat,
                                                        render: Range -> HighlightedSpan, term: HighlightedSpan)
    requires CoversEachLine(tok) && NeverFails(tok) && KeepsText(render)
    requires term.text == "\n"
    requires n <= |lines|
    ensures JoinSpanTexts(SpansUpTo(tok, s0, lines, n, render, term)) == JoinTerminated(lines[..n])
    decreases n
  {
    if n > 0 {
      var content := ContentSpans(render, LineRanges(tok, s0, lines, n - 1));
      SpansUpToRebuildText(tok, s0, lines, n - 1, render, term);
      LineSpansJoinToLine(tok, s0, lines, n - 1, render);
      JoinLineStep(SpansUpTo(tok, s0, lines, n - 1, render, term), content, term, lines[n - 1]);
      JoinTerminatedSnoc(lines, n);
    }
  }

  /** Every span of the first `n` lines satisfies `p` when the terminator and every rendered range do. */
  lemma {:induction false} SpansUpToAll<S>(tok: Tokenizer<S>, s0: S, lines: seq<string>, n: nat,
                                           render: Range -> HighlightedSpan, term: HighlightedSpan,
                                           p: HighlightedSpan -> bool)
    requires n <= |lines|
    requires p(term) && forall r :: p(render(r))
    ensures forall k :: 0 <= k < |SpansUpTo(tok, s0, lines, n, render, term)| ==>
                          p(SpansUpTo(tok, s0, lines, n, render, term)[k])
    decreases n
  {
    if n > 0 {
      var prev := SpansUpTo(tok, s0, lines, n - 1, render, term);
      var ranges := LineRanges(tok, s0, lines, n - 1);
      var content := ContentSpans(render, ranges);
      SpansUpToAll(tok, s0, lines, n - 1, render, term, p);
      var all := prev + content + [term];
      forall k | 0 <= k < |all| ensures p(all[k]) {
        if k < |prev| {
          assert all[k] == prev[k];
        } else if k < |prev| + |content| {
          assert all[k] == content[k - |prev|];
          ContentSpansAt(render, ranges, k - |prev|);
        }
      }
    }
  }

  /** Empty code gives no spans, only the theme's background. */
  lemma HighlightEmptyCode<S>(ss: SyntaxSet, themes: map<string, Theme>, tok: Tokenizer<S>,
                              language: string, theme: string)
    requires theme in themes || DefaultThemeName in themes
    ensures Highlight(ss, themes, tok, "", language, theme).spans == []
    ensures Highlight(ss, themes, tok, "", language, theme).background == ThemeBackground(ResolveTheme(themes, theme))
  {
    assert Lines("") == [];
  }

  /**
   * The result's background is the chosen theme's in upper-case hex, or the
   * fallback exactly when that theme sets none; for a loaded theme it is
   * what `get_theme_background` reports.
   */
  lemma HighlightBackground<S>(ss: SyntaxSet, themes: map<string, Theme>, tok: Tokenizer<S>,
                               code: string, language: string, theme: string)
    requires theme in themes || DefaultThemeName in themes
    ensures IsHexColor(Highlight(ss, themes, tok, code, language, theme).background)
    ensures var bg := Highlight(ss, themes, tok, code, language, theme).background;
            (IsUpperHexColor(bg) || bg == DefaultBackground) &&
            (bg == DefaultBackground <==> ResolveTheme(themes, theme).background.None?)
    ensures theme in themes ==>
              Highlight(ss, themes, tok, code, language, theme).background == GetThemeBackground(themes, theme)
  {
    ThemeBackgroundFallback(ResolveTheme(themes, theme));
    if theme in themes {
      BackgroundsAgreeOnLoadedTheme(themes, theme);
    }
  }

  /**
   * Non-empty code, in any language (an unknown one falls back to plain
   * text), gives at least one span per line, and the last span closes the
   * last line.
   */
  lemma HighlightNonEmptyCode<S>(ss: SyntaxSet, themes: map<string, Theme>, tok: Tokenizer<S>,
                                 code: string, language: string, theme: string)
    requires theme in themes || DefaultThemeName in themes
    requires code != []
    ensures var spans := Highlight(ss, themes, tok, code, language, theme).spans;
            |spans| >= |Lines(code)| >= 1 && spans[|spans| - 1] == Terminator(ResolveTheme(themes, theme))
  {
    var t := ResolveTheme(themes, theme);
    var lines := Lines(code);
    SpansUpToCloseEveryLine(tok, tok.start(FindSyntax(ss, language), t), lines, |lines|, RangeSpan, Terminator(t));
  }

  /**
   * A span as `highlight_code` builds it: upper-case hex colours, except a
   * background that may be the fallback, and a style byte of at most 7.
   */
  predicate WellFormedSpan(span: HighlightedSpan) {
    IsUpperHexColor(span.foreground)
    && (IsUpperHexColor(span.background) || span.background == DefaultBackground)
    && span.fontStyle <= 7
  }

  /**
   * Every span has an upper-case hex foreground, an upper-case hex
   * background or the fallback `#1e1e1e`, and a style byte of at most 7.
   */
  lemma HighlightSpansWellFormed<S>(ss: SyntaxSet, themes: map<string, Theme>, tok: Tokenizer<S>,
                                    code: string, language: string, theme: string)
    requires theme in themes || DefaultThemeName in themes
    ensures var spans := Highlight(ss, themes, tok, code, language, theme).spans;
            forall k :: 0 <= k < |spans| ==> WellFormedSpan(spans[k])
  {
    var t := ResolveTheme(themes, theme);
    var lines := Lines(code);
    TerminatorForegroundFallback(t);
    ThemeBackgroundFallback(t);
    forall r: Range ensures WellFormedSpan(RangeSpan(r)) {
      RangeSpanFaithful(r);
    }
    SpansUpToAll(tok, tok.start(FindSyntax(ss, language), t), lines, |lines|, RangeSpan, Terminator(t), WellFormedSpan);
  }

  /**
   * With a highlighter that covers each line, there is one `"\n"` span per
   * line: one per `\n` in the code, plus one for an unterminated last line.
   */
  lemma HighlightTerminatorCount<S(!new)>(ss: SyntaxSet, themes: map<string, Theme>, tok: Tokenizer<S>,
                                          code: string, language: string, theme: string)
    requires theme in themes || DefaultThemeName in themes
    requires CoversEachLine(tok)
    ensures CountNewlineSpans(Highlight(ss, themes, tok, code, language, theme).spans) ==
              multiset(code)['\n'] + (if code != [] && code[|code| - 1] != '\n' then 1 else 0)
  {
    var t := ResolveTheme(themes, theme);
    var lines := Lines(code);
    RangeSpanKeepsText();
    SpansUpToTerminatorCount(tok, tok.start(FindSyntax(ss, language), t), lines, |lines|, RangeSpan, Terminator(t));
    LineCount(code);
  }

  /**
   * With a highlighter that covers each line, every `"\n"` span is a line
   * terminator: the theme's foreground (white when it sets none), the
   * result's background and no font style.
   */
  lemma HighlightTerminators<S(!new)>(ss: SyntaxSet, themes: map<string, Theme>, tok: Tokenizer<S>,
                                      code: string, language: string, theme: string)
    requires theme in themes || DefaultThemeName in themes
    requires CoversEachLine(tok)
    ensures var r := Highlight(ss, themes, tok, code, language, theme);
            forall k :: 0 <= k < |r.spans| && r.spans[k].text == "\n" ==>
              r.spans[k].foreground == TerminatorForeground(ResolveTheme(themes, theme)) &&
              r.spans[k].background == r.background && r.spans[k].fontStyle == 0
  {
    var t := ResolveTheme(themes, theme);
    var lines := Lines(code);
    RangeSpanKeepsText();
    SpansUpToTerminatorsUniform(tok, tok.start(FindSyntax(ss, language), t), lines, |lines|, RangeSpan, Terminator(t));
  }

  /** A highlighter that fails on every line leaves one terminator per line and nothing else. */
  lemma HighlightFailedLines<S(!new)>(ss: SyntaxSet, themes: map<string, Theme>, tok: Tokenizer<S>,
                                      code: string, language: string, theme: string)
    requires theme in themes || DefaultThemeName in themes
    requires AlwaysFails(tok)
    ensures Highlight(ss, themes, tok, code, language, theme).spans ==
              seq(|Lines(code)|, _ => Terminator(ResolveTheme(themes, theme)))
  {
    var t := ResolveTheme(themes, theme);
    var lines := Lines(code);
    SpansUpToAllFailed(tok, tok.start(FindSyntax(ss, language), t), lines, |lines|, RangeSpan, Terminator(t));
  }

  /**
   * With a highlighter that never fails and covers each line, the span texts
   * joined give back the code, without the `\r` of each CRLF and with a `\n`
   * added after an unterminated last line.
   */
  lemma HighlightRebuildsCode<S(!new)>(ss: SyntaxSet, themes: map<string, Theme>, tok: Tokenizer<S>,
                                       code: string, language: string, theme: string)
    requires theme in themes || DefaultThemeName in themes
    requires CoversEachLine(tok) && NeverFails(tok)
    ensures JoinSpanTexts(Highlight(ss, themes, tok, code, language, theme).spans) ==
              DropCrBeforeLf(code) + MissingNewline(code)
  {
    var t := ResolveTheme(themes, theme);
    var lines := Lines(code);
    RangeSpanKeepsText();
    SpansUpToRebuildText(tok, tok.start(FindSyntax(ss, language), t), lines, |lines|, RangeSpan, Terminator(t));
    assert lines[..|lines|] == lines;
    LinesRejoin(code);
  }

  /** Code without carriage returns comes back exactly, with a `\n` added after an unterminated last line. */
  lemma HighlightRebuildsCrFreeCode<S(!new)>(ss: SyntaxSet, themes: map<string, Theme>, tok: Tokenizer<S>,
                                             code: string, language: string, theme: string)
    requires theme in themes || DefaultThemeName in themes
    requires CoversEachLine(tok) && NeverFails(tok)
    requires '\r' !in code
    ensures JoinSpanTexts(Highlight(ss, themes, tok, code, language, theme).spans) ==
              if code == [] || code[|code| - 1] == '\n' then code else code + "\n"
  {
    HighlightRebuildsCode(ss, themes, tok, code, language, theme);
    DropCrBeforeLfWithoutCr(code);
  }
}
