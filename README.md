# syntect-swift highlighting core, in Dafny

This project models the Rust core of syntect-swift, a wrapper that exposes
the syntect highlighter to Swift. It covers:

- `color_to_hex`: a colour becomes `#RRGGBB` in upper-case hex, and alpha is dropped.
- `font_style_to_u8`: the bold, italic and underline flags are packed into one byte (1, 2 and 4).
- `highlight_code`:
  - the syntax is looked up by name, then by extension, then by lower-cased extension, and plain text is the last resort;
  - the theme is looked up by name, with `base16-ocean.dark` as the fallback;
  - the result background is the theme's colour, or `#1e1e1e`;
  - the code is walked line by line (`str::lines`). Each highlighted range becomes a span, and every line is closed by a `"\n"` span. That span uses the theme foreground (white when the theme sets none) and the result background.
- `get_theme_background`: the same background rule, but without the theme fallback.
- The `HighlightedSpan` and `HighlightResult` records.

syntect itself is abstract here:

- A syntax set is two lookup tables (by name and by extension) plus the plain-text syntax.
- The loaded themes are a map from name to `Theme`. A `Theme` carries its own name, which stands for the scope rules the highlighter reads, plus the foreground and background settings the wrapper reads itself.
- `HighlightLines` is a `Tokenizer<S>`. It is a start function plus a step function that takes the parse state `S` and one line, and returns the next state and the line's ranges, or `None` where syntect reports an error.

Modules:

- `Wrappers`: `Option`, with the combinators the source chains, and map lookup.
- `Colors`: `ColorToHex` and a hex-colour parser that serves as its inverse.
- `FontStyles`: `FontStyleToU8` on `bv8`, specified by `StyleValue` and its decoder `FlagsOf`.
- `TextLines`: Rust's `str::lines`.
- `Themes`: syntax and theme resolution, and the two background functions.
- `Highlight`: the span records, and `HighlightCode`, which is the loop proved against the function `Highlight`. The lemmas about the result are here too.

Three observations about the code:

- The record fields document colours as hex strings like `"#FF0000"` (lib.rs:15-18, 28). Every colour the wrapper renders with `color_to_hex` is upper-case hex. The fallback background literal `#1e1e1e` (lib.rs:82, 138), however, is lower case. `Themes.DefaultBackgroundShape` states this. `Highlight.WellFormedSpan` asks each background to be upper-case hex or exactly that literal.
- `get_theme_background` (lib.rs:132-139) does not fall back to `base16-ocean.dark`. For an unknown theme it reports `#1e1e1e`, while `highlight_code` reports the fallback theme's background (`Themes.BackgroundsDifferOnUnknownTheme`).
- The `"\n"` span is pushed after every line that `lines()` yields (lib.rs:87-109). A text ending in `\n` therefore gets no extra empty line, and the `\r` of each CRLF is dropped (`TextLines.LinesRejoin`).

## Model

| member | source | states |
|---|---|---|
| Colors.ColorToHexRoundTrip | syntect-swift/src/lib.rs:33-35 | the hex string has 7 characters, starts with `#`, uses upper-case digits and parses back to the colour's red, green and blue |
| Colors.ColorToHexInjective | syntect-swift/src/lib.rs:33-35 | two colours give the same string exactly when their red, green and blue agree |
| Colors.ColorToHexIgnoresAlpha | syntect-swift/src/lib.rs:33-35 | the alpha channel does not affect the string |
| Colors.ColorToHexOnto | syntect-swift/src/lib.rs:33-35 | every upper-case `#RRGGBB` string is the hex of some colour |
| Colors.Hex2RoundTrip | syntect-swift/src/lib.rs:34 | `{:02X}` gives two upper-case digits that parse back to the byte |
| Colors.DigitPairRoundTrip | syntect-swift/src/lib.rs:34 | two upper-case digits parse to a byte whose `{:02X}` is those digits again |
| Colors.ParseHexColor | syntect-swift/src/lib.rs:15-18 | the parser succeeds exactly on `#` followed by six hex digits of either case |
| FontStyles.FontStyleToU8 | syntect-swift/src/lib.rs:38-50 | the result is at most 7; bit 1 is set iff bold, bit 2 iff italic, bit 4 iff underline; it equals `StyleValue` |
| FontStyles.StyleValueRoundTrip | syntect-swift/src/lib.rs:38-50 | decoding the packed byte gives back exactly the flag set |
| FontStyles.StyleValueOnto | syntect-swift/src/lib.rs:38-50 | every value below 8 is the packing of some flag set |
| FontStyles.StyleValueInjective | syntect-swift/src/lib.rs:38-50 | two flag sets pack to the same byte exactly when they are equal |
| FontStyles.StyleValueTable | syntect-swift/src/lib.rs:19 | normal, bold, italic, bold+italic and underline pack to 0, 1, 2, 3 and 4 |
| TextLines.Lines | syntect-swift/src/lib.rs:87 | no line contains `\n`; there are no lines exactly when the code is empty |
| TextLines.LineCount | syntect-swift/src/lib.rs:87 | there is one line per `\n`, plus one when the text ends without `\n` |
| TextLines.LinesRejoin | syntect-swift/src/lib.rs:87 | for all text, the lines each followed by `\n` rebuild it, with the `\r` of each CRLF dropped and a final `\n` added if it was missing |
| TextLines.LinesRejoinWithoutCr | syntect-swift/src/lib.rs:87 | text without `\r` is rebuilt exactly, plus a final `\n` if it was missing |
| TextLines.DropCrBeforeLfAtCut | syntect-swift/src/lib.rs:87 | dropping the CRLF carriage returns of a line, its `\n` and the rest gives the line stripped of its trailing `\r` as `lines()` strips it, then `\n`, then the rest with its own carriage returns dropped |
| TextLines.NoLineForTrailingNewline | syntect-swift/src/lib.rs:87 | a trailing `\n` after an unterminated last line adds no empty line |
| TextLines.LinesExamples | syntect-swift/src/lib.rs:87 | `lines()` gives no line for empty text, one empty line for a lone `\n`, and keeps an empty middle line |
| TextLines.LinesCarriageReturnExample | syntect-swift/src/lib.rs:87 | `lines()` drops the `\r` of a CRLF but keeps a final `\r` with no `\n` after it |
| Themes.ToLowerIdempotent | syntect-swift/src/lib.rs:67 | lower-casing leaves no ASCII capital and changes nothing a second time |
| Themes.FindSyntax | syntect-swift/src/lib.rs:64-68 | a name match wins; then an extension match; then a lower-cased extension match; otherwise plain text |
| Themes.FindSyntaxInSet | syntect-swift/src/lib.rs:64-68 | the chosen syntax is always one of the loaded syntaxes or plain text |
| Themes.FindSyntaxLowerCaseName | syntect-swift/src/lib.rs:67-68 | a lower-case language found by neither lookup falls back to plain text |
| Themes.FindSyntaxNameIsCaseSensitive | syntect-swift/src/lib.rs:65 | `Rust` finds the Rust syntax by name, while `rust` does not |
| Themes.FindSyntaxExtensionIgnoresCase | syntect-swift/src/lib.rs:67 | the extension `RS` finds the syntax registered for `rs` |
| Themes.ResolveTheme | syntect-swift/src/lib.rs:71-75 | a loaded theme is used by name; otherwise `base16-ocean.dark` is used |
| Themes.ThemeBackgroundFallback | syntect-swift/src/lib.rs:78-82 | the background is `#1e1e1e` exactly when the theme sets none; otherwise it is upper-case hex that parses to the theme's colour |
| Themes.ColorToHexIsNotDefault | syntect-swift/src/lib.rs:81-82 | no theme colour renders as the fallback `#1e1e1e` |
| Themes.DefaultBackgroundShape | syntect-swift/src/lib.rs:82 | `#1e1e1e` is hex but not upper-case hex, and parses to (30, 30, 30) |
| Themes.TerminatorForegroundFallback | syntect-swift/src/lib.rs:105 | the terminator foreground is upper-case hex: the theme's foreground, or `#FFFFFF` when it sets none |
| Themes.GetThemeBackgroundFallback | syntect-swift/src/lib.rs:132-139 | the result is `#1e1e1e` exactly when the theme is not loaded or sets no background; otherwise it is upper-case hex that parses to the theme's colour |
| Themes.BackgroundsAgreeOnLoadedTheme | syntect-swift/src/lib.rs:78-82 | for a loaded theme, `get_theme_background` and `highlight_code` report the same background |
| Themes.BackgroundsDifferOnUnknownTheme | syntect-swift/src/lib.rs:132-139 | for an unknown theme, `get_theme_background` reports `#1e1e1e`, while `highlight_code` uses the fallback theme's background, which differs when that theme has one |
| Highlight.RangeSpanFaithful | syntect-swift/src/lib.rs:93-99 | a range's span keeps its text, carries both colours as upper-case hex that parses back, and has a style byte at most 7 that decodes to the range's flags |
| Highlight.ContentSpansAt | syntect-swift/src/lib.rs:93-100 | the k-th span of a line is the span of its k-th range |
| Highlight.HighlightCode | syntect-swift/src/lib.rs:62-112 | the loop returns exactly the `Highlight` specification: the spans of every line, each followed by its terminator, and the theme background |
| Highlight.PushRangeSpans | syntect-swift/src/lib.rs:93-100 | the inner loop appends one span per range, in order, to the spans so far |
| Highlight.SpansUpToPrefix | syntect-swift/src/lib.rs:87-109 | spans are only ever appended: the spans of the first m lines prefix those of the first n ≥ m |
| Highlight.SpansUpToCloseEveryLine | syntect-swift/src/lib.rs:102-108 | after n lines there are at least n spans, and the last one is the terminator |
| Highlight.SpansUpToTerminatorCount | syntect-swift/src/lib.rs:87-109 | when the highlighter covers each line and lines have no `\n`, there is exactly one `"\n"` span per line |
| Highlight.SpansUpToTerminatorsUniform | syntect-swift/src/lib.rs:87-109 | under the same hypotheses, every `"\n"` span is the terminator |
| Highlight.SpansUpToAllFailed | syntect-swift/src/lib.rs:89-91 | when every line fails, `unwrap_or_default` leaves only the terminators |
| Highlight.SpansUpToRebuildText | syntect-swift/src/lib.rs:87-109 | when the highlighter never fails and covers each line, the joined span texts are the lines, each followed by `\n` |
| Highlight.SpansUpToAll | syntect-swift/src/lib.rs:93-108 | every span is a rendered range or the terminator, so a property of both holds for all spans |
| Highlight.HighlightEmptyCode | syntect-swift/src/lib.rs:87-111 | empty code gives no spans and the theme's background |
| Highlight.HighlightBackground | syntect-swift/src/lib.rs:78-82 | the result background is upper-case hex, or `#1e1e1e` exactly when the chosen theme sets none; for a loaded theme it equals `get_theme_background` |
| Highlight.HighlightNonEmptyCode | syntect-swift/src/lib.rs:177-182 | non-empty code in any language, an unknown one included, gives at least one span per line and ends with a terminator |
| Highlight.HighlightSpansWellFormed | syntect-swift/src/lib.rs:94-107 | every span has an upper-case hex foreground, a background that is upper-case hex or the literal `#1e1e1e`, and a style byte of at most 7 |
| Highlight.HighlightTerminatorCount | syntect-swift/src/lib.rs:87-109 | with a covering highlighter, the number of `"\n"` spans is the number of `\n` in the code, plus one for an unterminated last line |
| Highlight.HighlightTerminators | syntect-swift/src/lib.rs:103-108 | with a covering highlighter, every `"\n"` span has the theme foreground (or white), the result background and style 0 |
| Highlight.HighlightFailedLines | syntect-swift/src/lib.rs:89-91 | a highlighter that fails on every line yields one terminator per line and nothing else |
| Highlight.HighlightRebuildsCode | syntect-swift/src/lib.rs:87-109 | with a covering highlighter that never fails, the span texts rebuild any code, with the `\r` of each CRLF dropped and a `\n` added after an unterminated last line |
| Highlight.HighlightRebuildsCrFreeCode | syntect-swift/src/lib.rs:87-109 | under the same hypotheses, code without `\r` comes back exactly, with a `\n` added after an unterminated last line |

## Left out

- syntect's syntax definitions, theme files and tokenizer are not modelled. They appear as lookup tables and as the `Tokenizer` step function. Properties that depend on what the tokenizer returns are stated under explicit hypotheses: it covers each line, it never fails, or it always fails.
- The keyword check of the Rust test (a span containing `fn`) depends on syntect's Rust grammar. Here it is covered only through `HighlightRebuildsCode`, which says the span texts rebuild the code.
- The lazily initialised global syntax and theme sets (`once_cell::Lazy`) are parameters here: `ss` and `themes`.
- The `.expect` on the fallback theme becomes the precondition of `Themes.ResolveTheme`, `Highlight.Highlight` and `Highlight.HighlightCode`: the theme or `base16-ocean.dark` must be loaded. The panic path is not modelled.
- UniFFI attributes and scaffolding are foreign-function glue and have no behaviour to model.
- `get_available_languages` and `get_available_themes`, with their tests, are left out: they only list the contents of syntect's built-in sets.
- Themes.ToLower: lower-cases ASCII letters only. Rust's `to_lowercase` also maps non-ASCII capitals.
- Highlight.HighlightCode: the inner per-range loop is the separate method `PushRangeSpans`, and the highlighter state is a value threaded through the loop rather than an object updated in place.
- `font_style_to_u8` cannot overflow (the result is at most 7), so no `u8` wrap-around is modelled.
