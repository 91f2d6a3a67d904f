/**
 * Resolution with fallback in `highlight_code` and `get_theme_background`:
 * which syntax and which theme a request ends up with, and which background
 * colour it reports. syntect's syntax and theme sets appear only as lookup
 * tables.
 */
module Themes {
  import opened Wrappers
  import opened Colors

  /** A syntax definition, known here only by its name. */
  datatype SyntaxRef = SyntaxRef(name: string)

  /**
   * The loaded syntax set as the wrapper queries it: `find_syntax_by_name`,
   * `find_syntax_by_extension` and `find_syntax_plain_text`.
   */
  datatype SyntaxSet = SyntaxSet(
    byName: map<string, SyntaxRef>,
    byExtension: map<string, SyntaxRef>,
    plainText: SyntaxRef)

  /**
   * A loaded theme: its name, which stands for the scope rules the
   * highlighter reads, and the two settings the wrapper reads itself.
   */
  datatype Theme = Theme(name: string, foreground: Option<Color>, background: Option<Color>)

  /** The theme used when the requested one is not loaded. */
  const DefaultThemeName: string := "base16-ocean.dark"

  /** The background reported when the theme sets none. */
  const DefaultBackground: string := "#1e1e1e"

  /** The foreground of line terminators when the theme sets none. */
  const White: Color := Color(255, 255, 255, 255)

  /** ASCII lower-casing of one character. */
  function LowerChar(ch: char): (r: char)
    ensures 'A' <= ch <= 'Z' ==> 'a' <= r <= 'z' && r as int - ch as int == 32
    ensures !('A' <= ch <= 'Z') ==> r == ch
  {
    if 'A' <= ch <= 'Z' then (ch as int + 32) as char else ch
  }

  /** `to_lowercase`, restricted to ASCII letters. */
  function ToLower(s: string): (r: string)
    ensures |r| == |s|
    ensures forall i :: 0 <= i < |s| ==> r[i] == LowerChar(s[i])
  {
    if s == [] then [] else [LowerChar(s[0])] + ToLower(s[1..])
  }

  predicate NoUpperAscii(s: string) {
    forall i :: 0 <= i < |s| ==> !('A' <= s[i] <= 'Z')
  }

  /** Lower-casing leaves no upper-case letter and changes nothing a second time. */
  lemma ToLowerIdempotent(s: string)
    ensures NoUpperAscii(ToLower(s))
    ensures ToLower(ToLower(s)) == ToLower(s)
  {
    assert forall i :: 0 <= i < |s| ==> ToLower(ToLower(s))[i] == ToLower(s)[i];
  }

  /** A name without upper-case letters is its own lower-case form. */
  lemma ToLowerFixesLowerCase(s: string)
    requires NoUpperAscii(s)
    ensures ToLower(s) == s
  {
    assert forall i :: 0 <= i < |s| ==> ToLower(s)[i] == s[i];
  }

  /**
   * Syntax resolution: the syntax named `language`, else the one registered
   * for the extension `language`, else the one for its lower-cased form,
   * else plain text. Only the extension lookup is retried in lower case.
   */
  function FindSyntax(ss: SyntaxSet, language: string): (syntax: SyntaxRef)
    ensures language in ss.byName ==> syntax == ss.byName[language]
    ensures language !in ss.byName && language in ss.byExtension ==>
              syntax == ss.byExtension[language]
    ensures language !in ss.byName && language !in ss.byExtension
            && ToLower(language) in ss.byExtension ==>
              syntax == ss.byExtension[ToLower(language)]
    ensures language !in ss.byName && language !in ss.byExtension
            && ToLower(language) !in ss.byExtension ==>
              syntax == ss.plainText
  {
    Get(ss.byName, language)
      .OrElse(Get(ss.byExtension, language))
      .OrElse(Get(ss.byExtension, ToLower(language)))
      .UnwrapOr(ss.plainText)
  }

  /** Resolution never fails: the answer is always a syntax of the set or the plain-text one. */
  lemma FindSyntaxInSet(ss: SyntaxSet, language: string)
    ensures FindSyntax(ss, language) in ss.byName.Values + ss.byExtension.Values + {ss.plainText}
  {
  }

  /** For a language name with no upper-case letter the lower-cased retry adds nothing. */
  lemma FindSyntaxLowerCaseName(ss: SyntaxSet, language: string)
    requires NoUpperAscii(language)
    requires language !in ss.byName && language !in ss.byExtension
    ensures FindSyntax(ss, language) == ss.plainText
  {
    ToLowerFixesLowerCase(language);
  }

  /** The name lookup is case-sensitive: "rust" does not find the syntax named "Rust". */
  lemma FindSyntaxNameIsCaseSensitive()
    ensures var ss := SyntaxSet(map["Rust" := SyntaxRef("Rust")], map[], SyntaxRef("Plain Text"));
            FindSyntax(ss, "Rust") == SyntaxRef("Rust") && FindSyntax(ss, "rust") == SyntaxRef("Plain Text")
  {
    var ss := SyntaxSet(map["Rust" := SyntaxRef("Rust")], map[], SyntaxRef("Plain Text"));
    assert "rust" != "Rust" by { assert "rust"[0] != "Rust"[0]; }
  }

  /** An extension is found in any case: "RS" reaches the syntax registered for "rs". */
  lemma FindSyntaxExtensionIgnoresCase()
    ensures var ss := SyntaxSet(map[], map["rs" := SyntaxRef("Rust")], SyntaxRef("Plain Text"));
            FindSyntax(ss, "RS") == SyntaxRef("Rust")
  {
    var ss := SyntaxSet(map[], map["rs" := SyntaxRef("Rust")], SyntaxRef("Plain Text"));
    assert ToLower("RS") == "rs" by {
      assert ToLower("RS")[0] == 'r' && ToLower("RS")[1] == 's';
    }
    assert "RS" != "rs" by { assert "RS"[0] != "rs"[0]; }
  }

  /**
   * Theme resolution: the theme named `name`, else `base16-ocean.dark`.
   * The source aborts when neither is loaded, so callers must ensure one is.
   */
  function ResolveTheme(themes: map<string, Theme>, name: string): (theme: Theme)
    requires name in themes || DefaultThemeName in themes
    ensures name in themes ==> theme == themes[name]
    ensures name !in themes ==> theme == themes[DefaultThemeName]
  {
    Get(themes, name).OrElse(Get(themes, DefaultThemeName)).value
  }

  /** `color_to_hex` never yields the lower-case fallback string. */
  lemma ColorToHexIsNotDefault(c: Color)
    ensures ColorToHex(c) != DefaultBackground
  {
    ColorToHexRoundTrip(c);
    assert !IsUpperHexDigit(DefaultBackground[2]);
  }

  /** The fallback is a hex colour (grey 0x1E) but, unlike `color_to_hex` output, in lower case. */
  lemma DefaultBackgroundShape()
    ensures IsHexColor(DefaultBackground) && !IsUpperHexColor(DefaultBackground)
    ensures ParseHexColor(DefaultBackground) == Some(Rgb(0x1E, 0x1E, 0x1E))
  {
    assert !IsUpperHexDigit(DefaultBackground[2]);
    assert ParseByte('1', 'e') == Some(0x1E);
  }

  /** The background `highlight_code` reports for a resolved theme. */
  function ThemeBackground(theme: Theme): string {
    theme.background.Map(c => ColorToHex(c)).UnwrapOr(DefaultBackground)
  }

  /**
   * The reported background is a hex colour: the theme's own background,
   * in upper-case hex, when it sets one, and the fallback exactly when it
   * does not.
   */
  lemma ThemeBackgroundFallback(theme: Theme)
    ensures IsHexColor(ThemeBackground(theme))
    ensures theme.background.Some? ==> IsUpperHexColor(ThemeBackground(theme))
    ensures IsUpperHexColor(ThemeBackground(theme)) || ThemeBackground(theme) == DefaultBackground
    ensures ThemeBackground(theme) == DefaultBackground <==> theme.background.None?
    ensures theme.background.Some? ==>
              ParseHexColor(ThemeBackground(theme)) == Some(Channels(theme.background.value))
    ensures theme.background.None? ==> ParseHexColor(ThemeBackground(theme)) == Some(Rgb(0x1E, 0x1E, 0x1E))
  {
    DefaultBackgroundShape();
    if theme.background.Some? {
      ColorToHexRoundTrip(theme.background.value);
      ColorToHexIsNotDefault(theme.background.value);
    }
  }

  /** The foreground of a line terminator: the theme's foreground, or white. */
  function TerminatorForeground(theme: Theme): string {
    ColorToHex(theme.foreground.UnwrapOr(White))
  }

  /** The terminator foreground is upper-case hex: the theme's foreground, or `#FFFFFF`. */
  lemma TerminatorForegroundFallback(theme: Theme)
    ensures IsUpperHexColor(TerminatorForeground(theme))
    ensures theme.foreground.Some? ==>
              ParseHexColor(TerminatorForeground(theme)) == Some(Channels(theme.foreground.value))
    ensures theme.foreground.None? ==> TerminatorForeground(theme) == "#FFFFFF"
  {
    ColorToHexRoundTrip(theme.foreground.UnwrapOr(White));
    assert HexDigit(15) == 'F';
  }

  /** `get_theme_background`: looks the theme up by name, with no further fallback theme. */
  function GetThemeBackground(themes: map<string, Theme>, name: string): string {
    Get(themes, name)
      .AndThen((t: Theme) => t.background)
      .Map(c => ColorToHex(c))
      .UnwrapOr(DefaultBackground)
  }

  /**
   * `get_theme_background` gives a hex colour: the named theme's background,
   * in upper-case hex, and the fallback string exactly when the theme is
   * unknown or sets none.
   */
  lemma GetThemeBackgroundFallback(themes: map<string, Theme>, name: string)
    ensures IsHexColor(GetThemeBackground(themes, name))
    ensures name in themes && themes[name].background.Some? ==> IsUpperHexColor(GetThemeBackground(themes, name))
    ensures IsUpperHexColor(GetThemeBackground(themes, name)) || GetThemeBackground(themes, name) == DefaultBackground
    ensures GetThemeBackground(themes, name) == DefaultBackground <==>
              name !in themes || themes[name].background.None?
    ensures name in themes && themes[name].background.Some? ==>
              ParseHexColor(GetThemeBackground(themes, name)) == Some(Channels(themes[name].background.value))
  {
    DefaultBackgroundShape();
    if name in themes && themes[name].background.Some? {
      ColorToHexRoundTrip(themes[name].background.value);
      ColorToHexIsNotDefault(themes[name].background.value);
    }
  }

  /** For a loaded theme both operations report the same background. */
  lemma BackgroundsAgreeOnLoadedTheme(themes: map<string, Theme>, name: string)
    requires name in themes
    ensures GetThemeBackground(themes, name) == ThemeBackground(ResolveTheme(themes, name))
  {
  }

  /**
   * For an unknown theme they differ whenever `base16-ocean.dark` sets a
   * background: `highlight_code` falls back to that theme, while
   * `get_theme_background` returns the fixed fallback string.
   */
  lemma BackgroundsDifferOnUnknownTheme(themes: map<string, Theme>, name: string)
    requires name !in themes && DefaultThemeName in themes
    requires themes[DefaultThemeName].background.Some?
    ensures GetThemeBackground(themes, name) == DefaultBackground
    ensures ThemeBackground(ResolveTheme(themes, name)) != DefaultBackground
  {
    ColorToHexIsNotDefault(themes[DefaultThemeName].background.value);
  }
}
