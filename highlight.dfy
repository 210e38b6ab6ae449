/**
 * The code-block side of the editor: `getTheme`, which resolves the `auto`
 * theme against the colour-scheme preference, and the `highlight` callback
 * given to markdown-it, which asks the highlighter for HTML and falls back
 * to an escaped `<pre><code>` block when the highlighter throws.
 *
 * The highlighter and markdown-it's `escapeHtml` are parameters: the
 * highlighter returns `Some(html)` where it returns normally and `None`
 * where it throws.
 */
module Highlight {
  import opened Wrappers
  import FenceMeta

  const Auto := "auto"
  const DarkTheme := "vitesse-dark"
  const LightTheme := "vitesse-light"

  /** `getTheme`: `auto` follows the colour-scheme preference, any other theme is used as given. */
  function ResolveTheme(theme: string, prefersDark: bool): (r: string)
    ensures theme != Auto ==> r == theme
    ensures theme == Auto ==> (r == DarkTheme <==> prefersDark) && (r == LightTheme <==> !prefersDark)
  {
    if theme == Auto then (if prefersDark then DarkTheme else LightTheme) else theme
  }

  /** `lang || "text"`: a fence without a language is highlighted as plain text. */
  function FenceLanguage(lang: string): (l: string)
    ensures l != []
    ensures lang != [] ==> l == lang
  {
    if lang == "" then "text" else lang
  }

  /** What the callback returns when the highlighter throws. */
  function Fallback(code: string, escapeHtml: string -> string): string {
    "<pre><code>" + escapeHtml(code) + "</code></pre>"
  }

  /**
   * The `highlight` callback for a fence with `code`, language `lang` and
   * metadata `meta`. The metadata is parsed and then not used.
   */
  function HighlightFence(code: string, lang: string, meta: string, theme: string, prefersDark: bool,
                          codeToHtml: (string, string, string) -> Option<string>,
                          escapeHtml: string -> string): (r: string)
    ensures codeToHtml(code, FenceLanguage(lang), ResolveTheme(theme, prefersDark)) == Some(r)
         || r == Fallback(code, escapeHtml)
  {
    var _ := FenceMeta.ParsedMeta(meta);
    match codeToHtml(code, FenceLanguage(lang), ResolveTheme(theme, prefersDark))
    case Some(html) => html
    case None => Fallback(code, escapeHtml)
  }

  /** The theme handed to the highlighter is never `auto`: it is one of the two bundled themes or the configured one. */
  lemma ResolvedThemeIsConcrete(theme: string, prefersDark: bool)
    ensures ResolveTheme(theme, prefersDark) != Auto
    ensures ResolveTheme(theme, prefersDark) in {DarkTheme, LightTheme, theme}
  {}

  /** Resolving an already resolved theme changes nothing, whatever the preference is then. */
  lemma ResolveThemeIdempotent(theme: string, prefersDark: bool, prefersDarkLater: bool)
    ensures ResolveTheme(ResolveTheme(theme, prefersDark), prefersDarkLater) == ResolveTheme(theme, prefersDark)
  {}

  /** Only `auto` depends on the preference; under `auto` the two preferences give different themes. */
  lemma PreferenceMattersOnlyForAuto(theme: string)
    ensures ResolveTheme(theme, true) == ResolveTheme(theme, false) <==> theme != Auto
  {}

  /** When the highlighter returns, its HTML is the result, asked for with the fence's language (or `text`) and the resolved theme. */
  lemma HighlighterOutputUsed(code: string, lang: string, meta: string, theme: string, prefersDark: bool,
                              codeToHtml: (string, string, string) -> Option<string>,
                              escapeHtml: string -> string, html: string)
    requires codeToHtml(code, if lang == "" then "text" else lang, ResolveTheme(theme, prefersDark)) == Some(html)
    ensures HighlightFence(code, lang, meta, theme, prefersDark, codeToHtml, escapeHtml) == html
  {}

  /** When the highlighter throws, the result is the escaped code inside `<pre><code>`, whatever the language and theme. */
  lemma FallbackWhenHighlighterThrows(code: string, lang: string, meta: string, theme: string, prefersDark: bool,
                                      codeToHtml: (string, string, string) -> Option<string>,
                                      escapeHtml: string -> string)
    requires codeToHtml(code, FenceLanguage(lang), ResolveTheme(theme, prefersDark)).None?
    ensures HighlightFence(code, lang, meta, theme, prefersDark, codeToHtml, escapeHtml)
         == "<pre><code>" + escapeHtml(code) + "</code></pre>"
  {}

  /** A fence without a language is highlighted exactly as one marked `text`. */
  lemma EmptyLanguageIsText(code: string, meta: string, theme: string, prefersDark: bool,
                            codeToHtml: (string, string, string) -> Option<string>,
                            escapeHtml: string -> string)
    ensures HighlightFence(code, "", meta, theme, prefersDark, codeToHtml, escapeHtml)
         == HighlightFence(code, "text", meta, theme, prefersDark, codeToHtml, escapeHtml)
  {}

  /** Line highlights and line numbers read from the metadata have no effect on the output. */
  lemma MetaHasNoEffect(code: string, lang: string, meta1: string, meta2: string, theme: string, prefersDark: bool,
                        codeToHtml: (string, string, string) -> Option<string>,
                        escapeHtml: string -> string)
    ensures HighlightFence(code, lang, meta1, theme, prefersDark, codeToHtml, escapeHtml)
         == HighlightFence(code, lang, meta2, theme, prefersDark, codeToHtml, escapeHtml)
  {}
}
