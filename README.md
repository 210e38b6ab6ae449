# MarkView preview pipeline in Dafny

MarkView is a browser Markdown editor with a live preview. It renders with
markdown-it, and `initMarkdownEditor` adds three things on top:

- Callouts. A core rule turns any paragraph whose inline text starts with
  `[!NOTE]`, `[!TIP]`, `[!IMPORTANT]`, `[!WARNING]` or `[!CAUTION]` into a
  `<div class="custom-block ...">`. The rule does not look for a `>`. A bare
  `[!NOTE] ...` paragraph is rewritten, and so is one inside a blockquote,
  where the `<blockquote>` stays around the new `<div>`.
- `:::` container blocks `tip` and `warning`, with callbacks the editor
  registers itself.
- Code fences highlighted by shiki. Their metadata (`{2,4-6} ln`) is parsed
  into line highlights and a line-numbers flag.

A separate helper, `CustomContainers`, registers the `info`, `tip`,
`warning`, `danger` and `details` containers. `initMarkdownEditor` does not
call it. Its callbacks are modelled on their own.

This project models the code behind those additions and proves properties
about it:

- `callouts.dfy` (`Callouts`): the `custom_block` core rule
  (`markdownCustomBlock`). It works in place over the token array in one
  index loop. `ApplyCallouts` is that loop over an `array<Token>`. It is
  proved to leave the array equal to `CalloutPass`, a pointwise description
  of the rewritten sequence. The lemmas about `CalloutPass` state what
  happens to each kind of paragraph.
- `fence_meta.dfy` (`FenceMeta`): `parseMeta`, whose nested loops push line
  numbers onto a list. `ParseMeta`, `AddEntries`, `AddEntry` and `AddRange`
  keep those loops and are proved equal to `ParsedMeta`. The lemmas about `ParsedMeta`
  state its behaviour: ranges, single entries, order, the first `{}` group,
  and the whole-word flag.
- `containers.dfy` (`Containers`): the render callbacks handed to
  `markdown-it-container`. These are the four plain kinds and `details` from
  `CustomContainers`, plus the editor's own `tip` and `warning` callbacks.
- `highlight.dfy` (`Highlight`): `getTheme` and the `highlight` callback,
  with the highlighter and `escapeHtml` as parameters.
- `text.dfy` (`Text`): the JavaScript string built-ins these rely on:
  - the character classes behind `\s`, `.` and `\b`;
  - `trim`;
  - `split` with a one-character separator;
  - `Number` on decimal integers.
- `tokens.dfy` and `wrappers.dfy`: the token record and `Option`.

A markdown-it token is modelled as a value with the four fields the rule and
callbacks touch: `type`, `nesting`, `content` and `info`.

The model follows the code as written, including these behaviours a reader
might not expect:

- A `[!NOTE]` callout gets the CSS class `tip`, not `note`.
- A callout keeps only the first line of text after its marker. The rest of
  the paragraph is dropped.
- Highlighted lines form a list in the order given, with repeats. They are
  not a set.
- Line 0 can be highlighted (`{0}`, or an empty entry as in `{1,}`), so the
  lines are not always 1 or more. No line is ever negative.
- The parsed metadata is not used by the highlight callback at all.

## Model

| member | source | states |
|---|---|---|
| Callouts.ApplyCallouts | src/utils/markdown.js:35-53 | the in-place pass over the token array leaves it equal to `CalloutPass` of the tokens it started with |
| Callouts.CalloutPass | src/utils/markdown.js:33-54 | the pass keeps the number of tokens and every token's nesting and info; a token that changes becomes `html_block` and was a paragraph_open, inline or paragraph_close |
| Callouts.MatchAlert | src/utils/markdown.js:41 | no match means no marker starts the text; a match names a marker that does, and its captured text holds no line terminator |
| Callouts.AlertParagraphRewritten | src/utils/markdown.js:38-48 | a paragraph_open followed by an inline token starting with a marker, spaces and a line becomes `<div class="custom-block …">`; the inline token becomes that line; a paragraph_close right after becomes `</div>` |
| Callouts.RewrittenAlert | src/utils/markdown.js:45-48 | the paragraph_open of a matching paragraph becomes the kind's `<div>`, its inline token the captured text, and a paragraph_close after them `</div>`; nesting and info are kept |
| Callouts.PlainParagraphUntouched | src/utils/markdown.js:41-42 | a paragraph whose text starts with none of the five markers is left exactly as it was |
| Callouts.ParagraphWithoutInlineUntouched | src/utils/markdown.js:39-40 | a paragraph_open not followed by an inline token is left alone |
| Callouts.PassKeeps | src/utils/markdown.js:37-52 | a token with no matching paragraph_open at itself, one before, or two before (when it is a paragraph_close) is unchanged |
| Callouts.CalloutPassIdempotent | src/utils/markdown.js:35-53 | running the rule on its own output changes nothing |
| Callouts.MarkerKindFinds | src/utils/markdown.js:41 | the marker kind found is one whose `[!KIND]` starts the text, and none is found exactly when no marker starts it |
| Callouts.MarkerUnique | src/utils/markdown.js:41 | at most one of the five markers starts a text |
| Callouts.AlertTextLocated | src/utils/markdown.js:41-44 | the captured text comes after the marker and a run of spaces, contains no line terminator, does not start with a space, and ends at a line terminator or the end of the text |
| Callouts.MatchAlertText | src/utils/markdown.js:41-44 | marker + spaces + one line + a rest starting with a line terminator matches with exactly that line |
| Callouts.TipExample | src/utils/markdown.js:45-48 | `[!TIP] hello` in a paragraph becomes the tip `<div>`, `hello` and `</div>` |
| Callouts.MultiLineNoteExample | src/utils/markdown.js:41-44 | `[!NOTE]\nfirst\nsecond` matches with kind NOTE and text `first` only |
| Callouts.NoteUsesTipClass | src/utils/markdown.js:34 | NOTE and TIP open the same `custom-block tip` element |
| Callouts.NotAlertExamples | src/utils/markdown.js:41 | lower-case kinds, unknown kinds and a marker not at position 0 do not match |
| FenceMeta.ParsedMeta | src/utils/markdown.js:17-31 | no highlighted line is negative, and metadata without a `{` highlights nothing |
| FenceMeta.EntryLines | src/utils/markdown.js:23-26 | what one entry adds is empty or a run of consecutive numbers from its first to its last |
| FenceMeta.ParseMeta | src/utils/markdown.js:17-31 | the loops compute `ParsedMeta(meta)` |
| FenceMeta.AddEntries | src/utils/markdown.js:22-27 | the loop over the entries pushes what each adds, in order: the result is `EntriesLines(parts)` |
| FenceMeta.AddEntry | src/utils/markdown.js:22-27 | one entry appends `EntryLines(p)` to the list, after what was there |
| FenceMeta.AddRange | src/utils/markdown.js:25 | the inner loop appends a, a+1, …, b and nothing when a > b |
| FenceMeta.NumberRange | src/utils/markdown.js:25 | the range has b − a + 1 elements (none if a > b) and element k is a + k |
| FenceMeta.BraceGroup | src/utils/markdown.js:19 | a group found is non-empty and holds no `}` |
| FenceMeta.EmptyMeta | src/utils/markdown.js:17-18 | empty metadata gives no lines and no line numbers |
| FenceMeta.NoBraceNoLines | src/utils/markdown.js:19-20 | without a `{` nothing is highlighted |
| FenceMeta.BraceSkipped | src/utils/markdown.js:19 | a `{` not followed by a character other than `}` and later a `}` starts no group; the search goes on after it |
| FenceMeta.EmptyBracesSkipped | src/utils/markdown.js:19 | an empty `{}` is passed over, so `{}{1}` has the group `1` |
| FenceMeta.NoCloseNoGroup | src/utils/markdown.js:19-20 | without a `}` there is no group and nothing is highlighted |
| FenceMeta.FirstGroupOnly | src/utils/markdown.js:19 | when the first `{` is followed by a character other than `}`, the group runs from there to the next `}`; anything after it is ignored |
| FenceMeta.BraceFreePrefix | src/utils/markdown.js:19 | text without a `{` in front of the rest is passed over: the group is the one found in the rest, so `a{}{1}` has the group `1` |
| FenceMeta.FirstGroupEntries | src/utils/markdown.js:19-22 | the highlighted lines are those of the first group's comma-separated entries |
| FenceMeta.EntriesInOrder | src/utils/markdown.js:22 | entries contribute their lines in the order they are listed |
| FenceMeta.RangeEntry | src/utils/markdown.js:23-25 | `x-y…` adds Number(x)..Number(y) when both are numbers and nothing otherwise; pieces after a second `-` are ignored |
| FenceMeta.DecimalRangeEntry | src/utils/markdown.js:23-25 | a decimal `a-b` adds a, …, b in ascending order, nothing when a > b |
| FenceMeta.SingleEntry | src/utils/markdown.js:26 | a single number adds itself once |
| FenceMeta.SingleEntryAny | src/utils/markdown.js:23-26 | an entry without `-` adds `Number` of it once when that is a number, and nothing when it is NaN |
| FenceMeta.PaddedEntry | src/utils/markdown.js:26 | an entry with spaces around it, a `+` or leading zeros, such as ` 3` in `{1, 3}`, adds the value of its digits once |
| FenceMeta.EmptyEntry | src/utils/markdown.js:26 | an empty entry adds line 0 (`Number("")` is 0) |
| FenceMeta.OpenStartEntry | src/utils/markdown.js:23-25 | `-3` adds 0, 1, 2, 3 |
| FenceMeta.OpenEndAndWordEntries | src/utils/markdown.js:23-26 | `3-` adds nothing, and so does a word (NaN) |
| FenceMeta.HighlightLinesNonNegative | src/utils/markdown.js:19-28 | no highlighted line is negative |
| FenceMeta.NumberThenRange | src/utils/markdown.js:19-27 | `{n,a-b}` highlights n and then a..b |
| FenceMeta.NumberThenRangeWithFlag | src/utils/markdown.js:17-31 | `{n,a-b} ln` parses to lines n, a..b and line numbers on |
| FenceMeta.HasLineNumbersFlag | src/utils/markdown.js:29 | the flag is set exactly when `ln` or `line-numbers` occurs as a whole word, ignoring ASCII case |
| FenceMeta.UpperCaseFlagExample | src/utils/markdown.js:29 | `LN` sets the flag |
| FenceMeta.FlagInGroupExample | src/utils/markdown.js:29 | `{ln}` sets the flag: the word is looked for in the whole metadata |
| FenceMeta.LongFlagExample | src/utils/markdown.js:29 | `Line-Numbers` sets the flag |
| FenceMeta.LineNumbersMissedExamples | src/utils/markdown.js:29 | `kiln` and `ln2` do not set the flag (no word boundary) |
| Text.Split | src/utils/markdown.js:21-24 | a split has one more piece than the string has separators |
| Text.ParseInteger | src/utils/markdown.js:24-26 | `Number` gives a value exactly for blank text or an optional sign and decimal digits; only a leading `-` makes it negative |
| Text.SplitFacts | src/utils/markdown.js:21 | no piece of a split holds the separator, and there are two or more pieces exactly when the string holds it |
| Text.JoinSplit | src/utils/markdown.js:21 | joining the pieces with the separator gives the string back |
| Text.SplitJoin | src/utils/markdown.js:21 | splitting a join of separator-free pieces gives the pieces back |
| Text.ParseIntegerText | src/utils/markdown.js:24 | `Number` reads every integer written in decimal back to itself |
| Text.ParseIntegerPadded | src/utils/markdown.js:24-26 | `Number` ignores spaces around the number and reads an optional `+` or `-` sign before the digits: the value is that of the digits, negated after `-` |
| Text.LeadingZeros | src/utils/markdown.js:24-26 | leading zeros do not change the value of a run of digits |
| Text.ParseIntegerUnsigned | src/utils/markdown.js:24-26 | without a minus sign `Number` gives no negative value |
| Text.Trim | src/utils/CustomContainers.js:27 | the trimmed string neither starts nor ends with a space |
| Text.TrimStartFacts | src/utils/markdown.js:41 | the leading run of spaces, and only that, is dropped |
| Text.FirstLineFacts | src/utils/markdown.js:41 | `(.*)` takes a prefix without line terminators that stops at a line terminator or the end |
| Containers.RenderContainer | src/utils/CustomContainers.js:14-17 | the output is always the kind's opening tag or `</div>` |
| Containers.RenderEditorTip | src/utils/markdown.js:67 | the editor's own `tip` callback renders exactly as the `tip` container of `CustomContainers` |
| Containers.RenderEditorWarning | src/utils/markdown.js:68 | the editor's own `warning` callback renders exactly as the `warning` container of `CustomContainers` |
| Containers.RenderDetails | src/utils/CustomContainers.js:23-33 | the output is `</details>\n` or the opening tag with the summary of the token's info string |
| Containers.DetailsSummary | src/utils/CustomContainers.js:27-28 | the summary is `Details` or a non-empty, one-line end of the trimmed info string with no space at either end |
| Containers.ContainerOpensOnlyOnOpeningToken | src/utils/CustomContainers.js:14-17 | a plain container renders its opening tag exactly for an opening token and `</div>` for every other |
| Containers.ContainerOpenTagsDistinct | src/utils/CustomContainers.js:4-17 | different kinds open with different tags |
| Containers.RenderContainerReadsOnlyItsToken | src/utils/CustomContainers.js:14-17 | a plain container's callback depends only on the `nesting` of `tokens[idx]` |
| Containers.RenderDetailsReadsOnlyItsToken | src/utils/CustomContainers.js:23-33 | the `details` callback depends only on the `nesting` and `info` of `tokens[idx]` |
| Containers.ContainersMatchAlerts | src/utils/CustomContainers.js:16 | `::: tip` and `::: warning` open with the same element as the TIP and WARNING callouts |
| Containers.DetailsSummaryIsTitle | src/utils/CustomContainers.js:27-28 | when the trimmed info is `details`, spaces and a one-line title, the summary is that title |
| Containers.DetailsSummaryFromTitle | src/utils/CustomContainers.js:27-28 | any summary other than `Details` is such a title, and it neither starts nor ends with a space |
| Containers.DetailsMultiLineTitle | src/utils/CustomContainers.js:27-28 | a title holding a line terminator gives `Details` |
| Containers.DetailsWithoutTitle | src/utils/CustomContainers.js:27-28 | `details` alone, or an info string not starting with `details`, gives `Details` |
| Containers.DetailsRendersTitle | src/utils/CustomContainers.js:25-29 | an opening `details` token renders its title unescaped inside `<summary>` |
| Containers.DetailsClosesOnOtherTokens | src/utils/CustomContainers.js:25-32 | the output is `</details>\n` exactly for a token that is not an opening one |
| Highlight.ResolveTheme | src/utils/markdown.js:10 | a theme other than `auto` is used as given; under `auto` the theme is vitesse-dark exactly when dark is preferred and vitesse-light otherwise |
| Highlight.FenceLanguage | src/utils/markdown.js:59 | the language handed to the highlighter is never empty, and a given language is kept |
| Highlight.HighlightFence | src/utils/markdown.js:56-62 | the result is the highlighter's own output for the fence's language and the resolved theme, or the escaped-code fallback |
| Highlight.ResolvedThemeIsConcrete | src/utils/markdown.js:10 | the resolved theme is never `auto`; it is vitesse-dark, vitesse-light or the configured theme |
| Highlight.ResolveThemeIdempotent | src/utils/markdown.js:10 | resolving a resolved theme again changes nothing |
| Highlight.PreferenceMattersOnlyForAuto | src/utils/markdown.js:10 | the colour-scheme preference changes the theme exactly when the theme is `auto` |
| Highlight.HighlighterOutputUsed | src/utils/markdown.js:58-60 | when the highlighter returns for (code, lang or `text`, resolved theme), its HTML is the result |
| Highlight.FallbackWhenHighlighterThrows | src/utils/markdown.js:61 | when it throws, the result is `<pre><code>`, the escaped code and `</code></pre>` |
| Highlight.EmptyLanguageIsText | src/utils/markdown.js:59 | a fence without a language renders as one marked `text` |
| Highlight.MetaHasNoEffect | src/utils/markdown.js:57 | the metadata does not change the output |

## Left out

- The markdown-it tokenizer and renderer are not part of this model. So are the other plugins (task lists, attrs, anchors), `md.use` registration, and how `markdown-it-container` recognises `:::` lines and decides which tokens reach a callback. The rule and callbacks are modelled on the tokens they are given.
- Tokens carry only `type`, `nesting`, `content` and `info`. `children`, `markup`, `map` and the rest are left out. Each array cell holds a token value, so aliasing between token objects is not modelled.
- Text.ParseInteger: `Number` is modelled only for decimal integers, with spaces around them, an optional sign, or nothing at all. Fractions, exponents, hexadecimal, binary, octal and `Infinity` are treated as NaN, where the source would push such values or range over them.
- FenceMeta.AddRange: the list of lines is unbounded. In the source, `push` throws a `RangeError` once the array would pass 2^32 − 1 elements, and memory runs out well before that. So `{1-5000000000}` throws, while `FenceMeta.ParseMeta` returns the whole list. `parseMeta` is called at src/utils/markdown.js:57, outside the `try`. That exception therefore escapes the highlight callback, an error path the model does not have.
- Text.ParseInteger: values are exact integers, while `Number` returns a double. They differ past 2^53: `{9007199254740993}` pushes 9007199254740992 in the source but 9007199254740993 in the model. A 400-digit entry pushes `Infinity` in the source and the exact number in the model.
- FenceMeta.AddRange: in the source `i++` stops growing at 2^53, so `{9007199254740991-9007199254740999}` pushes 2^53 until `push` throws. The model returns the nine numbers of the range.
- Strings are sequences of Unicode scalar values, not UTF-16 code units. No character class used here tells the two apart.
- Highlight.HighlightFence: shiki's output is a parameter, since the highlighter is not modelled. A thrown exception is `None`. `escapeHtml` is also a parameter. The asynchronous highlighter set-up, its theme and language lists, and the `matchMedia` query are not modelled; the preference is a boolean argument.
- The DOM side is not modelled: the editor and preview elements, the `input` and colour-scheme `change` listeners, and `innerHTML`.
- example/main.js is not part of this model.
