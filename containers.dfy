/**
 * The render callbacks given to `markdown-it-container` for `:::` blocks:
 * the four plain kinds and `details` registered by `CustomContainers`, and
 * the `tip` and `warning` callbacks the editor registers itself. Each is
 * called with the token list and the index of the container's opening or
 * closing token, and returns the HTML for that token.
 */
module Containers {
  import opened Text
  import opened Tokens
  import Callouts

  /** The plain container kinds, in the order they are registered. */
  datatype BlockKind = Info | Tip | Warning | Danger {
    /** The name after `:::`, which is also the CSS class. */
    function Name(): string {
      match this
      case Info => "info"
      case Tip => "tip"
      case Warning => "warning"
      case Danger => "danger"
    }
  }

  function ContainerOpenTag(kind: BlockKind): string {
    "<div class=\"custom-block " + kind.Name() + "\">"
  }

  const ContainerCloseTag := "</div>"

  /** The callback for a plain container: the opening tag for an opening token (nesting 1), the closing tag otherwise. */
  function RenderContainer(kind: BlockKind, tokens: seq<Token>, idx: nat): (r: string)
    requires idx < |tokens|
    ensures r == ContainerOpenTag(kind) || r == ContainerCloseTag
  {
    if tokens[idx].nesting == 1 then ContainerOpenTag(kind) else ContainerCloseTag
  }

  /** The editor's own `tip` callback, which renders exactly as the `tip` container of `CustomContainers`. */
  function RenderEditorTip(tokens: seq<Token>, idx: nat): (r: string)
    requires idx < |tokens|
    ensures r == RenderContainer(Tip, tokens, idx)
  {
    if tokens[idx].nesting == 1 then "<div class=\"custom-block tip\">" else "</div>"
  }

  /** The editor's own `warning` callback, which renders exactly as the `warning` container of `CustomContainers`. */
  function RenderEditorWarning(tokens: seq<Token>, idx: nat): (r: string)
    requires idx < |tokens|
    ensures r == RenderContainer(Warning, tokens, idx)
  {
    if tokens[idx].nesting == 1 then "<div class=\"custom-block warning\">" else "</div>"
  }

  /** The opening token yields the opening tag and every other token the closing tag. */
  lemma ContainerOpensOnlyOnOpeningToken(kind: BlockKind, tokens: seq<Token>, idx: nat)
    requires idx < |tokens|
    ensures RenderContainer(kind, tokens, idx) == ContainerOpenTag(kind) <==> tokens[idx].nesting == 1
    ensures RenderContainer(kind, tokens, idx) == ContainerCloseTag <==> tokens[idx].nesting != 1
  {
    assert |ContainerOpenTag(kind)| > |ContainerCloseTag|;
  }

  /** Different kinds open with different tags, so the kind can be read back from the output. */
  lemma ContainerOpenTagsDistinct(k1: BlockKind, k2: BlockKind)
    requires k1 != k2
    ensures ContainerOpenTag(k1) != ContainerOpenTag(k2)
  {
    var prefix := "<div class=\"custom-block ";
    assert ContainerOpenTag(k1)[|prefix|] == k1.Name()[0];
    assert ContainerOpenTag(k2)[|prefix|] == k2.Name()[0];
  }

  /** A plain container's callback reads only the `nesting` of the token at `idx`. */
  lemma RenderContainerReadsOnlyItsToken(kind: BlockKind, s: seq<Token>, i: nat, t: seq<Token>, j: nat)
    requires i < |s| && j < |t| && s[i].nesting == t[j].nesting
    ensures RenderContainer(kind, s, i) == RenderContainer(kind, t, j)
  {}

  /** A `::: tip` or `::: warning` block opens with the same tag as the matching GitHub-style alert. */
  lemma ContainersMatchAlerts()
    ensures ContainerOpenTag(Tip) == Callouts.AlertOpenTag(Callouts.Tip)
    ensures ContainerOpenTag(Warning) == Callouts.AlertOpenTag(Callouts.Warning)
  {}

  // `details`

  const DetailsDefault := "Details"

  /**
   * The summary of a `details` block: `info.trim().match(/^details\s+(.*)$/)`,
   * then the captured text when there is a match and it is non-empty,
   * otherwise `Details`. The greedy `\s+` takes the whole run of spaces after
   * the word, and the match fails when what follows it holds a line
   * terminator, which `.` does not match and `$` (without the `m` flag) does
   * not stop at. A summary other than the default is a one-line tail of the
   * trimmed info string that neither starts nor ends with a space.
   */
  function DetailsSummary(info: string): (summary: string)
    ensures summary == DetailsDefault || TrimmedTail(summary, Trim(info))
  {
    var t := Trim(info);
    if |t| > 7 && t[..7] == "details" && IsSpace(t[7]) then
      var title := TrimStart(t[7..]);
      TrimStartFacts(t[7..]);
      if title != [] && !HasLineTerminator(title) then
        assert title == t[|t| - |title|..];
        title
      else DetailsDefault
    else DetailsDefault
  }

  /** `s` is a non-empty, one-line end of `t` with no space at either end. */
  predicate TrimmedTail(s: string, t: string) {
    && s != [] && |s| <= |t| && s == t[|t| - |s|..]
    && !IsSpace(s[0]) && !IsSpace(s[|s| - 1])
    && !HasLineTerminator(s)
  }

  /** The summary is inserted as it is, without escaping. */
  function DetailsOpenTag(summary: string): string {
    "<details class=\"custom-block details\"><summary>" + summary + "</summary>\n"
  }

  const DetailsCloseTag := "</details>\n"

  /** The `details` callback. */
  function RenderDetails(tokens: seq<Token>, idx: nat): (r: string)
    requires idx < |tokens|
    ensures r == DetailsCloseTag || r == DetailsOpenTag(DetailsSummary(tokens[idx].info))
  {
    if tokens[idx].nesting == 1 then DetailsOpenTag(DetailsSummary(tokens[idx].info)) else DetailsCloseTag
  }

  /** `(trimmed) = details <spaces> <title>` with a one-line title: the shape the pattern accepts. */
  predicate TitledDetails(trimmed: string, spaces: string, title: string) {
    && trimmed == "details" + spaces + title
    && spaces != [] && AllSpace(spaces)
    && title != [] && !IsSpace(title[0])
    && !HasLineTerminator(title)
  }

  /** When the trimmed info string is `details`, spaces and a one-line title, the title is the summary. */
  lemma DetailsSummaryIsTitle(info: string, spaces: string, title: string)
    requires TitledDetails(Trim(info), spaces, title)
    ensures DetailsSummary(info) == title
  {
    var t := Trim(info);
    assert t[..7] == "details";
    assert t[7] == spaces[0];
    assert t[7..] == spaces + title;
    SkipSpaces(spaces, title);
  }

  /**
   * Any summary other than the default comes from such a title, and it is
   * trimmed: it neither starts nor ends with a space.
   */
  lemma DetailsSummaryFromTitle(info: string)
    ensures var summary := DetailsSummary(info);
      summary == DetailsDefault
      || (&& (exists spaces :: TitledDetails(Trim(info), spaces, summary))
          && !IsSpace(summary[|summary| - 1]))
  {
    var t := Trim(info);
    if |t| > 7 && t[..7] == "details" && IsSpace(t[7]) {
      var title := TrimStart(t[7..]);
      if title != [] && !HasLineTerminator(title) {
        var spaces := TitleAfterWord(t);
        assert TitledDetails(t, spaces, title);
      }
    }
  }

  /** Splits `details`, a run of spaces and the rest of a string that starts so. */
  lemma TitleAfterWord(t: string) returns (spaces: string)
    requires |t| > 7 && t[..7] == "details" && IsSpace(t[7])
    requires TrimStart(t[7..]) != []
    ensures var title := TrimStart(t[7..]);
      && t == "details" + spaces + title
      && spaces != [] && AllSpace(spaces)
      && !IsSpace(title[0])
      && title[|title| - 1] == t[|t| - 1]
  {
    var after := t[7..];
    var title := TrimStart(after);
    TrimStartFacts(after);
    spaces := after[..|after| - |title|];
    assert after == spaces + title;
    assert spaces != [];
    assert t == t[..7] + after;
  }

  /** A title that runs over more than one line makes the match fail: the summary is the default. */
  lemma DetailsMultiLineTitle(info: string, spaces: string, title: string)
    requires Trim(info) == "details" + spaces + title
    requires spaces != [] && AllSpace(spaces) && title != [] && !IsSpace(title[0])
    requires HasLineTerminator(title)
    ensures DetailsSummary(info) == DetailsDefault
  {
    var t := Trim(info);
    assert t[..7] == "details";
    assert t[7] == spaces[0];
    assert t[7..] == spaces + title;
    SkipSpaces(spaces, title);
  }

  /** Without a title, or when the word is not followed by a space, the summary is the default. */
  lemma DetailsWithoutTitle(info: string)
    requires Trim(info) == "details" || !IsPrefix("details", Trim(info))
    ensures DetailsSummary(info) == DetailsDefault
  {}

  /** The opening token of a titled `details` block renders its title verbatim inside `<summary>`. */
  lemma DetailsRendersTitle(tokens: seq<Token>, idx: nat, spaces: string, title: string)
    requires idx < |tokens| && tokens[idx].nesting == 1
    requires TitledDetails(Trim(tokens[idx].info), spaces, title)
    ensures RenderDetails(tokens, idx) == "<details class=\"custom-block details\"><summary>" + title + "</summary>\n"
  {
    DetailsSummaryIsTitle(tokens[idx].info, spaces, title);
  }

  /** The `details` callback reads only the `nesting` and `info` of the token at `idx`. */
  lemma RenderDetailsReadsOnlyItsToken(s: seq<Token>, i: nat, t: seq<Token>, j: nat)
    requires i < |s| && j < |t| && s[i].nesting == t[j].nesting && s[i].info == t[j].info
    ensures RenderDetails(s, i) == RenderDetails(t, j)
  {}

  /** Every token but an opening one closes the block. */
  lemma DetailsClosesOnOtherTokens(tokens: seq<Token>, idx: nat)
    requires idx < |tokens|
    ensures RenderDetails(tokens, idx) == DetailsCloseTag <==> tokens[idx].nesting != 1
  {
    if tokens[idx].nesting == 1 {
      assert |RenderDetails(tokens, idx)| > |DetailsCloseTag|;
    }
  }
}
