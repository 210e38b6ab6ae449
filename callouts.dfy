/**
 * The `custom_block` core rule (`markdownCustomBlock`): a paragraph whose
 * text starts with `[!NOTE]`, `[!TIP]`, `[!IMPORTANT]`, `[!WARNING]` or
 * `[!CAUTION]` is turned into a raw-HTML `<div class="custom-block ...">`
 * holding the text that follows the marker.
 */
module Callouts {
  import opened Wrappers
  import opened Text
  import opened Tokens

  datatype AlertKind = Note | Tip | Important | Warning | Caution {
    /** The word between `[!` and `]`. */
    function Name(): string {
      match this
      case Note => "NOTE"
      case Tip => "TIP"
      case Important => "IMPORTANT"
      case Warning => "WARNING"
      case Caution => "CAUTION"
    }

    /** The CSS class of the block; NOTE shares the `tip` class. */
    function CssClass(): string {
      match this
      case Note => "tip"
      case Tip => "tip"
      case Important => "important"
      case Warning => "warning"
      case Caution => "caution"
    }
  }

  function Marker(k: AlertKind): string {
    "[!" + k.Name() + "]"
  }

  /** No marker is a prefix of another, so a text starts with at most one of them. */
  lemma MarkerUnique(k1: AlertKind, k2: AlertKind, c: string)
    requires IsPrefix(Marker(k1), c) && IsPrefix(Marker(k2), c)
    ensures k1 == k2
  {
    assert c[2] == Marker(k1)[2] by { assert c[..|Marker(k1)|] == Marker(k1); }
    assert c[2] == Marker(k2)[2] by { assert c[..|Marker(k2)|] == Marker(k2); }
  }

  /** The only kind whose marker can start with `[!` and then `c`: each name has its own first letter. */
  function KindByInitial(c: char): Option<AlertKind> {
    if c == 'N' then Some(Note)
    else if c == 'T' then Some(Tip)
    else if c == 'I' then Some(Important)
    else if c == 'W' then Some(Warning)
    else if c == 'C' then Some(Caution)
    else None
  }

  /** The kind whose marker starts `c`, if any. */
  function MarkerKind(c: string): Option<AlertKind> {
    if |c| < 3 then None
    else match KindByInitial(c[2])
      case None => None
      case Some(k) => if IsPrefix(Marker(k), c) then Some(k) else None
  }

  /** `MarkerKind` finds the marker that starts `c` exactly when there is one. */
  lemma MarkerKindFinds(c: string)
    ensures MarkerKind(c).Some? ==> IsPrefix(Marker(MarkerKind(c).value), c)
    ensures MarkerKind(c).None? <==> forall k :: !IsPrefix(Marker(k), c)
  {
    if |c| >= 3 {
      forall k | IsPrefix(Marker(k), c) ensures KindByInitial(c[2]) == Some(k) {
        assert c[2] == Marker(k)[2] by { assert c[..|Marker(k)|] == Marker(k); }
      }
    }
  }

  /**
   * `/^\[!(NOTE|TIP|IMPORTANT|WARNING|CAUTION)\]\s*(.*)/` applied to an inline
   * token's content: the kind, and what follows the marker and the greedy
   * run of spaces after it, up to the next line terminator.
   */
  function MatchAlert(c: string): (m: Option<(AlertKind, string)>)
    ensures m.None? ==> forall k :: !IsPrefix(Marker(k), c)
    ensures m.Some? ==> IsPrefix(Marker(m.value.0), c) && !HasLineTerminator(m.value.1)
  {
    MarkerKindFinds(c);
    match MarkerKind(c)
    case None => None
    case Some(k) =>
      FirstLineFacts(TrimStart(c[|Marker(k)|..]));
      Some((k, AlertText(c, k)))
  }

  /** The text `(.*)` captures after the marker of `k` and the spaces following it. */
  function AlertText(c: string, k: AlertKind): string
    requires IsPrefix(Marker(k), c)
  {
    FirstLine(TrimStart(c[|Marker(k)|..]))
  }

  /** Where the captured text comes from: after the marker and a run of spaces, ending at a line terminator or the end. */
  lemma AlertTextLocated(c: string, k: AlertKind, text: string)
    requires MatchAlert(c) == Some((k, text))
    ensures exists i ::
      && |Marker(k)| <= i && i + |text| <= |c| && c[i..i + |text|] == text
      && AllSpace(c[|Marker(k)|..i])
      && (i + |text| == |c| || IsLineTerminator(c[i + |text|]))
    ensures !HasLineTerminator(text)
    ensures text == [] || !IsSpace(text[0])
  {
    assert text == FirstLine(TrimStart(c[|Marker(k)|..]));
    LineAfterSpaces(c, |Marker(k)|);
  }

  /** A text made of a marker, spaces, one line and the rest of the paragraph matches with that line. */
  lemma MatchAlertText(k: AlertKind, spaces: string, line: string, tail: string)
    requires AllSpace(spaces)
    requires !HasLineTerminator(line)
    requires (line == [] && tail == []) || (line != [] && !IsSpace(line[0]))
    requires tail == [] || IsLineTerminator(tail[0])
    ensures MatchAlert(Marker(k) + spaces + line + tail) == Some((k, line))
  {
    var m := Marker(k);
    var c := m + spaces + line + tail;
    assert c == m + (spaces + (line + tail));
    assert c[..|m|] == m;
    assert MarkerKind(c) == Some(k) by {
      MarkerUnique(k, MarkerKind(c).value, c);
    }
    assert c[|m|..] == spaces + (line + tail);
    SkipSpaces(spaces, line + tail);
    TakeLine(line, tail);
  }

  lemma {:induction false} TakeLine(line: string, tail: string)
    requires !HasLineTerminator(line)
    requires tail == [] || IsLineTerminator(tail[0])
    ensures FirstLine(line + tail) == line
    decreases |line|
  {
    if line != [] {
      assert (line + tail)[1..] == line[1..] + tail;
      assert !IsLineTerminator(line[0]);
      TakeLine(line[1..], tail);
    }
  }

  function AlertOpenTag(k: AlertKind): string {
    "<div class=\"custom-block " + k.CssClass() + "\">"
  }

  /** Token `j` opens a paragraph whose inline text starts with a marker. */
  predicate OpensAlert(s: seq<Token>, j: int) {
    0 <= j && j + 1 < |s| && s[j].tokenType == ParagraphOpen && s[j + 1].tokenType == Inline
    && MarkerKind(s[j + 1].content).Some?
  }

  /**
   * Token `k` once the rule has visited every index below `done`: the
   * paragraph_open of a matching paragraph becomes the opening `<div>`, its
   * inline token the captured text, and a paragraph_close right after them
   * the closing `</div>`.
   */
  function RewrittenBefore(s: seq<Token>, done: int, k: nat): Token
    requires k < |s|
  {
    if k < done && OpensAlert(s, k) then
      s[k].(tokenType := HtmlBlock, content := AlertOpenTag(MarkerKind(s[k + 1].content).value))
    else if 1 <= k <= done && OpensAlert(s, k - 1) then
      s[k].(tokenType := HtmlBlock, content := AlertText(s[k].content, MarkerKind(s[k].content).value))
    else if 2 <= k <= done + 1 && OpensAlert(s, k - 2) && s[k].tokenType == ParagraphClose then
      s[k].(tokenType := HtmlBlock, content := "</div>")
    else s[k]
  }

  /** The token sequence after the rule has run over all of it. */
  function CalloutPass(s: seq<Token>): (r: seq<Token>)
    ensures |r| == |s|
    ensures forall k :: 0 <= k < |s| ==> r[k].nesting == s[k].nesting && r[k].info == s[k].info
    ensures forall k :: 0 <= k < |s| && r[k] != s[k] ==>
      r[k].tokenType == HtmlBlock && s[k].tokenType in {ParagraphOpen, Inline, ParagraphClose}
  {
    seq(|s|, k requires 0 <= k < |s| => RewrittenBefore(s, |s|, k))
  }

  /** What the rule sees at index `i`: a paragraph_open there, and the two tokens after it, are still as tokenized. */
  lemma VisitUntouched(s: seq<Token>, i: nat)
    requires i < |s|
    ensures RewrittenBefore(s, i, i).tokenType == ParagraphOpen <==> s[i].tokenType == ParagraphOpen
    ensures s[i].tokenType == ParagraphOpen ==>
      RewrittenBefore(s, i, i) == s[i]
      && (i + 1 < |s| ==> RewrittenBefore(s, i, i + 1) == s[i + 1])
      && (i + 2 < |s| ==> RewrittenBefore(s, i, i + 2) == s[i + 2])
  {}

  /** Visiting index `i` changes nothing outside `i`, `i+1` and `i+2`, and nothing at all unless `i` opens an alert. */
  lemma VisitFrame(s: seq<Token>, i: nat, k: nat)
    requires k < |s|
    requires (k != i && k != i + 1 && k != i + 2) || !OpensAlert(s, i)
    ensures RewrittenBefore(s, i + 1, k) == RewrittenBefore(s, i, k)
  {
    assert (k < i && OpensAlert(s, k)) == (k < i + 1 && OpensAlert(s, k));
    assert (1 <= k <= i && OpensAlert(s, k - 1)) == (1 <= k <= i + 1 && OpensAlert(s, k - 1));
    assert (2 <= k <= i + 1 && OpensAlert(s, k - 2)) == (2 <= k <= i + 2 && OpensAlert(s, k - 2));
  }

  /** Visiting an index that opens an alert rewrites it and the token after it, and a paragraph_close after those. */
  lemma VisitAlert(s: seq<Token>, i: nat)
    requires OpensAlert(s, i)
    ensures var (k, text) := MatchAlert(s[i + 1].content).value;
      RewrittenBefore(s, i + 1, i) == s[i].(tokenType := HtmlBlock, content := AlertOpenTag(k))
      && RewrittenBefore(s, i + 1, i + 1) == s[i + 1].(tokenType := HtmlBlock, content := text)
      && (i + 2 < |s| ==>
            RewrittenBefore(s, i + 1, i + 2) ==
              if s[i + 2].tokenType == ParagraphClose then s[i + 2].(tokenType := HtmlBlock, content := "</div>")
              else s[i + 2])
  {}

  /**
   * The rule as the source runs it: one pass over the array, rewriting the
   * `type` and `content` of `tokens[i]`, `tokens[i+1]` and `tokens[i+2]` in place.
   */
  method ApplyCallouts(tokens: array<Token>)
    modifies tokens
    ensures tokens[..] == CalloutPass(old(tokens[..]))
  {
    ghost var s := tokens[..];
    var i := 0;
    while i < tokens.Length
      invariant 0 <= i <= tokens.Length
      invariant forall k :: 0 <= k < tokens.Length ==> tokens[k] == RewrittenBefore(s, i, k)
    {
      VisitUntouched(s, i);
      ghost var opens := OpensAlert(s, i);
      if tokens[i].tokenType == ParagraphOpen && i + 1 < tokens.Length && tokens[i + 1].tokenType == Inline {
        assert tokens[i] == s[i] && tokens[i + 1] == s[i + 1];
        var m := MatchAlert(tokens[i + 1].content);
        if m.Some? {
          VisitAlert(s, i);
          tokens[i] := tokens[i].(tokenType := HtmlBlock, content := AlertOpenTag(m.value.0));
          tokens[i + 1] := tokens[i + 1].(tokenType := HtmlBlock, content := m.value.1);
          if i + 2 < tokens.Length && tokens[i + 2].tokenType == ParagraphClose {
            tokens[i + 2] := tokens[i + 2].(tokenType := HtmlBlock, content := "</div>");
          }
        } else {
          assert !opens;
        }
      } else {
        assert !opens;
      }
      forall k | 0 <= k < tokens.Length
        ensures tokens[k] == RewrittenBefore(s, i + 1, k)
      {
        if (k != i && k != i + 1 && k != i + 2) || !opens {
          VisitFrame(s, i, k);
        }
      }
      i := i + 1;
    }
  }

  // What the rule does to the paragraphs it meets, stated on `CalloutPass`.

  /** A paragraph whose text starts with a marker becomes the opening `<div>`, the marker's line, and `</div>`. */
  lemma AlertParagraphRewritten(s: seq<Token>, j: nat, k: AlertKind, spaces: string, line: string, tail: string)
    requires j + 1 < |s| && s[j].tokenType == ParagraphOpen && s[j + 1].tokenType == Inline
    requires s[j + 1].content == Marker(k) + spaces + line + tail
    requires AllSpace(spaces) && !HasLineTerminator(line)
    requires (line == [] && tail == []) || (line != [] && !IsSpace(line[0]))
    requires tail == [] || IsLineTerminator(tail[0])
    ensures var r := CalloutPass(s);
      && r[j] == s[j].(tokenType := HtmlBlock, content := AlertOpenTag(k))
      && r[j + 1] == s[j + 1].(tokenType := HtmlBlock, content := line)
      && (j + 2 < |s| && s[j + 2].tokenType == ParagraphClose ==>
            r[j + 2] == s[j + 2].(tokenType := HtmlBlock, content := "</div>"))
      && (j + 2 < |s| && s[j + 2].tokenType != ParagraphClose && !OpensAlert(s, j + 2) ==> r[j + 2] == s[j + 2])
  {
    MarkerAndLine(k, spaces, line, tail);
    RewrittenAlert(s, j, k, line);
  }

  /** The three tokens of a paragraph that opens an alert of kind `k` with text `line`, after the pass. */
  lemma RewrittenAlert(s: seq<Token>, j: nat, k: AlertKind, line: string)
    requires OpensAlert(s, j)
    requires MarkerKind(s[j + 1].content) == Some(k) && AlertText(s[j + 1].content, k) == line
    ensures var r := CalloutPass(s);
      && r[j] == s[j].(tokenType := HtmlBlock, content := AlertOpenTag(k))
      && r[j + 1] == s[j + 1].(tokenType := HtmlBlock, content := line)
      && (j + 2 < |s| && s[j + 2].tokenType == ParagraphClose ==>
            r[j + 2] == s[j + 2].(tokenType := HtmlBlock, content := "</div>"))
      && (j + 2 < |s| && s[j + 2].tokenType != ParagraphClose && !OpensAlert(s, j + 2) ==> r[j + 2] == s[j + 2])
  {
    assert !OpensAlert(s, j + 1) && !OpensAlert(s, j - 1);
  }

  /** `MatchAlertText` in the terms `CalloutPass` is written in. */
  lemma MarkerAndLine(k: AlertKind, spaces: string, line: string, tail: string)
    requires AllSpace(spaces) && !HasLineTerminator(line)
    requires (line == [] && tail == []) || (line != [] && !IsSpace(line[0]))
    requires tail == [] || IsLineTerminator(tail[0])
    ensures var c := Marker(k) + spaces + line + tail;
      MarkerKind(c) == Some(k) && AlertText(c, k) == line
  {
    MatchAlertText(k, spaces, line, tail);
  }

  /** A token the rule leaves alone: no alert opens at it, right before it, or two before it when it closes a paragraph. */
  lemma PassKeeps(s: seq<Token>, k: nat)
    requires k < |s|
    requires !OpensAlert(s, k) && !OpensAlert(s, k - 1)
    requires !OpensAlert(s, k - 2) || s[k].tokenType != ParagraphClose
    ensures CalloutPass(s)[k] == s[k]
  {}

  /** A paragraph whose text does not start with one of the five markers passes through untouched. */
  lemma PlainParagraphUntouched(s: seq<Token>, j: nat)
    requires j + 2 < |s| && s[j].tokenType == ParagraphOpen && s[j + 1].tokenType == Inline
    requires s[j + 2].tokenType == ParagraphClose
    requires forall k :: !IsPrefix(Marker(k), s[j + 1].content)
    ensures var r := CalloutPass(s); r[j] == s[j] && r[j + 1] == s[j + 1] && r[j + 2] == s[j + 2]
  {
    MarkerKindFinds(s[j + 1].content);
    assert MarkerKind(s[j + 1].content).None?;
    assert !OpensAlert(s, j);
    assert !OpensAlert(s, j - 1) && !OpensAlert(s, j + 1) && !OpensAlert(s, j + 2);
    PassKeeps(s, j);
    PassKeeps(s, j + 1);
    PassKeeps(s, j + 2);
  }

  /** A paragraph_open that is not followed by an inline token is left alone. */
  lemma ParagraphWithoutInlineUntouched(s: seq<Token>, j: nat)
    requires j < |s| && s[j].tokenType == ParagraphOpen
    requires j + 1 == |s| || s[j + 1].tokenType != Inline
    ensures CalloutPass(s)[j] == s[j]
  {}

  /** Running the rule a second time changes nothing: its output holds no paragraph it would rewrite. */
  lemma CalloutPassIdempotent(s: seq<Token>)
    ensures CalloutPass(CalloutPass(s)) == CalloutPass(s)
  {
    var r := CalloutPass(s);
    forall j | 0 <= j < |r|
      ensures !OpensAlert(r, j)
    {
      assert r[j].tokenType == ParagraphOpen ==> r[j] == s[j];
      assert j + 1 < |r| && r[j + 1].tokenType == Inline ==> r[j + 1] == s[j + 1];
    }
    assert CalloutPass(r) == r;
  }

  /** `[!TIP] hello` as a paragraph becomes a `tip` block wrapping `hello`. */
  lemma TipExample(s: seq<Token>)
    requires s == [Token(ParagraphOpen, 1, "", ""), Token(Inline, 0, Marker(Tip) + " hello", ""), Token(ParagraphClose, -1, "", "")]
    ensures CalloutPass(s)
      == [Token(HtmlBlock, 1, AlertOpenTag(Tip), ""), Token(HtmlBlock, 0, "hello", ""), Token(HtmlBlock, -1, "</div>", "")]
  {
    assert s[1].content == Marker(Tip) + " " + "hello" + "" by {
      assert " hello" == " " + "hello" + "";
    }
    assert AllSpace(" ") && !HasLineTerminator("hello");
    AlertParagraphRewritten(s, 0, Tip, " ", "hello", "");
  }

  /** A NOTE spread over several lines keeps only its first line of text ... */
  lemma MultiLineNoteExample(c: string)
    requires c == "[!NOTE]\nfirst\nsecond"
    ensures MatchAlert(c) == Some((Note, "first"))
  {
    assert c == Marker(Note) + "\n" + "first" + "\nsecond";
    assert AllSpace("\n") && IsLineTerminator("\nsecond"[0]);
    assert !HasLineTerminator("first");
    MatchAlertText(Note, "\n", "first", "\nsecond");
  }

  /** ... and is rendered under the `tip` class. */
  lemma NoteUsesTipClass()
    ensures AlertOpenTag(Note) == AlertOpenTag(Tip) == "<div class=\"custom-block tip\">"
  {}

  /** Lower-case or unknown kinds, and markers not at the very start, are not alerts. */
  lemma NotAlertExamples(lower: string, unknown: string, indented: string)
    requires lower == "[!tip] x" && unknown == "[!FOO] x" && indented == " [!TIP] x"
    ensures MatchAlert(lower) == None
    ensures MatchAlert(unknown) == None
    ensures MatchAlert(indented) == None
  {
    NoInitialNoMatch(lower);
    NoInitialNoMatch(unknown);
    NoInitialNoMatch(indented);
  }

  /** A text whose third character starts no kind name does not match. */
  lemma NoInitialNoMatch(c: string)
    requires |c| >= 3 && c[2] !in "NTIWC"
    ensures MatchAlert(c) == None
  {
    assert KindByInitial(c[2]) == None;
  }
}
