/**
 * The pieces of JavaScript's string built-ins that the previewer relies on:
 * the character classes behind `\s`, `.` and `\b`, `String.prototype.trim`,
 * `String.prototype.split` with a one-character separator, and `Number()`
 * applied to a string, restricted to decimal integers.
 *
 * A JavaScript string is a sequence of UTF-16 code units; here it is a
 * `string` of Unicode scalar values, which makes no difference to any of the
 * character classes below.
 */
module Text {
  import opened Wrappers

  /** The characters matched by `\s` and removed by `trim`: WhiteSpace and LineTerminator. */
  predicate IsSpace(c: char) {
    c == '\t' || c == '\n' || c == '\U{B}' || c == '\U{C}' || c == '\r' || c == ' '
    || c == '\U{A0}' || c == '\U{1680}' || ('\U{2000}' <= c <= '\U{200A}')
    || c == '\U{2028}' || c == '\U{2029}' || c == '\U{202F}' || c == '\U{205F}'
    || c == '\U{3000}' || c == '\U{FEFF}'
  }

  /** The characters that `.` does not match (without the `s` flag). */
  predicate IsLineTerminator(c: char) {
    c == '\n' || c == '\r' || c == '\U{2028}' || c == '\U{2029}'
  }

  /** The characters `\w` matches; `\b` sits between one of these and anything else. */
  predicate IsWordChar(c: char) {
    'a' <= c <= 'z' || 'A' <= c <= 'Z' || '0' <= c <= '9' || c == '_'
  }

  predicate IsDigit(c: char) {
    '0' <= c <= '9'
  }

  predicate AllSpace(s: string) {
    forall i :: 0 <= i < |s| ==> IsSpace(s[i])
  }

  predicate HasLineTerminator(s: string) {
    exists i :: 0 <= i < |s| && IsLineTerminator(s[i])
  }

  predicate IsPrefix(p: string, s: string) {
    |p| <= |s| && s[..|p|] == p
  }

  /** `s` without its leading run of spaces. */
  function TrimStart(s: string): string
    decreases |s|
  {
    if s != [] && IsSpace(s[0]) then TrimStart(s[1..]) else s
  }

  /** `TrimStart` drops the longest leading run of spaces and nothing else. */
  lemma {:induction false} TrimStartFacts(s: string)
    ensures var r := TrimStart(s);
      |r| <= |s| && r == s[|s| - |r|..]
      && AllSpace(s[..|s| - |r|])
      && (r == [] || !IsSpace(r[0]))
    decreases |s|
  {
    if s != [] && IsSpace(s[0]) {
      TrimStartFacts(s[1..]);
      var r := TrimStart(s);
      assert s[..|s| - |r|] == [s[0]] + s[1..][..|s| - 1 - |r|];
    }
  }

  /** `s` without its trailing run of spaces. */
  function TrimEnd(s: string): string
    decreases |s|
  {
    if s != [] && IsSpace(s[|s| - 1]) then TrimEnd(s[..|s| - 1]) else s
  }

  /** `TrimEnd` drops the longest trailing run of spaces and nothing else. */
  lemma {:induction false} TrimEndFacts(s: string)
    ensures var r := TrimEnd(s);
      |r| <= |s| && r == s[..|r|]
      && AllSpace(s[|r|..])
      && (r == [] || !IsSpace(r[|r| - 1]))
    decreases |s|
  {
    if s != [] && IsSpace(s[|s| - 1]) {
      TrimEndFacts(s[..|s| - 1]);
      var r := TrimEnd(s);
      assert s[|r|..] == s[..|s| - 1][|r|..] + [s[|s| - 1]];
    }
  }

  /** `String.prototype.trim`: what is left neither starts nor ends with a space. */
  function Trim(s: string): (r: string)
    ensures r == [] || (!IsSpace(r[0]) && !IsSpace(r[|r| - 1]))
  {
    TrimStartFacts(s);
    TrimEndFacts(TrimStart(s));
    TrimEnd(TrimStart(s))
  }

  /** A string that neither starts nor ends with a space is its own trim. */
  lemma TrimmedIsFixed(s: string)
    requires s == [] || (!IsSpace(s[0]) && !IsSpace(s[|s| - 1]))
    ensures Trim(s) == s
  {}

  /** A run of spaces in front of text that does not start with one is exactly what `TrimStart` drops. */
  lemma {:induction false} SkipSpaces(spaces: string, s: string)
    requires AllSpace(spaces)
    requires s == [] || !IsSpace(s[0])
    ensures TrimStart(spaces + s) == s
    decreases |spaces|
  {
    if spaces != [] {
      assert (spaces + s)[1..] == spaces[1..] + s;
      SkipSpaces(spaces[1..], s);
    }
  }

  /** Likewise at the end: a run of spaces after text that does not end with one is exactly what `TrimEnd` drops. */
  lemma {:induction false} SkipTrailingSpaces(s: string, spaces: string)
    requires AllSpace(spaces)
    requires s == [] || !IsSpace(s[|s| - 1])
    ensures TrimEnd(s + spaces) == s
    decreases |spaces|
  {
    if spaces != [] {
      var front := spaces[..|spaces| - 1];
      assert (s + spaces)[..|s + spaces| - 1] == s + front;
      SkipTrailingSpaces(s, front);
    }
  }

  /** The text up to, and not including, the first line terminator: what `(.*)` captures. */
  function FirstLine(s: string): string
    decreases |s|
  {
    if s == [] || IsLineTerminator(s[0]) then [] else [s[0]] + FirstLine(s[1..])
  }

  /** The first line is a prefix free of line terminators, ending where a line terminator or the text ends. */
  lemma {:induction false} FirstLineFacts(s: string)
    ensures var r := FirstLine(s);
      IsPrefix(r, s) && !HasLineTerminator(r)
      && (|r| == |s| || IsLineTerminator(s[|r|]))
    decreases |s|
  {
    if s != [] && !IsLineTerminator(s[0]) {
      FirstLineFacts(s[1..]);
      var r := FirstLine(s);
      assert r == [s[0]] + FirstLine(s[1..]);
      forall i | 0 <= i < |r| ensures !IsLineTerminator(r[i]) {
        if i > 0 { assert r[i] == FirstLine(s[1..])[i - 1]; }
      }
    }
  }

  /**
   * What `\s*(.*)` captures when matched at position `n` of `c`: the first
   * line after the run of spaces there, found in `c` after those spaces.
   */
  lemma LineAfterSpaces(c: string, n: nat)
    requires n <= |c|
    ensures var text := FirstLine(TrimStart(c[n..]));
      (exists i :: n <= i && i + |text| <= |c| && c[i..i + |text|] == text
        && AllSpace(c[n..i])
        && (i + |text| == |c| || IsLineTerminator(c[i + |text|])))
      && !HasLineTerminator(text)
      && (text == [] || !IsSpace(text[0]))
  {
    var body := c[n..];
    var rest := TrimStart(body);
    var text := FirstLine(rest);
    TrimStartFacts(body);
    FirstLineFacts(rest);
    var i := |c| - |rest|;
    assert c[i..] == rest;
    assert c[i..i + |text|] == rest[..|text|];
    assert c[n..i] == body[..|body| - |rest|];
    assert i + |text| < |c| ==> c[i + |text|] == rest[|text|];
    assert n <= i && i + |text| <= |c| && c[i..i + |text|] == text
      && AllSpace(c[n..i])
      && (i + |text| == |c| || IsLineTerminator(c[i + |text|]));
  }

  /** The text before the first `c`, or all of `s` when there is none. */
  function Before(s: string, c: char): string
    decreases |s|
  {
    if s == [] || s[0] == c then [] else [s[0]] + Before(s[1..], c)
  }

  /** `Before` stops at the first `c`: a prefix free of `c`, followed by `c` unless it is all of `s`. */
  lemma {:induction false} BeforeFacts(s: string, c: char)
    ensures var r := Before(s, c);
      IsPrefix(r, s) && c !in r && (|r| == |s| || s[|r|] == c)
    decreases |s|
  {
    if s != [] && s[0] != c {
      BeforeFacts(s[1..], c);
      var r := Before(s, c);
      assert r == [s[0]] + Before(s[1..], c);
    }
  }

  /** A prefix free of `c` followed by `c` is what `Before` returns. */
  lemma {:induction false} BeforeSeparator(x: string, c: char, rest: string)
    requires c !in x
    ensures Before(x + [c] + rest, c) == x
    decreases |x|
  {
    if x != [] {
      assert (x + [c] + rest)[1..] == x[1..] + [c] + rest;
      BeforeSeparator(x[1..], c, rest);
    }
  }

  /** `Array.prototype.join` with a one-character separator. */
  function Join(parts: seq<string>, sep: char): string
    decreases |parts|
  {
    if parts == [] then ""
    else if |parts| == 1 then parts[0]
    else parts[0] + [sep] + Join(parts[1..], sep)
  }

  /** How many times `c` occurs in `s`. */
  function Occurrences(s: string, c: char): nat
    decreases |s|
  {
    if s == [] then 0 else (if s[0] == c then 1 else 0) + Occurrences(s[1..], c)
  }

  /**
   * `String.prototype.split` with a one-character separator: the pieces
   * between separators, empty ones included, so there is always one more
   * piece than there are separators.
   */
  function Split(s: string, sep: char): (parts: seq<string>)
    ensures |parts| == Occurrences(s, sep) + 1
    decreases |s|
  {
    if s == [] then [""]
    else
      var tail := Split(s[1..], sep);
      if s[0] == sep then [""] + tail
      else [[s[0]] + tail[0]] + tail[1..]
  }

  /** No piece holds the separator, and there are two pieces or more exactly when the string holds one. */
  lemma {:induction false} SplitFacts(s: string, sep: char)
    ensures var parts := Split(s, sep);
      && (forall i :: 0 <= i < |parts| ==> sep !in parts[i])
      && (sep in s <==> |parts| >= 2)
    decreases |s|
  {
    if s != [] {
      SplitFacts(s[1..], sep);
      var tail := Split(s[1..], sep);
      var parts := Split(s, sep);
      assert s == [s[0]] + s[1..];
      if s[0] != sep {
        assert parts[0] == [s[0]] + tail[0];
        assert forall i :: 1 <= i < |parts| ==> parts[i] == tail[i];
      } else {
        assert forall i :: 1 <= i < |parts| ==> parts[i] == tail[i - 1];
      }
    }
  }

  /** Joining the pieces with the separator gives back the string. */
  lemma {:induction false} JoinSplit(s: string, sep: char)
    ensures Join(Split(s, sep), sep) == s
    decreases |s|
  {
    if s != [] {
      var tail := Split(s[1..], sep);
      JoinSplit(s[1..], sep);
      if s[0] != sep {
        if |tail| == 1 {
          assert Split(s, sep) == [[s[0]] + tail[0]];
        } else {
          assert Split(s, sep)[1..] == tail[1..];
          assert [s[0]] + s[1..] == s;
        }
      } else {
        assert [""] + tail == Split(s, sep);
        assert [s[0]] + s[1..] == s;
      }
    }
  }

  /** Splitting a join of separator-free pieces gives back the pieces. */
  lemma {:induction false} SplitJoin(parts: seq<string>, sep: char)
    requires |parts| >= 1
    requires forall i :: 0 <= i < |parts| ==> sep !in parts[i]
    ensures Split(Join(parts, sep), sep) == parts
    decreases |parts|, |parts[0]|, 1
  {
    if |parts| == 1 {
      SplitNoSeparator(parts[0], sep);
    } else if parts[0] == [] {
      SplitJoinEmptyFirst(parts, sep);
    } else {
      SplitJoinLongFirst(parts, sep);
    }
  }

  lemma {:induction false} SplitJoinEmptyFirst(parts: seq<string>, sep: char)
    requires |parts| >= 2 && parts[0] == []
    requires forall i :: 0 <= i < |parts| ==> sep !in parts[i]
    ensures Split(Join(parts, sep), sep) == parts
    decreases |parts|, |parts[0]|, 0
  {
    var rest := Join(parts[1..], sep);
    assert Join(parts, sep) == [sep] + rest;
    SplitJoin(parts[1..], sep);
    SplitFirst(sep, rest, sep);
    assert parts == [""] + parts[1..];
  }

  lemma {:induction false} SplitJoinLongFirst(parts: seq<string>, sep: char)
    requires |parts| >= 2 && parts[0] != []
    requires forall i :: 0 <= i < |parts| ==> sep !in parts[i]
    ensures Split(Join(parts, sep), sep) == parts
    decreases |parts|, |parts[0]|, 0
  {
    var x := parts[0];
    var shorter := [x[1..]] + parts[1..];
    forall i | 0 <= i < |shorter| ensures sep !in shorter[i] {
      if i == 0 {
        assert forall y :: y in x[1..] ==> y in x;
      } else {
        assert shorter[i] == parts[i];
      }
    }
    SplitJoin(shorter, sep);
    var joined := Join(shorter, sep);
    assert Join(parts, sep) == [x[0]] + joined by {
      assert joined == x[1..] + [sep] + Join(parts[1..], sep);
      assert x == [x[0]] + x[1..];
    }
    assert x[0] != sep by { assert x[0] in x; }
    SplitFirst(x[0], joined, sep);
    assert [x[0]] + x[1..] == x;
  }

  /** One step of `Split`: the first character either ends the first piece or joins it. */
  lemma SplitFirst(c: char, rest: string, sep: char)
    ensures var tail := Split(rest, sep);
      Split([c] + rest, sep) == if c == sep then [""] + tail else [[c] + tail[0]] + tail[1..]
  {
    assert ([c] + rest)[1..] == rest;
  }

  /** A separator-free first piece splits off on its own. */
  lemma {:induction false} SplitAfterPiece(x: string, sep: char, rest: string)
    requires sep !in x
    ensures Split(x + [sep] + rest, sep) == [x] + Split(rest, sep)
    decreases |x|
  {
    if x == [] {
      SplitFirst(sep, rest, sep);
      assert [] + [sep] + rest == [sep] + rest;
    } else {
      SplitAfterPiece(x[1..], sep, rest);
      assert x + [sep] + rest == [x[0]] + (x[1..] + [sep] + rest);
      assert x[0] != sep by { assert x[0] in x; }
      SplitFirst(x[0], x[1..] + [sep] + rest, sep);
      assert [x[0]] + x[1..] == x;
    }
  }

  /** A character that is not the separator, and in none of the pieces, is not in their join. */
  lemma {:induction false} JoinAvoids(parts: seq<string>, sep: char, c: char)
    requires c != sep
    requires forall i :: 0 <= i < |parts| ==> c !in parts[i]
    ensures c !in Join(parts, sep)
    decreases |parts|
  {
    if |parts| > 1 {
      JoinAvoids(parts[1..], sep, c);
      assert c !in parts[0];
    }
  }

  lemma {:induction false} SplitNoSeparator(s: string, sep: char)
    requires sep !in s
    ensures Split(s, sep) == [s]
    decreases |s|
  {
    if s != [] {
      SplitNoSeparator(s[1..], sep);
      assert [s[0]] + s[1..] == s;
    }
  }

  predicate AllDigits(s: string) {
    forall i :: 0 <= i < |s| ==> IsDigit(s[i])
  }

  /** The value of a run of decimal digits, most significant first. */
  function DigitsValue(d: string): nat
    requires AllDigits(d)
    decreases |d|
  {
    if d == [] then 0 else 10 * DigitsValue(d[..|d| - 1]) + (d[|d| - 1] - '0') as nat
  }

  /** The decimal digits of `n`, without leading zeros. */
  function Decimal(n: nat): (d: string)
    ensures d != [] && AllDigits(d)
    decreases n
  {
    if n < 10 then [(n + '0' as int) as char] else Decimal(n / 10) + [(n % 10 + '0' as int) as char]
  }

  lemma {:induction false} DecimalValue(n: nat)
    ensures DigitsValue(Decimal(n)) == n
    decreases n
  {
    if n >= 10 {
      DecimalValue(n / 10);
      var d := Decimal(n);
      assert d[..|d| - 1] == Decimal(n / 10);
    }
  }

  /** An optional sign followed by at least one decimal digit. */
  predicate SignedDigits(t: string) {
    if t != [] && (t[0] == '+' || t[0] == '-') then |t| > 1 && AllDigits(t[1..]) else t != [] && AllDigits(t)
  }

  /**
   * `Number(s)` for a string `s`, restricted to decimal integers: surrounding
   * spaces are ignored, the empty string is 0, an optional sign may precede
   * the digits, and anything else is `NaN`, here `None`.
   */
  function ParseInteger(s: string): (n: Option<int>)
    ensures n.Some? <==> Trim(s) == [] || SignedDigits(Trim(s))
    ensures n.Some? && n.value < 0 ==> Trim(s) != [] && Trim(s)[0] == '-'
  {
    var t := Trim(s);
    if t == [] then Some(0)
    else if t[0] == '+' || t[0] == '-' then
      if |t| > 1 && AllDigits(t[1..]) then
        Some(if t[0] == '-' then -(DigitsValue(t[1..]) as int) else DigitsValue(t[1..]))
      else None
    else if AllDigits(t) then Some(DigitsValue(t))
    else None
  }

  /** The decimal text of a number, with a minus sign when it is negative. */
  function IntegerText(n: int): string {
    if n < 0 then "-" + Decimal(-n) else Decimal(n)
  }

  /** `Number` reads back every integer written in decimal. */
  lemma ParseIntegerText(n: int)
    ensures ParseInteger(IntegerText(n)) == Some(n)
  {
    var d := Decimal(if n < 0 then -n else n);
    DecimalValue(if n < 0 then -n else n);
    var t := IntegerText(n);
    assert !IsSpace(t[0]) && !IsSpace(t[|t| - 1]) by {
      assert IsDigit(d[0]) && IsDigit(d[|d| - 1]);
    }
    TrimmedIsFixed(t);
    if n < 0 {
      assert t[1..] == d;
    } else {
      assert t[0] != '+' && t[0] != '-' by { assert IsDigit(d[0]); }
    }
  }

  /**
   * `Number` on text that is not in canonical form: spaces around the
   * number, a `+` or `-` sign, leading zeros. The value is that of the
   * digits, negated after a `-`.
   */
  lemma ParseIntegerPadded(pre: string, sign: string, d: string, post: string)
    requires AllSpace(pre) && AllSpace(post)
    requires sign == "" || sign == "+" || sign == "-"
    requires d != [] && AllDigits(d)
    ensures ParseInteger(pre + sign + d + post) == Some(if sign == "-" then -(DigitsValue(d) as int) else DigitsValue(d))
  {
    var t := sign + d;
    assert IsDigit(d[0]) && IsDigit(d[|d| - 1]);
    assert pre + sign + d + post == pre + t + post;
    TrimPadded(pre, t, post);
    if sign == "" {
      assert t == d;
    } else {
      assert t[0] == sign[0] && t[1..] == d;
    }
  }

  /** Trimming spaces put around text that neither starts nor ends with one gives the text back. */
  lemma TrimPadded(pre: string, t: string, post: string)
    requires AllSpace(pre) && AllSpace(post)
    requires t != [] && !IsSpace(t[0]) && !IsSpace(t[|t| - 1])
    ensures Trim(pre + t + post) == t
  {
    assert pre + t + post == pre + (t + post);
    SkipSpaces(pre, t + post);
    SkipTrailingSpaces(t, post);
  }

  /** Leading zeros do not change the value of a run of digits. */
  lemma {:induction false} LeadingZeros(zeros: string, d: string)
    requires forall i :: 0 <= i < |zeros| ==> zeros[i] == '0'
    requires AllDigits(d)
    ensures AllDigits(zeros + d)
    ensures DigitsValue(zeros + d) == DigitsValue(d)
    decreases |d| + |zeros|
  {
    var s := zeros + d;
    assert AllDigits(s) by {
      forall i | 0 <= i < |s| ensures IsDigit(s[i]) {
        if i < |zeros| { assert s[i] == zeros[i]; } else { assert s[i] == d[i - |zeros|]; }
      }
    }
    if d == [] {
      assert s == zeros;
      if zeros != [] {
        LeadingZeros(zeros[..|zeros| - 1], []);
        assert zeros[..|zeros| - 1] + [] == s[..|s| - 1];
      }
    } else {
      LeadingZeros(zeros, d[..|d| - 1]);
      assert s[..|s| - 1] == zeros + d[..|d| - 1];
    }
  }

  /** Without a minus sign anywhere, `Number` gives no negative value. */
  lemma ParseIntegerUnsigned(s: string)
    requires '-' !in s
    ensures ParseInteger(s).Some? ==> ParseInteger(s).value >= 0
  {
    var u := TrimStart(s);
    TrimStartFacts(s);
    TrimEndFacts(u);
    var t := Trim(s);
    if t != [] {
      assert t[0] == u[0] == s[|s| - |u|];
    }
  }
}
