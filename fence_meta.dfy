/**
 * `parseMeta`: the metadata after a code fence's language, such as
 * `{2,4-6} ln`, read into the lines to highlight and the line-numbers flag.
 */
module FenceMeta {
  import opened Wrappers
  import opened Text

  /** The lines to highlight, in the order they were listed (repeats kept), and whether to number lines. */
  datatype Meta = Meta(highlight: seq<int>, lineNumbers: bool)

  /** `a, a+1, ..., b`: what `for (let i = a; i <= b; i++)` appends, and nothing when `a > b`. */
  function NumberRange(a: int, b: int): (r: seq<int>)
    ensures |r| == if a <= b then b - a + 1 else 0
    ensures forall k :: 0 <= k < |r| ==> r[k] == a + k
    decreases b - a
  {
    if a > b then [] else [a] + NumberRange(a + 1, b)
  }

  /** A range grows by one number at its top. */
  lemma NumberRangeExtend(a: int, b: int)
    requires a <= b + 1
    ensures NumberRange(a, b + 1) == NumberRange(a, b) + [b + 1]
  {
    assert NumberRange(a, b + 1)[..b + 1 - a] == NumberRange(a, b);
  }

  /**
   * `/{([^}]+)}/` searched for from the left: the text between the first `{`
   * that is followed by at least one character other than `}` and the
   * first `}` after it. A `{` may itself be part of the group.
   */
  function BraceGroup(s: string): (g: Option<string>)
    ensures g.Some? ==> g.value != [] && '}' !in g.value
    decreases |s|
  {
    if |s| < 2 then None
    else if s[0] == '{' && s[1] != '}' && '}' in s[1..] then
      BeforeFacts(s[1..], '}');
      Some(Before(s[1..], '}'))
    else BraceGroup(s[1..])
  }

  /** What one comma-separated entry adds: a range `a-b` (only the first two pieces count) or a single number. */
  function EntryLines(p: string): (r: seq<int>)
    ensures IsRun(r)
  {
    if '-' in p then
      SplitFacts(p, '-');
      var bounds := Split(p, '-');
      var a, b := ParseInteger(bounds[0]), ParseInteger(bounds[1]);
      if a.Some? && b.Some? then NumberRangeIsRun(a.value, b.value); NumberRange(a.value, b.value) else []
    else
      match ParseInteger(p)
      case Some(n) => NumberRangeIsRun(n, n); [n]
      case None => []
  }

  /** `r` is empty or a run of consecutive numbers from its first to its last. */
  predicate IsRun(r: seq<int>) {
    r == [] || r == NumberRange(r[0], r[0] + |r| - 1)
  }

  lemma NumberRangeIsRun(a: int, b: int)
    ensures IsRun(NumberRange(a, b))
    ensures NumberRange(a, a) == [a]
  {
    assert NumberRange(a + 1, a) == [];
  }

  /** What a list of entries adds, in order. */
  function EntriesLines(parts: seq<string>): seq<int>
    decreases |parts|
  {
    if parts == [] then [] else EntriesLines(parts[..|parts| - 1]) + EntryLines(parts[|parts| - 1])
  }

  /** The highlighted lines: the entries of the first brace group, or none without one. */
  function HighlightLines(meta: string): seq<int> {
    match BraceGroup(meta)
    case None => []
    case Some(g) => EntriesLines(Split(g, ','))
  }

  /** ASCII letters lower-cased; the `i` flag without `u` folds no other character onto them. */
  function AsciiLower(c: char): char {
    if 'A' <= c <= 'Z' then (c as int + 32) as char else c
  }

  /** The lower-case word `w` occurs at `p` in `s`, ignoring case, with a word boundary on each side. */
  predicate WordAt(s: string, p: int, w: string) {
    && 0 <= p && p + |w| <= |s|
    && (forall i :: 0 <= i < |w| ==> AsciiLower(s[p + i]) == w[i])
    && (p == 0 || !IsWordChar(s[p - 1]))
    && (p + |w| == |s| || !IsWordChar(s[p + |w|]))
  }

  /** `/\b(ln|line-numbers)\b/i` tried at every position from `p` on. */
  function LineNumbersFrom(s: string, p: nat): bool
    decreases |s| - p
  {
    if p >= |s| then false
    else WordAt(s, p, "ln") || WordAt(s, p, "line-numbers") || LineNumbersFrom(s, p + 1)
  }

  /** The flag is set exactly when `ln` or `line-numbers` occurs as a whole word, in any case, anywhere. */
  function HasLineNumbersFlag(meta: string): (b: bool)
    ensures b <==> exists q :: WordAt(meta, q, "ln") || WordAt(meta, q, "line-numbers")
  {
    LineNumbersFromWord(meta, 0);
    LineNumbersFrom(meta, 0)
  }

  /** The metadata as `parseMeta` reads it. */
  function ParsedMeta(meta: string): (m: Meta)
    ensures forall x :: x in m.highlight ==> x >= 0
    ensures '{' !in meta ==> m.highlight == []
  {
    HighlightLinesNonNegative(meta);
    var m := Meta(HighlightLines(meta), HasLineNumbersFlag(meta));
    if '{' in meta then m else NoBraceNoLines(meta); m
  }

  /** The body of `parseMeta`'s loop over the entries: push what entry `p` adds onto `highlight`. */
  method AddEntry(highlight: seq<int>, p: string) returns (r: seq<int>)
    ensures r == highlight + EntryLines(p)
  {
    r := highlight;
    if '-' in p {
      SplitFacts(p, '-');
      var bounds := Split(p, '-');
      var a, b := ParseInteger(bounds[0]), ParseInteger(bounds[1]);
      if a.Some? && b.Some? {
        r := AddRange(r, a.value, b.value);
      }
    } else {
      var n := ParseInteger(p);
      if n.Some? {
        r := r + [n.value];
      }
    }
  }

  /** The inner `for` loop: push `a`, `a+1`, ..., `b` onto `highlight`. */
  method AddRange(highlight: seq<int>, a: int, b: int) returns (r: seq<int>)
    ensures r == highlight + NumberRange(a, b)
  {
    r := highlight;
    var i := a;
    while i <= b
      invariant a <= i && (i <= b + 1 || i == a)
      invariant r == highlight + NumberRange(a, i - 1)
      decreases b + 1 - i
    {
      NumberRangeExtend(a, i - 1);
      r := r + [i];
      i := i + 1;
    }
  }

  /** `parseMeta`: the loop over the entries of the first brace group, then the line-numbers test. */
  method ParseMeta(meta: string) returns (res: Meta)
    ensures res == ParsedMeta(meta)
  {
    res := Meta([], false);
    var range := BraceGroup(meta);
    if range.Some? {
      var highlight := AddEntries(Split(range.value, ','));
      res := res.(highlight := highlight);
    }
    assert res == Meta(HighlightLines(meta), false);
    if HasLineNumbersFlag(meta) {
      res := res.(lineNumbers := true);
    }
  }

  /** `for (const p of parts)`: push what each entry adds, in order. */
  method AddEntries(parts: seq<string>) returns (highlight: seq<int>)
    ensures highlight == EntriesLines(parts)
  {
    highlight := [];
    for j := 0 to |parts|
      invariant highlight == EntriesLines(parts[..j])
    {
      highlight := AddEntry(highlight, parts[j]);
      assert parts[..j + 1][..j] == parts[..j];
    }
    assert parts[..|parts|] == parts;
  }

  // What `parseMeta` promises, stated on `ParsedMeta`.

  /** Empty metadata, the default when a fence has none, highlights nothing and does not number lines. */
  lemma EmptyMeta()
    ensures ParsedMeta("") == Meta([], false)
  {}

  lemma {:induction false} NoBraceNoGroup(s: string)
    requires '{' !in s
    ensures BraceGroup(s) == None
    decreases |s|
  {
    if |s| >= 2 {
      NoBraceNoGroup(s[1..]);
    }
  }

  /** A `{` that is not followed by a character other than `}` and, later, a `}` starts no group: the search moves on. */
  lemma BraceSkipped(s: string)
    requires s != [] && s[0] == '{'
    requires |s| == 1 || s[1] == '}' || '}' !in s[1..]
    ensures BraceGroup(s) == BraceGroup(s[1..])
  {}

  /** So an empty `{}` is passed over, as in `{}{1}`, whose group is `1`. */
  lemma EmptyBracesSkipped(rest: string)
    ensures BraceGroup("{}" + rest) == BraceGroup(rest)
  {
    var s := "{}" + rest;
    BraceSkipped(s);
    assert s[1..] == "}" + rest;
    if rest != [] {
      assert ("}" + rest)[1..] == rest;
    }
  }

  /** Without a `}` there is no group, whatever `{` the text holds. */
  lemma {:induction false} NoCloseNoGroup(s: string)
    requires '}' !in s
    ensures BraceGroup(s) == None
    decreases |s|
  {
    if |s| >= 2 {
      NoCloseNoGroup(s[1..]);
    }
  }

  /** Text without a `{` in front of the rest is passed over, so the group is the one in the rest. */
  lemma {:induction false} BraceFreePrefix(pre: string, rest: string)
    requires '{' !in pre
    ensures BraceGroup(pre + rest) == BraceGroup(rest)
    decreases |pre|
  {
    if pre == [] {
      assert pre + rest == rest;
    } else {
      var s := pre + rest;
      assert s[0] == pre[0] != '{' by { assert pre[0] in pre; }
      assert s[1..] == pre[1..] + rest;
      BraceFreePrefix(pre[1..], rest);
    }
  }

  /** Without a `{` nothing is highlighted. */
  lemma NoBraceNoLines(meta: string)
    requires '{' !in meta
    ensures HighlightLines(meta) == []
  {
    NoBraceNoGroup(meta);
  }

  /** The group is the text up to the first `}` after the first `{`; whatever follows is ignored. */
  lemma {:induction false} FirstGroupOnly(pre: string, g: string, post: string)
    requires '{' !in pre && g != [] && '}' !in g
    ensures BraceGroup(pre + "{" + g + "}" + post) == Some(g)
    decreases |pre|
  {
    var s := pre + "{" + g + "}" + post;
    if pre == [] {
      assert s[1..] == g + "}" + post;
      assert s[1] == g[0] != '}' by { assert g[0] in g; }
      assert s[1..][|g|] == '}';
      BeforeSeparator(g, '}', post);
    } else {
      assert s[0] == pre[0] != '{' by { assert pre[0] in pre; }
      assert s[1..] == pre[1..] + "{" + g + "}" + post;
      FirstGroupOnly(pre[1..], g, post);
    }
  }

  /** Entries add their lines in the order they are listed. */
  lemma {:induction false} EntriesInOrder(ps: seq<string>, qs: seq<string>)
    ensures EntriesLines(ps + qs) == EntriesLines(ps) + EntriesLines(qs)
    decreases |qs|
  {
    if qs == [] {
      assert ps + qs == ps;
    } else {
      var front, last := qs[..|qs| - 1], qs[|qs| - 1];
      EntriesInOrder(ps, front);
      SplitLast(ps, qs);
      EntriesLinesAppendOne(ps + front, last);
      EntriesLinesAppendOne(front, last);
      AppendAssociates(EntriesLines(ps), EntriesLines(front), EntryLines(last));
    }
  }

  /** Sequence bookkeeping, generic so that the solver does not look inside the elements. */
  lemma SplitLast<T>(ps: seq<T>, qs: seq<T>)
    requires qs != []
    ensures qs[..|qs| - 1] + [qs[|qs| - 1]] == qs
    ensures (ps + qs[..|qs| - 1]) + [qs[|qs| - 1]] == ps + qs
  {}

  lemma PairAppends<T>(p: T, q: T)
    ensures [] + [p] == [p] && [p] + [q] == [p, q]
  {}

  lemma AppendAssociates<T>(a: seq<T>, b: seq<T>, c: seq<T>)
    ensures (a + b) + c == a + (b + c)
  {}

  lemma EntriesLinesAppendOne(ps: seq<string>, p: string)
    ensures EntriesLines(ps + [p]) == EntriesLines(ps) + EntryLines(p)
  {
    assert (ps + [p])[..|ps|] == ps;
  }

  /** The first brace group's comma-separated entries, and only they, give the highlighted lines. */
  lemma FirstGroupEntries(pre: string, entries: seq<string>, post: string)
    requires '{' !in pre && |entries| >= 1
    requires forall i :: 0 <= i < |entries| ==> ',' !in entries[i] && '}' !in entries[i]
    requires Join(entries, ',') != []
    ensures HighlightLines(pre + "{" + Join(entries, ',') + "}" + post) == EntriesLines(entries)
  {
    JoinAvoids(entries, ',', '}');
    FirstGroupOnly(pre, Join(entries, ','), post);
    SplitJoin(entries, ',');
  }

  /** A range entry `x-y` (anything after a second `-` ignored) adds x, x+1, ..., y, or nothing if a bound is not a number. */
  lemma RangeEntry(x: string, y: string, tail: string)
    requires '-' !in x && '-' !in y && (tail == [] || tail[0] == '-')
    ensures EntryLines(x + "-" + y + tail) ==
      if ParseInteger(x).Some? && ParseInteger(y).Some? then NumberRange(ParseInteger(x).value, ParseInteger(y).value)
      else []
  {
    var p := x + "-" + y + tail;
    assert p == x + ['-'] + (y + tail);
    assert '-' in p by { assert p[|x|] == '-'; }
    SplitAfterPiece(x, '-', y + tail);
    if tail == [] {
      assert y + tail == y;
      SplitNoSeparator(y, '-');
    } else {
      assert y + tail == y + ['-'] + tail[1..];
      SplitAfterPiece(y, '-', tail[1..]);
    }
  }

  /** A range written in decimal, `a-b`, adds a, a+1, ..., b in ascending order, and nothing when a > b. */
  lemma DecimalRangeEntry(a: nat, b: nat)
    ensures EntryLines(Decimal(a) + "-" + Decimal(b)) == NumberRange(a, b)
  {
    ParseIntegerText(a);
    ParseIntegerText(b);
    assert '-' !in Decimal(a) by { assert forall i :: 0 <= i < |Decimal(a)| ==> IsDigit(Decimal(a)[i]); }
    assert '-' !in Decimal(b) by { assert forall i :: 0 <= i < |Decimal(b)| ==> IsDigit(Decimal(b)[i]); }
    RangeEntry(Decimal(a), Decimal(b), "");
    assert Decimal(a) + "-" + Decimal(b) + "" == Decimal(a) + "-" + Decimal(b);
  }

  /** A single number adds itself, once. */
  lemma SingleEntry(n: nat)
    ensures EntryLines(Decimal(n)) == [n]
  {
    ParseIntegerText(n);
    assert '-' !in Decimal(n) by { assert forall i :: 0 <= i < |Decimal(n)| ==> IsDigit(Decimal(n)[i]); }
  }

  /** Any entry without a `-` adds `Number` of it when that is a number, and nothing when it is NaN. */
  lemma SingleEntryAny(p: string)
    requires '-' !in p
    ensures EntryLines(p) == if ParseInteger(p).Some? then [ParseInteger(p).value] else []
  {}

  /** So an entry written with spaces, a `+` or leading zeros, such as ` 3` in `{1, 3}`, adds the value of its digits. */
  lemma PaddedEntry(pre: string, sign: string, d: string, post: string)
    requires AllSpace(pre) && AllSpace(post)
    requires sign == "" || sign == "+"
    requires d != [] && AllDigits(d)
    ensures EntryLines(pre + sign + d + post) == [DigitsValue(d) as int]
  {
    var p := pre + sign + d + post;
    ParseIntegerPadded(pre, sign, d, post);
    assert '-' !in p by {
      forall i | 0 <= i < |p| ensures p[i] != '-' {
        if i < |pre| { assert p[i] == pre[i]; }
        else if i < |pre| + |sign| { assert p[i] == sign[i - |pre|]; }
        else if i < |pre| + |sign| + |d| { assert p[i] == d[i - |pre| - |sign|]; }
        else { assert p[i] == post[i - |pre| - |sign| - |d|]; }
      }
    }
    SingleEntryAny(p);
  }

  /** No entry adds a negative line: a minus sign always makes a range, and its lower bound has none. */
  lemma EntryLinesNonNegative(p: string)
    ensures forall x :: x in EntryLines(p) ==> x >= 0
  {
    if '-' in p {
      SplitFacts(p, '-');
      var bounds := Split(p, '-');
      ParseIntegerUnsigned(bounds[0]);
    } else {
      ParseIntegerUnsigned(p);
    }
  }

  lemma {:induction false} EntriesLinesNonNegative(parts: seq<string>)
    ensures forall x :: x in EntriesLines(parts) ==> x >= 0
    decreases |parts|
  {
    if parts != [] {
      EntriesLinesNonNegative(parts[..|parts| - 1]);
      EntryLinesNonNegative(parts[|parts| - 1]);
    }
  }

  /** Highlighted lines are never negative; line 0 can occur (see `EmptyEntry`). */
  lemma HighlightLinesNonNegative(meta: string)
    ensures forall x :: x in HighlightLines(meta) ==> x >= 0
  {
    if BraceGroup(meta).Some? {
      EntriesLinesNonNegative(Split(BraceGroup(meta).value, ','));
    }
  }

  /** An empty entry, as in `{1,}`, adds line 0, because `Number("")` is 0. */
  lemma EmptyEntry()
    ensures EntryLines("") == [0]
  {}

  /** `-3` is the range from `Number("")`, which is 0, to 3. */
  lemma OpenStartEntry()
    ensures EntryLines("-3") == [0, 1, 2, 3]
  {
    ParseIntegerText(3);
    assert Decimal(3) == "3";
    RangeEntry("", "3", "");
    assert "" + "-" + "3" + "" == "-3";
    assert NumberRange(0, 3) == [0, 1, 2, 3];
  }

  /** `3-` is the empty range from 3 to 0; a word adds nothing. */
  lemma OpenEndAndWordEntries()
    ensures EntryLines("3-") == []
    ensures EntryLines("x") == []
  {
    ParseIntegerText(3);
    assert Decimal(3) == "3";
    RangeEntry("3", "", "");
    assert "3" + "-" + "" + "" == "3-";
  }

  /** `LineNumbersFrom` finds a whole-word `ln` or `line-numbers` at or after `p`, and only such a word. */
  lemma {:induction false} LineNumbersFromWord(s: string, p: nat)
    ensures LineNumbersFrom(s, p) <==> exists q :: p <= q && (WordAt(s, q, "ln") || WordAt(s, q, "line-numbers"))
    decreases |s| - p
  {
    if p < |s| {
      LineNumbersFromWord(s, p + 1);
      if exists q :: p <= q && (WordAt(s, q, "ln") || WordAt(s, q, "line-numbers")) {
        var q :| p <= q && (WordAt(s, q, "ln") || WordAt(s, q, "line-numbers"));
        if q > p {
          assert p + 1 <= q;
        }
      }
    }
  }

  /** A group holding a number and then a range: the number, then the range in ascending order. */
  lemma NumberThenRange(n: nat, a: nat, b: nat, post: string)
    ensures HighlightLines("{" + Decimal(n) + "," + (Decimal(a) + "-" + Decimal(b)) + "}" + post) == [n] + NumberRange(a, b)
  {
    NumberThenRangeGroup(Decimal(n), Decimal(a) + "-" + Decimal(b), post);
    NumberThenRangeSyntax(n, a, b);
    NumberThenRangeEntries(n, a, b);
  }

  lemma NumberThenRangeGroup(single: string, range: string, post: string)
    requires ',' !in single && '}' !in single && ',' !in range && '}' !in range && single != []
    ensures HighlightLines("{" + single + "," + range + "}" + post) == EntriesLines([single, range])
  {
    assert "{" + single + "," + range + "}" + post == "" + "{" + Join([single, range], ',') + "}" + post;
    FirstGroupEntries("", [single, range], post);
  }

  lemma NumberThenRangeEntries(n: nat, a: nat, b: nat)
    ensures EntriesLines([Decimal(n), Decimal(a) + "-" + Decimal(b)]) == [n] + NumberRange(a, b)
  {
    TwoEntries(Decimal(n), Decimal(a) + "-" + Decimal(b));
    SingleEntry(n);
    DecimalRangeEntry(a, b);
  }

  lemma NumberThenRangeSyntax(n: nat, a: nat, b: nat)
    ensures var single, range := Decimal(n), Decimal(a) + "-" + Decimal(b);
      ',' !in single && '}' !in single && ',' !in range && '}' !in range
  {
    var range := Decimal(a) + "-" + Decimal(b);
    assert forall i :: 0 <= i < |Decimal(n)| ==> IsDigit(Decimal(n)[i]);
    assert forall i :: 0 <= i < |Decimal(a)| ==> IsDigit(Decimal(a)[i]);
    assert forall i :: 0 <= i < |Decimal(b)| ==> IsDigit(Decimal(b)[i]);
    assert forall i :: 0 <= i < |range| ==> range[i] == '-' || IsDigit(range[i]);
  }

  lemma TwoEntries(p: string, q: string)
    ensures EntriesLines([p, q]) == EntryLines(p) + EntryLines(q)
  {
    EntriesLinesAppendOne([], p);
    EntriesLinesAppendOne([p], q);
    PairAppends(p, q);
    AppendAssociates([], EntryLines(p), EntryLines(q));
  }

  /**
   * Metadata such as `{2,4-6} ln`: the group's number and then its range are
   * highlighted, in that order, and the trailing word turns line numbers on.
   */
  lemma NumberThenRangeWithFlag(n: nat, a: nat, b: nat)
    ensures ParsedMeta("{" + Decimal(n) + "," + (Decimal(a) + "-" + Decimal(b)) + "}" + " ln") == Meta([n] + NumberRange(a, b), true)
  {
    NumberThenRange(n, a, b, " ln");
    FlagAtEnd("{" + Decimal(n) + "," + (Decimal(a) + "-" + Decimal(b)) + "}");
  }

  /** A trailing ` ln` turns line numbers on, whatever comes before it. */
  lemma FlagAtEnd(pre: string)
    ensures HasLineNumbersFlag(pre + " ln")
  {
    var meta := pre + " ln";
    assert meta[|meta| - 3] == ' ';
    assert WordAt(meta, |meta| - 2, "ln");
  }

  /** The flag ignores case ... */
  lemma UpperCaseFlagExample(meta: string)
    requires meta == "LN"
    ensures HasLineNumbersFlag(meta)
  {
    assert WordAt(meta, 0, "ln");
  }

  /** ... is read inside the brace group too ... */
  lemma FlagInGroupExample(meta: string)
    requires meta == "{ln}"
    ensures HasLineNumbersFlag(meta)
  {
    assert WordAt(meta, 1, "ln");
  }

  lemma LongFlagExample(meta: string)
    requires meta == "Line-Numbers"
    ensures HasLineNumbersFlag(meta)
  {
    assert WordAt(meta, 0, "line-numbers");
  }

  /** ... and needs a word boundary on both sides. */
  lemma LineNumbersMissedExamples()
    ensures !HasLineNumbersFlag("kiln")
    ensures !HasLineNumbersFlag("ln2")
  {
  }
}
