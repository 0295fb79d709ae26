/**
 * The regular-expression replacements of the post-composition screen, written out as
 * hand-made scanners. Each `Rule` is one `String.prototype.replace(re, replacement)`
 * call with a global regular expression; `Rewrite` is JavaScript's global replace:
 * try a match at the current position, emit the replacement and continue after the
 * match, or emit one character and move on.
 */
module Replacement {
  import opened Wrappers
  import opened Text

  /** The delimiters of inline spans: `**`, `*` and a backtick. */
  datatype Delim = DoubleStar | Star | Backtick

  function DelimText(d: Delim): string {
    match d
    case DoubleStar => "**"
    case Star => "*"
    case Backtick => "`"
  }

  /** Preview heading levels 1 to 3. */
  datatype Level = H1 | H2 | H3

  /** The line prefix that introduces a heading of the given level. */
  function Marker(l: Level): string {
    match l
    case H1 => "# "
    case H2 => "## "
    case H3 => "### "
  }

  function HeadingOpen(l: Level): string {
    match l
    case H1 => "<h1>"
    case H2 => "<h2>"
    case H3 => "<h3>"
  }

  function HeadingClose(l: Level): string {
    match l
    case H1 => "</h1>"
    case H2 => "</h2>"
    case H3 => "</h3>"
  }

  function SpanOpen(d: Delim): string {
    match d
    case DoubleStar => "<strong>"
    case Star => "<em>"
    case Backtick => "<code>"
  }

  function SpanClose(d: Delim): string {
    match d
    case DoubleStar => "</strong>"
    case Star => "</em>"
    case Backtick => "</code>"
  }

  /** One global replacement. The comment on each alternative gives the regular expression and its replacement. */
  datatype Rule =
    | StripHeadingMarker      // /#{1,6}\s+/g             -> ''
    | UnwrapLazy(d: Delim)    // /D(.*?)D/g               -> '$1'
    | UnwrapLink              // /\[([^\]]+)\]\([^)]+\)/g  -> '$1'
    | DropImage               // /!\[([^\]]*)\]\([^)]+\)/g -> ''
    | CollapseNewlines        // /\n+/g                   -> ' '
    | HeadingLine(l: Level)   // /^M(.*$)/gim             -> '<hN>$1</hN>'
    | WrapGreedy(d: Delim)    // /D(.*)D/gim              -> '<tag>$1</tag>'
    | LineBreak               // /\n/gim                  -> '<br />'

  /** The character every match of the rule starts with. */
  function Trigger(rule: Rule): char {
    match rule
    case StripHeadingMarker => '#'
    case UnwrapLazy(d) => DelimText(d)[0]
    case UnwrapLink => '['
    case DropImage => '!'
    case CollapseNewlines => '\n'
    case HeadingLine(_) => '#'
    case WrapGreedy(d) => DelimText(d)[0]
    case LineBreak => '\n'
  }

  /** A match at the head of the remaining input: how many characters it consumes and what replaces them. */
  datatype Hit = Hit(len: nat, out: string)

  /** `w` occurs in `t` starting at index `k`. */
  predicate OccursAt(t: string, k: nat, w: string) {
    k + |w| <= |t| && t[k..k + |w|] == w
  }

  /** Number of `c` characters `s` starts with. */
  function Run(s: string, c: char): (n: nat)
    ensures n <= |s|
    ensures forall k :: 0 <= k < n ==> s[k] == c
    ensures n < |s| ==> s[n] != c
  {
    if s == [] || s[0] != c then 0 else 1 + Run(s[1..], c)
  }

  /**
   * The current line: the prefix of `s` up to its first line terminator. This is all
   * that `.*` can cover and where `$` holds under the `m` flag.
   */
  function CurrentLine(s: string): (line: string)
    ensures |line| <= |s| && line == s[..|line|] && LineFree(line)
    ensures |line| < |s| ==> IsLineTerminator(s[|line|])
  {
    if s == [] || IsLineTerminator(s[0]) then []
    else
      var rest := CurrentLine(s[1..]);
      assert [s[0]] + rest == s[..|rest| + 1];
      [s[0]] + rest
  }

  /** Index of the first `c` in `t`. */
  function FirstIndex(t: string, c: char): (r: Option<nat>)
    ensures r.Some? ==> r.value < |t| && t[r.value] == c && c !in t[..r.value]
    ensures r.None? ==> c !in t
  {
    if t == [] then None
    else if t[0] == c then Some(0)
    else match FirstIndex(t[1..], c)
      case Some(j) =>
        assert t[..j + 1] == [t[0]] + t[1..][..j];
        Some(j + 1)
      case None => None
  }

  /**
   * Where the lazy `(.*?)D` closes: the first occurrence of `w` in `t` that starts at
   * `from` or later.
   */
  function FirstOccurrence(t: string, w: string, from: nat): (r: Option<nat>)
    ensures r.Some? ==> from <= r.value && OccursAt(t, r.value, w)
    decreases |t| - from
  {
    if |t| < from + |w| then None
    else if OccursAt(t, from, w) then Some(from)
    else FirstOccurrence(t, w, from + 1)
  }

  /**
   * Where the greedy `(.*)D` gives back to let `D` match: the last occurrence of `w`
   * in `s` that starts at `lo` or later and ends by `hi`.
   */
  function LastOccurrence(s: string, w: string, lo: nat, hi: nat): (r: Option<nat>)
    requires hi <= |s|
    ensures r.Some? ==> lo <= r.value && r.value + |w| <= hi && OccursAt(s, r.value, w)
    decreases hi
  {
    if hi < lo + |w| then None
    else if OccursAt(s, hi - |w|, w) then Some(hi - |w|)
    else if hi == 0 then None
    else LastOccurrence(s, w, lo, hi - 1)
  }

  /** `#{1,6}` can stop after `k` hashes and let `\s` match next. */
  predicate HashMarkAt(s: string, k: nat) {
    k < |s| && (forall j :: 0 <= j < k ==> s[j] == '#') && IsSpace(s[k])
  }

  /** `/#{1,6}\s+/` at the head of `s`: one to six hashes, then all the whitespace that follows. */
  function MatchHeadingMarker(s: string): (r: Option<Hit>)
    ensures r.Some? <==> exists k :: 1 <= k <= 6 && HashMarkAt(s, k)
    ensures r.Some? ==> r.value.out == [] && 2 <= r.value.len <= |s| && s[0] == '#'
    ensures r.Some? ==> forall j :: 0 <= j < r.value.len ==> s[j] == '#' || IsSpace(s[j])
    ensures r.Some? && r.value.len < |s| ==> !IsSpace(s[r.value.len])
    ensures r.Some? ==> exists k :: 1 <= k <= 6 && HashMarkAt(s, k) && r.value.len == k + LeadingSpaces(s[k..])
  {
    var k := if Run(s, '#') < 6 then Run(s, '#') else 6;
    if 1 <= k < |s| && IsSpace(s[k]) then
      assert HashMarkAt(s, k);
      Some(Hit(k + LeadingSpaces(s[k..]), []))
    else
      None
  }

  /** The hash count a heading marker stops at is unique, so it fixes how much the marker consumes. */
  lemma HeadingMarkerLength(s: string, k: nat)
    requires 1 <= k <= 6 && HashMarkAt(s, k)
    ensures MatchHeadingMarker(s) == Some(Hit(k + LeadingSpaces(s[k..]), []))
  {
    var r := MatchHeadingMarker(s);
    var k' :| 1 <= k' <= 6 && HashMarkAt(s, k') && r.value.len == k' + LeadingSpaces(s[k'..]);
  }

  /**
   * `/D(.*?)D/` at the head of `line`: the shortest span between two delimiters; the
   * text between them replaces it.
   */
  function MatchLazy(d: Delim, line: string): (r: Option<Hit>)
    ensures r.Some? ==> var w := DelimText(d); var n := r.value.len;
      |w| + |w| <= n <= |line| && line[0] == w[0] && line[..n] == w + r.value.out + w
  {
    var w := DelimText(d);
    if OccursAt(line, 0, w) then
      match FirstOccurrence(line, w, |w|)
      case Some(j) =>
        SpanSplit(line, w, j);
        Some(Hit(j + |w|, line[|w|..j]))
      case None => None
    else None
  }

  /** A text that has `w` at 0 and at `j` starts with `w`, the text between and `w`. */
  lemma SpanSplit(line: string, w: string, j: nat)
    requires OccursAt(line, 0, w) && |w| <= j && OccursAt(line, j, w)
    ensures line[..j + |w|] == w + line[|w|..j] + w
  {
  }

  /**
   * `/\[([^\]]+)\]\([^)]+\)/` at the head of `s`: `[`, a non-empty text up to the first
   * `]`, then `(`, a non-empty target up to the first `)`, then `)`. The text replaces it.
   */
  function MatchLink(s: string): (r: Option<Hit>)
    ensures r.Some? ==> var t := r.value.out; var n := r.value.len;
      t != [] && |t| + 4 < n <= |s| && t == s[1..|t| + 1] && ']' !in t
      && s[0] == '[' && s[|t| + 1] == ']' && s[|t| + 2] == '(' && s[n - 1] == ')'
      && ')' !in s[|t| + 3..n - 1]
  {
    if s == [] || s[0] != '[' then None
    else match FirstIndex(s[1..], ']')
      case None => None
      case Some(j) =>
        if j == 0 || j + 2 >= |s| || s[j + 2] != '(' then None
        else match FirstIndex(s[j + 3..], ')')
          case None => None
          case Some(k) =>
            if k == 0 then None else Some(Hit(j + k + 4, s[1..j + 1]))
  }

  /** Where `s` opens with `[`, its first `]` is at `j + 1` and then `(` and a first `)` at `j + k + 3` follow, the link pattern matches. */
  lemma LinkAt(s: string, j: nat, k: nat)
    requires |s| > 0 && s[0] == '[' && FirstIndex(s[1..], ']') == Some(j)
    requires 0 < j && j + 2 < |s| && s[j + 2] == '(' && FirstIndex(s[j + 3..], ')') == Some(k) && 0 < k
    ensures MatchLink(s) == Some(Hit(j + k + 4, s[1..j + 1]))
  {
  }

  /**
   * `/!\[([^\]]*)\]\([^)]+\)/` at the head of `s`: `![`, an alt text (possibly empty)
   * up to the first `]`, then `(`, a non-empty target up to the first `)`, then `)`.
   * Nothing replaces it. The alt text's length `a` is where the first `]` after `![` stands.
   */
  function MatchImage(s: string): (r: Option<Hit>)
    ensures r.Some? ==> var n := r.value.len;
      r.value.out == [] && 5 < n <= |s| && s[0] == '!' && s[1] == '[' && s[n - 1] == ')'
    ensures r.Some? ==>
      FirstIndex(s[2..], ']').Some? &&
      var n := r.value.len; var a := FirstIndex(s[2..], ']').value;
      a + 5 < n && ']' !in s[2..a + 2] && s[a + 2] == ']' && s[a + 3] == '(' && ')' !in s[a + 4..n - 1]
  {
    if |s| < 2 || s[0] != '!' || s[1] != '[' then None
    else match FirstIndex(s[2..], ']')
      case None => None
      case Some(j) =>
        if j + 3 >= |s| || s[j + 3] != '(' then None
        else match FirstIndex(s[j + 4..], ')')
          case None => None
          case Some(k) =>
            if k == 0 then None else Some(Hit(j + k + 5, []))
  }

  /**
   * `/^M(.*$)/m` at the head of `line`: a heading marker where `^` holds; the whole
   * line is consumed and its text after the marker is wrapped.
   */
  function MatchHeadingLine(l: Level, line: string, atLineStart: bool): (r: Option<Hit>)
    ensures r.Some? <==> atLineStart && OccursAt(line, 0, Marker(l))
    ensures r.Some? ==>
      |Marker(l)| <= r.value.len == |line| && line[0] == '#'
      && r.value.out == HeadingOpen(l) + line[|Marker(l)|..] + HeadingClose(l)
  {
    var m := Marker(l);
    if atLineStart && OccursAt(line, 0, m) then
      Some(Hit(|line|, HeadingOpen(l) + line[|m|..] + HeadingClose(l)))
    else None
  }

  /**
   * `/D(.*)D/` at the head of `line`: the longest span, closed by the last delimiter
   * of the line; the text between them is wrapped.
   */
  function MatchGreedy(d: Delim, line: string): (r: Option<Hit>)
    ensures r.Some? ==> var w := DelimText(d); var n := r.value.len;
      |w| + |w| <= n <= |line| && line[0] == w[0] && OccursAt(line, 0, w) && OccursAt(line, n - |w|, w)
      && r.value.out == SpanOpen(d) + line[|w|..n - |w|] + SpanClose(d)
  {
    var w := DelimText(d);
    if OccursAt(line, 0, w) then
      match LastOccurrence(line, w, |w|, |line|)
      case Some(j) => Some(Hit(j + |w|, SpanOpen(d) + line[|w|..j] + SpanClose(d)))
      case None => None
    else None
  }

  /** A lazy span closes at the first delimiter after the opening one: none starts inside it. */
  lemma MatchLazyShortest(d: Delim, line: string)
    ensures MatchLazy(d, line).Some? ==> var w := DelimText(d);
      forall k :: |w| <= k < MatchLazy(d, line).value.len - |w| ==> !OccursAt(line, k, w)
  {
    FirstOccurrenceBefore(line, DelimText(d), |DelimText(d)|);
  }

  /** A lazy span is missing only when the line does not start with the delimiter or has no second one. */
  lemma MatchLazyMisses(d: Delim, line: string)
    ensures MatchLazy(d, line).None? ==> var w := DelimText(d);
      !OccursAt(line, 0, w) || forall k :: |w| <= k ==> !OccursAt(line, k, w)
  {
    FirstOccurrenceNone(line, DelimText(d), |DelimText(d)|);
  }

  /** A greedy span closes at the last delimiter of the line: no delimiter starts after its closing one. */
  lemma MatchGreedyCloses(d: Delim, line: string)
    ensures MatchGreedy(d, line).Some? ==> var w := DelimText(d);
      forall k :: MatchGreedy(d, line).value.len - |w| < k ==> !OccursAt(line, k, w)
  {
    LastOccurrenceAfter(line, DelimText(d), |DelimText(d)|, |line|);
  }

  /** A greedy span is missing only when the line does not start with the delimiter or has no second one. */
  lemma MatchGreedyMisses(d: Delim, line: string)
    ensures MatchGreedy(d, line).None? ==> var w := DelimText(d);
      !OccursAt(line, 0, w) || forall k :: |w| <= k ==> !OccursAt(line, k, w)
  {
    LastOccurrenceNone(line, DelimText(d), |DelimText(d)|, |line|);
  }

  /** A lazy span, looked for in the current line of `s` only. */
  function MatchLazyInLine(d: Delim, s: string): (r: Option<Hit>)
    ensures r.Some? ==> 0 < r.value.len <= |s| && s[0] == DelimText(d)[0]
  {
    var line := CurrentLine(s);
    var r := MatchLazy(d, line);
    LazyHitHead(d, s, line, r);
    r
  }

  /** A hit found in the current line lies within `s` and starts with its first character. */
  lemma LazyHitHead(d: Delim, s: string, line: string, r: Option<Hit>)
    requires line == CurrentLine(s) && r == MatchLazy(d, line)
    ensures r.Some? ==> 0 < r.value.len <= |s| && s[0] == DelimText(d)[0]
  {
    if r.Some? {
      assert 0 < r.value.len <= |line| && line[0] == DelimText(d)[0];
      LineHead(s, line, r.value.len, DelimText(d)[0]);
    }
  }

  /** A heading line, looked for in the current line of `s` only. */
  function MatchHeadingInLine(l: Level, s: string, atLineStart: bool): (r: Option<Hit>)
    ensures r.Some? ==> 0 < r.value.len <= |s| && s[0] == '#'
  {
    var line := CurrentLine(s);
    var r := MatchHeadingLine(l, line, atLineStart);
    HeadingHitHead(l, atLineStart, s, line, r);
    r
  }

  /** A hit found in the current line lies within `s` and starts with its first character. */
  lemma HeadingHitHead(l: Level, atLineStart: bool, s: string, line: string, r: Option<Hit>)
    requires line == CurrentLine(s) && r == MatchHeadingLine(l, line, atLineStart)
    ensures r.Some? ==> 0 < r.value.len <= |s| && s[0] == '#'
  {
    if r.Some? {
      assert 0 < r.value.len <= |line| && line[0] == '#';
      LineHead(s, line, r.value.len, '#');
    }
  }

  /** A greedy span, looked for in the current line of `s` only. */
  function MatchGreedyInLine(d: Delim, s: string): (r: Option<Hit>)
    ensures r.Some? ==> 0 < r.value.len <= |s| && s[0] == DelimText(d)[0]
  {
    var line := CurrentLine(s);
    var r := MatchGreedy(d, line);
    GreedyHitHead(d, s, line, r);
    r
  }

  /** A hit found in the current line lies within `s` and starts with its first character. */
  lemma GreedyHitHead(d: Delim, s: string, line: string, r: Option<Hit>)
    requires line == CurrentLine(s) && r == MatchGreedy(d, line)
    ensures r.Some? ==> 0 < r.value.len <= |s| && s[0] == DelimText(d)[0]
  {
    if r.Some? {
      assert 0 < r.value.len <= |line| && line[0] == DelimText(d)[0];
      LineHead(s, line, r.value.len, DelimText(d)[0]);
    }
  }

  /** A non-empty prefix of the current line starts where `s` does. */
  lemma LineHead(s: string, line: string, n: nat, c: char)
    requires line == CurrentLine(s) && 0 < n <= |line| && line[0] == c
    ensures 0 < n <= |s| && s[0] == c
  {
  }

  /**
   * A match of `rule` at the head of `s`; `atLineStart` says whether `^` holds there.
   * The rules built on `.` see only the current line.
   */
  function MatchAt(rule: Rule, s: string, atLineStart: bool): (r: Option<Hit>)
    ensures r.Some? ==> 0 < r.value.len <= |s| && s[0] == Trigger(rule)
  {
    match rule
    case StripHeadingMarker => MatchHeadingMarker(s)
    case UnwrapLazy(d) => MatchLazyInLine(d, s)
    case UnwrapLink => MatchLink(s)
    case DropImage => MatchImage(s)
    case CollapseNewlines =>
      if s != [] && s[0] == '\n' then Some(Hit(Run(s, '\n'), " ")) else None
    case HeadingLine(l) => MatchHeadingInLine(l, s, atLineStart)
    case WrapGreedy(d) => MatchGreedyInLine(d, s)
    case LineBreak =>
      if s != [] && s[0] == '\n' then Some(Hit(1, "<br />")) else None
  }

  /** One step of the scan: the match at the head of `s`, or the head character copied. */
  function Step(rule: Rule, s: string, atLineStart: bool): (h: Hit)
    requires s != []
    ensures 0 < h.len <= |s|
    ensures s[0] != Trigger(rule) ==> h == Hit(1, [s[0]])
  {
    match MatchAt(rule, s, atLineStart)
    case Some(h) => h
    case None => Hit(1, [s[0]])
  }

  /** `s.replace(re, replacement)` with a global `re`, scanning from a position where `^` holds iff `atLineStart`. */
  function Rewrite(rule: Rule, s: string, atLineStart: bool): string
    decreases |s|
  {
    if s == [] then []
    else
      var h := Step(rule, s, atLineStart);
      h.out + Rewrite(rule, s[h.len..], IsLineTerminator(s[h.len - 1]))
  }

  /** One `.replace` call on a whole string. */
  function Replace(rule: Rule, s: string): string {
    Rewrite(rule, s, true)
  }

  /** A chain of `.replace` calls, applied in order. */
  function Apply(rules: seq<Rule>, s: string): string
    decreases |rules|
  {
    if rules == [] then s else Apply(rules[1..], Replace(rules[0], s))
  }

  /** Three rules applied one after the other. */
  lemma ApplyThree(r1: Rule, r2: Rule, r3: Rule, s0: string, s1: string, s2: string, s3: string)
    requires Replace(r1, s0) == s1 && Replace(r2, s1) == s2 && Replace(r3, s2) == s3
    ensures Apply([r1, r2, r3], s0) == s3
  {
    assert [r1, r2, r3][1..] == [r2, r3] && [r2, r3][1..] == [r3] && [r3][1..] == [];
    calc {
      Apply([r1, r2, r3], s0);
      Apply([r2, r3], s1);
      Apply([r3], s2);
      Apply([], s3);
    }
  }

  /** Applying two rule lists one after the other is applying their concatenation. */
  lemma {:induction false} ApplyAppend(rs: seq<Rule>, qs: seq<Rule>, s: string)
    ensures Apply(rs + qs, s) == Apply(qs, Apply(rs, s))
    decreases |rs|
  {
    if rs == [] {
      assert rs + qs == qs;
    } else {
      assert (rs + qs)[0] == rs[0] && (rs + qs)[1..] == rs[1..] + qs;
      ApplyAppend(rs[1..], qs, Replace(rs[0], s));
    }
  }

  /** A list that ends in `last` applies the rest first and `last` to the result. */
  lemma ApplyLast(rs: seq<Rule>, last: Rule, all: seq<Rule>, s: string, mid: string)
    requires all == rs + [last] && mid == Apply(rs, s)
    ensures Apply(all, s) == Replace(last, mid)
  {
    ApplyAppend(rs, [last], s);
    assert [last][1..] == [];
  }

  /** A rule list none of whose triggers occur in `s` leaves `s` unchanged. */
  lemma {:induction false} ApplyWithoutTriggers(rules: seq<Rule>, s: string)
    requires forall i :: 0 <= i < |rules| ==> Trigger(rules[i]) !in s
    ensures Apply(rules, s) == s
    decreases |rules|
  {
    if rules != [] {
      RewriteWithoutTrigger(rules[0], s, true);
      ApplyWithoutTriggers(rules[1..], s);
    }
  }

  /** The `^` state after scanning past `a`. */
  function StateAfter(a: string, atLineStart: bool): bool {
    if a == [] then atLineStart else IsLineTerminator(a[|a| - 1])
  }

  /** A stretch without the rule's trigger character is copied unchanged. */
  lemma {:induction false} RewriteCopiesTriggerFree(rule: Rule, a: string, t: string, b: bool)
    requires Trigger(rule) !in a
    ensures Rewrite(rule, a + t, b) == a + Rewrite(rule, t, StateAfter(a, b))
    decreases |a|, 1
  {
    if a == [] {
      assert a + t == t;
    } else {
      CopiesAfterStep(rule, a, t, b);
    }
  }

  /** The inductive step of `RewriteCopiesTriggerFree`: the head character is copied, the rest by induction. */
  lemma {:induction false} CopiesAfterStep(rule: Rule, a: string, t: string, b: bool)
    requires a != [] && Trigger(rule) !in a
    ensures Rewrite(rule, a + t, b) == a + Rewrite(rule, t, StateAfter(a, b))
    decreases |a|, 0
  {
    ConcatDrop(a, t, 1);
    assert a[0] in a;
    assert Step(rule, a + t, b) == Hit(1, [a[0]]);
    var st := IsLineTerminator(a[0]);
    RewriteCopiesTriggerFree(rule, a[1..], t, st);
    assert StateAfter(a[1..], st) == StateAfter(a, b);
    AppendAssoc([a[0]], a[1..], Rewrite(rule, t, StateAfter(a, b)));
    HeadTail(a);
  }

  /** Text without the rule's trigger character passes through the rule unchanged. */
  lemma RewriteWithoutTrigger(rule: Rule, s: string, b: bool)
    requires Trigger(rule) !in s
    ensures Rewrite(rule, s, b) == s
  {
    RewriteCopiesTriggerFree(rule, s, [], b);
    assert s + [] == s;
  }

  /** After `CollapseNewlines` or `LineBreak`, no newline is left. */
  lemma {:induction false} RewriteLeavesNoNewline(rule: Rule, s: string, b: bool)
    requires rule == CollapseNewlines || rule == LineBreak
    ensures '\n' !in Rewrite(rule, s, b)
    decreases |s|
  {
    if s != [] {
      var h := Step(rule, s, b);
      RewriteLeavesNoNewline(rule, s[h.len..], IsLineTerminator(s[h.len - 1]));
    }
  }

  /** The rules whose matches never reach past the end of the current line. */
  predicate LineLocal(rule: Rule) {
    rule.UnwrapLazy? || rule.HeadingLine? || rule.WrapGreedy?
  }

  /** A line-free stretch followed by a line end is the current line, whatever comes after. */
  lemma CurrentLineBeforeLineEnd(a: string, t: string)
    requires LineFree(a) && (t == [] || IsLineTerminator(t[0]))
    ensures CurrentLine(a + t) == a
  {
    var s := a + t;
    var line := CurrentLine(s);
    assert forall i :: 0 <= i < |a| ==> s[i] == a[i] && a[i] in a;
    assert forall i :: 0 <= i < |line| ==> line[i] in line;
    assert |a| < |s| ==> s[|a|] == t[0];
    assert s[..|a|] == a;
  }

  /** For a line-local rule, a line-free prefix matches the same way whatever follows its line end. */
  lemma MatchAtBeforeLineEnd(rule: Rule, a: string, t: string, b: bool)
    requires LineLocal(rule) && LineFree(a) && t != [] && IsLineTerminator(t[0])
    ensures MatchAt(rule, a + t, b) == MatchAt(rule, a, b)
  {
    CurrentLineBeforeLineEnd(a, t);
    CurrentLineBeforeLineEnd(a, []);
    assert a + [] == a;
  }

  /** For a line-local rule, one scan step over a line-free prefix ignores what follows its line end. */
  lemma StepBeforeLineEnd(rule: Rule, a: string, t: string, b: bool)
    requires LineLocal(rule) && a != [] && LineFree(a) && t != [] && IsLineTerminator(t[0])
    ensures Step(rule, a + t, b) == Step(rule, a, b)
  {
    MatchAtBeforeLineEnd(rule, a, t, b);
    assert (a + t)[0] == a[0];
  }

  /** Dropping a non-empty prefix of `a` from `a + t`. */
  lemma ConcatDrop(a: string, t: string, n: nat)
    requires 0 < n <= |a|
    ensures (a + t)[n..] == a[n..] + t && (a + t)[0] == a[0] && (a + t)[n - 1] == a[n - 1]
  {
  }

  /** A suffix of a line-free string is line-free. */
  lemma LineFreeSuffix(a: string, n: nat)
    requires LineFree(a) && n <= |a|
    ensures LineFree(a[n..])
  {
    assert forall i :: 0 <= i < |a| - n ==> a[n..][i] == a[n + i];
  }

  /**
   * Line-local rules never reach across a line terminator: rewriting a line-free stretch
   * followed by a line end is rewriting the stretch, then the rest.
   */
  lemma {:induction false} RewriteSplitsAtLineEnd(rule: Rule, a: string, t: string, b: bool)
    requires LineLocal(rule) && LineFree(a) && t != [] && IsLineTerminator(t[0])
    ensures Rewrite(rule, a + t, b) == Rewrite(rule, a, b) + Rewrite(rule, t, StateAfter(a, b))
    decreases |a|, 1
  {
    if a == [] {
      assert a + t == t;
      assert Rewrite(rule, a, b) == [];
    } else {
      RewriteSplitsAfterStep(rule, a, t, b);
    }
  }

  /** The inductive step of `RewriteSplitsAtLineEnd`: the first scan step is the same, the rest splits by induction. */
  lemma {:induction false} RewriteSplitsAfterStep(rule: Rule, a: string, t: string, b: bool)
    requires LineLocal(rule) && a != [] && LineFree(a) && t != [] && IsLineTerminator(t[0])
    ensures Rewrite(rule, a + t, b) == Rewrite(rule, a, b) + Rewrite(rule, t, StateAfter(a, b))
    decreases |a|, 0
  {
    StepBeforeLineEnd(rule, a, t, b);
    var h := Step(rule, a, b);
    var n := h.len;
    ConcatDrop(a, t, n);
    LineFreeSuffix(a, n);
    var st := IsLineTerminator(a[n - 1]);
    RewriteSplitsAtLineEnd(rule, a[n..], t, st);
    assert StateAfter(a[n..], st) == StateAfter(a, b);
    AppendAssoc(h.out, Rewrite(rule, a[n..], st), Rewrite(rule, t, StateAfter(a, b)));
  }

  /** Helpers for sequence equalities that are expensive in larger proof contexts. */
  lemma HeadTail(a: string)
    requires a != []
    ensures [a[0]] + a[1..] == a
  {
  }

  lemma AppendAssoc(x: string, y: string, z: string)
    ensures x + (y + z) == (x + y) + z
  {
  }

  /** Where the rule matches, the scan emits the replacement and resumes after the match. */
  lemma RewriteAtMatch(rule: Rule, s: string, b: bool, h: Hit)
    requires MatchAt(rule, s, b) == Some(h)
    ensures Rewrite(rule, s, b) == h.out + Rewrite(rule, s[h.len..], IsLineTerminator(s[h.len - 1]))
  {
    StepAtMatch(rule, s, b, h);
    RewriteByStep(rule, s, b, h);
  }

  /** A match is the step the scan takes. */
  lemma StepAtMatch(rule: Rule, s: string, b: bool, h: Hit)
    requires MatchAt(rule, s, b) == Some(h)
    ensures s != [] && Step(rule, s, b) == h
  {
  }

  /** The scan emits what its step produces and resumes after it. */
  lemma RewriteByStep(rule: Rule, s: string, b: bool, h: Hit)
    requires s != [] && Step(rule, s, b) == h
    ensures Rewrite(rule, s, b) == h.out + Rewrite(rule, s[h.len..], IsLineTerminator(s[h.len - 1]))
  {
  }

  /** Where the rule does not match, the scan copies the head character. */
  lemma RewriteAtMiss(rule: Rule, s: string, b: bool)
    requires s != [] && MatchAt(rule, s, b).None?
    ensures Rewrite(rule, s, b) == [s[0]] + Rewrite(rule, s[1..], IsLineTerminator(s[0]))
  {
    assert Step(rule, s, b) == Hit(1, [s[0]]);
    RewriteByStep(rule, s, b, Hit(1, [s[0]]));
  }

  /** The current line reaches at least past the first `n` characters when none of them ends a line. */
  lemma CurrentLineCovers(s: string, n: nat)
    requires n <= |s| && forall i :: 0 <= i < n ==> !IsLineTerminator(s[i])
    ensures n <= |CurrentLine(s)|
  {
  }

  /** An occurrence that nothing before it (from `from` on) precedes is the one `FirstOccurrence` finds. */
  lemma {:induction false} FirstOccurrenceIs(t: string, w: string, from: nat, j: nat)
    requires from <= j && OccursAt(t, j, w)
    requires forall k :: from <= k < j ==> !OccursAt(t, k, w)
    ensures FirstOccurrence(t, w, from) == Some(j)
    decreases j - from
  {
    if from < j {
      FirstOccurrenceIs(t, w, from + 1, j);
    }
  }

  /** No occurrence that ends by `hi` starts after the last one `LastOccurrence` finds. */
  lemma {:induction false} LastOccurrenceAfter(s: string, w: string, lo: nat, hi: nat)
    requires hi <= |s|
    ensures LastOccurrence(s, w, lo, hi).Some? ==>
      forall k :: LastOccurrence(s, w, lo, hi).value < k && k + |w| <= hi ==> !OccursAt(s, k, w)
    decreases hi
  {
    if lo + |w| <= hi && !OccursAt(s, hi - |w|, w) && hi != 0 {
      LastOccurrenceAfter(s, w, lo, hi - 1);
    }
  }

  /** Where `LastOccurrence` finds nothing, no occurrence between `lo` and `hi` exists. */
  lemma {:induction false} LastOccurrenceNone(s: string, w: string, lo: nat, hi: nat)
    requires hi <= |s|
    ensures LastOccurrence(s, w, lo, hi).None? ==> forall k :: lo <= k && k + |w| <= hi ==> !OccursAt(s, k, w)
    decreases hi
  {
    if lo + |w| <= hi && !OccursAt(s, hi - |w|, w) && hi != 0 {
      LastOccurrenceNone(s, w, lo, hi - 1);
    }
  }

  /** Where `FirstOccurrence` finds nothing, no occurrence starts at `from` or later. */
  lemma {:induction false} FirstOccurrenceNone(t: string, w: string, from: nat)
    ensures FirstOccurrence(t, w, from).None? ==> forall k :: from <= k ==> !OccursAt(t, k, w)
    decreases |t| - from
  {
    if from + |w| <= |t| && !OccursAt(t, from, w) {
      FirstOccurrenceNone(t, w, from + 1);
    }
  }

  /** No occurrence starts between `from` and the first one `FirstOccurrence` finds. */
  lemma {:induction false} FirstOccurrenceBefore(t: string, w: string, from: nat)
    ensures FirstOccurrence(t, w, from).Some? ==>
      forall k :: from <= k < FirstOccurrence(t, w, from).value ==> !OccursAt(t, k, w)
    decreases |t| - from
  {
    if from + |w| <= |t| && !OccursAt(t, from, w) {
      FirstOccurrenceBefore(t, w, from + 1);
    }
  }

  /** An occurrence of a non-empty `w` starts with `w`'s first character. */
  lemma OccursAtHead(t: string, k: nat, w: string)
    requires w != [] && OccursAt(t, k, w)
    ensures t[k] == w[0]
  {
    assert t[k..k + |w|][0] == t[k];
  }

  /** The position of a `c` with no `c` before it is the one `FirstIndex` finds. */
  lemma FirstIndexIs(t: string, c: char, j: nat)
    requires j < |t| && t[j] == c && c !in t[..j]
    ensures FirstIndex(t, c) == Some(j)
  {
    assert t[j] in t;
    assert forall i :: 0 <= i < j ==> t[..j][i] == t[i];
    assert forall m :: j < m <= |t| ==> t[..m][j] == c;
  }
}
