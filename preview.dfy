/**
 * The live preview of the post-composition screen: seven global replacements turn a
 * Markdown subset into HTML. Headings are recognised at the start of each line (the
 * `m` flag), the spans are greedy and never leave their line, and every newline becomes
 * a `<br />` tag.
 */
module Preview {
  import opened Wrappers
  import opened Text
  import opened Replacement

  /** The `.replace` calls of the preview, in the order they run. */
  const PreviewRules: seq<Rule> := [
    HeadingLine(H3),
    HeadingLine(H2),
    HeadingLine(H1),
    WrapGreedy(DoubleStar),
    WrapGreedy(Star),
    WrapGreedy(Backtick),
    LineBreak
  ]

  /** The first six rules: the ones that work within a line. */
  const LineRules: seq<Rule> := PreviewRules[..6]

  /** What replaces each newline. */
  const BreakTag := "<br />"

  /** What the preview shows for an empty post body. */
  const Placeholder := "暂无内容"

  /** The HTML the preview pane renders for `content`. */
  function MarkdownPreview(content: string): string {
    Apply(PreviewRules, content)
  }

  /** The body handed to the preview: the body itself, or the placeholder when the body is empty. */
  function PreviewSource(content: string): (r: string)
    ensures r != []
    ensures content != [] ==> r == content
  {
    if content == [] then Placeholder else content
  }

  /** Lines joined with a separator between each two of them. */
  function Join(lines: seq<string>, sep: string): string
    decreases |lines|
  {
    if lines == [] then []
    else if |lines| == 1 then lines[0]
    else lines[0] + (sep + Join(lines[1..], sep))
  }

  /** Every line is free of line terminators. */
  predicate AllLineFree(lines: seq<string>) {
    forall i :: 0 <= i < |lines| ==> LineFree(lines[i])
  }

  /** The rules applied to each line on its own. */
  function ApplyEach(rules: seq<Rule>, lines: seq<string>): (r: seq<string>)
    ensures |r| == |lines|
    ensures forall i :: 0 <= i < |lines| ==> r[i] == Apply(rules, lines[i])
    decreases |lines|
  {
    if lines == [] then [] else [Apply(rules, lines[0])] + ApplyEach(rules, lines[1..])
  }

  /** A slice of a line-free text is line-free. */
  lemma LineFreeSlice(s: string, i: nat, j: nat)
    requires LineFree(s) && i <= j <= |s|
    ensures LineFree(s[i..j])
  {
    assert forall k :: 0 <= k < j - i ==> s[i..j][k] == s[i + k];
  }

  /** What a lazy span leaves is part of its line. */
  lemma LazyOutLineFree(d: Delim, line: string)
    requires LineFree(line) && MatchLazy(d, line).Some?
    ensures LineFree(MatchLazy(d, line).value.out)
  {
    var w := DelimText(d);
    var h := MatchLazy(d, line).value;
    assert line[..h.len] == w + h.out + w;
    assert h.out == line[..h.len][|w|..|w| + |h.out|];
    LineFreeSlice(line, 0, h.len);
    LineFreeSlice(line[..h.len], |w|, |w| + |h.out|);
  }

  /** A heading wraps the rest of its line in line-free tags. */
  lemma HeadingOutLineFree(l: Level, line: string, b: bool)
    requires LineFree(line) && MatchHeadingLine(l, line, b).Some?
    ensures LineFree(MatchHeadingLine(l, line, b).value.out)
  {
    LineFreeSlice(line, |Marker(l)|, |line|);
    assert line[|Marker(l)|..|line|] == line[|Marker(l)|..];
    LineFreeConcat(HeadingOpen(l), line[|Marker(l)|..]);
    LineFreeConcat(HeadingOpen(l) + line[|Marker(l)|..], HeadingClose(l));
  }

  /** A greedy span wraps part of its line in line-free tags. */
  lemma GreedyOutLineFree(d: Delim, line: string)
    requires LineFree(line) && MatchGreedy(d, line).Some?
    ensures LineFree(MatchGreedy(d, line).value.out)
  {
    var w := DelimText(d);
    var n := MatchGreedy(d, line).value.len;
    LineFreeSlice(line, |w|, n - |w|);
    LineFreeConcat(SpanOpen(d), line[|w|..n - |w|]);
    LineFreeConcat(SpanOpen(d) + line[|w|..n - |w|], SpanClose(d));
  }

  /** The output of one scan step of a line-local rule on a line-free text is line-free. */
  lemma StepOutLineFree(rule: Rule, s: string, b: bool)
    requires LineLocal(rule) && s != [] && LineFree(s)
    ensures LineFree(Step(rule, s, b).out)
  {
    var line := CurrentLine(s);
    match rule
    case UnwrapLazy(d) =>
      if MatchLazy(d, line).Some? {
        LazyOutLineFree(d, line);
      }
    case HeadingLine(l) =>
      if MatchHeadingLine(l, line, b).Some? {
        HeadingOutLineFree(l, line, b);
      }
    case WrapGreedy(d) =>
      if MatchGreedy(d, line).Some? {
        GreedyOutLineFree(d, line);
      }
  }

  /** A line-local rule turns a line-free text into a line-free text. */
  lemma {:induction false} RewriteKeepsLineFree(rule: Rule, s: string, b: bool)
    requires LineLocal(rule) && LineFree(s)
    ensures LineFree(Rewrite(rule, s, b))
    decreases |s|
  {
    if s != [] {
      var h := Step(rule, s, b);
      StepOutLineFree(rule, s, b);
      LineFreeSuffix(s, h.len);
      RewriteKeepsLineFree(rule, s[h.len..], IsLineTerminator(s[h.len - 1]));
      LineFreeConcat(h.out, Rewrite(rule, s[h.len..], IsLineTerminator(s[h.len - 1])));
    }
  }

  /** Line-local rules applied one after the other keep a text line-free. */
  lemma {:induction false} ApplyKeepsLineFree(rules: seq<Rule>, s: string)
    requires forall i :: 0 <= i < |rules| ==> LineLocal(rules[i])
    requires LineFree(s)
    ensures LineFree(Apply(rules, s))
    decreases |rules|
  {
    if rules != [] {
      RewriteKeepsLineFree(rules[0], s, true);
      ApplyKeepsLineFree(rules[1..], Replace(rules[0], s));
    }
  }

  /** A line-local rule never reacts to the newline between two lines: it is copied and `^` holds after it. */
  lemma NewlineCopied(rule: Rule, t: string, b: bool)
    requires LineLocal(rule)
    ensures Rewrite(rule, "\n" + t, b) == "\n" + Rewrite(rule, t, true)
  {
    assert Trigger(rule) != '\n';
    RewriteCopiesTriggerFree(rule, "\n", t, b);
  }

  /** One rule applied to each line on its own. */
  function ReplaceEach(rule: Rule, lines: seq<string>): (r: seq<string>)
    ensures |r| == |lines|
    ensures forall i :: 0 <= i < |lines| ==> r[i] == Replace(rule, lines[i])
    decreases |lines|
  {
    if lines == [] then [] else [Replace(rule, lines[0])] + ReplaceEach(rule, lines[1..])
  }

  /** Joining two or more lines: the first, the separator, then the join of the rest. */
  lemma JoinCons(lines: seq<string>, sep: string)
    requires |lines| >= 2
    ensures Join(lines, sep) == lines[0] + (sep + Join(lines[1..], sep))
  {
  }

  /** A line-local rule on newline-separated lines rewrites each line on its own. */
  lemma {:induction false} RuleOnLines(rule: Rule, lines: seq<string>)
    requires LineLocal(rule) && AllLineFree(lines)
    ensures Replace(rule, Join(lines, "\n")) == Join(ReplaceEach(rule, lines), "\n")
    decreases |lines|, 1
  {
    if |lines| >= 2 {
      RuleOnLinesStep(rule, lines);
    }
  }

  /** The inductive step of `RuleOnLines`: the first line, the newline, then the rest by induction. */
  lemma {:induction false} RuleOnLinesStep(rule: Rule, lines: seq<string>)
    requires LineLocal(rule) && AllLineFree(lines) && |lines| >= 2
    ensures Replace(rule, Join(lines, "\n")) == Join(ReplaceEach(rule, lines), "\n")
    decreases |lines|, 0
  {
    var rest := Join(lines[1..], "\n");
    var out := ReplaceEach(rule, lines);
    JoinCons(lines, "\n");
    JoinCons(out, "\n");
    RewriteSplitsAtLineEnd(rule, lines[0], "\n" + rest, true);
    NewlineCopied(rule, rest, StateAfter(lines[0], true));
    assert AllLineFree(lines[1..]);
    RuleOnLines(rule, lines[1..]);
    assert out[1..] == ReplaceEach(rule, lines[1..]);
  }

  /** A line-local rule keeps every line line-free. */
  lemma ReplaceEachLineFree(rule: Rule, lines: seq<string>)
    requires LineLocal(rule) && AllLineFree(lines)
    ensures AllLineFree(ReplaceEach(rule, lines))
  {
    forall i | 0 <= i < |lines| ensures LineFree(ReplaceEach(rule, lines)[i]) {
      RewriteKeepsLineFree(rule, lines[i], true);
    }
  }

  /** The first rule on each line, then the rest on each line, is the whole list on each line. */
  lemma ApplyEachCons(rules: seq<Rule>, lines: seq<string>)
    requires rules != []
    ensures ApplyEach(rules[1..], ReplaceEach(rules[0], lines)) == ApplyEach(rules, lines)
  {
  }

  /** Line-local rules on newline-separated lines work on each line on its own. */
  lemma {:induction false} RulesOnLines(rules: seq<Rule>, lines: seq<string>)
    requires forall i :: 0 <= i < |rules| ==> LineLocal(rules[i])
    requires AllLineFree(lines)
    ensures Apply(rules, Join(lines, "\n")) == Join(ApplyEach(rules, lines), "\n")
    decreases |rules|
  {
    if rules == [] {
      assert ApplyEach(rules, lines) == lines;
    } else {
      RuleOnLines(rules[0], lines);
      ReplaceEachLineFree(rules[0], lines);
      RulesOnLines(rules[1..], ReplaceEach(rules[0], lines));
      ApplyEachCons(rules, lines);
    }
  }

  /** The last rule turns each newline between two lines into the break tag. */
  lemma {:induction false} LineBreaksJoin(lines: seq<string>)
    requires AllLineFree(lines)
    ensures Replace(LineBreak, Join(lines, "\n")) == Join(lines, BreakTag)
    decreases |lines|, 1
  {
    if |lines| == 1 {
      LineFreeNoNewline(lines[0]);
      RewriteWithoutTrigger(LineBreak, lines[0], true);
    } else if |lines| >= 2 {
      LineBreaksJoinStep(lines);
    }
  }

  /** The inductive step of `LineBreaksJoin`. */
  lemma {:induction false} LineBreaksJoinStep(lines: seq<string>)
    requires AllLineFree(lines) && |lines| >= 2
    ensures Replace(LineBreak, Join(lines, "\n")) == Join(lines, BreakTag)
    decreases |lines|, 0
  {
    var rest := Join(lines[1..], "\n");
    JoinCons(lines, "\n");
    JoinCons(lines, BreakTag);
    LineFreeNoNewline(lines[0]);
    RewriteCopiesTriggerFree(LineBreak, lines[0], "\n" + rest, true);
    RewriteAtMatch(LineBreak, "\n" + rest, StateAfter(lines[0], true), Hit(1, BreakTag));
    assert ("\n" + rest)[1..] == rest;
    assert AllLineFree(lines[1..]);
    LineBreaksJoin(lines[1..]);
  }

  /** The preview is the line rules followed by the line-break rule. */
  lemma PreviewSplit(content: string)
    ensures MarkdownPreview(content) == Replace(LineBreak, Apply(LineRules, content))
    ensures forall i :: 0 <= i < |LineRules| ==> LineLocal(LineRules[i])
  {
    RulesEndInBreak();
    ApplyLast(LineRules, LineBreak, PreviewRules, content, Apply(LineRules, content));
    LineRulesLocal();
  }

  /** The preview's rule list is the line rules followed by the newline rule. */
  lemma RulesEndInBreak()
    ensures PreviewRules == LineRules + [LineBreak]
  {
  }

  /** Every line rule works within a line. */
  lemma LineRulesLocal()
    ensures forall i :: 0 <= i < |LineRules| ==> LineLocal(LineRules[i])
  {
  }

  /** The preview contains no newline: every one became a break tag. */
  lemma PreviewHasNoNewline(content: string)
    ensures '\n' !in MarkdownPreview(content)
  {
    PreviewSplit(content);
    RewriteLeavesNoNewline(LineBreak, Apply(LineRules, content), true);
  }

  /**
   * The preview of newline-separated lines is the preview of each line on its own,
   * joined with break tags: no heading or span reaches across a newline.
   */
  lemma PreviewByLines(lines: seq<string>)
    requires AllLineFree(lines)
    ensures MarkdownPreview(Join(lines, "\n")) == Join(ApplyEach(LineRules, lines), BreakTag)
  {
    PreviewSplit(Join(lines, "\n"));
    RulesOnLines(LineRules, lines);
    forall i | 0 <= i < |lines| ensures LineFree(ApplyEach(LineRules, lines)[i]) {
      ApplyKeepsLineFree(LineRules, lines[i]);
    }
    LineBreaksJoin(ApplyEach(LineRules, lines));
  }

  // Headings, one line at a time.

  /** The heading marker a line starts with, if any. */
  function LineHeading(line: string): (r: Option<Level>)
    ensures r.Some? ==> OccursAt(line, 0, Marker(r.value))
    ensures r.None? ==> forall l :: !OccursAt(line, 0, Marker(l))
  {
    if OccursAt(line, 0, Marker(H3)) then Some(H3)
    else if OccursAt(line, 0, Marker(H2)) then Some(H2)
    else if OccursAt(line, 0, Marker(H1)) then Some(H1)
    else None
  }

  /** A line wrapped as a heading of level `l`, its marker removed. */
  function WrapHeading(l: Level, line: string): string
    requires OccursAt(line, 0, Marker(l))
  {
    HeadingOpen(l) + line[|Marker(l)|..] + HeadingClose(l)
  }

  /** What the heading rules make of one line: a heading when it starts with a marker, otherwise the line. */
  function Headings(line: string): string {
    match LineHeading(line)
    case Some(l) => WrapHeading(l, line)
    case None => line
  }

  /** Away from a line start the heading rule never matches: a line-free text is copied. */
  lemma {:induction false} HeadingRuleMidLine(l: Level, s: string)
    requires LineFree(s)
    ensures Rewrite(HeadingLine(l), s, false) == s
    decreases |s|
  {
    if s != [] {
      RewriteAtMiss(HeadingLine(l), s, false);
      LineFreeSuffix(s, 1);
      HeadingRuleMidLine(l, s[1..]);
      HeadTail(s);
    }
  }

  /** A line-free text is its own current line. */
  lemma WholeLine(s: string)
    requires LineFree(s)
    ensures CurrentLine(s) == s
  {
    CurrentLineBeforeLineEnd(s, []);
    assert s + [] == s;
  }

  /** One heading rule on one line: the line is wrapped when it starts with the rule's marker and kept otherwise. */
  lemma HeadingRuleOnLine(l: Level, line: string)
    requires LineFree(line)
    ensures Replace(HeadingLine(l), line)
      == if OccursAt(line, 0, Marker(l)) then WrapHeading(l, line) else line
  {
    if line != [] {
      WholeLine(line);
      if OccursAt(line, 0, Marker(l)) {
        RewriteAtMatch(HeadingLine(l), line, true, Hit(|line|, WrapHeading(l, line)));
      } else {
        RewriteAtMiss(HeadingLine(l), line, true);
        LineFreeSuffix(line, 1);
        HeadingRuleMidLine(l, line[1..]);
        HeadTail(line);
      }
    }
  }

  /** A wrapped heading starts with `<`, so no later heading rule matches it, and it stays on its line. */
  lemma WrapHeadingShape(l: Level, line: string)
    requires LineFree(line) && OccursAt(line, 0, Marker(l))
    ensures LineFree(WrapHeading(l, line))
    ensures forall k :: !OccursAt(WrapHeading(l, line), 0, Marker(k))
  {
    HeadingOutLineFree(l, line, true);
    WholeLine(line);
    var r := WrapHeading(l, line);
    assert r[0] == '<';
    forall k ensures !OccursAt(r, 0, Marker(k)) {
      if |Marker(k)| <= |r| {
        assert r[..|Marker(k)|][0] == r[0];
      }
    }
  }

  /**
   * The three heading rules on one line: a line starting `### `, `## ` or `# ` becomes
   * an `h3`, `h2` or `h1` element holding the rest of the line; any other line is kept.
   */
  lemma HeadingRulesOnLine(line: string)
    requires LineFree(line)
    ensures Replace(HeadingLine(H1), Replace(HeadingLine(H2), Replace(HeadingLine(H3), line))) == Headings(line)
    ensures LineFree(Headings(line))
  {
    HeadingRuleOnLine(H3, line);
    var s3 := Replace(HeadingLine(H3), line);
    if LineHeading(line).Some? {
      WrapHeadingShape(LineHeading(line).value, line);
    }
    HeadingRuleOnLine(H2, s3);
    var s2 := Replace(HeadingLine(H2), s3);
    HeadingRuleOnLine(H1, s2);
  }

  // Greedy spans, one line at a time.

  /**
   * What a greedy span rule makes of one line: from the first delimiter to the last
   * delimiter that does not overlap it, the text is wrapped in the span's tags; a line
   * without two such delimiters is kept.
   */
  function Greedy(d: Delim, line: string): string {
    match FirstOccurrence(line, DelimText(d), 0)
    case None => line
    case Some(i) => GreedyFrom(d, line, i)
  }

  /** The same, once the first delimiter of the line is known to start at `i`. */
  function GreedyFrom(d: Delim, line: string, i: nat): string
    requires i <= |line|
  {
    Wrapped(d, line, i, LastOccurrence(line, DelimText(d), i + |DelimText(d)|, |line|))
  }

  /**
   * The same, once the last delimiter after the first one is known too: `last`, or none.
   * The text between the two is wrapped in the span's tags.
   */
  function Wrapped(d: Delim, line: string, i: nat, last: Option<nat>): string
    requires i <= |line|
    requires last.Some? ==> i + |DelimText(d)| <= last.value && last.value + |DelimText(d)| <= |line|
  {
    var w := DelimText(d);
    match last
    case None => line
    case Some(j) => line[..i] + SpanOpen(d) + line[i + |w|..j] + SpanClose(d) + line[j + |w|..]
  }

  /** No delimiter occurrence of `s` is followed by another one that does not overlap it. */
  predicate NoSpan(w: string, s: string) {
    forall k, m :: 0 <= k && k + |w| <= m <= |s| && OccursAt(s, k, w) ==> !OccursAt(s, m, w)
  }

  /** Occurrences in a suffix are occurrences in the whole text, shifted. */
  lemma OccursAtShift(s: string, k: nat, m: nat, w: string)
    requires k <= |s|
    ensures OccursAt(s[k..], m, w) <==> OccursAt(s, k + m, w)
  {
    if k + m + |w| <= |s| {
      assert s[k..][m..m + |w|] == s[k + m..k + m + |w|];
    }
  }

  /** An occurrence of `w` in a prefix of `s` is one in `s`. */
  lemma OccursAtPrefix(s: string, n: nat, k: nat, w: string)
    requires n <= |s|
    ensures OccursAt(s[..n], k, w) ==> OccursAt(s, k, w)
  {
    if k + |w| <= n {
      assert s[..n][k..k + |w|] == s[k..k + |w|];
    }
  }

  /** An occurrence that none after it (ending by `hi`) follows is the one `LastOccurrence` finds. */
  lemma {:induction false} LastOccurrenceIs(s: string, w: string, lo: nat, hi: nat, j: nat)
    requires hi <= |s| && lo <= j && j + |w| <= hi && OccursAt(s, j, w)
    requires forall k :: j < k && k + |w| <= hi ==> !OccursAt(s, k, w)
    ensures LastOccurrence(s, w, lo, hi) == Some(j)
    decreases hi
  {
    if hi - |w| != j {
      LastOccurrenceIs(s, w, lo, hi - 1, j);
    }
  }

  /** A line-free text without a span is copied by the greedy rule. */
  lemma {:induction false} GreedyCopiesNoSpan(d: Delim, s: string, b: bool)
    requires LineFree(s) && NoSpan(DelimText(d), s)
    ensures Rewrite(WrapGreedy(d), s, b) == s
    decreases |s|
  {
    if s != [] {
      var w := DelimText(d);
      WholeLine(s);
      RewriteAtMiss(WrapGreedy(d), s, b);
      LineFreeSuffix(s, 1);
      forall k, m | 0 <= k && k + |w| <= m <= |s[1..]| && OccursAt(s[1..], k, w) ensures !OccursAt(s[1..], m, w) {
        OccursAtShift(s, 1, k, w);
        OccursAtShift(s, 1, m, w);
      }
      GreedyCopiesNoSpan(d, s[1..], false);
      HeadTail(s);
    }
  }

  /** Where no delimiter starts, the greedy rule copies: a prefix without one is copied as it is. */
  lemma {:induction false} GreedyCopiesPrefix(d: Delim, a: string, t: string, b: bool)
    requires forall k :: 0 <= k < |a| ==> !OccursAt(a + t, k, DelimText(d))
    ensures Rewrite(WrapGreedy(d), a + t, b) == a + Rewrite(WrapGreedy(d), t, StateAfter(a, b))
    decreases |a|, 1
  {
    if a == [] {
      assert a + t == t;
    } else {
      GreedyCopiesPrefixStep(d, a, t, b);
    }
  }

  /** The inductive step of `GreedyCopiesPrefix`. */
  lemma {:induction false} GreedyCopiesPrefixStep(d: Delim, a: string, t: string, b: bool)
    requires a != [] && forall k :: 0 <= k < |a| ==> !OccursAt(a + t, k, DelimText(d))
    ensures Rewrite(WrapGreedy(d), a + t, b) == a + Rewrite(WrapGreedy(d), t, StateAfter(a, b))
    decreases |a|, 0
  {
    var w := DelimText(d);
    var s := a + t;
    assert !OccursAt(s, 0, w);
    GreedyMissAt(d, s, b);
    RewriteAtMiss(WrapGreedy(d), s, b);
    ConcatDrop(a, t, 1);
    forall k | 0 <= k < |a[1..]| ensures !OccursAt(a[1..] + t, k, w) {
      OccursAtShift(s, 1, k, w);
    }
    var st := IsLineTerminator(a[0]);
    GreedyCopiesPrefix(d, a[1..], t, st);
    assert StateAfter(a[1..], st) == StateAfter(a, b);
    AppendAssoc([a[0]], a[1..], Rewrite(WrapGreedy(d), t, StateAfter(a, b)));
    HeadTail(a);
  }

  /** Where no delimiter starts, the greedy rule does not match. */
  lemma GreedyMissAt(d: Delim, s: string, b: bool)
    requires s != [] && !OccursAt(s, 0, DelimText(d))
    ensures MatchAt(WrapGreedy(d), s, b).None?
  {
    OccursAtPrefix(s, |CurrentLine(s)|, 0, DelimText(d));
  }

  /** A line-free text starting with a delimiter whose last non-overlapping delimiter is at `j`: the span runs to `j`. */
  lemma GreedyMatchesTo(d: Delim, s: string, j: nat, b: bool)
    requires LineFree(s) && OccursAt(s, 0, DelimText(d))
    requires |DelimText(d)| <= j && OccursAt(s, j, DelimText(d))
    requires forall k :: j < k && k + |DelimText(d)| <= |s| ==> !OccursAt(s, k, DelimText(d))
    ensures MatchAt(WrapGreedy(d), s, b)
      == Some(Hit(j + |DelimText(d)|, SpanOpen(d) + s[|DelimText(d)|..j] + SpanClose(d)))
  {
    GreedyFinds(d, s, j);
    GreedyInWholeLine(d, s, b);
  }

  /** `MatchGreedy` closes the span at the last delimiter of the line. */
  lemma GreedyFinds(d: Delim, s: string, j: nat)
    requires OccursAt(s, 0, DelimText(d))
    requires |DelimText(d)| <= j && OccursAt(s, j, DelimText(d))
    requires forall k :: j < k && k + |DelimText(d)| <= |s| ==> !OccursAt(s, k, DelimText(d))
    ensures MatchGreedy(d, s) == Some(Hit(j + |DelimText(d)|, SpanOpen(d) + s[|DelimText(d)|..j] + SpanClose(d)))
  {
    var w := DelimText(d);
    MatchGreedyCloses(d, s);
    MatchGreedyMisses(d, s);
    var n := MatchGreedy(d, s).value.len;
    assert n - |w| == j;
  }

  /** On a line-free text the greedy rule looks at all of it. */
  lemma GreedyInWholeLine(d: Delim, s: string, b: bool)
    requires LineFree(s)
    ensures MatchAt(WrapGreedy(d), s, b) == MatchGreedy(d, s)
  {
    WholeLine(s);
  }

  /** Nothing after the last delimiter of a line contains a delimiter. */
  lemma AfterLastNoSpan(w: string, line: string, j: nat)
    requires j + |w| <= |line|
    requires forall k :: j < k && k + |w| <= |line| ==> !OccursAt(line, k, w)
    requires w != []
    ensures NoSpan(w, line[j + |w|..])
  {
    var rest := line[j + |w|..];
    forall k | 0 <= k ensures !OccursAt(rest, k, w) {
      OccursAtShift(line, j + |w|, k, w);
    }
  }

  /** Where a greedy span matches in a line-free text, the scan emits it and goes on after it with `rest`. */
  lemma GreedyAtMatch(d: Delim, s: string, b: bool, h: Hit, rest: string)
    requires LineFree(s) && MatchAt(WrapGreedy(d), s, b) == Some(h) && rest == s[h.len..]
    ensures Rewrite(WrapGreedy(d), s, b) == h.out + Rewrite(WrapGreedy(d), rest, false)
  {
    RewriteAtMatch(WrapGreedy(d), s, b, h);
  }

  /**
   * The greedy rule at a span `w mid w` whose closing delimiter is the last one of the
   * line: the tags around `mid`, then the scan goes on after the span.
   */
  lemma GreedySpanStep(d: Delim, s: string, j: nat, b: bool, mid: string, rest: string)
    requires LineFree(s) && OccursAt(s, 0, DelimText(d))
    requires |DelimText(d)| <= j && OccursAt(s, j, DelimText(d))
    requires forall k :: j < k && k + |DelimText(d)| <= |s| ==> !OccursAt(s, k, DelimText(d))
    requires s[|DelimText(d)|..j] == mid && s[j + |DelimText(d)|..] == rest
    ensures Rewrite(WrapGreedy(d), s, b) == SpanOpen(d) + mid + SpanClose(d) + Rewrite(WrapGreedy(d), rest, false)
  {
    var h := Hit(j + |DelimText(d)|, SpanOpen(d) + mid + SpanClose(d));
    GreedyMatchesTo(d, s, j, b);
    GreedyAtMatch(d, s, b, h, rest);
  }

  /** The span conditions of a line, seen from its first delimiter at `i`. */
  lemma SpanFromFirst(w: string, line: string, i: nat, j: nat)
    requires i <= |line| && OccursAt(line, i, w)
    requires i + |w| <= j && OccursAt(line, j, w)
    requires forall k :: j < k && k + |w| <= |line| ==> !OccursAt(line, k, w)
    ensures OccursAt(line[i..], 0, w) && |w| <= j - i && OccursAt(line[i..], j - i, w)
    ensures forall k :: j - i < k && k + |w| <= |line[i..]| ==> !OccursAt(line[i..], k, w)
    ensures line[i..][|w|..j - i] == line[i + |w|..j] && line[i..][j - i + |w|..] == line[j + |w|..]
  {
    OccursAtShift(line, i, 0, w);
    OccursAtShift(line, i, j - i, w);
    forall k | j - i < k && k + |w| <= |line[i..]| ensures !OccursAt(line[i..], k, w) {
      OccursAtShift(line, i, k, w);
    }
  }

  /** After the last delimiter the greedy rule copies the rest of the line. */
  lemma GreedyRestCopied(d: Delim, line: string, j: nat, rest: string)
    requires LineFree(line) && j + |DelimText(d)| <= |line| && rest == line[j + |DelimText(d)|..]
    requires forall k :: j < k && k + |DelimText(d)| <= |line| ==> !OccursAt(line, k, DelimText(d))
    ensures Rewrite(WrapGreedy(d), rest, false) == rest
  {
    AfterLastNoSpan(DelimText(d), line, j);
    LineFreeSuffix(line, j + |DelimText(d)|);
    GreedyCopiesNoSpan(d, rest, false);
  }

  /** From the first delimiter on (`s`): the span up to the last delimiter, then the rest copied. */
  lemma GreedyFromFirst(d: Delim, line: string, i: nat, j: nat, b: bool, s: string, mid: string, rest: string)
    requires LineFree(line) && i <= |line| && OccursAt(line, i, DelimText(d))
    requires i + |DelimText(d)| <= j && OccursAt(line, j, DelimText(d))
    requires forall k :: j < k && k + |DelimText(d)| <= |line| ==> !OccursAt(line, k, DelimText(d))
    requires s == line[i..] && mid == line[i + |DelimText(d)|..j] && rest == line[j + |DelimText(d)|..]
    ensures Rewrite(WrapGreedy(d), s, b) == SpanOpen(d) + mid + SpanClose(d) + rest
  {
    var w := DelimText(d);
    LineFreeSuffix(line, i);
    SpanFromFirst(w, line, i, j);
    GreedySpanStep(d, s, j - i, b, mid, rest);
    GreedyRestCopied(d, line, j, rest);
  }

  /** A line without the delimiter is copied by the greedy rule. */
  lemma GreedyLineWithoutFirst(d: Delim, line: string)
    requires LineFree(line) && FirstOccurrence(line, DelimText(d), 0).None?
    ensures Replace(WrapGreedy(d), line) == line
  {
    FirstOccurrenceNone(line, DelimText(d), 0);
    GreedyCopiesNoSpan(d, line, true);
  }

  /** A line whose first delimiter, at `i`, has no later, non-overlapping partner is copied by the greedy rule. */
  lemma GreedyLineWithoutLast(d: Delim, line: string, i: nat)
    requires LineFree(line) && forall k :: 0 <= k < i ==> !OccursAt(line, k, DelimText(d))
    requires forall k :: i + |DelimText(d)| <= k && k + |DelimText(d)| <= |line| ==> !OccursAt(line, k, DelimText(d))
    ensures Replace(WrapGreedy(d), line) == line
  {
    LoneDelimiterNoSpan(DelimText(d), line, i);
    GreedyCopiesNoSpan(d, line, true);
  }

  /** A text whose only delimiters start at `i` or overlap the one there has no span. */
  lemma LoneDelimiterNoSpan(w: string, line: string, i: nat)
    requires forall k :: 0 <= k < i ==> !OccursAt(line, k, w)
    requires forall k :: i + |w| <= k && k + |w| <= |line| ==> !OccursAt(line, k, w)
    ensures NoSpan(w, line)
  {
    forall k, m | 0 <= k && k + |w| <= m <= |line| && OccursAt(line, k, w)
      ensures !OccursAt(line, m, w)
    {
      assert i <= k;
    }
  }

  /** A line with a span from its first delimiter at `i` to its last delimiter at `j`. */
  lemma GreedyLineWithSpan(d: Delim, line: string, i: nat, j: nat, a: string, s: string, mid: string, rest: string)
    requires LineFree(line) && i <= |line| && OccursAt(line, i, DelimText(d))
    requires forall k :: 0 <= k < i ==> !OccursAt(line, k, DelimText(d))
    requires i + |DelimText(d)| <= j && OccursAt(line, j, DelimText(d))
    requires forall k :: j < k && k + |DelimText(d)| <= |line| ==> !OccursAt(line, k, DelimText(d))
    requires a == line[..i] && s == line[i..]
    requires mid == line[i + |DelimText(d)|..j] && rest == line[j + |DelimText(d)|..]
    ensures Replace(WrapGreedy(d), line) == a + (SpanOpen(d) + mid + SpanClose(d) + rest)
  {
    assert a + s == line;
    GreedyCopiesPrefix(d, a, s, true);
    GreedyFromFirst(d, line, i, j, StateAfter(a, true), s, mid, rest);
  }

  /** Regrouping of a five-part concatenation. */
  lemma Regroup(a: string, b: string, c: string, e: string, f: string)
    ensures a + (b + c + e + f) == a + b + c + e + f
  {
  }

  /** How `Greedy` splits a line that has a span. */
  lemma GreedyShape(d: Delim, line: string, i: nat, j: nat, a: string, mid: string, rest: string)
    requires FirstOccurrence(line, DelimText(d), 0) == Some(i)
    requires LastOccurrence(line, DelimText(d), i + |DelimText(d)|, |line|) == Some(j)
    requires a == line[..i] && mid == line[i + |DelimText(d)|..j] && rest == line[j + |DelimText(d)|..]
    ensures Greedy(d, line) == a + SpanOpen(d) + mid + SpanClose(d) + rest
  {
    GreedyFirst(d, line, i);
    GreedyFromLast(d, line, i, j, a, mid, rest);
  }

  /** `Greedy` continues from the first delimiter of the line. */
  lemma GreedyFirst(d: Delim, line: string, i: nat)
    requires FirstOccurrence(line, DelimText(d), 0) == Some(i)
    ensures i <= |line| && Greedy(d, line) == GreedyFrom(d, line, i)
  {
  }

  /** `GreedyFrom` wraps the text up to the last delimiter. */
  lemma GreedyFromLast(d: Delim, line: string, i: nat, j: nat, a: string, mid: string, rest: string)
    requires i <= |line| && LastOccurrence(line, DelimText(d), i + |DelimText(d)|, |line|) == Some(j)
    requires a == line[..i] && mid == line[i + |DelimText(d)|..j] && rest == line[j + |DelimText(d)|..]
    ensures GreedyFrom(d, line, i) == a + SpanOpen(d) + mid + SpanClose(d) + rest
  {
  }

  /**
   * One greedy span rule on one line: the text from the first delimiter to the last
   * non-overlapping delimiter of the line is wrapped in the span's tags, and nothing else changes.
   */
  lemma GreedyRuleOnLine(d: Delim, line: string)
    requires LineFree(line)
    ensures Replace(WrapGreedy(d), line) == Greedy(d, line)
  {
    match FirstOccurrence(line, DelimText(d), 0)
    case None =>
      GreedyLineWithoutFirst(d, line);
    case Some(i) =>
      GreedyFirst(d, line, i);
      FirstOccurrenceBefore(line, DelimText(d), 0);
      GreedyFromRule(d, line, i);
  }

  /** `GreedyRuleOnLine` from the first delimiter of the line, at `i`, on. */
  lemma GreedyFromRule(d: Delim, line: string, i: nat)
    requires LineFree(line) && i <= |line| && OccursAt(line, i, DelimText(d))
    requires forall k :: 0 <= k < i ==> !OccursAt(line, k, DelimText(d))
    ensures Replace(WrapGreedy(d), line) == GreedyFrom(d, line, i)
  {
    var last := GreedyFromCases(d, line, i);
    GreedyWrapRule(d, line, i, last);
  }

  /** The last delimiter `GreedyFrom` finds after the first one at `i`, if any, with none after it; or none at all. */
  lemma GreedyFromCases(d: Delim, line: string, i: nat) returns (last: Option<nat>)
    requires i <= |line|
    ensures last.None? ==>
      forall k :: i + |DelimText(d)| <= k && k + |DelimText(d)| <= |line| ==> !OccursAt(line, k, DelimText(d))
    ensures last.Some? ==> i + |DelimText(d)| <= last.value && OccursAt(line, last.value, DelimText(d))
    ensures last.Some? ==>
      forall k :: last.value < k && k + |DelimText(d)| <= |line| ==> !OccursAt(line, k, DelimText(d))
    ensures GreedyFrom(d, line, i) == Wrapped(d, line, i, last)
  {
    var w := DelimText(d);
    last := LastOccurrence(line, w, i + |w|, |line|);
    LastOccurrenceAfter(line, w, i + |w|, |line|);
    LastOccurrenceNone(line, w, i + |w|, |line|);
  }

  /** `GreedyRuleOnLine` once both delimiters are known: the first at `i`, the last after it at `last`, or none. */
  lemma GreedyWrapRule(d: Delim, line: string, i: nat, last: Option<nat>)
    requires LineFree(line) && i <= |line| && OccursAt(line, i, DelimText(d))
    requires forall k :: 0 <= k < i ==> !OccursAt(line, k, DelimText(d))
    requires last.None? ==>
      forall k :: i + |DelimText(d)| <= k && k + |DelimText(d)| <= |line| ==> !OccursAt(line, k, DelimText(d))
    requires last.Some? ==> i + |DelimText(d)| <= last.value && OccursAt(line, last.value, DelimText(d))
    requires last.Some? ==>
      forall k :: last.value < k && k + |DelimText(d)| <= |line| ==> !OccursAt(line, k, DelimText(d))
    ensures last.Some? ==> last.value + |DelimText(d)| <= |line|
    ensures Replace(WrapGreedy(d), line) == Wrapped(d, line, i, last)
  {
    var w := DelimText(d);
    match last
    case None =>
      GreedyLineWithoutLast(d, line, i);
    case Some(j) =>
      GreedyLineSpanned(d, line, i, j, line[..i], line[i + |w|..j], line[j + |w|..]);
  }

  /** The spanned case of `GreedyWrapRule`. */
  lemma GreedyLineSpanned(d: Delim, line: string, i: nat, j: nat, a: string, mid: string, rest: string)
    requires LineFree(line) && i <= |line| && OccursAt(line, i, DelimText(d))
    requires forall k :: 0 <= k < i ==> !OccursAt(line, k, DelimText(d))
    requires i + |DelimText(d)| <= j && OccursAt(line, j, DelimText(d))
    requires forall k :: j < k && k + |DelimText(d)| <= |line| ==> !OccursAt(line, k, DelimText(d))
    requires a == line[..i] && mid == line[i + |DelimText(d)|..j] && rest == line[j + |DelimText(d)|..]
    ensures Replace(WrapGreedy(d), line) == a + SpanOpen(d) + mid + SpanClose(d) + rest
  {
    GreedyLineWithSpan(d, line, i, j, a, line[i..], mid, rest);
    Regroup(a, SpanOpen(d), mid, SpanClose(d), rest);
  }

  /** The greedy rule keeps a line a line. */
  lemma GreedyKeepsLineFree(d: Delim, line: string)
    requires LineFree(line)
    ensures LineFree(Greedy(d, line))
  {
    GreedyRuleOnLine(d, line);
    RewriteKeepsLineFree(WrapGreedy(d), line, true);
  }

  /** What the preview makes of one line: its heading, then bold, italic and code spans. */
  function LinePreview(line: string): string {
    Greedy(Backtick, Greedy(Star, Greedy(DoubleStar, Headings(line))))
  }

  /** The six line rules, one stage at a time. */
  lemma LineStages(s0: string, s1: string, s2: string, s3: string, s4: string, s5: string, s6: string)
    requires Replace(HeadingLine(H3), s0) == s1 && Replace(HeadingLine(H2), s1) == s2
    requires Replace(HeadingLine(H1), s2) == s3 && Replace(WrapGreedy(DoubleStar), s3) == s4
    requires Replace(WrapGreedy(Star), s4) == s5 && Replace(WrapGreedy(Backtick), s5) == s6
    ensures Apply(LineRules, s0) == s6
  {
    LineRulesHalves();
    ApplyAppend([HeadingLine(H3), HeadingLine(H2), HeadingLine(H1)],
      [WrapGreedy(DoubleStar), WrapGreedy(Star), WrapGreedy(Backtick)], s0);
    ApplyThree(HeadingLine(H3), HeadingLine(H2), HeadingLine(H1), s0, s1, s2, s3);
    ApplyThree(WrapGreedy(DoubleStar), WrapGreedy(Star), WrapGreedy(Backtick), s3, s4, s5, s6);
  }

  /** The line rules are the three heading rules followed by the three span rules. */
  lemma LineRulesHalves()
    ensures LineRules == [HeadingLine(H3), HeadingLine(H2), HeadingLine(H1)]
      + [WrapGreedy(DoubleStar), WrapGreedy(Star), WrapGreedy(Backtick)]
  {
  }

  /** The line rules turn a line into its `LinePreview`, which is again a line. */
  lemma LinePreviewByRules(line: string)
    requires LineFree(line)
    ensures Apply(LineRules, line) == LinePreview(line)
    ensures LineFree(LinePreview(line))
  {
    HeadingRulesOnLine(line);
    var s3 := Headings(line);
    GreedyRuleOnLine(DoubleStar, s3);
    GreedyKeepsLineFree(DoubleStar, s3);
    var s4 := Greedy(DoubleStar, s3);
    GreedyRuleOnLine(Star, s4);
    GreedyKeepsLineFree(Star, s4);
    var s5 := Greedy(Star, s4);
    GreedyRuleOnLine(Backtick, s5);
    GreedyKeepsLineFree(Backtick, s5);
    var s1 := Replace(HeadingLine(H3), line);
    LineStages(line, s1, Replace(HeadingLine(H2), s1), s3, s4, s5, Greedy(Backtick, s5));
  }

  /** `LinePreview` of every line. */
  function LinePreviews(lines: seq<string>): (r: seq<string>)
    ensures |r| == |lines|
    ensures forall i :: 0 <= i < |lines| ==> r[i] == LinePreview(lines[i])
    decreases |lines|
  {
    if lines == [] then [] else [LinePreview(lines[0])] + LinePreviews(lines[1..])
  }

  /**
   * The preview of a document: each line becomes its `LinePreview` (a heading, then greedy
   * bold, italic and code spans, all within the line), and the lines are joined by break tags.
   */
  lemma PreviewOfLines(lines: seq<string>)
    requires AllLineFree(lines)
    ensures MarkdownPreview(Join(lines, "\n")) == Join(LinePreviews(lines), BreakTag)
  {
    PreviewByLines(lines);
    forall i | 0 <= i < |lines| ensures ApplyEach(LineRules, lines)[i] == LinePreviews(lines)[i] {
      LinePreviewByRules(lines[i]);
    }
    assert ApplyEach(LineRules, lines) == LinePreviews(lines);
  }

  /** Text without heading markers, span delimiters and newlines is shown as it is. */
  lemma PlainTextPreviewed(s: string)
    requires '#' !in s && '*' !in s && '`' !in s && '\n' !in s
    ensures MarkdownPreview(s) == s
  {
    assert forall i :: 0 <= i < |PreviewRules| ==> Trigger(PreviewRules[i]) in "#*`\n";
    ApplyWithoutTriggers(PreviewRules, s);
  }

  /** The preview pane shows the placeholder for an empty body and the body itself otherwise. */
  lemma PlaceholderPreviewed(content: string)
    ensures content == [] ==> MarkdownPreview(PreviewSource(content)) == Placeholder
    ensures content != [] ==> MarkdownPreview(PreviewSource(content)) == MarkdownPreview(content)
  {
    if content == [] {
      PlainTextPreviewed(Placeholder);
    }
  }

  /** A one-character delimiter occurs exactly where that character stands. */
  lemma OccursAtChar(t: string, k: nat, c: char)
    ensures OccursAt(t, k, [c]) <==> k < |t| && t[k] == c
  {
    if k < |t| {
      assert t[k..k + 1] == [t[k]];
    }
  }

  /** Where the first and the last of three stars stand. */
  lemma ThreeStarsFound(p: string, x: string, y: string, q: string, line: string)
    requires '*' !in p && '*' !in x && '*' !in y && '*' !in q
    requires line == p + "*" + x + "*" + y + "*" + q
    ensures FirstOccurrence(line, "*", 0) == Some(|p|)
    ensures LastOccurrence(line, "*", |p| + 1, |line|) == Some(|p| + |x| + |y| + 2)
  {
    var i := |p|;
    var j := |p| + |x| + |y| + 2;
    assert line[i] == '*' && line[j] == '*';
    OccursAtChar(line, i, '*');
    OccursAtChar(line, j, '*');
    forall k | 0 <= k < i ensures !OccursAt(line, k, "*") {
      OccursAtChar(line, k, '*');
      assert line[k] == p[k];
    }
    FirstOccurrenceIs(line, "*", 0, i);
    forall k | j < k && k + 1 <= |line| ensures !OccursAt(line, k, "*") {
      OccursAtChar(line, k, '*');
      assert line[k] == q[k - j - 1];
    }
    LastOccurrenceIs(line, "*", i + 1, |line|, j);
  }

  /** The pieces around the first and the last of three stars. */
  lemma ThreeStarsPieces(p: string, x: string, y: string, q: string, line: string)
    requires line == p + "*" + x + "*" + y + "*" + q
    ensures line[..|p|] == p && line[|p| + 1..|p| + |x| + |y| + 2] == x + "*" + y
    ensures line[|p| + |x| + |y| + 3..] == q
  {
  }

  /**
   * Greedy spans reach to the last delimiter of the line: with three single stars the
   * italic span runs from the first to the third and the middle star is kept inside it.
   */
  lemma ItalicSpanIsGreedy(p: string, x: string, y: string, q: string, line: string)
    requires '*' !in p && '*' !in x && '*' !in y && '*' !in q
    requires line == p + "*" + x + "*" + y + "*" + q
    ensures Greedy(Star, line) == p + "<em>" + x + "*" + y + "</em>" + q
  {
    ThreeStarsFound(p, x, y, q, line);
    ThreeStarsPieces(p, x, y, q, line);
    GreedyShape(Star, line, |p|, |p| + |x| + |y| + 2, p, x + "*" + y, q);
  }

  /** Four or more `#` are no heading marker: such a line is shown as it is. */
  lemma FourHashesNoHeading(rest: string, line: string)
    requires line == "####" + rest
    ensures Headings(line) == line
  {
    assert line[3] == '#';
    assert !OccursAt(line, 0, Marker(H3)) by { assert line[..4][3] == '#'; }
    assert !OccursAt(line, 0, Marker(H2)) by { assert line[..3][2] == '#'; }
    assert !OccursAt(line, 0, Marker(H1)) by { assert line[..2][1] == '#'; }
  }

  /** The only line terminator `s` contains, if any, is the newline. */
  predicate NewlineEnded(s: string) {
    forall i :: 0 <= i < |s| ==> s[i] == '\n' || !IsLineTerminator(s[i])
  }

  /** `s.split('\n')`: the lines of `s`, at least one. */
  function SplitLines(s: string): (r: seq<string>)
    ensures |r| >= 1
    decreases |s|
  {
    match FirstIndex(s, '\n')
    case None => [s]
    case Some(i) => [s[..i]] + SplitLines(s[i + 1..])
  }

  /** Joining the lines with newlines gives the text back. */
  lemma {:induction false} SplitLinesJoin(s: string)
    ensures Join(SplitLines(s), "\n") == s
    decreases |s|
  {
    match FirstIndex(s, '\n')
    case None =>
    case Some(i) =>
      var rest := s[i + 1..];
      assert SplitLines(s) == [s[..i]] + SplitLines(rest);
      SplitLinesJoin(rest);
      JoinFront(s[..i], SplitLines(rest), SplitLines(s));
      AroundNewline(s, i, s[..i], rest);
  }

  /** A text is what comes before its newline at `i`, the newline, and what follows. */
  lemma AroundNewline(s: string, i: nat, a: string, rest: string)
    requires i < |s| && s[i] == '\n' && a == s[..i] && rest == s[i + 1..]
    ensures s == a + ("\n" + rest)
  {
  }

  /** Joining a first line in front of further lines. */
  lemma JoinFront(a: string, tail: seq<string>, lines: seq<string>)
    requires |tail| >= 1 && lines == [a] + tail
    ensures Join(lines, "\n") == a + ("\n" + Join(tail, "\n"))
  {
    assert lines[1..] == tail;
    JoinCons(lines, "\n");
  }

  /** When the newline is the only terminator, the pieces are lines. */
  lemma {:induction false} SplitLinesFree(s: string)
    requires NewlineEnded(s)
    ensures AllLineFree(SplitLines(s))
    decreases |s|
  {
    match FirstIndex(s, '\n')
    case None =>
      assert forall i :: 0 <= i < |s| ==> s[i] in s;
    case Some(i) =>
      var rest := s[i + 1..];
      assert forall k :: 0 <= k < |rest| ==> rest[k] == s[i + 1 + k];
      SplitLinesFree(rest);
      assert SplitLines(s)[1..] == SplitLines(rest);
      assert forall k :: 0 <= k < i ==> s[..i][k] in s[..i] && s[..i][k] == s[k];
  }

  /**
   * The preview of any post body whose only line terminator is the newline: its lines,
   * each turned into its `LinePreview`, joined by break tags.
   */
  lemma PreviewOfContent(content: string)
    requires NewlineEnded(content)
    ensures MarkdownPreview(content) == Join(LinePreviews(SplitLines(content)), BreakTag)
  {
    SplitLinesJoin(content);
    SplitLinesFree(content);
    PreviewOfLines(SplitLines(content));
  }
}
