/**
 * The automatic excerpt of the post-composition screen: the Markdown content is reduced
 * to plain text by a chain of global replacements and a trim, then cut to 150
 * characters with `...` appended when anything was cut.
 */
module Excerpt {
  import opened Wrappers
  import opened Text
  import opened Replacement

  /** How many characters of plain text an automatic excerpt keeps. */
  const ExcerptLength := 150

  /** What is appended when the plain text was cut. */
  const Ellipsis := "..."

  /** The `.replace` calls that remove Markdown markup, in the order they run. */
  const MarkupRules: seq<Rule> := [
    StripHeadingMarker,
    UnwrapLazy(DoubleStar),
    UnwrapLazy(Star),
    UnwrapLazy(Backtick),
    UnwrapLink,
    DropImage
  ]

  /** The markup removal, then every run of newlines turned into one space, then `.trim()`. */
  function PlainText(content: string): string {
    Trim(Replace(CollapseNewlines, Apply(MarkupRules, content)))
  }

  /** The first 150 characters of the plain text, followed by an ellipsis only when something was cut off. */
  function Truncate(plain: string): (r: string)
    ensures |plain| <= ExcerptLength ==> r == plain
    ensures |plain| > ExcerptLength ==>
      |r| == ExcerptLength + |Ellipsis| && r[..ExcerptLength] == plain[..ExcerptLength] && r[ExcerptLength..] == Ellipsis
  {
    var cut := if |plain| < ExcerptLength then |plain| else ExcerptLength;
    plain[..cut] + (if |plain| > ExcerptLength then Ellipsis else "")
  }

  /**
   * The excerpt after `generateExcerpt`: generated only when the content is non-empty
   * and the excerpt is still empty; otherwise the excerpt is kept as it is.
   */
  function AutoExcerpt(content: string, excerpt: string): string {
    if content != [] && excerpt == [] then Truncate(PlainText(content)) else excerpt
  }

  /** The plain text has no newline and no whitespace at either end. */
  lemma PlainTextIsFlat(content: string)
    ensures '\n' !in PlainText(content)
    ensures PlainText(content) != [] ==>
      !IsSpace(PlainText(content)[0]) && !IsSpace(PlainText(content)[|PlainText(content)| - 1])
  {
    var marked := Apply(MarkupRules, content);
    var collapsed := Replace(CollapseNewlines, marked);
    RewriteLeavesNoNewline(CollapseNewlines, marked, true);
    TrimmedFlat(collapsed, PlainText(content));
  }

  /** Trimming text without a newline gives text without a newline and without whitespace at either end. */
  lemma TrimmedFlat(s: string, r: string)
    requires '\n' !in s && r == Trim(s)
    ensures '\n' !in r && (r != [] ==> !IsSpace(r[0]) && !IsSpace(r[|r| - 1]))
  {
    TrimIntroducesNothing(s, '\n');
  }

  /** A user excerpt is never overwritten, and nothing is generated from empty content. */
  lemma AutoExcerptKeepsUserExcerpt(content: string, excerpt: string)
    requires content == [] || excerpt != []
    ensures AutoExcerpt(content, excerpt) == excerpt
  {
  }

  /**
   * A generated excerpt has at most 153 characters and no newline; it is the whole
   * plain text when that fits, and its first 150 characters followed by `...` otherwise.
   */
  lemma GeneratedExcerptShape(content: string)
    requires content != []
    ensures var r := AutoExcerpt(content, []); var p := PlainText(content);
      |r| <= ExcerptLength + |Ellipsis| && '\n' !in r
      && (|p| <= ExcerptLength ==> r == p)
      && (|p| > ExcerptLength ==> r == p[..ExcerptLength] + Ellipsis)
  {
    var p := PlainText(content);
    PlainTextIsFlat(content);
    if |p| > ExcerptLength {
      var r := Truncate(p);
      assert r == r[..ExcerptLength] + r[ExcerptLength..];
      assert '\n' !in p[..ExcerptLength] by {
        forall c | c in p[..ExcerptLength] ensures c != '\n' { }
      }
    }
  }

  /** `# ` at the head of the input, followed by text without `#` that does not start with whitespace, loses its marker and nothing else. */
  lemma StripsLeadingMarker(r: string, b: bool)
    requires '#' !in r && (r == [] || !IsSpace(r[0]))
    ensures Rewrite(StripHeadingMarker, "# " + r, b) == r
  {
    var s := "# " + r;
    assert s[0] == '#' && s[1] == ' ';
    assert Run(s, '#') == 1;
    assert s[1..][1..] == r;
    assert LeadingSpaces(s[1..]) == 1;
    RewriteAtMatch(StripHeadingMarker, s, b, Hit(2, []));
    assert s[2..] == r;
    RewriteWithoutTrigger(StripHeadingMarker, r, false);
  }

  /** On a line that starts `D x D` with no delimiter character in `x`, the lazy span closes right after `x`. */
  lemma LazyMatchesSpan(d: Delim, x: string, line: string)
    requires DelimText(d)[0] !in x
    requires 2 * |DelimText(d)| + |x| <= |line|
    requires line[..2 * |DelimText(d)| + |x|] == DelimText(d) + x + DelimText(d)
    ensures MatchLazy(d, line) == Some(Hit(2 * |DelimText(d)| + |x|, x))
  {
    var w := DelimText(d);
    assert w != [];
    SpanPieces(line, w, x, |w| + |x| + |w|);
    NoInnerDelimiter(line, w, x);
    FirstOccurrenceIs(line, w, |w|, |w| + |x|);
    LazyFound(d, line, w, |w| + |x|);
  }

  /** The three pieces of a text that starts with `w + x + w`. */
  lemma SpanPieces(line: string, w: string, x: string, n: nat)
    requires n == |w| + |x| + |w| <= |line| && line[..n] == w + x + w
    ensures line[..|w|] == w && line[|w|..|w| + |x|] == x && line[|w| + |x|..n] == w
  {
    var p := line[..n];
    assert p[..|w|] == w && p[|w|..|w| + |x|] == x && p[|w| + |x|..] == w;
    assert line[..|w|] == p[..|w|];
    assert line[|w|..|w| + |x|] == p[|w|..|w| + |x|];
    assert line[|w| + |x|..n] == p[|w| + |x|..];
  }

  /** No occurrence of `w` starts inside a piece `x` that lacks `w`'s first character. */
  lemma NoInnerDelimiter(line: string, w: string, x: string)
    requires w != [] && w[0] !in x && |w| + |x| <= |line| && line[|w|..|w| + |x|] == x
    ensures forall k :: |w| <= k < |w| + |x| ==> !OccursAt(line, k, w)
  {
    forall k | |w| <= k < |w| + |x| ensures !OccursAt(line, k, w) {
      assert line[k] == x[k - |w|];
      if OccursAt(line, k, w) {
        OccursAtHead(line, k, w);
      }
    }
  }

  /** `MatchLazy` closes at the first delimiter after the opening one. */
  lemma LazyFound(d: Delim, line: string, w: string, j: nat)
    requires w == DelimText(d) && OccursAt(line, 0, w) && FirstOccurrence(line, w, |w|) == Some(j)
    ensures MatchLazy(d, line) == Some(Hit(j + |w|, line[|w|..j]))
  {
  }

  /** The first `n` characters of `w + x + w + c` are line-free when `w` and `x` are. */
  lemma SpanLineFree(w: string, x: string, c: string)
    requires LineFree(w) && LineFree(x)
    ensures var s := w + x + w + c; forall i :: 0 <= i < 2 * |w| + |x| ==> !IsLineTerminator(s[i])
  {
    var s := w + x + w + c;
    assert forall i :: 0 <= i < |w| ==> s[i] == w[i] && s[|w| + |x| + i] == w[i];
    assert forall i :: 0 <= i < |x| ==> s[|w| + i] == x[i];
  }

  /**
   * A lazy span `D x D` whose inner text has no delimiter character and stays on one
   * line is replaced by its inner text; the scan resumes right after the closing delimiter.
   */
  lemma LazyUnwrapsSpan(d: Delim, x: string, c: string, b: bool)
    requires DelimText(d)[0] !in x && LineFree(x)
    ensures var w := DelimText(d);
      Rewrite(UnwrapLazy(d), w + x + w + c, b) == x + Rewrite(UnwrapLazy(d), c, false)
  {
    var w := DelimText(d);
    var s := w + x + w + c;
    var n := 2 * |w| + |x|;
    assert |w| <= 2 && w[|w| - 1] == w[0] && LineFree(w);
    SpanLineFree(w, x, c);
    CurrentLineCovers(s, n);
    var line := CurrentLine(s);
    assert line[..n] == s[..n] == w + x + w;
    LazyMatchesSpan(d, x, line);
    RewriteAtMatch(UnwrapLazy(d), s, b, Hit(n, x));
    assert s[n..] == c;
  }

  /** A `*` that is not followed by another `*` does not open a `**` span and is copied. */
  lemma LoneStarCopied(r: string, b: bool)
    requires r == [] || r[0] != '*'
    ensures Rewrite(UnwrapLazy(DoubleStar), "*" + r, b) == "*" + Rewrite(UnwrapLazy(DoubleStar), r, false)
  {
    var s := "*" + r;
    var line := CurrentLine(s);
    assert !OccursAt(line, 0, "**") by {
      assert 2 <= |line| ==> line[..2][1] == s[1];
    }
    RewriteAtMiss(UnwrapLazy(DoubleStar), s, b);
    assert s[1..] == r;
  }

  /** A run of newlines becomes one space; the scan resumes after the run. */
  lemma NewlineRunCollapsed(k: nat, c: string, b: bool)
    requires 0 < k && (c == [] || c[0] != '\n')
    ensures Rewrite(CollapseNewlines, seq(k, _ => '\n') + c, b) == " " + Rewrite(CollapseNewlines, c, true)
  {
    var s := seq(k, _ => '\n') + c;
    assert s[0] == '\n';
    assert forall i :: 0 <= i < k ==> s[i] == '\n';
    assert k < |s| ==> s[k] == c[0];
    assert Run(s, '\n') == k;
    RewriteAtMatch(CollapseNewlines, s, b, Hit(k, " "));
    assert s[k..] == c;
  }

  /** Where the first `]` and the first `)` of `[t](u)` followed by anything stand. */
  lemma LinkDelimiters(t: string, u: string, c: string, s: string, inner: string, target: string)
    requires t != [] && ']' !in t && u != [] && ')' !in u
    requires s == "[" + t + "](" + u + ")" + c && inner == s[1..] && target == s[|t| + 3..]
    ensures FirstIndex(inner, ']') == Some(|t|) && FirstIndex(target, ')') == Some(|u|)
    ensures s[0] == '[' && s[|t| + 2] == '(' && s[1..|t| + 1] == t
  {
    assert inner[..|t|] == t && inner[|t|] == ']';
    FirstIndexIs(inner, ']', |t|);
    assert target[..|u|] == u && target[|u|] == ')';
    FirstIndexIs(target, ')', |u|);
  }

  /** `[t](u)` followed by anything: the link pattern matches exactly `[t](u)` and captures `t`. */
  lemma LinkMatches(t: string, u: string, c: string)
    requires t != [] && ']' !in t && u != [] && ')' !in u
    ensures MatchLink("[" + t + "](" + u + ")" + c) == Some(Hit(|t| + |u| + 4, t))
  {
    var s := "[" + t + "](" + u + ")" + c;
    LinkDelimiters(t, u, c, s, s[1..], s[|t| + 3..]);
    LinkAt(s, |t|, |u|);
  }

  /** A link `[t](u)` with non-empty text and target is replaced by its text. */
  lemma LinkUnwrapped(t: string, u: string, c: string, b: bool)
    requires t != [] && ']' !in t && u != [] && ')' !in u
    ensures Rewrite(UnwrapLink, "[" + t + "](" + u + ")" + c, b) == t + Rewrite(UnwrapLink, c, false)
  {
    var s := "[" + t + "](" + u + ")" + c;
    var n := |t| + |u| + 4;
    LinkMatches(t, u, c);
    RewriteAtMatch(UnwrapLink, s, b, Hit(n, t));
    assert s[n - 1] == ')' && s[n..] == c;
  }

  /** Where the first `]` and the first `)` of `![a](u)` followed by anything stand. */
  lemma ImageDelimiters(a: string, u: string, c: string, s: string, alt: string, target: string)
    requires ']' !in a && u != [] && ')' !in u
    requires s == "![" + a + "](" + u + ")" + c && alt == s[2..] && target == s[|a| + 4..]
    ensures FirstIndex(alt, ']') == Some(|a|) && FirstIndex(target, ')') == Some(|u|)
    ensures s[0] == '!' && s[1] == '[' && s[|a| + 3] == '('
  {
    assert alt[..|a|] == a && alt[|a|] == ']';
    FirstIndexIs(alt, ']', |a|);
    assert target[..|u|] == u && target[|u|] == ')';
    FirstIndexIs(target, ')', |u|);
  }

  /** `![a](u)` followed by anything: the image pattern matches exactly `![a](u)`. */
  lemma ImageMatches(a: string, u: string, c: string)
    requires ']' !in a && u != [] && ')' !in u
    ensures MatchImage("![" + a + "](" + u + ")" + c) == Some(Hit(|a| + |u| + 5, []))
  {
    var s := "![" + a + "](" + u + ")" + c;
    ImageDelimiters(a, u, c, s, s[2..], s[|a| + 4..]);
  }

  /** An image `![a](u)` with a target is removed, whatever its alt text. */
  lemma ImageDropped(a: string, u: string, c: string, b: bool)
    requires ']' !in a && u != [] && ')' !in u
    ensures Rewrite(DropImage, "![" + a + "](" + u + ")" + c, b) == Rewrite(DropImage, c, false)
  {
    var s := "![" + a + "](" + u + ")" + c;
    var n := |a| + |u| + 5;
    ImageMatches(a, u, c);
    RewriteAtMatch(DropImage, s, b, Hit(n, []));
    assert s[n - 1] == ')' && s[n..] == c;
  }

  /** Text without `#`, `*` and backtick passes the first four markup rules unchanged. */
  lemma SpanRulesKeep(x: string)
    requires '#' !in x && '*' !in x && '`' !in x
    ensures Apply(MarkupRules[..4], x) == x
  {
    assert forall i :: 0 <= i < |MarkupRules[..4]| ==> Trigger(MarkupRules[..4][i]) in "#*`";
    ApplyWithoutTriggers(MarkupRules[..4], x);
  }

  /** The markup chain is its heading and span rules followed by its link and image rules. */
  lemma MarkupSplit(s: string)
    ensures Apply(MarkupRules, s) == Apply(MarkupRules[4..], Apply(MarkupRules[..4], s))
  {
    assert MarkupRules[..4] + MarkupRules[4..] == MarkupRules;
    ApplyAppend(MarkupRules[..4], MarkupRules[4..], s);
  }

  /** The link and image rules run one after the other. */
  lemma LinkRulesStages(s4: string, s5: string, s6: string)
    requires Replace(UnwrapLink, s4) == s5 && Replace(DropImage, s5) == s6
    ensures Apply(MarkupRules[4..], s4) == s6
  {
    assert MarkupRules[4..] == [UnwrapLink, DropImage];
    assert Apply([DropImage], s5) == Apply([], s6);
  }
}
