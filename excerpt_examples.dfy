/**
 * What the excerpt pipeline does to typical Markdown: plain prose, links, images, a
 * `#` inside a word, and a heading followed by emphasised text.
 */
module ExcerptExamples {
  import opened Wrappers
  import opened Text
  import opened Replacement
  import opened Excerpt

  /** Text that no excerpt rule reacts to: no `#`, `*`, backtick, `[`, `!` and no line end. */
  predicate Inert(s: string) {
    forall i :: 0 <= i < |s| ==> s[i] !in "#*`[!" && !IsLineTerminator(s[i])
  }

  /** Text with no whitespace at either end, which `.trim()` keeps as it is. */
  predicate Trimmed(s: string) {
    s != [] ==> !IsSpace(s[0]) && !IsSpace(s[|s| - 1])
  }

  lemma InertAvoids(s: string)
    requires Inert(s)
    ensures '#' !in s && '*' !in s && '`' !in s && '[' !in s && '!' !in s && '\n' !in s && LineFree(s)
  {
    forall c | c in s ensures c !in "#*`[!\n" {
      var i :| 0 <= i < |s| && s[i] == c;
    }
  }

  /** The markup rules react only to `#`, `*`, backtick, `[` and `!`. */
  lemma MarkupTriggers()
    ensures forall i :: 0 <= i < |MarkupRules| ==> Trigger(MarkupRules[i]) in "#*`[!"
  {
  }

  /** Inert text passes every rule of the pipeline from the `k`-th on unchanged. */
  lemma InertPassesRules(s: string, k: nat)
    requires Inert(s) && k <= |MarkupRules|
    ensures Apply(MarkupRules[k..], s) == s && Replace(CollapseNewlines, s) == s
  {
    InertAvoids(s);
    MarkupTriggers();
    assert forall i :: 0 <= i < |MarkupRules[k..]| ==> MarkupRules[k..][i] == MarkupRules[k + i];
    ApplyWithoutTriggers(MarkupRules[k..], s);
    RewriteWithoutTrigger(CollapseNewlines, s, true);
  }

  lemma InertConcat(a: string, b: string)
    requires Inert(a) && Inert(b)
    ensures Inert(a + b)
  {
    assert forall i :: |a| <= i < |a + b| ==> (a + b)[i] == b[i - |a|];
  }

  /** Plain prose is its own plain text. */
  lemma PlainProseKept(s: string)
    requires Inert(s) && Trimmed(s)
    ensures PlainText(s) == s
  {
    InertPassesRules(s, 0);
    assert MarkupRules[0..] == MarkupRules;
    TrimKeepsTrimmed(s);
  }

  /** Plain prose longer than 150 characters gives its first 150 characters and `...`: 153 in all. */
  lemma LongProseExcerpt(s: string)
    requires Inert(s) && Trimmed(s) && |s| > ExcerptLength
    ensures AutoExcerpt(s, []) == s[..ExcerptLength] + Ellipsis
    ensures |AutoExcerpt(s, [])| == 153
  {
    PlainProseKept(s);
  }

  /** The first markup rule, then the rest. */
  lemma MarkupHead(s: string)
    ensures Apply(MarkupRules, s) == Apply(MarkupRules[1..], Replace(StripHeadingMarker, s))
  {
  }

  lemma MarkerInsideWordStripped(w: string, r: string)
    requires '#' !in w && '#' !in r && r != [] && !IsSpace(r[0])
    ensures Replace(StripHeadingMarker, w + "# " + r) == w + r
  {
    assert w + "# " + r == w + ("# " + r);
    RewriteCopiesTriggerFree(StripHeadingMarker, w, "# " + r, true);
    StripsLeadingMarker(r, StateAfter(w, true));
  }

  /**
   * The heading rule is not anchored to a line start: a `#` followed by whitespace is
   * removed inside a word too, so `"C# rocks"` becomes `"Crocks"`.
   */
  lemma HashInsideWordRemoved(w: string, r: string)
    requires Inert(w) && Inert(r) && w != [] && r != []
    requires !IsSpace(w[0]) && !IsSpace(r[0]) && !IsSpace(r[|r| - 1])
    ensures PlainText(w + "# " + r) == w + r
  {
    InertAvoids(w);
    InertAvoids(r);
    MarkerInsideWordStripped(w, r);
    MarkupHead(w + "# " + r);
    InertConcat(w, r);
    InertPassesRules(w + r, 1);
    TrimKeepsTrimmed(w + r);
  }

  /** The characters of `[t](u)` outside `t` and `u`. */
  lemma LinkChars(t: string, u: string, c: char)
    requires c !in t && c !in u && c !in "[]()"
    ensures c !in "[" + t + "](" + u + ")"
  {
  }

  /** A link whose text and target are inert: only the link rule changes it. */
  lemma LinkStage(t: string, u: string)
    requires Inert(t) && Inert(u) && t != [] && u != [] && ']' !in t && ')' !in u
    ensures Replace(UnwrapLink, "[" + t + "](" + u + ")") == t && Replace(DropImage, t) == t
  {
    InertAvoids(t);
    LinkUnwrapped(t, u, [], true);
    assert "[" + t + "](" + u + ")" + [] == "[" + t + "](" + u + ")";
    assert t + [] == t;
    RewriteWithoutTrigger(DropImage, t, true);
  }

  /** A link `[t](u)` leaves only its text `t` in the plain text. */
  lemma LinkBecomesText(t: string, u: string)
    requires Inert(t) && Inert(u) && t != [] && u != [] && ']' !in t && ')' !in u && Trimmed(t)
    ensures PlainText("[" + t + "](" + u + ")") == t
  {
    var link := "[" + t + "](" + u + ")";
    InertAvoids(t);
    InertAvoids(u);
    LinkChars(t, u, '#');
    LinkChars(t, u, '*');
    LinkChars(t, u, '`');
    SpanRulesKeep(link);
    LinkStage(t, u);
    LinkRulesStages(link, t, t);
    MarkupSplit(link);
    InertPassesRules(t, 0);
    TrimKeepsTrimmed(t);
  }

  /** The characters of `![a](u)` outside `a` and `u`. */
  lemma ImageChars(a: string, u: string, c: char)
    requires c !in a && c !in u && c !in "![]()"
    ensures c !in "![" + a + "](" + u + ")"
  {
  }

  /** The link rule never reacts to `!`: it copies it and goes on. */
  lemma BangCopiedByLinkRule(x: string, b: bool)
    ensures Rewrite(UnwrapLink, "!" + x, b) == "!" + Rewrite(UnwrapLink, x, false)
  {
    RewriteCopiesTriggerFree(UnwrapLink, "!", x, b);
  }

  /** `[` directly followed by `]` starts no link (`[^\]]+` needs a character): both are copied. */
  lemma EmptyLinkTextKept(r: string, b: bool)
    requires r != [] && r[0] == ']' && '[' !in r
    ensures Rewrite(UnwrapLink, "[" + r, b) == "[" + r
  {
    var s := "[" + r;
    assert s[1..] == r;
    FirstIndexIs(r, ']', 0);
    RewriteAtMiss(UnwrapLink, s, b);
    RewriteWithoutTrigger(UnwrapLink, r, false);
  }

  /** `!` not followed by `[` starts no image: it is copied. */
  lemma BangWithoutImageKept(a: string, b: bool)
    requires '!' !in a && (a == [] || a[0] != '[')
    ensures Rewrite(DropImage, "!" + a, b) == "!" + a
  {
    var s := "!" + a;
    assert s[1..] == a;
    assert |s| >= 2 ==> s[1] == a[0];
    RewriteAtMiss(DropImage, s, b);
    RewriteWithoutTrigger(DropImage, a, false);
  }

  /** An image without alt text passes the link rule untouched. */
  lemma EmptyAltImageLinkStage(u: string)
    requires Inert(u) && u != [] && ')' !in u
    ensures Replace(UnwrapLink, "![](" + u + ")") == "![](" + u + ")"
  {
    InertAvoids(u);
    assert "![](" + u + ")" == "!" + ("[" + ("](" + u + ")"));
    BangCopiedByLinkRule("[" + ("](" + u + ")"), true);
    assert '[' !in "](" + u + ")";
    EmptyLinkTextKept("](" + u + ")", false);
  }

  /** An image without alt text is removed by the image rule. */
  lemma EmptyAltImageDropStage(u: string)
    requires u != [] && ')' !in u
    ensures Replace(DropImage, "![](" + u + ")") == []
  {
    EmptyAltShape(u);
    ImageDropped([], u, [], true);
  }

  /** `![](u)` is the image form with empty alt text and nothing after it. */
  lemma EmptyAltShape(u: string)
    ensures "![" + [] + "](" + u + ")" + [] == "![](" + u + ")"
  {
  }

  /** An image `![](u)` without alt text leaves nothing in the plain text. */
  lemma EmptyAltImageVanishes(u: string)
    requires Inert(u) && u != [] && ')' !in u
    ensures PlainText("![](" + u + ")") == []
  {
    var img := "![](" + u + ")";
    InertAvoids(u);
    assert "![" + [] + "](" + u + ")" == img;
    ImageChars([], u, '#');
    ImageChars([], u, '*');
    ImageChars([], u, '`');
    SpanRulesKeep(img);
    EmptyAltImageLinkStage(u);
    EmptyAltImageDropStage(u);
    LinkRulesStages(img, img, []);
    MarkupSplit(img);
  }

  /**
   * An image with alt text: the link rule runs first and turns its `[a](u)` part into
   * `a`, so the image rule no longer sees an image and `!a` is left.
   */
  lemma AltImageStage(a: string, u: string)
    requires Inert(a) && Inert(u) && a != [] && u != [] && ']' !in a && ')' !in u
    ensures Replace(UnwrapLink, "![" + a + "](" + u + ")") == "!" + a
    ensures Replace(DropImage, "!" + a) == "!" + a
  {
    InertAvoids(a);
    assert "![" + a + "](" + u + ")" == "!" + ("[" + a + "](" + u + ")" + []);
    BangCopiedByLinkRule("[" + a + "](" + u + ")" + [], true);
    LinkUnwrapped(a, u, [], false);
    assert a + [] == a;
    BangWithoutImageKept(a, true);
  }

  /** The markup rules turn `![a](u)` into `!a`. */
  lemma AltImageMarkup(a: string, u: string)
    requires Inert(a) && Inert(u) && a != [] && u != [] && ']' !in a && ')' !in u
    ensures Apply(MarkupRules, "![" + a + "](" + u + ")") == "!" + a
  {
    var img := "![" + a + "](" + u + ")";
    InertAvoids(a);
    InertAvoids(u);
    ImageChars(a, u, '#');
    ImageChars(a, u, '*');
    ImageChars(a, u, '`');
    SpanRulesKeep(img);
    AltImageStage(a, u);
    LinkRulesStages(img, "!" + a, "!" + a);
    MarkupSplit(img);
  }

  /** Markup-free text on one line with no whitespace at either end is left as it is by the last two steps. */
  lemma FlatTextKept(x: string)
    requires '\n' !in x && Trimmed(x)
    ensures Trim(Replace(CollapseNewlines, x)) == x
  {
    RewriteWithoutTrigger(CollapseNewlines, x, true);
    TrimKeepsTrimmed(x);
  }

  /** The plain text of `![a](u)` with alt text `a` is `!a`, not the empty text. */
  lemma AltImageLeavesBang(a: string, u: string)
    requires Inert(a) && Inert(u) && a != [] && u != [] && ']' !in a && ')' !in u
    requires !IsSpace(a[|a| - 1])
    ensures PlainText("![" + a + "](" + u + ")") == "!" + a
  {
    AltImageMarkup(a, u);
    InertAvoids(a);
    assert '\n' !in "!" + a;
    FlatTextKept("!" + a);
  }

  /** The markup rules with the image rule moved in front of the link rule. */
  const ImageFirstRules: seq<Rule> := MarkupRules[..4] + [DropImage, UnwrapLink]

  /** The plain text with images removed before links are unwrapped. */
  function ImageFirstPlainText(content: string): string {
    Trim(Replace(CollapseNewlines, Apply(ImageFirstRules, content)))
  }

  /** With the image rule first, an image with alt text is removed before the link rule can see it. */
  lemma ImageFirstStage(a: string, u: string)
    requires ']' !in a && u != [] && ')' !in u
    ensures Apply([DropImage, UnwrapLink], "![" + a + "](" + u + ")") == []
  {
    var img := "![" + a + "](" + u + ")";
    assert img + [] == img;
    ImageDropped(a, u, [], true);
    assert [DropImage, UnwrapLink][1..] == [UnwrapLink];
    assert Apply([UnwrapLink], []) == Apply([], Replace(UnwrapLink, []));
  }

  /** With the image rule first, `![a](u)` leaves nothing in the plain text, alt text or not. */
  lemma ImageFirstDropsImages(a: string, u: string)
    requires Inert(a) && Inert(u) && u != [] && ']' !in a && ')' !in u
    ensures ImageFirstPlainText("![" + a + "](" + u + ")") == []
  {
    var img := "![" + a + "](" + u + ")";
    InertAvoids(a);
    InertAvoids(u);
    ImageChars(a, u, '#');
    ImageChars(a, u, '*');
    ImageChars(a, u, '`');
    SpanRulesKeep(img);
    ImageFirstStage(a, u);
    ApplyAppend(MarkupRules[..4], [DropImage, UnwrapLink], img);
    assert Replace(CollapseNewlines, []) == [];
  }

  /** With the image rule first, links still become their text. */
  lemma ImageFirstKeepsLinks(t: string, u: string)
    requires Inert(t) && Inert(u) && t != [] && u != [] && ']' !in t && ')' !in u && Trimmed(t)
    ensures ImageFirstPlainText("[" + t + "](" + u + ")") == t
  {
    var link := "[" + t + "](" + u + ")";
    InertAvoids(t);
    InertAvoids(u);
    LinkChars(t, u, '#');
    LinkChars(t, u, '*');
    LinkChars(t, u, '`');
    LinkChars(t, u, '!');
    SpanRulesKeep(link);
    RewriteWithoutTrigger(DropImage, link, true);
    LinkStage(t, u);
    ImageFirstLinkStage(link, t);
    ApplyAppend(MarkupRules[..4], [DropImage, UnwrapLink], link);
    FlatTextKept(t);
  }

  /** The last two corrected rules on a link: the image rule keeps it, the link rule unwraps it. */
  lemma ImageFirstLinkStage(link: string, t: string)
    requires Replace(DropImage, link) == link && Replace(UnwrapLink, link) == t
    ensures Apply([DropImage, UnwrapLink], link) == t
  {
    assert [DropImage, UnwrapLink][1..] == [UnwrapLink];
    assert Apply([UnwrapLink], link) == Apply([], t);
  }

  /** Text without any markup character passes the markup rules from the `k`-th on unchanged. */
  lemma MarkupFreeKept(s: string, k: nat)
    requires '#' !in s && '*' !in s && '`' !in s && '[' !in s && '!' !in s && k <= |MarkupRules|
    ensures Apply(MarkupRules[k..], s) == s
  {
    MarkupTriggers();
    assert forall i :: 0 <= i < |MarkupRules[k..]| ==> MarkupRules[k..][i] == MarkupRules[k + i];
    ApplyWithoutTriggers(MarkupRules[k..], s);
  }

  /** The `# ` of a heading on the first line is removed. */
  lemma HeadingStage(h: string, rest: string)
    requires Inert(h) && h != [] && !IsSpace(h[0]) && '#' !in rest
    ensures Replace(StripHeadingMarker, "# " + (h + rest)) == h + rest
  {
    InertAvoids(h);
    StripsLeadingMarker(h + rest, true);
  }

  /** The two newlines between heading and paragraph become one space. */
  lemma ParagraphBreakStage(h: string, rest: string)
    requires Inert(h) && Inert(rest)
    ensures Replace(CollapseNewlines, h + ("\n\n" + rest)) == h + (" " + rest)
  {
    InertAvoids(h);
    InertAvoids(rest);
    RewriteCopiesTriggerFree(CollapseNewlines, h, "\n\n" + rest, true);
    assert seq(2, _ => '\n') == "\n\n";
    NewlineRunCollapsed(2, rest, StateAfter(h, true));
    RewriteWithoutTrigger(CollapseNewlines, rest, true);
  }

  /** A `*` followed by text without `*`, then a lone `*`: the bold rule finds no `**` and copies it all. */
  lemma TrailingLoneStar(y: string, z: string, b: bool)
    requires '*' !in y && '*' !in z
    ensures Rewrite(UnwrapLazy(DoubleStar), y + ("*" + z), b) == y + ("*" + z)
  {
    RewriteCopiesTriggerFree(UnwrapLazy(DoubleStar), y, "*" + z, b);
    LoneStarCopied(z, StateAfter(y, b));
    RewriteWithoutTrigger(UnwrapLazy(DoubleStar), z, false);
  }

  /** An italic span `*y*` is not a bold span: the bold rule copies it. */
  lemma ItalicSpanSurvivesBoldRule(y: string, z: string, b: bool)
    requires y != [] && '*' !in y && '*' !in z
    ensures Rewrite(UnwrapLazy(DoubleStar), "*" + (y + ("*" + z)), b) == "*" + (y + ("*" + z))
  {
    LoneStarCopied(y + ("*" + z), b);
    TrailingLoneStar(y, z, false);
  }

  /** The text after the bold span, `q*y*z`, passes the bold rule unchanged. */
  lemma ItalicTailSurvivesBoldRule(q: string, y: string, z: string)
    requires y != [] && '*' !in q && '*' !in y && '*' !in z
    ensures Rewrite(UnwrapLazy(DoubleStar), q + ("*" + (y + ("*" + z))), false) == q + ("*" + (y + ("*" + z)))
  {
    RewriteCopiesTriggerFree(UnwrapLazy(DoubleStar), q, "*" + (y + ("*" + z)), false);
    ItalicSpanSurvivesBoldRule(y, z, StateAfter(q, false));
  }

  /** Text without `*`, then `D x D`, then `tail`: the span loses its delimiters, the rest of `tail` is rewritten on. */
  lemma SpanAfterPlainText(d: Delim, a: string, x: string, tail: string)
    requires DelimText(d)[0] !in a && DelimText(d)[0] !in x && LineFree(x)
    ensures var w := DelimText(d);
      Replace(UnwrapLazy(d), a + (w + x + w + tail)) == a + (x + Rewrite(UnwrapLazy(d), tail, false))
  {
    var w := DelimText(d);
    RewriteCopiesTriggerFree(UnwrapLazy(d), a, w + x + w + tail, true);
    LazyUnwrapsSpan(d, x, tail, StateAfter(a, true));
  }

  /** The heading rule, then the bold rule, then the italic rule, then nothing else changes the text. */
  lemma ThreeStages(s0: string, s1: string, s2: string, s3: string)
    requires Replace(StripHeadingMarker, s0) == s1 && Replace(UnwrapLazy(DoubleStar), s1) == s2
    requires Replace(UnwrapLazy(Star), s2) == s3 && Apply(MarkupRules[3..], s3) == s3
    ensures Apply(MarkupRules, s0) == s3
  {
    MarkupHead(s0);
    assert MarkupRules[1..][1..] == [UnwrapLazy(Star)] + MarkupRules[3..];
  }

  /**
   * The pieces of the example `# h` newline newline `p**x**q*y*z`, with the strings the
   * stages produce, regrouped the way the stage lemmas state them.
   */
  lemma ExampleGroups(h: string, p: string, x: string, q: string, y: string, z: string)
    ensures "# " + h + "\n\n" + p + "**" + x + "**" + q + "*" + y + "*" + z
      == "# " + (h + ("\n\n" + p + "**" + x + "**" + q + "*" + y + "*" + z))
    ensures h + ("\n\n" + p + "**" + x + "**" + q + "*" + y + "*" + z)
      == (h + "\n\n" + p) + ("**" + x + "**" + (q + ("*" + (y + ("*" + z)))))
  {
  }

  /** The regrouping after the bold span is unwrapped. */
  lemma ExampleGroupsMiddle(h: string, p: string, x: string, q: string, y: string, z: string)
    ensures (h + "\n\n" + p) + (x + (q + ("*" + (y + ("*" + z)))))
      == (h + "\n\n" + p + x + q) + ("*" + y + "*" + z)
  {
  }

  /** The regroupings of the flattened example. */
  lemma ExampleGroupsLate(h: string, p: string, x: string, q: string, y: string, z: string)
    ensures (h + "\n\n" + p + x + q) + (y + z) == h + ("\n\n" + (p + x + q + y + z))
    ensures h + (" " + (p + x + q + y + z)) == h + " " + p + x + q + y + z
  {
  }

  /** Stage one of the example: the heading marker goes. */
  lemma ExampleHeadingStage(h: string, p: string, x: string, q: string, y: string, z: string)
    requires Inert(h) && Inert(p) && Inert(x) && Inert(q) && Inert(y) && Inert(z)
    requires h != [] && !IsSpace(h[0])
    ensures Replace(StripHeadingMarker, "# " + h + "\n\n" + p + "**" + x + "**" + q + "*" + y + "*" + z)
      == h + ("\n\n" + p + "**" + x + "**" + q + "*" + y + "*" + z)
  {
    var rest := "\n\n" + p + "**" + x + "**" + q + "*" + y + "*" + z;
    ExampleGroups(h, p, x, q, y, z);
    InertAvoids(p);
    InertAvoids(x);
    InertAvoids(q);
    InertAvoids(y);
    InertAvoids(z);
    assert '#' !in rest;
    HeadingStage(h, rest);
  }

  /** Stage two of the example: the bold span loses its `**`, the italic span is left alone. */
  lemma ExampleBoldStage(h: string, p: string, x: string, q: string, y: string, z: string)
    requires Inert(h) && Inert(p) && Inert(x) && Inert(q) && Inert(y) && Inert(z) && y != []
    ensures Replace(UnwrapLazy(DoubleStar), h + ("\n\n" + p + "**" + x + "**" + q + "*" + y + "*" + z))
      == (h + "\n\n" + p) + (x + (q + ("*" + (y + ("*" + z)))))
  {
    ExampleGroups(h, p, x, q, y, z);
    InertAvoids(h);
    InertAvoids(p);
    InertAvoids(x);
    InertAvoids(q);
    InertAvoids(y);
    InertAvoids(z);
    assert '*' !in h + "\n\n" + p;
    SpanAfterPlainText(DoubleStar, h + "\n\n" + p, x, q + ("*" + (y + ("*" + z))));
    ItalicTailSurvivesBoldRule(q, y, z);
  }

  /** Stage three of the example: the italic span loses its `*`. */
  lemma ExampleItalicStage(h: string, p: string, x: string, q: string, y: string, z: string)
    requires Inert(h) && Inert(p) && Inert(x) && Inert(q) && Inert(y) && Inert(z)
    ensures Replace(UnwrapLazy(Star), (h + "\n\n" + p + x + q) + ("*" + y + "*" + z)) == h + ("\n\n" + (p + x + q + y + z))
  {
    ExampleGroupsLate(h, p, x, q, y, z);
    InertAvoids(h);
    InertAvoids(p);
    InertAvoids(x);
    InertAvoids(q);
    InertAvoids(y);
    InertAvoids(z);
    assert '*' !in h + "\n\n" + p + x + q;
    SpanAfterPlainText(Star, h + "\n\n" + p + x + q, y, z);
    RewriteWithoutTrigger(UnwrapLazy(Star), z, false);
  }

  /** The paragraph of the example without its span delimiters. */
  lemma ExampleParagraphInert(p: string, x: string, q: string, y: string, z: string)
    requires Inert(p) && Inert(x) && Inert(q) && Inert(y) && Inert(z)
    ensures Inert(p + x + q + y + z)
  {
    InertConcat(p, x);
    InertConcat(p + x, q);
    InertConcat(p + x + q, y);
    InertConcat(p + x + q + y, z);
  }

  /** Text of one line, a line break and another line without markup passes the later rules unchanged. */
  lemma TwoLinesKept(h: string, m: string, k: nat)
    requires Inert(h) && Inert(m) && k <= |MarkupRules|
    ensures Apply(MarkupRules[k..], h + ("\n\n" + m)) == h + ("\n\n" + m)
  {
    InertAvoids(h);
    InertAvoids(m);
    MarkupFreeKept(h + ("\n\n" + m), k);
  }

  /** The markup rules on a heading, a blank line and a paragraph with a bold and an italic span. */
  lemma ExampleMarkup(h: string, p: string, x: string, q: string, y: string, z: string)
    requires Inert(h) && Inert(p) && Inert(x) && Inert(q) && Inert(y) && Inert(z)
    requires h != [] && !IsSpace(h[0]) && y != []
    ensures Apply(MarkupRules, "# " + h + "\n\n" + p + "**" + x + "**" + q + "*" + y + "*" + z)
      == h + ("\n\n" + (p + x + q + y + z))
  {
    ExampleGroups(h, p, x, q, y, z);
    ExampleGroupsMiddle(h, p, x, q, y, z);
    ExampleHeadingStage(h, p, x, q, y, z);
    ExampleBoldStage(h, p, x, q, y, z);
    ExampleItalicStage(h, p, x, q, y, z);
    ExampleParagraphInert(p, x, q, y, z);
    TwoLinesKept(h, p + x + q + y + z, 3);
    ThreeStages("# " + h + "\n\n" + p + "**" + x + "**" + q + "*" + y + "*" + z,
      h + ("\n\n" + p + "**" + x + "**" + q + "*" + y + "*" + z),
      (h + "\n\n" + p + x + q) + ("*" + y + "*" + z),
      h + ("\n\n" + (p + x + q + y + z)));
  }

  /**
   * `# h`, a blank line, then `p**x**q*y*z`: the excerpt text is `h p x q y z` run
   * together, with the heading marker, the span delimiters and the blank line replaced
   * by one space between heading and paragraph. With `h = "Hello"`, `p = "This is "`,
   * `x = "bold"`, `q = " and "`, `y = "italic"`, `z = " text."` this is
   * `"Hello This is bold and italic text."`.
   */
  lemma HeadingAndSpansFlattened(h: string, p: string, x: string, q: string, y: string, z: string)
    requires Inert(h) && Inert(p) && Inert(x) && Inert(q) && Inert(y) && Inert(z)
    requires h != [] && !IsSpace(h[0]) && y != [] && z != [] && !IsSpace(z[|z| - 1])
    ensures PlainText("# " + h + "\n\n" + p + "**" + x + "**" + q + "*" + y + "*" + z) == h + " " + p + x + q + y + z
  {
    ExampleMarkup(h, p, x, q, y, z);
    ExampleGroupsLate(h, p, x, q, y, z);
    ExampleParagraphInert(p, x, q, y, z);
    ParagraphBreakStage(h, p + x + q + y + z);
    TrimKeepsTrimmed(h + " " + p + x + q + y + z);
  }

  /** The pieces of the sample post `# Hello`, blank line, `This is **bold** and *italic* text.` */
  lemma SamplePieces(h: string, p: string, x: string, q: string, y: string, z: string)
    requires h == "Hello" && p == "This is " && x == "bold" && q == " and " && y == "italic" && z == " text."
    ensures Inert(h) && Inert(p) && Inert(x) && Inert(q) && Inert(y) && Inert(z)
    ensures h != [] && !IsSpace(h[0]) && y != [] && z != [] && !IsSpace(z[|z| - 1])
  {
  }

  lemma SampleJoined(h: string, p: string, x: string, q: string, y: string, z: string)
    requires h == "Hello" && p == "This is " && x == "bold" && q == " and " && y == "italic" && z == " text."
    ensures h + " " + p + x + q + y + z == "Hello This is bold and italic text."
  {
  }

  /** The sample post's plain text is `Hello This is bold and italic text.` */
  lemma SamplePostPlainText(h: string, p: string, x: string, q: string, y: string, z: string)
    requires h == "Hello" && p == "This is " && x == "bold" && q == " and " && y == "italic" && z == " text."
    ensures PlainText("# " + h + "\n\n" + p + "**" + x + "**" + q + "*" + y + "*" + z)
      == "Hello This is bold and italic text."
  {
    SamplePieces(h, p, x, q, y, z);
    SampleJoined(h, p, x, q, y, z);
    HeadingAndSpansFlattened(h, p, x, q, y, z);
  }

  /** The pieces of `C# rocks`. */
  lemma HashSamplePieces(w: string, r: string)
    requires w == "C" && r == "rocks"
    ensures Inert(w) && Inert(r) && w != [] && r != []
    ensures !IsSpace(w[0]) && !IsSpace(r[0]) && !IsSpace(r[|r| - 1])
  {
  }

  /** `C# rocks` has the plain text `Crocks`: the `# ` inside the line is stripped too. */
  lemma HashSamplePlainText(w: string, r: string)
    requires w == "C" && r == "rocks"
    ensures PlainText(w + "# " + r) == w + r
  {
    HashSamplePieces(w, r);
    HashInsideWordRemoved(w, r);
  }
}
