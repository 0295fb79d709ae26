# Blog front end: excerpts, preview, feed paging, tag cloud and navigation

This project models the logic of a React blog front end. The rest of that code is
views and database calls. The model covers four pieces.

- **The post-composition page** (`src/pages/CreatePost.jsx`).
  - The excerpt generator is a fixed chain of eight string rewrites and a 150-character truncation.
  - The live Markdown preview is a second chain of seven rewrites that produces HTML.
  - The form state has a shared change handler, and the submit handler has a validation gate in front of the call that stores the post.
- **The home feed** (`src/pages/Home.jsx`). Posts load six at a time, each page is appended to the list, and a "load more" button appears while the store reports more posts.
- **The tag cloud** (`src/pages/Tags.jsx`). A tag's post count defaults to 0, it is drawn in one of three size and colour tiers, and each tag links to its page.
- **The navigation bar** (`src/components/Navbar.jsx`). The current path decides which link is highlighted.

How each part is modelled:

- **The rewrites.** Every `.replace(regex, replacement)` call is a hand-written scanner,
  `Replacement.Rewrite`. It follows a JavaScript global replace:
  - it tries the pattern at the current position;
  - on a match it emits the replacement and resumes after the match;
  - otherwise it copies one character and moves on.
- **Regular-expression semantics.** These follow ECMAScript:
  - `.` stops at any line terminator (`\n`, `\r`, U+2028, U+2029).
  - `^` with the `m` flag holds after a line terminator.
  - `\s` and `trim` use the full ECMAScript whitespace set.
  - Lazy spans (`.*?`) close at the first delimiter on the line, and greedy spans (`.*`) at the last.
- **The form.** It is a class, `CreatePost.CreatePostForm`. The store's answer and the clock are parameters of `HandleSubmit`.
- **The feed.** It is a class, `Home.HomeFeed`. The store's answer `(data, count)` is a parameter. A fetch is split into `StartFetch` and `FinishFetch`, so the pending state (`loading`) can be observed.
- **The tag cloud and the navigation bar.** They are pure functions.

Main results:

- **Excerpt.**
  - The generated excerpt has no newline and no whitespace at either end.
  - It is at most 153 characters long: the whole plain text, or its first 150 characters followed by `...`.
  - A user excerpt is never overwritten.
  - The sample post `# Hello`, blank line, `This is **bold** and *italic* text.` becomes `Hello This is bold and italic text.`.
  - Links become their text, and images without alt text disappear.
- **Preview** (`Preview.PreviewOfContent`). For any body whose only line terminator is the newline, the preview is each line's `LinePreview` joined by `<br />`:
  - the heading rules wrap a line that starts with `### `, `## ` or `# `;
  - each span rule wraps the text from the first to the last delimiter of that line.
- **Form.** Validation reports a blank title before it looks at the content, and nothing is sent when either is blank.
- **Feed.** Every fetch requests six rows at offset `page * 6`, a later page is appended after the earlier ones, and `hasMore == ((page + 1) * 6 < count)`. With 13 posts the button shows after pages 0 and 1 but not after page 2, and all 13 posts are shown in order.
- **Tags and navigation.** The tag tiers have exact thresholds, size and colour come from the same tier, and the tier is monotone in the count. At most one navigation link is highlighted, and every tag page highlights the tags link.

Behaviour of the code worth noting:

- **Feed.**
  - The feed does not remove duplicate posts.
  - A failed query (which the service turns into `{data: [], count: 0}`) hides the button instead of keeping it.
  - Late answers are not discarded.
  - Only the disabled button, not `fetchPosts`, prevents a second fetch while one is pending.
- **Excerpt.** The heading rule strips `#` runs anywhere in the text, not only at a line start: `C# rocks` becomes `Crocks`.
- **Preview.** The spans are greedy, not first-pair.

## Model

| member | source | states |
|---|---|---|
| Text.Trim | src/pages/CreatePost.jsx:38 | `trim` drops the leading whitespace and a whitespace-only tail; the result has no whitespace at either end and is empty exactly when the input is all whitespace |
| Text.TrimKeepsTrimmed | src/pages/CreatePost.jsx:38 | text with no whitespace at either end is unchanged by `trim` |
| Text.TrimIntroducesNothing | src/pages/CreatePost.jsx:38 | `trim` adds no character that was not in its input |
| Replacement.CurrentLine | src/pages/CreatePost.jsx:32-34 | what `.*` can cover: the prefix up to the first line terminator, which it stops before |
| Replacement.FirstOccurrence | src/pages/CreatePost.jsx:32-34 | a position found is at or after `from` and the delimiter occurs there |
| Replacement.FirstOccurrenceBefore | src/pages/CreatePost.jsx:32-34 | no occurrence lies between `from` and the one found, so it is the first |
| Replacement.FirstOccurrenceNone | src/pages/CreatePost.jsx:32-34 | when nothing is found, the delimiter occurs nowhere at or after `from` |
| Replacement.FirstOccurrenceIs | src/pages/CreatePost.jsx:32-34 | an occurrence with none before it in the range is the one found |
| Replacement.LastOccurrence | src/pages/CreatePost.jsx:86-88 | a position found lies with its whole delimiter inside the range and the delimiter occurs there |
| Replacement.LastOccurrenceAfter | src/pages/CreatePost.jsx:86-88 | no occurrence in the range starts after the one found, so it is the last |
| Replacement.LastOccurrenceNone | src/pages/CreatePost.jsx:86-88 | when nothing is found, the range holds no occurrence |
| Replacement.MatchHeadingMarker | src/pages/CreatePost.jsx:31 | `#{1,6}\s+` matches exactly when 1 to 6 hashes are followed by whitespace; it consumes that whitespace run fully and replaces it by nothing |
| Replacement.HeadingMarkerLength | src/pages/CreatePost.jsx:31 | when `k` hashes (1 to 6) are followed by whitespace, the marker consumes exactly those `k` hashes and the whole whitespace run after them, and replaces them by nothing |
| Replacement.MatchLazy | src/pages/CreatePost.jsx:32-34 | a lazy match is the delimiter, the captured text, and the delimiter again; the captured text is the replacement |
| Replacement.MatchLazyShortest | src/pages/CreatePost.jsx:32-34 | no delimiter starts inside a lazy match: it closes at the first delimiter after the opening one |
| Replacement.MatchLazyMisses | src/pages/CreatePost.jsx:32-34 | a lazy span fails only when the line does not start with the delimiter or has no second one |
| Replacement.MatchLink | src/pages/CreatePost.jsx:35 | `[t](u)`: `t` is non-empty and has no `]`, `u` runs to the first `)`, and `t` is the replacement |
| Replacement.MatchImage | src/pages/CreatePost.jsx:36 | `![a](u)`: the alt text `a` (possibly empty) runs to the first `]`, then `(` follows, and `u` is non-empty and runs to the first `)`; nothing replaces the match |
| Replacement.MatchHeadingLine | src/pages/CreatePost.jsx:83-85 | matches exactly at a line start with the level's marker; the whole line becomes the heading tags around the text after the marker |
| Replacement.MatchGreedy | src/pages/CreatePost.jsx:86-88 | a greedy match starts and ends with the delimiter, and the text between them is wrapped in the span's tags |
| Replacement.MatchGreedyCloses | src/pages/CreatePost.jsx:86-88 | no delimiter starts after the closing one of a greedy match: it closes at the last delimiter of the line |
| Replacement.MatchGreedyMisses | src/pages/CreatePost.jsx:86-88 | a greedy span fails only when the line does not start with the delimiter or has no second one after it |
| Replacement.MatchAt | src/pages/CreatePost.jsx:31-37 | every match starts with the rule's trigger character and consumes at least one character |
| Replacement.Step | src/pages/CreatePost.jsx:31-37 | one scan step consumes at least one character; without the trigger it copies the head character |
| Replacement.Rewrite | src/pages/CreatePost.jsx:31-37 | the global-replace scan; its meaning is stated by `RewriteCopiesTriggerFree`, `RewriteWithoutTrigger` and `RewriteSplitsAtLineEnd` |
| Replacement.Replace | src/pages/CreatePost.jsx:31-37 | one `.replace` call: the scan started where `^` holds; `RewriteWithoutTrigger` and `RewriteLeavesNoNewline` state its properties |
| Replacement.RewriteCopiesTriggerFree | src/pages/CreatePost.jsx:31-37 | a stretch without the rule's trigger character is copied verbatim in front of the rest's rewrite |
| Replacement.RewriteWithoutTrigger | src/pages/CreatePost.jsx:31-37 | text without the rule's trigger character is unchanged |
| Replacement.RewriteLeavesNoNewline | src/pages/CreatePost.jsx:37 | after the newline-collapsing rule or the line-break rule, no newline is left |
| Replacement.RewriteSplitsAtLineEnd | src/pages/CreatePost.jsx:83-88 | a line-local rule rewrites the text before a line end independently of what follows |
| Replacement.Apply | src/pages/CreatePost.jsx:30-37 | a chain of `.replace` calls, first to last; `ApplyAppend` and `ApplyWithoutTriggers` state its properties |
| Replacement.ApplyAppend | src/pages/CreatePost.jsx:30-38 | running two rule chains one after the other is running their concatenation |
| Replacement.ApplyWithoutTriggers | src/pages/CreatePost.jsx:30-37 | a chain none of whose trigger characters occur leaves the text unchanged |
| Excerpt.Truncate | src/pages/CreatePost.jsx:40 | up to 150 characters the text is kept; beyond that, its first 150 characters followed by `...`, 153 in all |
| Excerpt.PlainText | src/pages/CreatePost.jsx:30-38 | the markup rules, the newline rule and `trim` in the source's order; `PlainTextIsFlat` and the worked examples state what it gives |
| Excerpt.AutoExcerpt | src/pages/CreatePost.jsx:29-41 | the excerpt the generator leaves in the form; `AutoExcerptKeepsUserExcerpt` and `GeneratedExcerptShape` state both branches |
| Excerpt.PlainTextIsFlat | src/pages/CreatePost.jsx:37-38 | the plain text has no newline and no whitespace at either end |
| Excerpt.AutoExcerptKeepsUserExcerpt | src/pages/CreatePost.jsx:29 | with empty content or a non-empty excerpt, the excerpt is left as it is |
| Excerpt.GeneratedExcerptShape | src/pages/CreatePost.jsx:29-41 | a generated excerpt has no newline and at most 153 characters; it is the whole plain text when that fits, otherwise its first 150 characters and `...` |
| Excerpt.StripsLeadingMarker | src/pages/CreatePost.jsx:31 | `# ` followed by text without `#` that does not start with whitespace loses exactly its marker |
| Excerpt.LazyMatchesSpan | src/pages/CreatePost.jsx:32-34 | a span `D x D` with no delimiter character in `x` is matched exactly, capturing `x` |
| Excerpt.LazyUnwrapsSpan | src/pages/CreatePost.jsx:32-34 | such a span on one line is replaced by `x`, and the scan resumes after it |
| Excerpt.LoneStarCopied | src/pages/CreatePost.jsx:32 | a `*` not followed by `*` opens no bold span and is copied |
| Excerpt.NewlineRunCollapsed | src/pages/CreatePost.jsx:37 | a run of newlines becomes one space |
| Excerpt.LinkMatches | src/pages/CreatePost.jsx:35 | the link pattern matches exactly `[t](u)` and captures `t` |
| Excerpt.LinkUnwrapped | src/pages/CreatePost.jsx:35 | a link with non-empty text and target is replaced by its text |
| Excerpt.ImageMatches | src/pages/CreatePost.jsx:36 | the image pattern matches exactly `![a](u)` |
| Excerpt.ImageDropped | src/pages/CreatePost.jsx:36 | the image rule removes `![a](u)` whatever its alt text |
| Excerpt.SpanRulesKeep | src/pages/CreatePost.jsx:31-34 | text without `#`, `*` and backtick passes the heading and span rules unchanged |
| ExcerptExamples.InertPassesRules | src/pages/CreatePost.jsx:31-37 | text without markup characters or line ends passes every rule unchanged |
| ExcerptExamples.PlainProseKept | src/pages/CreatePost.jsx:30-38 | plain prose with no whitespace at either end is its own plain text |
| ExcerptExamples.LongProseExcerpt | src/pages/CreatePost.jsx:40 | long plain prose gives its first 150 characters and `...`, 153 characters |
| ExcerptExamples.MarkerInsideWordStripped | src/pages/CreatePost.jsx:31 | the unanchored heading rule also strips `# ` in the middle of a line |
| ExcerptExamples.HashInsideWordRemoved | src/pages/CreatePost.jsx:30-38 | `w# r` has plain text `wr` |
| ExcerptExamples.HashSamplePlainText | src/pages/CreatePost.jsx:30-38 | `C# rocks` has plain text `Crocks` |
| ExcerptExamples.LinkBecomesText | src/pages/CreatePost.jsx:35 | `[t](u)` has plain text `t` |
| ExcerptExamples.BangCopiedByLinkRule | src/pages/CreatePost.jsx:35 | the link rule copies `!` and goes on |
| ExcerptExamples.EmptyLinkTextKept | src/pages/CreatePost.jsx:35 | `[]` starts no link: the link rule keeps it |
| ExcerptExamples.BangWithoutImageKept | src/pages/CreatePost.jsx:36 | `!` not followed by `[` is kept by the image rule |
| ExcerptExamples.EmptyAltImageVanishes | src/pages/CreatePost.jsx:36 | `![](u)` leaves nothing in the plain text |
| ExcerptExamples.AltImageMarkup | src/pages/CreatePost.jsx:35-36 | the markup rules turn `![a](u)` into `!a` |
| ExcerptExamples.AltImageLeavesBang | src/pages/CreatePost.jsx:35-36 | the plain text of `![a](u)` with non-empty alt text is `!a` (the link rule runs first) |
| ExcerptExamples.ImageFirstDropsImages | src/pages/CreatePost.jsx:35-36 | with the image rule in front of the link rule, `![a](u)` leaves nothing, alt text or not |
| ExcerptExamples.ImageFirstKeepsLinks | src/pages/CreatePost.jsx:35-36 | with the image rule first, `[t](u)` still has plain text `t` |
| ExcerptExamples.TrailingLoneStar | src/pages/CreatePost.jsx:32 | text with single stars only passes the bold rule unchanged |
| ExcerptExamples.ItalicSpanSurvivesBoldRule | src/pages/CreatePost.jsx:32-33 | an italic span `*y*` is left for the italic rule |
| ExcerptExamples.ExampleMarkup | src/pages/CreatePost.jsx:30-36 | the markup rules turn `# h`, blank line, `p**x**q*y*z` into `h`, blank line, `pxqyz` |
| ExcerptExamples.HeadingAndSpansFlattened | src/pages/CreatePost.jsx:30-38 | the plain text of `# h`, blank line, `p**x**q*y*z` is `h pxqyz` |
| ExcerptExamples.SamplePostPlainText | src/pages/CreatePost.jsx:30-38 | `# Hello`, blank line, `This is **bold** and *italic* text.` gives `Hello This is bold and italic text.` |
| Preview.MarkdownPreview | src/pages/CreatePost.jsx:78-93 | the seven preview rules in the source's order; `PreviewOfContent` and `PreviewHasNoNewline` state what it gives |
| Preview.PreviewSource | src/pages/CreatePost.jsx:240 | the text handed to the preview is never empty and is the body whenever the body is non-empty |
| Preview.PlaceholderPreviewed | src/pages/CreatePost.jsx:240 | an empty body previews as the placeholder text, a non-empty one as its own preview |
| Preview.PreviewHasNoNewline | src/pages/CreatePost.jsx:89 | the preview contains no newline |
| Preview.PlainTextPreviewed | src/pages/CreatePost.jsx:83-89 | text without `#`, `*`, backtick and newline is shown unchanged |
| Preview.RewriteKeepsLineFree | src/pages/CreatePost.jsx:83-88 | the heading and span rules never introduce a line terminator |
| Preview.RuleOnLines | src/pages/CreatePost.jsx:83-88 | a line-local rule on newline-joined lines rewrites each line on its own |
| Preview.RulesOnLines | src/pages/CreatePost.jsx:83-88 | the same for the whole chain of line-local rules |
| Preview.LineBreaksJoin | src/pages/CreatePost.jsx:89 | the last rule turns every newline between lines into `<br />` |
| Preview.PreviewByLines | src/pages/CreatePost.jsx:83-89 | the preview of joined lines is the line rules on each line, joined by `<br />` |
| Preview.LineHeading | src/pages/CreatePost.jsx:83-85 | the marker a line starts with; `### ` is tried before `## ` and `# ` |
| Preview.HeadingRuleMidLine | src/pages/CreatePost.jsx:83-85 | away from a line start the heading rules never match |
| Preview.HeadingRuleOnLine | src/pages/CreatePost.jsx:83-85 | one heading rule wraps a line that starts with its marker and keeps any other line |
| Preview.WrapHeadingShape | src/pages/CreatePost.jsx:83-85 | a wrapped heading stays on its line and no later heading rule matches it |
| Preview.HeadingRulesOnLine | src/pages/CreatePost.jsx:83-85 | the three heading rules on a line give its heading (or the line) and keep it a line |
| Preview.FourHashesNoHeading | src/pages/CreatePost.jsx:83-85 | a line starting `####` is no heading |
| Preview.GreedyCopiesNoSpan | src/pages/CreatePost.jsx:86-88 | a line without two non-overlapping delimiters is copied by a span rule |
| Preview.GreedyMatchesTo | src/pages/CreatePost.jsx:86-88 | on a line that starts with a delimiter, a span rule matches up to and including the line's last non-overlapping delimiter |
| Preview.GreedyLineWithoutLast | src/pages/CreatePost.jsx:86-88 | a line whose first delimiter has no later, non-overlapping partner is copied by a span rule |
| Preview.GreedyFromFirst | src/pages/CreatePost.jsx:86-88 | from the first delimiter, the span closes at the last delimiter of the line and the rest is copied |
| Preview.GreedyRuleOnLine | src/pages/CreatePost.jsx:86-88 | a span rule on a line wraps the text from its first delimiter to its last non-overlapping delimiter, and changes nothing else |
| Preview.GreedyKeepsLineFree | src/pages/CreatePost.jsx:86-88 | a span rule keeps a line a line |
| Preview.ItalicSpanIsGreedy | src/pages/CreatePost.jsx:87 | with three single stars, the italic span runs from the first to the third, keeping the middle star inside |
| Preview.LinePreviewByRules | src/pages/CreatePost.jsx:83-88 | the six line rules turn a line into its heading and then its greedy bold, italic and code spans |
| Preview.LinePreviews | src/pages/CreatePost.jsx:83-88 | each line's `LinePreview`, in order |
| Preview.PreviewOfLines | src/pages/CreatePost.jsx:83-89 | the preview of newline-joined lines is their line previews joined by `<br />` |
| Preview.SplitLinesJoin | src/pages/CreatePost.jsx:83-89 | the lines of a text, joined with newlines, give the text back |
| Preview.SplitLinesFree | src/pages/CreatePost.jsx:83-89 | when the newline is the only terminator, each piece is a line |
| Preview.PreviewOfContent | src/pages/CreatePost.jsx:78-93 | the preview of any body whose only terminator is the newline is its line previews joined by `<br />` |
| CreatePost.Changed | src/pages/CreatePost.jsx:20-26 | the shared change handler's update; `ChangeSetsOnlyItsField`, `LastChangeWins` and `ChangesCommute` state its properties |
| CreatePost.ChangeSetsOnlyItsField | src/pages/CreatePost.jsx:20-26 | a change event sets the named field (the checked state for the checkbox) and leaves every other field alone |
| CreatePost.LastChangeWins | src/pages/CreatePost.jsx:20-26 | of two changes to one field, the later wins |
| CreatePost.ChangesCommute | src/pages/CreatePost.jsx:20-26 | changes to different fields commute |
| CreatePost.Validate | src/pages/CreatePost.jsx:48-56 | a whitespace-only title is reported first, whatever the content; whitespace-only content is reported only when the title is filled; otherwise no problem |
| CreatePost.PostPath | src/pages/CreatePost.jsx:70 | the new post's page is `/blog/` followed by its id |
| CreatePost.SubmittedPost | src/pages/CreatePost.jsx:58-66 | the record built from the form the handler started with; `SubmittedExcerptIsStale` and `StaleExcerptSent` show its excerpt is the stale one |
| CreatePost.SubmittedExcerptIsStale | src/pages/CreatePost.jsx:58-66 | with a filled-in title, an empty excerpt and prose content, validation passes and the record sent has an empty excerpt although a non-empty one is generated |
| CreatePost.StaleExcerptSent | src/pages/CreatePost.jsx:20-76 | through the handlers: a fresh form, a title and prose content typed in, a successful submit; the record sent has an empty excerpt and the title and content typed, while the form then shows the non-empty generated excerpt |
| CreatePost.IntendedPostCarriesExcerpt | src/pages/CreatePost.jsx:28-43 | the corrected record carries the user's excerpt or the generated one, which is non-empty when there is plain text, has no newline and at most 153 characters |
| CreatePost.CreatePostForm.constructor | src/pages/CreatePost.jsx:10-18 | empty text fields, published ticked, not submitting, edit mode |
| CreatePost.CreatePostForm.HandleChange | src/pages/CreatePost.jsx:20-26 | the form becomes the changed form; nothing else changes |
| CreatePost.CreatePostForm.TogglePreview | src/pages/CreatePost.jsx:115 | the preview flag flips; nothing else changes |
| CreatePost.CreatePostForm.GenerateExcerpt | src/pages/CreatePost.jsx:28-43 | the excerpt becomes the automatic excerpt; a user excerpt is kept |
| CreatePost.CreatePostForm.HandleSubmit | src/pages/CreatePost.jsx:45-76 | nothing is sent exactly when validation fails, and then an error toast shows and the form is unchanged. Otherwise the pre-generation form is sent and the excerpt generated; success navigates to the new post with a success toast, failure shows an error toast. `submitting` ends false |
| Home.FailedPage | src/services/blogService.js:22-25 | a failed query answers no posts and a count of 0 |
| Home.PageRequest | src/pages/Home.jsx:21 | page `n` asks for 6 rows at offset `n * 6` |
| Home.RequestsTile | src/pages/Home.jsx:21 | page 0 starts at row 0 and each page starts where the previous one ends |
| Home.MorePages | src/pages/Home.jsx:29 | whether the button stays after page `n`; `MorePagesMeansRowsBeyond` and `FailureEndsPaging` state when |
| Home.MorePagesMeansRowsBeyond | src/pages/Home.jsx:29 | the button stays exactly when the count exceeds the last row requested, and once gone it stays gone for later pages |
| Home.FailureEndsPaging | src/pages/Home.jsx:29 | after a failed query the button is hidden |
| Home.HomeFeed.constructor | src/pages/Home.jsx:8-11 | no posts, loading, more to come, page 0 |
| Home.HomeFeed.StartFetch | src/pages/Home.jsx:18-21 | loading is set and the page's request goes out; the list, button and page are unchanged |
| Home.HomeFeed.FinishFetch | src/pages/Home.jsx:23-33 | a reset replaces the list, otherwise the page is appended; `hasMore == ((n + 1) * 6 < count)`; loading ends |
| Home.HomeFeed.FetchPosts | src/pages/Home.jsx:18-35 | the whole fetch: request, append (old prefix kept, length grows by the page) or replace, `hasMore`, loading false |
| Home.HomeFeed.Mount | src/pages/Home.jsx:14-16 | mounting fetches page 0 and appends it |
| Home.HomeFeed.LoadMore | src/pages/Home.jsx:37-41 | the page number grows by one and exactly that page is fetched and appended |
| Home.ThirteenPosts | src/pages/Home.jsx:14-41 | with 13 posts the button shows, shows, then hides, and the list holds all 13 in order |
| Home.FailedLoadMore | src/pages/Home.jsx:37-41 | a failed query appends nothing, hides the button and ends loading |
| Tags.PostCount | src/pages/Tags.jsx:78 | the first aggregate row's count, and 0 when the aggregate, its first row or its count is missing |
| Tags.TierOf | src/pages/Tags.jsx:79-80 | large exactly above 10, medium exactly from 6 to 10, small exactly up to 5 |
| Tags.SizeClass | src/pages/Tags.jsx:79 | the size class by post count; `SizeClassRanges` and `SameTier` state its ranges |
| Tags.ColorClass | src/pages/Tags.jsx:80 | the colour class by post count; `SameTier` states it follows the size class's tier |
| Tags.CloudClass | src/pages/Tags.jsx:79-86 | a link's class list: size, colour and the fixed hover classes; `Cloud` states every link carries its tag's |
| Tags.SizeClassRanges | src/pages/Tags.jsx:79 | `text-lg` exactly above 10, `text-base` exactly from 6 to 10, `text-sm` exactly up to 5 |
| Tags.SameTier | src/pages/Tags.jsx:79-80 | size and colour come from the same tier: lg with 600, base with 500, sm with 400 |
| Tags.TierMonotone | src/pages/Tags.jsx:79-80 | more posts never give a smaller tier |
| Tags.TagHref | src/pages/Tags.jsx:85 | a tag links to `/tags/` followed by its slug |
| Tags.Cloud | src/pages/Tags.jsx:77-91 | one link per tag, in order, with the tag's page and its tier classes |
| Tags.Counter | src/pages/Tags.jsx:59 | the number above the cloud; `CounterCountsCloud` states it equals the number of links |
| Tags.CounterCountsCloud | src/pages/Tags.jsx:59 | the counter equals the number of links; tags with different slugs link to different pages |
| Navbar.IsActive | src/components/Navbar.jsx:7-9 | a link is active on its own path exactly; the lemmas below state what each link does |
| Navbar.HomeActive | src/components/Navbar.jsx:25 | the home link's highlight; `ExactLinks` and `AtMostOneActive` state it |
| Navbar.TagsActive | src/components/Navbar.jsx:37 | the tags link's highlight; `TagsActiveExactly`, `TagPagesHighlightTags` and `TagsPrefixNeedsSlash` state it |
| Navbar.CreateActive | src/components/Navbar.jsx:49 | the write link's highlight; `ExactLinks` and `AtMostOneActive` state it |
| Navbar.ExactLinks | src/components/Navbar.jsx:22-56 | the root highlights only the home link, `/create` only the write link, and a post page no link |
| Navbar.TagsActiveExactly | src/components/Navbar.jsx:37 | the tags link is highlighted exactly on `/tags` and on `/tags/` followed by anything |
| Navbar.TagPagesHighlightTags | src/components/Navbar.jsx:37 | every tag's page highlights the tags link |
| Navbar.TagsPrefixNeedsSlash | src/components/Navbar.jsx:37 | `/tags` followed by anything other than `/` (such as `/tagsx`) does not highlight it |
| Navbar.AtMostOneActive | src/components/Navbar.jsx:22-56 | at most one of the three links is highlighted for any path |

## Left out

- Characters are sequence elements, while JavaScript strings count UTF-16 code units. Both the `length > 150` test and the cut position count code units, so a character outside the Basic Multilingual Plane counts twice: 100 such characters are 200 units, which the page truncates and the model does not, and the cut can split a surrogate pair.
- `Preview.PreviewOfContent` covers bodies whose only line terminator is `\n`. The scanner itself handles `\r`, U+2028 and U+2029 as `.`, `^` and `$` do, but no theorem characterises the preview of a body containing them.
- The calls to the store (`createPost`, `getPosts`, `getTags`) are outside the model. Their answers are parameters: the new post's id or a failure for `createPost`, and `(data, count)` for `getPosts`.
- `src/services/blogService.js` is not part of this model. The exception is the `{data: [], count: 0}` it answers on failure (line 24). The row range at line 18 is only used to describe the request.
- The post id is taken as text. Converting a numeric id in the template string at `src/pages/CreatePost.jsx:70` is not modelled.
- The clock is a parameter: `created_at` is the `now` string given to `HandleSubmit`.
- Toasts and navigation are values in the result of `HandleSubmit`. They are not side effects.
- CreatePost.CreatePostForm.HandleSubmit: the handler is modelled as invoked. The browser's constraint validation in front of it is not: `required` on the title (`src/pages/CreatePost.jsx:140`) and on the content (line 186) blocks an empty field with the browser's own prompt before the handler runs, so the title and content toasts only show for whitespace-only fields; `type="url"` on the cover image (line 164) blocks a malformed address that the model sends.
- CreatePost.CreatePostForm.HandleSubmit: runs the awaited store call inside one method, so the interval where `submitting` is true is not observable. Only its final value (false) is stated.
- Overlapping fetches on the home page are not modelled. The page prevents them only by disabling the button while loading (`src/pages/Home.jsx:75`); each fetch is taken as atomic, or as `StartFetch` followed by `FinishFetch`.
- The `reset` branch of `fetchPosts` is modelled, but the page never passes `reset = true`.
- The change handler assumes the form's own wiring: only `published` is a checkbox. An event that pairs a text field with the checkbox type would store a boolean in a text field, and is not modelled.
- `post_tags[0].count || 0` is modelled with counts that are natural numbers or missing. Non-numeric values that JavaScript would also treat as falsy are not modelled.
- The tags page's fetch and loading state (`src/pages/Tags.jsx:11-24`) and all JSX layout are left out. The preview pane's fallbacks for an empty title and an empty cover image, and the HTML injection of the preview, are left out too.
- `src/pages/BlogDetail.jsx`, `src/pages/TagDetail-debug.jsx`, `src/pages/TagDetail-backup.jsx`, `src/components/BlogCard.jsx` and `src/components/CommentSection.jsx` are not part of this model. They are remote-call sequences and rendering.
- `src/contexts/SupabaseContext-debug.jsx`, `src/contexts/SupabaseContext-backup.jsx`, `src/TestPage.jsx` and `src/App.jsx` are not part of this model. They are client setup, connection probes and the route table.

## Findings

| source | as written | input that shows it | evidently intended | confidence | as-written member | corrected member |
|---|---|---|---|---|---|---|
| src/pages/CreatePost.jsx:58-66 | `generateExcerpt` schedules a state update, then the record is built by spreading the `formData` the handler started with | title `T`, empty excerpt, content `hello`: the record's excerpt is empty, while the form afterwards shows `hello` | the record carries the generated excerpt | not executed | CreatePost.SubmittedExcerptIsStale | CreatePost.IntendedPostCarriesExcerpt |
| src/pages/CreatePost.jsx:35-36 | the link rule runs before the image rule, so it unwraps the `[a](u)` inside `![a](u)` and the image rule no longer matches | `![logo](x.png)` gives the plain text `!logo` | images are removed from the excerpt | not executed | ExcerptExamples.AltImageLeavesBang | ExcerptExamples.ImageFirstDropsImages |
