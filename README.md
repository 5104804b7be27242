# Wikipedia content importer: the two rewriting pipelines and their state

This project models the logic of the two React components of the Wikipedia
content importer:

- **The search box** (`WikipediaSearch`). A query of two or more characters
  starts a debounced prefix search. Each result's HTML extract is cleaned into a
  short snippet by `processExtractForDisplay`, a chain of four regular-expression
  substitutions followed by truncation to 150 characters plus `...`. The search
  effect, the response handling, focusing and choosing a result decide what the
  drop-down list shows.
- **The article view** (`WikipediaContent`). Pressing the import button fetches
  the article's HTML extract and rewrites it with `processWikipediaContent`, a
  chain of nine substitutions:
  - anchors are canonicalised;
  - citation markers are wrapped in superscript anchors;
  - relative wiki links are made absolute;
  - six opening-tag patterns get fixed classes.
  `fetchContent` turns the outcome of the fetch into the `content`, `error` and
  `isLoading` state, and the HTML copy button copies the content.

The model is organised in four modules:

- `Text` (`text.dfy`) holds the JavaScript character classes `\d`, `\w`, `\s`
  and the line terminators. It also defines two relations on strings:
  `Occurs` (a substring occurs) and `IsSubsequence` (one string is obtained from
  another by deleting characters).
- `Rewrite` (`rewrite.dfy`) models `String.prototype.replace` with a `/g`
  pattern. A pattern is a *matcher*: a function giving the match anchored at the
  start of a string (its length and its replacement). `ReplaceAll` takes the
  leftmost match, appends its replacement, resumes right after it, and copies a
  character wherever no match starts. Generic lemmas about it hold for every
  matcher. Examples: nothing changes where the pattern's leading text never
  occurs; a pass whose replacements are empty only deletes characters; a pass
  whose replacements contain the matched text only inserts characters. The
  module also holds the scanners the patterns are built from:
  - a greedy run (`RunEnd`);
  - `[^c]*c` (`FindChar`);
  - a lazy `(.*?)` that stops at line terminators (`LazyClose`);
  - the citation marker `\[\d+\]` (`CitationAt`).
  No pattern here can backtrack into a second way of matching, so each matcher
  is a direct scan.
- `WikipediaSearch` (`wikipedia_search.dfy`) holds:
  - the four snippet passes and the truncation;
  - the conversion of response pages into results;
  - a `SearchBox` class with the component's state (`query`, `results`,
    `isLoading`, `showResults`, the pending debounce timer and the requests in
    flight).
- `WikipediaContent` (`wikipedia_content.dfy`) holds:
  - the nine content passes;
  - an `ArticleView` class with the props `title` and `pageid` and the state
    `content`, `isLoading` and `error`.

Each pass is a function, and the lemmas state what each pass does to the
shapes of text it rewrites. The state changes are methods whose `ensures`
clauses give the whole new state. The class invariants bound the shown results
and keep errors hidden while loading. Small scenario methods run the methods in
sequence and show consequences of the event handling.

Strings are sequences of `char`. A Dafny `char` is a Unicode scalar value,
while JavaScript's `length`, `substring` and regular expressions (without the
`u` flag) count UTF-16 code units. The two agree for text in the Basic
Multilingual Plane, which is the text this model describes.

A failed or empty fetch sets the error and leaves any earlier content in
place. `FetchFinished` models that, and `ErrorKeepsEarlierContent` shows the
error and the earlier content displayed together.

`src/App.tsx` renders the article view without a `key`, so choosing another
article gives new `title` and `pageid` props to the same component instance.
Its `content`, `isLoading` and `error` survive the change (`PropsChanged`). A
fetch that is still pending keeps the id it asked for, and its page fills in
the content under the new title (`OldArticleShownUnderNewTitle`).

## Model

| member | source | states |
|---|---|---|
| `Rewrite.ReplaceAll` | src/components/WikipediaSearch.tsx:78-85 | each `.replace(/…/g, …)` call: the leftmost match is replaced and the scan resumes after it, a character where no match starts is copied; its properties are the lemmas below (`ReplaceAllIdentity`, `ReplaceAllKeepsLeadFreePrefix`, `ReplaceAllOnlyDeletes`, `ReplaceAllOnlyInserts`) |
| `Rewrite.ReplaceAllIdentity` | src/components/WikipediaContent.tsx:53-85 | a pass whose leading text never occurs leaves the text unchanged |
| `Rewrite.ReplaceAllKeepsLeadFreePrefix` | src/components/WikipediaContent.tsx:53-85 | text before the first character that can start a match is copied unchanged, and the rest is rewritten on its own |
| `Rewrite.UnmatchedPrefixCopied` | src/components/WikipediaContent.tsx:53-85 | a prefix where nothing matches, and in which a match can start only at its first character, is copied and the rest is rewritten on its own |
| `Rewrite.DivergentPrefixCopied` | src/components/WikipediaContent.tsx:73-82 | a prefix that parts from a pass's leading text before either ends starts no match whatever follows, so it is copied and the rest is rewritten on its own |
| `Text.NoOccurrenceBeforeLead` | src/components/WikipediaSearch.tsx:81 | text placed after a string free of a word creates no occurrence of it when the text starts with the word's first character and that character does not recur in the word |
| `Rewrite.OnlyUnmatchedLead` | src/components/WikipediaContent.tsx:73-82 | a string whose only possible match start is its first character, where nothing matches, is left unchanged |
| `Rewrite.ReplaceAllOnlyDeletes` | src/components/WikipediaSearch.tsx:78-85 | a pass with empty replacements yields a subsequence of its input |
| `Rewrite.ReplaceAllOnlyInserts` | src/components/WikipediaContent.tsx:61-82 | a pass whose replacements contain the matched text keeps its input as a subsequence of its output |
| `Rewrite.RunEnd` | src/components/WikipediaSearch.tsx:78 | the end of a greedy run stays between its start and the end of the text |
| `Rewrite.RunEndSpan` | src/components/WikipediaContent.tsx:56 | every character of a greedy run satisfies the class, and the run stops only at the end or at a character outside it |
| `Rewrite.FindChar` | src/components/WikipediaContent.tsx:56 | `[^c]*c` stops at a `c` at or after the start |
| `Rewrite.FindCharFirst` | src/components/WikipediaContent.tsx:56 | that `c` is the first one, and no stop is found only when there is no `c` at all |
| `Rewrite.LazyClose` | src/components/WikipediaSearch.tsx:81-82 | a lazy `(.*?)` stops where the closing tag stands |
| `Rewrite.LazyCloseFirst` | src/components/WikipediaSearch.tsx:81-82 | the lazy span stops at the first closing tag and never spans a line terminator |
| `Rewrite.LazyCloseAfterText` | src/components/WikipediaSearch.tsx:81-82 | after the opening tag, the lazy span runs over any text free of the closing tag and of line terminators and stops at the closing tag that follows it |
| `Rewrite.CitationAt` | src/components/WikipediaSearch.tsx:78 | a match of `\[\d+\]` is `[`, a non-empty run of ASCII digits, then `]` |
| `Rewrite.CitationAtMarker` | src/components/WikipediaContent.tsx:62 | `[d]` with digits `d` is matched with all its digits, whatever follows |
| `WikipediaSearch.DropCitationAt` | src/components/WikipediaSearch.tsx:78 | a citation match starts with `[` and is replaced by nothing |
| `WikipediaSearch.EmphasisAt` | src/components/WikipediaSearch.tsx:81-82 | a match of `<x>(.*?)</x>` starts with `<x>` and lies within the text; what it matches is stated by `EmphasisMatched`, `LazyCloseAt` and `BoldStopsAtLineBreak` |
| `WikipediaSearch.BoldAt` | src/components/WikipediaSearch.tsx:81 | a bold match starts with `<b>`; `BoldMatched` states what it matches |
| `WikipediaSearch.ItalicAt` | src/components/WikipediaSearch.tsx:82 | an italic match starts with `<i>`; `ItalicMatched` states what it matches |
| `WikipediaSearch.StripTagAt` | src/components/WikipediaSearch.tsx:85 | a stripped tag starts with `<` and is replaced by nothing |
| `WikipediaSearch.OpensListedTag` | src/components/WikipediaSearch.tsx:85 | the negative lookahead of the tag pattern: after `<` and an optional `/` stands strong, em, b or i followed by a word boundary; its effect is stated by `ListedTagKept`, `UnlistedTagRemoved`, `BreakTagRemoved` and `BoldTagWithAttributeKept` |
| `WikipediaSearch.DropCitations` | src/components/WikipediaSearch.tsx:78 | text in which `[` does not occur is unchanged; `DropCitationsKeepsText` and `CitationDeleted` state what the pass removes |
| `WikipediaSearch.BoldToStrong` | src/components/WikipediaSearch.tsx:81 | text in which `<b>` does not occur is unchanged; `BoldRenamed` states the renaming |
| `WikipediaSearch.ItalicToEm` | src/components/WikipediaSearch.tsx:82 | text in which `<i>` does not occur is unchanged; `ItalicRenamed` states the renaming |
| `WikipediaSearch.StripUnlistedTags` | src/components/WikipediaSearch.tsx:85 | text in which `<` does not occur is unchanged; `StripUnlistedTagsOnlyDeletes` and `UnlistedTagRemoved` state what the pass removes |
| `WikipediaSearch.Cleaned` | src/components/WikipediaSearch.tsx:76-85 | the four substitutions in the source's order; an extract without `[` and `<` passes them unchanged |
| `WikipediaSearch.ProcessExtractForDisplay` | src/components/WikipediaSearch.tsx:71-93 | an empty extract gives the empty string; a cleaned extract of at most 150 characters is returned as it is; a longer one is cut to its first 150 characters followed by `...`; the result is at most 153 long |
| `WikipediaSearch.DropCitationsOnlyDeletes` | src/components/WikipediaSearch.tsx:78 | the citation pass only deletes characters |
| `WikipediaSearch.DropCitationsKeepsText` | src/components/WikipediaSearch.tsx:78 | the citation pass deletes only brackets and digits: every other character survives, in order |
| `WikipediaSearch.CitationDeleted` | src/components/WikipediaSearch.tsx:78 | a marker `[d]` is deleted whatever follows it |
| `WikipediaSearch.NestedCitationLeavesMarker` | src/components/WikipediaSearch.tsx:78 | the pass runs once, so `[1[2]]` becomes `[1]`, and a marker can survive |
| `WikipediaSearch.EmphasisMatched` | src/components/WikipediaSearch.tsx:81-82 | `<x>` text `</x>`, with a text free of `</x>` and of line terminators, is matched in full and rewritten with the text unchanged; other tags inside the text do not stop the match |
| `WikipediaSearch.BoldMatched` | src/components/WikipediaSearch.tsx:81 | `<b>X</b>`, with X free of `</b>` and of line terminators, is matched in full and becomes `<strong>X</strong>` |
| `WikipediaSearch.BoldRenamed` | src/components/WikipediaSearch.tsx:81 | `<b>X</b>`, with X free of `</b>` and of line terminators, becomes `<strong>X</strong>` and the scan resumes after `</b>` |
| `WikipediaSearch.ItalicMatched` | src/components/WikipediaSearch.tsx:82 | `<i>X</i>`, with X free of `</i>` and of line terminators, is matched in full and becomes `<em>X</em>` |
| `WikipediaSearch.ItalicRenamed` | src/components/WikipediaSearch.tsx:82 | `<i>X</i>`, with X free of `</i>` and of line terminators, becomes `<em>X</em>` and the scan resumes after `</i>` |
| `WikipediaSearch.BoldAroundItalicRenamed` | src/components/WikipediaSearch.tsx:81 | bold around italic, `<b><i>Y</i></b>` with Y free of `</b>` and of line terminators, becomes `<strong><i>Y</i></strong>` |
| `WikipediaSearch.ItalicAroundHasNoCloseBold` | src/components/WikipediaSearch.tsx:81 | wrapping text free of `</b>` in `<i>`…`</i>` brings in no `</b>`, so the lazy bold span runs to the outer `</b>` |
| `Rewrite.LazyCloseStopsAtLineEnd` | src/components/WikipediaSearch.tsx:81-82 | a lazy span that meets a line terminator before the closing tag fails |
| `WikipediaSearch.BoldStopsAtLineBreak` | src/components/WikipediaSearch.tsx:81 | no bold match starts at a `<b>` whose first line is free of `</b>` and whose closing tag lies after a line terminator (`\n`, `\r`, U+2028 or U+2029), whatever the later line holds |
| `WikipediaSearch.BoldAcrossLineKept` | src/components/WikipediaSearch.tsx:81 | bold text whose first line is free of `</b>` and that closes after a line terminator is not renamed: its `<b>` is copied and the scan resumes after it; when neither line holds `<` the whole text is unchanged |
| `WikipediaSearch.OpeningBoldCopied` | src/components/WikipediaSearch.tsx:81 | a `<b>` where no bold match starts is copied, and the renaming goes on after it |
| `WikipediaSearch.ClosingBoldKept` | src/components/WikipediaSearch.tsx:85 | `</b>` survives the tag-stripping pass, and the pass goes on after it whatever follows |
| `WikipediaSearch.ListedBoldCopied` | src/components/WikipediaSearch.tsx:85 | a `<b>` or `</b>` tag is copied by the stripping pass, which goes on after it |
| `WikipediaSearch.UnrenamedBoldKept` | src/components/WikipediaSearch.tsx:85 | the `<b>` that the renaming left in place survives the stripping pass whatever follows it; with text free of `<` between it and the closing `</b>`, the whole bold text survives |
| `WikipediaSearch.TagFreeKept` | src/components/WikipediaSearch.tsx:85 | text without `<` passes the tag-stripping pass unchanged |
| `WikipediaSearch.StripUnlistedTagsOnlyDeletes` | src/components/WikipediaSearch.tsx:85 | the stripping pass's output is a subsequence of its input |
| `WikipediaSearch.UnlistedTagRemoved` | src/components/WikipediaSearch.tsx:85 | a complete tag whose name is not strong, em, b or i at a word boundary is deleted |
| `WikipediaSearch.ListedTagKept` | src/components/WikipediaSearch.tsx:85 | a tag opening or closing strong, em, b or i keeps its `<` |
| `WikipediaSearch.BreakTagRemoved` | src/components/WikipediaSearch.tsx:85 | `<br>` passes the word-boundary lookahead and is deleted |
| `WikipediaSearch.BoldTagWithAttributeKept` | src/components/WikipediaSearch.tsx:85 | a `<b` followed by a space and attributes without `<`, such as `<b class="x">`, is kept: the space is a word boundary |
| `WikipediaSearch.StrippingCanJoinTag` | src/components/WikipediaSearch.tsx:85 | one stripping pass can join two pieces into a new unlisted tag: `<b<x>c>` becomes `<bc>` |
| `WikipediaSearch.PlainExtractOnlyTruncated` | src/components/WikipediaSearch.tsx:71-93 | an extract with no `[` and no `<` is only truncated |
| `WikipediaSearch.ToResult` | src/components/WikipediaSearch.tsx:52-55 | a result keeps the page's id, title and thumbnail, and its extract is the snippet of the page's extract, or empty when it has none |
| `WikipediaSearch.ShownResults` | src/components/WikipediaSearch.tsx:50-56 | at most 5 results; exactly 5 when there are at least 5 pages; result `i` comes from page `i` |
| `WikipediaSearch.FewPagesAllShown` | src/components/WikipediaSearch.tsx:56 | with 5 pages or fewer, every page is shown, in order |
| `WikipediaSearch.SearchBox.ListVisible` | src/components/WikipediaSearch.tsx:119 | the drop-down is drawn exactly when the list is open and holds results |
| `WikipediaSearch.SearchBox.constructor` | src/components/WikipediaSearch.tsx:21-25 | the initial state: empty query and results, not loading, list closed, no timer |
| `WikipediaSearch.SearchBox.QueryEffect` | src/components/WikipediaSearch.tsx:27-40 | a query under 2 characters empties and closes the list, leaving a waiting timer in place; a longer one replaces the timer by one for the current query |
| `WikipediaSearch.SearchBox.SetQuery` | src/components/WikipediaSearch.tsx:108 | the input's value becomes the query, and the effect runs only when the value changed |
| `WikipediaSearch.SearchBox.TimerFires` | src/components/WikipediaSearch.tsx:40-47 | the timer starts loading and sends a request for the query its closure captured |
| `WikipediaSearch.SearchBox.ResponseArrives` | src/components/WikipediaSearch.tsx:49-67 | pages give the first 5 results as snippets and open the list; a response without pages, or a failure, empties and closes it; loading stops in every case |
| `WikipediaSearch.SearchBox.Focus` | src/components/WikipediaSearch.tsx:110 | focusing opens the list when the query has 2 characters or more, and changes nothing else |
| `WikipediaSearch.SearchBox.ArticleClicked` | src/components/WikipediaSearch.tsx:95-99 | the chosen title and id are reported; the query becomes the title; the list closes; the new query runs the effect |
| `WikipediaSearch.StaleSearchAfterShortening` | src/components/WikipediaSearch.tsx:28-40 | shortening the query to one character does not cancel the waiting search, whose results then open the list |
| `WikipediaSearch.SelectionReopensList` | src/components/WikipediaSearch.tsx:95-99 | choosing a result closes the list, but the search its title schedules opens it again |
| `WikipediaSearch.LoadingClearedEarly` | src/components/WikipediaSearch.tsx:41-67 | loading stops at the first response while a later request is still in flight |
| `WikipediaContent.AnchorAt` | src/components/WikipediaContent.tsx:55-58 | an anchor match starts with `<a` and consumes part of the text |
| `WikipediaContent.AnchorMatched` | src/components/WikipediaContent.tsx:55-58 | `<a href="X"…>T</a>` with at least one space, X free of `"`, attributes free of `>` and T free of `<` is matched in full and becomes `<a href="X" class="wikipedia-link">T</a>`; the other attributes are dropped |
| `WikipediaContent.AnchorCanonicalised` | src/components/WikipediaContent.tsx:55-58 | such an anchor is rewritten, and the pass resumes after its `</a>` |
| `WikipediaContent.CitationWrapAt` | src/components/WikipediaContent.tsx:61-64 | a citation match starts with `[` |
| `WikipediaContent.CitationWrapped` | src/components/WikipediaContent.tsx:61-64 | `[d]` becomes exactly one superscript citation anchor with the same digits, and the pass resumes after it |
| `WikipediaContent.CitationAnchorRewrapped` | src/components/WikipediaContent.tsx:61-64 | running the pass on a wrapper wraps the marker it holds once more |
| `WikipediaContent.CitationRewrapped` | src/components/WikipediaContent.tsx:61-64 | a marker alone becomes one wrapper, and a second run changes it again: the rewriting is not idempotent |
| `WikipediaContent.WikiHrefAt` | src/components/WikipediaContent.tsx:67-70 | an address match starts with `href="/wiki/` |
| `WikipediaContent.WikiHrefAbsolutized` | src/components/WikipediaContent.tsx:67-70 | `href="/wiki/` becomes `href="https://en.wikipedia.org/wiki/`, and the pass resumes after it |
| `WikipediaContent.HFreePrefixOfOutput` | src/components/WikipediaContent.tsx:67-70 | a prefix of the output without `h` was a prefix of the input, since every replacement starts with `h` |
| `WikipediaContent.AbsoluteHrefHasNoRelative` | src/components/WikipediaContent.tsx:69 | the absolute address contains no relative one, even where it runs into text that contains none |
| `WikipediaContent.NoRelativeWikiHrefAfterAbsolutize` | src/components/WikipediaContent.tsx:67-70 | after the address pass, `href="/wiki/` occurs nowhere |
| `WikipediaContent.ClassTagAt` | src/components/WikipediaContent.tsx:73-82 | a classed-tag match starts with `<` and the old tag name |
| `WikipediaContent.Heading2At` | src/components/WikipediaContent.tsx:73 | a match starts with `<h2`; `Heading2Classed` states the rewriting |
| `WikipediaContent.Heading3At` | src/components/WikipediaContent.tsx:74 | a match starts with `<h3`; `Heading3Classed` states the rewriting |
| `WikipediaContent.Heading4At` | src/components/WikipediaContent.tsx:75 | a match starts with `<h4`; `Heading4Classed` states the rewriting |
| `WikipediaContent.ParagraphAt` | src/components/WikipediaContent.tsx:78 | a match starts with `<p`; `ParagraphClassed` states the rewriting |
| `WikipediaContent.BoldTagAt` | src/components/WikipediaContent.tsx:81 | a match starts with `<b`; `BoldClassed` states the rewriting |
| `WikipediaContent.ItalicTagAt` | src/components/WikipediaContent.tsx:82 | a match starts with `<i`; `ItalicClassed` states the rewriting |
| `WikipediaContent.ClassTagMatched` | src/components/WikipediaContent.tsx:73-82 | `<name` attributes `>` is matched in full and becomes the classed head, followed by the same attributes and `>` |
| `WikipediaContent.ClassTagStep` | src/components/WikipediaContent.tsx:73-82 | the classed head replaces `<name`, the tag's remaining text is kept, and the pass resumes after the `>` |
| `WikipediaContent.Heading2Classed` | src/components/WikipediaContent.tsx:73 | `<h2…>` gets `class="wikipedia-heading-2"` after its name, and its attributes are kept |
| `WikipediaContent.Heading3Classed` | src/components/WikipediaContent.tsx:74 | `<h3…>` gets `class="wikipedia-heading-3"` after its name, and its attributes are kept |
| `WikipediaContent.Heading4Classed` | src/components/WikipediaContent.tsx:75 | `<h4…>` gets `class="wikipedia-heading-4"` after its name, and its attributes are kept |
| `WikipediaContent.ParagraphClassed` | src/components/WikipediaContent.tsx:78 | every tag starting `<p`, `<pre>` included, gets `class="wikipedia-paragraph"` after `<p` |
| `WikipediaContent.BoldClassed` | src/components/WikipediaContent.tsx:81 | every tag starting `<b`, `<br>` and `<body>` included, becomes `<strong class="wikipedia-bold"` with its remaining text |
| `WikipediaContent.ItalicClassed` | src/components/WikipediaContent.tsx:82 | every tag starting `<i`, `<img …>` included, becomes `<em class="wikipedia-italic"` with its remaining text |
| `WikipediaContent.StyleTagsCopyPrefix` | src/components/WikipediaContent.tsx:73-82 | a tag start that parts from each of `<h2`, `<h3`, `<h4`, `<p`, `<b`, `<i` before either ends is left alone by all six tag passes, whatever follows it |
| `WikipediaContent.StyleTagsKeepTagFree` | src/components/WikipediaContent.tsx:73-82 | text without `<` passes the six tag passes unchanged |
| `WikipediaContent.ClosingTagUntouched` | src/components/WikipediaContent.tsx:73-82 | closing tags such as `</b>` and `</i>` are never classed, whatever follows them; followed by text without `<`, the text is unchanged |
| `WikipediaContent.OtherHeadingUntouched` | src/components/WikipediaContent.tsx:73-75 | headings of levels 1, 5 and 6 get no class, whatever follows them; followed by text without `<`, the text is unchanged |
| `WikipediaContent.CanonicalLinks` | src/components/WikipediaContent.tsx:55-58 | text in which `<a` does not occur is unchanged; `AnchorCanonicalised` states the rewriting |
| `WikipediaContent.CiteMarkers` | src/components/WikipediaContent.tsx:61-64 | text in which `[` does not occur is unchanged; `CitationWrapped` states the rewriting |
| `WikipediaContent.AbsoluteLinks` | src/components/WikipediaContent.tsx:67-70 | text in which `href="/wiki/` does not occur is unchanged; `WikiHrefAbsolutized` and `NoRelativeWikiHrefAfterAbsolutize` state the rewriting |
| `WikipediaContent.StyleTags` | src/components/WikipediaContent.tsx:73-82 | text in which none of `<h2`, `<h3`, `<h4`, `<p`, `<b`, `<i` occurs is unchanged; `StyleTagsCopyPrefix` and the six `…Classed` lemmas state the rewriting |
| `WikipediaContent.ProcessWikipediaContent` | src/components/WikipediaContent.tsx:53-85 | the empty string is returned as it is |
| `WikipediaContent.ContentUnchangedWithoutTriggers` | src/components/WikipediaContent.tsx:53-85 | text in which none of `<a`, `[`, `href="/wiki/`, `<h2`, `<h3`, `<h4`, `<p`, `<b`, `<i` occurs is returned unchanged, whatever other tags it holds |
| `WikipediaContent.CitationWrapKeepsText` | src/components/WikipediaContent.tsx:61-64 | every citation wrapper contains the marker it replaces |
| `WikipediaContent.WikiHrefKeepsText` | src/components/WikipediaContent.tsx:67-70 | the absolute address contains the relative one as a subsequence |
| `WikipediaContent.NameKeptInClassHead` | src/components/WikipediaContent.tsx:73-82 | `<name` survives in the classed head when the name occurs in the new name or in the class |
| `WikipediaContent.ClassTagKeepsText` | src/components/WikipediaContent.tsx:73-82 | under that condition, every classed tag's text survives in its replacement |
| `WikipediaContent.HeadingPassesKeepText` | src/components/WikipediaContent.tsx:73-75 | the three heading passes keep the text they match |
| `WikipediaContent.ParagraphPassKeepsText` | src/components/WikipediaContent.tsx:78 | the paragraph pass keeps the text it matches |
| `WikipediaContent.BoldPassKeepsText` | src/components/WikipediaContent.tsx:81 | the bold pass keeps the text it matches: `b` survives in `wikipedia-bold` |
| `WikipediaContent.ItalicPassKeepsText` | src/components/WikipediaContent.tsx:82 | the italic pass keeps the text it matches: `i` survives in `wikipedia-italic` |
| `WikipediaContent.StyleTagsOnlyInserts` | src/components/WikipediaContent.tsx:73-82 | the six tag passes only insert characters |
| `WikipediaContent.LaterPassesOnlyInsert` | src/components/WikipediaContent.tsx:61-84 | every pass after the anchor pass only inserts, so all the text the anchor pass leaves survives, in order, in the final markup |
| `WikipediaContent.ArticleView.ShowsContent` | src/components/WikipediaContent.tsx:148 | the content block is drawn exactly when the content is a non-empty string |
| `WikipediaContent.ArticleView.ShowsPrompt` | src/components/WikipediaContent.tsx:166 | the prompt is drawn exactly when there is no content to show, nothing is loading and there is no error |
| `WikipediaContent.ArticleView.constructor` | src/components/WikipediaContent.tsx:20-22 | no content, not loading, no error |
| `WikipediaContent.ArticleView.PropsChanged` | src/App.tsx:40-45 | another article passed to the same instance changes `title` and `pageid` only; content, loading flag and error are kept |
| `WikipediaContent.ArticleView.FetchStarted` | src/components/WikipediaContent.tsx:24-26 | loading starts and the error is cleared; the content and the props are kept; the request is for the current article id |
| `WikipediaContent.ArticleView.FetchFinished` | src/components/WikipediaContent.tsx:28-50 | a page for the requested id gives the rewritten extract as content; a response without that page sets "Article content not found"; a failure sets "Failed to fetch article content"; both errors keep the earlier content; loading ends; the props are unchanged |
| `WikipediaContent.ArticleView.CopyFormattedHtml` | src/components/WikipediaContent.tsx:97-101 | the HTML is copied exactly when the content is a non-empty string, and what is copied is the content |
| `WikipediaContent.ErrorKeepsEarlierContent` | src/components/WikipediaContent.tsx:28-50 | after a successful fetch whose rewritten extract is non-empty and a failed one, the error and the earlier content are both displayed |
| `WikipediaContent.OldArticleShownUnderNewTitle` | src/components/WikipediaContent.tsx:24-51 | after the article changes, the earlier content stays under the new title, and a fetch begun before the change fills in the page it requested |

## Left out

- Rendering: the JSX of both components and `src/App.tsx` are not modelled,
  except that the app hands a newly chosen article to the same view. The model keeps only the predicates that decide what is drawn:
  `SearchBox.ListVisible`, `ArticleView.ShowsContent` and
  `ArticleView.ShowsPrompt`. The "No articles found" message of the search box
  is not modelled.
- Network and JSON: the request URLs, `fetch`, `response.json()` and
  `encodeURIComponent` are not modelled. A response is an abstract input value:
  `SearchOutcome` for the search and `FetchOutcome` for the article. The pages
  of a search response are given in the order `Object.values` lists them.
- Debounce timing: the 300 ms delay is not modelled. The timer firing and a
  response arriving are methods the environment calls, in any order their
  preconditions allow. Nothing discards a response that a newer query has made
  stale, and the model claims no such handling.
- `copyToClipboard` (plain-text copy) relies on the browser's HTML parser
  (`innerHTML`/`textContent`) and the clipboard, so it is not modelled. Of the
  two copy buttons only `copyFormattedHtml` is modelled, and the clipboard write
  is its returned value.
- The "View on Wikipedia" link built with `encodeURIComponent` is not modelled.
- `console.error` logging is not modelled.
- Unicode: characters outside the Basic Multilingual Plane are one `char` here
  but two UTF-16 code units (a surrogate pair) in JavaScript, so for them the
  150-character cut is not modelled.
- `WikipediaContent.AnchorMatched`: states the rewriting only for anchors with
  at least one space after `<a`, an address free of `"`, attributes free of `>`
  and a text free of `<`. These are exactly the anchors the pattern matches.
  The matcher `AnchorAt` itself follows the pattern on every input.
- `WikipediaContent.ClassTagKeepsText`: needs the old tag name to occur in the
  new name or in the class. This holds for all six passes, as the four
  instance lemmas show.
- `WikipediaContent.ProcessWikipediaContent`: its own contract states only the
  empty case. The other properties of the whole rewriting are lemmas
  (`ContentUnchangedWithoutTriggers`, `LaterPassesOnlyInsert`) and
  per-pass lemmas.
