# A verified model of the site's content code

This project models the logic of a multilingual church web site. The site is
static: pages are HTML, and news, blog and gallery content lives as Markdown
files whose JSON indexes are generated at build time. Two kinds of code are
modelled.

The browser scripts:

- the Markdown subset renderer (`renderMarkdown`). It exists twice, once in
  `news.js` and once in `blog.js`. The model has one specification
  (`Markdown`) and one in-place state machine (`MarkdownRenderer.Renderer`),
  and proves that both copies compute the same function of their input;
- the base-path helpers `withBasePath` and `withBaseAsset` (`News`);
- the allow-list HTML sanitizer (`Sanitize`), over a tree of nodes;
- the paginator (`Pagination`): page parameter, page slicing and the list of
  pager controls;
- the manifest loader (`ContentLoader`, with the stable newest-first sort in
  `DateOrder`).

The build scripts:

- the content index generator (`ContentIndex`): field normalisation,
  validation, the publish/validate decision and the per-directory sort;
- the HTML asset-path normaliser (`AssetPaths`).

Imperative code is modelled imperatively, with methods proved against
specification functions:

- the renderer's buffers;
- the sanitizer's attribute pass, child moves and recursion;
- the pager's `pages` array;
- `validateEntry`'s error list;
- the build loops and their counters.

Pure code is modelled as functions. `Wrappers`, `Text`, `Seqs` and `Values`
hold the shared vocabulary: `Option`/`Result`, the JavaScript string
built-ins used (`trim`, `split`, `join`, `startsWith`, `toLowerCase` as
far as it yields ASCII letters, U+212A KELVIN SIGN included, `String` of an integer), `filter`/`map`, and JavaScript values.

Foreign code becomes a parameter:

- a fetch outcome;
- a date parser `Option<Value> -> Option<int>`;
- a URL-protocol function;
- a directory listing;
- a file-reading function.

## Model

| member | source | states |
|---|---|---|
| News.RenderMarkdown | assets/js/news.js:107-190 | the method's output is `Markdown.Render` of its input: "" for empty input, otherwise CRs removed, split at "\n", run through the line machine |
| Blog.RenderMarkdown | assets/js/blog.js:90-173 | the copy in blog.js computes the same `Markdown.Render`, so the two renderers agree on every input |
| MarkdownRenderer.Renderer.constructor | assets/js/news.js:110-112 | the three buffers start empty |
| MarkdownRenderer.Renderer.FlushParagraph | assets/js/news.js:129-134 | a non-empty paragraph is written as one `<p>` block of its lines joined by one space, and the buffer is emptied; otherwise nothing changes |
| MarkdownRenderer.Renderer.FlushList | assets/js/news.js:136-142 | a non-empty list is written as one `<ul>` of `<li>` items in order, and the buffer is emptied |
| MarkdownRenderer.Renderer.Consume | assets/js/news.js:144-184 | one line takes the new state `Markdown.Step` gives |
| MarkdownRenderer.Renderer.Finish | assets/js/news.js:186-189 | both buffers are flushed (paragraph first) and the result is the concatenation of all blocks |
| MarkdownRenderer.RenderLines | assets/js/news.js:144-189 | the loop over the lines computes `Markdown.RenderLines` |
| Markdown.EscapeHtmlIsEscapeEach | assets/js/news.js:114-118 | the three chained replacements escape each character exactly once (no double escaping of "&amp;") |
| Markdown.EscapeCharByPasses | assets/js/news.js:114-118 | on one character the three passes give its entity or the character itself |
| Markdown.EscapeRoundTrip | assets/js/news.js:114-118 | decoding the three entities after escaping gives back the author's text |
| Markdown.EscapeHasNoAngles | assets/js/news.js:114-118 | no `<` or `>` is left after escaping |
| Markdown.LazyClose | assets/js/news.js:122-123 | the lazy `.+?` stops at the nearest occurrence of the closing delimiter with no line terminator before it; None means every later occurrence has a line terminator before it |
| Markdown.LazyMatch | assets/js/news.js:122-123 | a bold or italic match starts with the delimiter and captures a non-empty text without line terminators, closed by the nearest later delimiter; None means no closing delimiter is reachable |
| Markdown.ReplaceLazyAt | assets/js/news.js:122-123 | where a lazy match starts, the capture is wrapped in the tags and the scan resumes after the closing delimiter |
| Markdown.ReplaceLazyCopyAt | assets/js/news.js:122-123 | where no match starts, one character is copied |
| Markdown.CodeMatch | assets/js/news.js:124 | a code match closes at the first backtick after the opening one, with at least one character between; None means the first later backtick is adjacent or there is none |
| Markdown.CodeAt | assets/js/news.js:124 | a code span is wrapped in `<code>` tags and the scan resumes after it |
| Markdown.CodeCopyAt | assets/js/news.js:124 | where no code span starts, one character is copied |
| Markdown.LinkMatch | assets/js/news.js:125 | a link match is `[text](url)` with non-empty text and url, no `]` in the text and no `)` in the url; it is the only split that fits, and None means none fits |
| Markdown.LinkAt | assets/js/news.js:125 | a link becomes `<a href="url">text</a>` and the scan resumes after it |
| Markdown.LinkCopyAt | assets/js/news.js:125 | where no link starts, one character is copied |
| Markdown.ReplaceLazyKeepsTags | assets/js/news.js:122-123 | the bold and italic passes keep every `<` at the start of a renderer tag |
| Markdown.CodeKeepsTags | assets/js/news.js:124 | the code pass keeps every `<` at the start of a renderer tag |
| Markdown.LinkKeepsTags | assets/js/news.js:125 | the link pass keeps every `<` at the start of a renderer tag |
| Markdown.RenderInlineKeepsAnglesInTags | assets/js/news.js:120-127 | after renderInline every `<` opens a tag the renderer wrote, so no author `<` survives as markup |
| Markdown.RenderInlinePlain | assets/js/news.js:120-127 | text without `&<>*` backquote or `[` is rendered unchanged |
| Markdown.ListItemsTagged | assets/js/news.js:138 | the list items keep every `<` inside renderer tags |
| Markdown.StepTagged | assets/js/news.js:144-184 | one line keeps every written block free of author markup |
| Markdown.RenderKeepsAnglesInTags | assets/js/news.js:107-190 | every `<` in the whole rendered output opens a tag the renderer wrote |
| MarkdownBlocks.RenderEmpty | assets/js/news.js:108 | an empty input renders to "" |
| MarkdownBlocks.RenderIgnoresCarriageReturns | assets/js/news.js:109 | removing CRs first never changes the output |
| MarkdownBlocks.StepTrims | assets/js/news.js:145 | a line and its trimmed text are processed alike |
| MarkdownBlocks.RunTrims | assets/js/news.js:144-145 | a document and its trimmed lines render alike |
| MarkdownBlocks.RunAppend | assets/js/news.js:144 | the lines are processed left to right, one state threaded through |
| MarkdownBlocks.RunAfter | assets/js/news.js:144-184 | blocks already written never influence later lines |
| MarkdownBlocks.BlankLineSeparates | assets/js/news.js:146-150 | a blank line closes paragraph and list: the output is that of the text before it followed by that of the text after it |
| MarkdownBlocks.ImageLineDropped | assets/js/news.js:152-154 | a line starting with `![` is dropped without flushing, so the lines around it render as if it were absent |
| MarkdownBlocks.HeadingLine | assets/js/news.js:156-175 | `### `, `## ` and `# `, tested in that order, give h4, h3 and h2 without the marker, after flushing what was open |
| MarkdownBlocks.StepBullet | assets/js/news.js:177-181 | a `- ` or `* ` line flushes the paragraph and appends its text after the marker to the list |
| MarkdownBlocks.BulletLines | assets/js/news.js:177-181 | consecutive bullet lines render as one `<ul>` whose `<li>` keep source order |
| MarkdownBlocks.StepParagraph | assets/js/news.js:183 | any other line is appended, trimmed, to the paragraph |
| MarkdownBlocks.ParagraphLines | assets/js/news.js:129-134 | consecutive paragraph lines render as one `<p>` of the trimmed lines joined by one space |
| MarkdownBlocks.ParagraphAfterBulletsComesFirst | assets/js/news.js:186-187 | a paragraph line right after bullet items is written before their `<ul>`, because the paragraph is flushed first |
| News.GetBasePath | assets/js/news.js:6 | Site.basePath when it is set and non-empty, otherwise "/"; never empty |
| News.StripSlash | assets/js/news.js:8 | at most one leading slash is removed |
| News.WithBasePath | assets/js/news.js:8 | the base followed by the path without one leading slash |
| News.WithBaseAsset | assets/js/news.js:10-18 | "" for an empty value; absolute, `data:` and `mailto:` values unchanged |
| News.RelativeAssetUnderBase | assets/js/news.js:10-18 | any other value is the base followed by the value less one leading slash |
| News.LeadingSlashIgnored | assets/js/news.js:8 | one leading slash never changes withBasePath's result |
| News.AbsoluteBaseIdempotent | assets/js/news.js:10-18 | under an absolute base, applying withBaseAsset twice is applying it once |
| Sanitize.CleanAttributes | assets/js/sanitize.js:45-59 | the loop over the attribute snapshot, removing by name on the live list, leaves exactly `KeptAttrs` |
| Sanitize.KeptAttrsExactly | assets/js/sanitize.js:46-59 | an attribute survives iff it was present and its name is not `on*` or `style`, is in the tag's allow list, and is not an unsafe href of `a` |
| Sanitize.OnlyAnchorsKeepAttributes | assets/js/sanitize.js:45 | every element other than `a` ends with no attributes |
| Sanitize.GetAfterSet | assets/js/sanitize.js:62-64 | after setAttribute, getAttribute gives the new value for that name and the old value for every other |
| Sanitize.HardenAnchor | assets/js/sanitize.js:61-66 | an `a` ends with rel="noopener noreferrer"; an existing non-empty target is kept and any other becomes `_blank` |
| Sanitize.CleanedAttrsAreClean | assets/js/sanitize.js:45-66 | the attributes left on an allowed element are clean: none the pass removes, plus the hardening of `a` |
| Sanitize.Unwrap | assets/js/sanitize.js:37-41 | the children move, in order, into the fragment |
| Sanitize.SanitizeNode | assets/js/sanitize.js:33-71 | the method's replacement of a node is `Sanitized`: a disallowed element gives its children untouched, and an allowed one gives itself with cleaned attributes and sanitized children; a tag is looked up by its `toLowerCase`, which maps U+212A to 'k' |
| Sanitize.SanitizedSingle | assets/js/sanitize.js:34 | non-element nodes are left untouched |
| Sanitize.AllowedElementKept | assets/js/sanitize.js:44-70 | an allowed element keeps its tag, gets clean attributes, and has each original child sanitized in order |
| Sanitize.SanitizedListAppend | assets/js/sanitize.js:69-70 | children are sanitized one after another, in order |
| Sanitize.UnwrappedChildrenSurvive | assets/js/sanitize.js:36-43 | any element whose tag is not allowed is replaced by its children, unvisited and in order, between the sanitized siblings before and after it |
| Sanitize.UnwrappedInsideKept | assets/js/sanitize.js:36-43 | a disallowed element inside an allowed one hands its children to it unvisited, so a disallowed grandchild stays and the output is not clean |
| Sanitize.ScriptInsideDivSurvives | assets/js/sanitize.js:36-43 | the tree of `<blockquote><div><script>alert(1)</script></div></blockquote>`, which the parser nests as written, keeps the script element in sanitizeNode's output; it shows in sanitizeHtml once that sanitizes the body's children |
| Sanitize.KelvinSignTagKept | assets/js/sanitize.js:34-36 | a tag spelled with U+212A KELVIN SIGN lowers to the allowed blockquote and is kept, with cleaned attributes and sanitized children |
| Sanitize.DocumentBody | assets/js/sanitize.js:77-78 | `doc.body` is the first body or frameset child of the html element, and null when there is none |
| Sanitize.SanitizeHtml | assets/js/sanitize.js:73-79 | "" for empty input; otherwise the body is sanitized and the children of the resulting document body are returned, or the failure of reading a null body |
| Sanitize.BodyIsUnwrapped | assets/js/sanitize.js:77 | the body itself is never allowed, so it is unwrapped |
| Sanitize.SanitizeHtmlFailsUnlessNestedBody | assets/js/sanitize.js:73-79 | for a non-empty input, sanitizeHtml fails iff the body has no body or frameset child, which holds for every ordinary document |
| Sanitize.IntendedIsClean | assets/js/sanitize.js:33-71 | the corrected sanitizer, which visits unwrapped children, leaves only allowed elements with clean attributes at every depth |
| Sanitize.SanitizeHtmlIntendedIsClean | assets/js/sanitize.js:73-79 | the corrected sanitizeHtml always succeeds and returns clean content |
| Sanitize.IntendedAgreesOnAllowedTrees | assets/js/sanitize.js:33-71 | where nothing needs unwrapping, the corrected and the written sanitizer agree |
| Pagination.GetPageParam | assets/js/pagination.js:2-6 | always at least 1; the decimal prefix parsed from the value ("1" when missing or empty) when that is at least 1, otherwise 1 |
| Pagination.ParseIntOfInt | assets/js/pagination.js:4 | parseInt reads back what String writes for every integer |
| Pagination.PageParamRoundTrip | assets/js/pagination.js:2-6 | a page number n >= 1 in the address is read back as n, with trailing non-digits ignored |
| Pagination.MissingPageIsFirst | assets/js/pagination.js:4-5 | a missing or empty page parameter is page 1 |
| Pagination.Paginate | assets/js/pagination.js:8-14 | totalPages is max(1, ceil(n / perPage)); the page is clamped to totalPages and lies in [1, totalPages]; the slice is that page's items and holds at most perPage of them |
| Pagination.PaginateCovers | assets/js/pagination.js:9-12 | totalPages is the least page count that holds every item, and the page shown holds an item unless there is none |
| Pagination.CeilDivBounds | assets/js/pagination.js:9 | the ceiling holds n items with no empty last page |
| Pagination.FirstPagesArePrefix | assets/js/pagination.js:11-12 | pages 1..k together are the first k * perPage items |
| Pagination.AllPagesReproduceItems | assets/js/pagination.js:8-14 | concatenating pages 1..totalPages gives back the items exactly |
| Pagination.CreateLink | assets/js/pagination.js:25-34 | a control has an href iff it is neither disabled nor current, and the href is basePath, the query prefix and the page |
| Pagination.PushRange | assets/js/pagination.js:40 | the for loop appends the page numbers lo..hi, in order |
| Pagination.BuildPages | assets/js/pagination.js:38-49 | the statements that fill the pages array build `PageMarks` |
| Pagination.AppendMarks | assets/js/pagination.js:51-59 | one entry per element of the pages array, appended in order |
| Pagination.Render | assets/js/pagination.js:16-64 | the container holds exactly `Entries` |
| Pagination.Entries | assets/js/pagination.js:17-18 | render appends nothing iff there is at most one page |
| Pagination.FewPagesAllListed | assets/js/pagination.js:39-40 | with at most seven pages, pages 1..N are listed in order, with no ellipsis |
| Pagination.WindowShapes | assets/js/pagination.js:41-49 | with more than seven pages, the seven shapes of the array, one per position of the current page |
| Pagination.WindowedPages | assets/js/pagination.js:41-49 | page 1 first and N last; an ellipsis after page 1 iff current > 3 and before N iff current < N - 2; the pages shown are exactly 1, N and the current page's neighbours |
| Pagination.ChainFromOrdered | assets/js/pagination.js:41-49 | an array built as a chain of numbers and gaps is ordered |
| Pagination.PagesOrdered | assets/js/pagination.js:38-49 | page numbers strictly increase, so each appears once; neighbours differ by one; an ellipsis stands exactly where pages are skipped |
| Pagination.TenPagesFromFirst | assets/js/pagination.js:41-49 | ten pages opened at the first gives 1 2 … 10 |
| Pagination.CurrentPageShown | assets/js/pagination.js:38-49 | the current page is always listed |
| Pagination.EntriesLayout | assets/js/pagination.js:36-63 | Prev first (disabled iff current <= 1), Next last (disabled iff current >= N); between them an ellipsis per gap and per page a control that is current iff it is the current page and links there iff it is not |
| ContentLoader.FilterPublished | assets/js/content-loader.js:25-26 | keeps only truthy items with status "published" and the requested lang, and keeps every such item |
| ContentLoader.FilterPublishedAppend | assets/js/content-loader.js:25-26 | filtering keeps the relative order of what it keeps |
| ContentLoader.SortByDateDesc | assets/js/content-loader.js:15-23 | a permutation of the input, sorted by the comparator |
| ContentLoader.NormalizeCollection | assets/js/content-loader.js:28 | when posts is an array its items are the result; [] when it is missing or not an array |
| ContentLoader.NormalizeGallery | assets/js/content-loader.js:30 | when albums is an array its items are the result; [] when it is missing or not an array |
| ContentLoader.ManifestArrayLoaded | assets/js/content-loader.js:28-42 | a manifest holding an array under posts or albums loads the published items of the language from exactly that array, sorted |
| ContentLoader.LoadedItems | assets/js/content-loader.js:32-36 | exactly the published items of the language, each as often as given; valid dates before invalid ones, newest first; equal dates in manifest order |
| ContentLoader.GetCollectionAndGallery | assets/js/content-loader.js:32-42 | a failed fetch is passed on; otherwise only published items of the language, in sorted order |
| DateOrder.Compare | assets/js/content-loader.js:16-23 | the comparator is 0 iff the two dates are equal or both invalid, and negative iff the first is valid and newer or the second is invalid |
| DateOrder.CompareAntisymmetric | assets/js/content-loader.js:16-23 | swapping the arguments flips the sign |
| DateOrder.CompareTransitive | assets/js/content-loader.js:16-23 | the comparator is transitive, a total preorder |
| DateOrder.SortSorted | assets/js/content-loader.js:15-23 | the sort's result is sorted |
| DateOrder.SortPermutes | assets/js/content-loader.js:15-23 | the sort's result is a permutation of its input |
| DateOrder.SortStable | assets/js/content-loader.js:19-22 | elements the comparator calls equal keep their input order |
| DateOrder.NewestFirst | assets/js/content-loader.js:17-21 | sorted means valid dates before invalid ones, newest first |
| ContentIndex.SafeString | scripts/generate-content-indexes.mjs:42-45 | null and undefined give "", and a string is itself; anything else gives String(value) |
| ContentIndex.NormalizeId | scripts/generate-content-indexes.mjs:64-68 | a defined id decides alone: its trimmed text, or the file name when that is blank, whatever content_id holds; with id nullish the same holds for content_id, then translation_id; all three nullish give the file name |
| ContentIndex.IdDecidesAlone | scripts/generate-content-indexes.mjs:64-68 | with id defined, content_id and translation_id have no influence on the result |
| ContentIndex.NormalizeSlug | scripts/generate-content-indexes.mjs:70-73 | the trimmed slug when it is not blank; the file name whenever the trimmed slug is blank |
| ContentIndex.NormalizeImages | scripts/generate-content-indexes.mjs:75-91 | an array, even an empty one, gives `ImageList` of its elements; anything else gives []; every image kept is non-empty and trimmed |
| ContentIndex.ImageText | scripts/generate-content-indexes.mjs:79-85 | a string element is itself; an object gives its image string, else its url string; anything else gives "" |
| ContentIndex.ImageListTrimmed | scripts/generate-content-indexes.mjs:78-88 | the images kept are non-empty and trimmed |
| ContentIndex.ImageListSingle | scripts/generate-content-indexes.mjs:78-88 | one element gives its trimmed image text, or nothing when that is blank |
| ContentIndex.ImageListAppend | scripts/generate-content-indexes.mjs:78-88 | the chain works element by element and keeps their order |
| ContentIndex.NormalizeStatus | scripts/generate-content-indexes.mjs:112 | never empty; the trimmed status, or "draft" when missing, falsy or blank |
| ContentIndex.ParseMarkdownEntry | scripts/generate-content-indexes.mjs:93-132 | a read error is the file's failure; a front-matter error is "Frontmatter parse failed for" the path and the message; otherwise the entry is `BuildEntry` of the front matter, the body, the file name, the language and the collection |
| ContentIndex.BuildEntry | scripts/generate-content-indexes.mjs:93-132 | the record has the normalised id, slug, status and images, the trimmed title, cover_image, description and excerpt, normalizeDate of the date field, the gallery or post shape by collection, and the trimmed body or else the trimmed `body_markdown or body` field |
| ContentIndex.ValidateEntry | scripts/generate-content-indexes.mjs:134-153 | the error list is one message per blank required field, in the fixed order: title, date, slug, then the collection's own fields |
| ContentIndex.MissingEmptyIff | scripts/generate-content-indexes.mjs:134-153 | no message iff no required field is blank |
| ContentIndex.MissingNamesBlank | scripts/generate-content-indexes.mjs:134-153 | every blank field is reported, and every report names a blank field |
| ContentIndex.ValidIffComplete | scripts/generate-content-indexes.mjs:134-153 | validation passes iff the entry is complete; a gallery without images is never complete |
| ContentIndex.FailureLine | scripts/generate-content-indexes.mjs:174-187 | a file gives one failure line iff it is not kept |
| ContentIndex.SameOrderAsLoader | scripts/generate-content-indexes.mjs:191-198 | the build comparator is the loader's comparator on the parsed dates, and 0 iff the two dates parse alike |
| ContentIndex.IndexDirectory | scripts/generate-content-indexes.mjs:169-198 | the directory loop parses each file with parseMarkdownEntry, keeps exactly the kept entries, sorted, and gathers every failure line in file order |
| ContentIndex.DirectoryEntriesShaped | scripts/generate-content-indexes.mjs:108-131 | every entry kept from a directory has that directory's language, a non-empty status, and the gallery shape exactly when the collection is gallery |
| ContentIndex.IndexEntriesShaped | scripts/generate-content-indexes.mjs:165-198 | every entry of a collection's index for a language has that language, and the gallery shape exactly in the gallery collection |
| ContentIndex.KeptOrReported | scripts/generate-content-indexes.mjs:169-188 | every file is either kept or reported, never both |
| ContentIndex.DraftsKept | scripts/generate-content-indexes.mjs:174-184 | drafts that were read are always kept |
| ContentIndex.KeptPublishedComplete | scripts/generate-content-indexes.mjs:175-182 | a kept published entry is complete |
| ContentIndex.DirectoryIndexOrdered | scripts/generate-content-indexes.mjs:191-198 | a directory index holds the kept entries, each as often, sorted newest first, with entries of the same date in file order |
| ContentIndex.IndexCollection | scripts/generate-content-indexes.mjs:165-203 | one index per language of the collection, and its failures in order |
| ContentIndex.Run | scripts/generate-content-indexes.mjs:161-210 | twelve indexes, one per collection and language; all failures gathered; exit status 1 iff there is any failure |
| AssetPaths.HtmlFiles | scripts/normalize-html-asset-paths.py:8-15 | the listing in order, without pages whose first component is .git or admin |
| AssetPaths.HtmlFilesSkip | scripts/normalize-html-asset-paths.py:12-13 | a page is processed iff it is listed and not under .git or admin |
| AssetPaths.DepthPrefix | scripts/normalize-html-asset-paths.py:18-20 | "../" once per directory the page lies in, max(0, parts - 1) times |
| AssetPaths.PrefixReachesRoot | scripts/normalize-html-asset-paths.py:18-20 | resolving the prefix from the page's directory reaches the site root |
| AssetPaths.StylesheetRewritten | scripts/normalize-html-asset-paths.py:26-30 | `href="V"` with V not remote and ending in css/main.css becomes `href="{prefix}css/main.css"` |
| AssetPaths.LastSegment | scripts/normalize-html-asset-paths.py:33 | a script name has no slash, so it is what follows the last `/` |
| AssetPaths.ScriptSplitUnique | scripts/normalize-html-asset-paths.py:33 | at most one split of the value fits the script pattern |
| AssetPaths.ScriptTargetMeans | scripts/normalize-html-asset-paths.py:32-36 | the script pattern matches iff the value ends in assets/js/ and a script name, and writes prefix + assets/js/ + that name |
| AssetPaths.ScriptRewritten | scripts/normalize-html-asset-paths.py:32-36 | `src="P assets/js/NAME"` with NAME a script name and the value not remote becomes `src="{prefix}assets/js/NAME"` |
| AssetPaths.LastImageSplit | scripts/normalize-html-asset-paths.py:39 | the greedy prefix takes the last occurrence of assets/img/ that is followed by something |
| AssetPaths.ImageTargetMeans | scripts/normalize-html-asset-paths.py:38-42 | the image pattern matches iff assets/img/ occurs with text after it, and keeps the text after the last such occurrence |
| AssetPaths.ImageRewritten | scripts/normalize-html-asset-paths.py:38-42 | `src="V"` becomes `src="{prefix}assets/img/REST"` with REST after the last occurrence |
| AssetPaths.AttrMatch | scripts/normalize-html-asset-paths.py:26-42 | a match starts with the attribute and its quote and ends at the value's closing quote |
| AssetPaths.AttrMatchAt | scripts/normalize-html-asset-paths.py:26-42 | at an attribute, a pattern matches iff the value is not remote and the rule accepts it, and the match covers attribute, value and quote |
| AssetPaths.Rewrites | scripts/normalize-html-asset-paths.py:26-42 | a matched attribute is replaced and the scan resumes after its closing quote |
| AssetPaths.RemoteValue | scripts/normalize-html-asset-paths.py:27 | the lookahead sees only the value, since no quote occurs in http:// or https:// |
| AssetPaths.RemoteKept | scripts/normalize-html-asset-paths.py:27 | no pattern matches at a value starting with http:// or https://, so the attribute is copied |
| AssetPaths.SubUnchanged | scripts/normalize-html-asset-paths.py:23-44 | a text in which no match starts is left as it is |
| AssetPaths.RemoteOnlyUnchanged | scripts/normalize-html-asset-paths.py:23-44 | a page whose stylesheet and script/image references are all remote is left exactly as it is |
| AssetPaths.Writes | scripts/normalize-html-asset-paths.py:52-60 | at most one write per page |
| AssetPaths.NormalizeSite | scripts/normalize-html-asset-paths.py:47-62 | every kept page is scanned; the files written are `Writes` of them; changed counts the writes and never exceeds scanned |
| AssetPaths.WritesExactlyChanged | scripts/normalize-html-asset-paths.py:56-60 | a file is written iff its normalised text differs from its text, and it is written with that text |
| Text.TrimIdempotent | assets/js/news.js:145 | trimming twice is trimming once |
| Text.SplitJoin | assets/js/news.js:109 | joining the pieces of a split at "\n" gives back the text |

## Left out

- DOM assembly is not modelled: the list and detail cards in news.js and blog.js, formatDate and Intl.DateTimeFormat. Neither are the event handlers and timers of the other scripts. None of this changes a value the core computes.
- fetchManifest and fetch: the network. A fetch outcome (`Result<Value, string>`) is an argument of `ContentLoader.GetCollection` and `ContentLoader.GetGallery`. The async/await plumbing is not modelled.
- JavaScript `Date` parsing (parseDate in content-loader.js, the two `new Date` in the build comparator) is foreign code. It becomes a date-parser argument returning a time or None. `normalizeDate` is a further argument, because it delegates to `Date` and `toISOString`.
- Values has no Date: the front-matter parser gives an unquoted `date: 2024-05-01` as a Date object. The abstract `normalizeDate` absorbs the date field, but `String(Date)` of a Date in any other field (title, slug, id) is not modelled.
- sanitize.js: DOMParser and innerHTML serialisation are not modelled. A parsed tree goes in and the resulting children come out. `new URL` becomes a protocol function (`UrlParser`), with None where the constructor throws.
- The choice in news.js:238-240 is left out. That is the line that picks `body_html` over rendered Markdown and calls the sanitizer only when it is defined. It is glue.
- generate-content-indexes.mjs is modelled from the outcome of reading a file and running gray-matter on it onwards. isFile, listMarkdownFiles, readFile, gray-matter, writeJson, console output and process.exit are file and process I/O or a foreign library. A directory's files arrive as a path, a file name and either a read error, a front-matter error or the front matter and body (`ContentIndex.SourceFile`); parseMarkdownEntry and the record it builds are modelled inside the directory loop. `ContentIndex.Run` returns the failures and the exit status instead of printing them.
- normalize-html-asset-paths.py: rglob, relative_to, read_text and write_text are file I/O. So is decoding with errors="ignore" and the final print. The listing and a reading function are arguments, and the files written are returned with the two counters.
- Numbers are integers. The Values model has no floating point, and Math.ceil in paginate is integer ceiling division.
- The t() label lookup in pagination.js becomes a label value (Prev, Next or a page number), not the translated text.
- The `requestedPage >= 1` precondition of `Pagination.Paginate` is what getPageParam guarantees to every caller. paginate itself clamps only from above.
- withBasePath and withBaseAsset: the regular expressions at news.js:8 and 13 are written with doubled backslashes. Read literally, they are not what the code evidently means. The model strips one leading `/`, and treats `//`, `http://`, `https://`, `data:` and `mailto:` as absolute, with the scheme in any case.
- The HTML parser's guarantee that no attribute name occurs twice on an element is a precondition of `Sanitize.CleanAttributes` and, through `Sanitize.Parsed`, of `Sanitize.SanitizeNode` and `Sanitize.SanitizeHtml`; it holds for foreign (SVG, MathML) elements as well. Names are not assumed lower case. `removeAttribute` is modelled as an exact name match. The DOM does that on foreign elements. On HTML elements it lower-cases its argument, which changes nothing because the parser has already lower-cased their attribute names. DOMParser itself is not modelled.

## Findings

| source | as written | input that shows it | evidently intended | confidence | as-written member | corrected member |
|---|---|---|---|---|---|---|
| assets/js/sanitize.js:36-43 | a disallowed element is replaced by its children and the function returns; the parent iterates a snapshot taken before the replacement, so those children are never visited | `<blockquote><div><script>alert(1)</script></div></blockquote>`, which the parser nests as written: the script element survives sanitizeNode, and survives sanitizeHtml once that sanitizes the body's children | the children of an unwrapped element are sanitized too | high (proved; not executed) | Sanitize.ScriptInsideDivSurvives | Sanitize.IntendedIsClean |
| assets/js/sanitize.js:77-78 | `sanitizeNode(doc.body)` unwraps the body itself, since body is not an allowed tag; doc.body is then null and reading its innerHTML throws | any non-empty input, e.g. `<p>hi</p>` | the sanitized content of the body is returned | high (proved; not executed) | Sanitize.SanitizeHtmlFailsUnlessNestedBody | Sanitize.SanitizeHtmlIntendedIsClean |
