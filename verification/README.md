# Muggelbude site core in Dafny

This project models the logic of the Muggelbude portfolio and blog site. The
site has two halves:

- **The build script** (`build/build.js`). It fetches each project's GitHub
  data into a JSON snapshot and rewrites relative README image paths. It
  indexes the Markdown blog posts by their frontmatter and fills the post
  and project page templates. It links `@mentions`, opens external links in
  a new tab, and writes `sitemap.xml` and the RSS feed.
- **The browser scripts.** These are a small Markdown renderer with a
  frontmatter parser (`js/markdown-parser.js`) and a caching GitHub API
  client (`js/github-api.js`). The project page (`js/project-page.js`)
  filters README images into a screenshot gallery and reads the release
  back from the build's snapshot. The last two are the dark/light theme
  switch (`js/theme.js`) and the mobile menu (`js/navigation.js`).

Every regular expression the code applies is written out as a scanning
function over `seq<char>`. Such a function tries a match at the front,
emits the replacement and continues after the match, or else copies one
character. Network answers, the clock, the JSON parser, base64 decoding, the
`marked` library and the date library arrive as parameters. Browser state
(`localStorage`, the document's attributes, CSS classes) is held in record
values, and event handlers are step functions over them.

Modules, one per file:

| file | module | models |
|---|---|---|
| text.dfy | Text | JavaScript string built-ins: `trim`, `split`, `join`, literal global `replace`, `toLowerCase`, `indexOf` |
| html_escape.dfy | HtmlEscape | `escapeHtml` of the Markdown renderer |
| markdown_inline.dfy | MarkdownInline | fenced code, inline code, bold and italic, links and images |
| markdown_lines.dfy | MarkdownLines | the line-anchored (`/gim`) rules: headings, items, quotes, rules |
| markdown_blocks.dfy | MarkdownBlocks | the `<ul>` wrap and the paragraph step |
| markdown.dfy | Markdown | `markdownToHtml` as the composition of all passes |
| frontmatter.dfy | Frontmatter | the client's `parseFrontmatter` and the build's inline frontmatter parser |
| http.dfy | Http | parsed JSON, responses and the GitHub endpoint URLs |
| api_client.dfy | ApiClient | the browser's cached GitHub client |
| readme_images.dfy | ReadmeImages | the two README image rewrites of the build |
| project_cache.dfy | ProjectCache | `githubFetch` and `buildProjectCache` |
| blog_index.dfy | BlogIndex | `buildBlogIndex` |
| post_links.dfy | PostLinks | mention links and new-tab marking of post bodies |
| pages.dfy | Pages | placeholder filling for post and project pages |
| xml_escape.dfy | XmlEscape | `escapeXml` |
| markup.dfy | Markup | counting tags in the generated XML |
| feeds.dfy | Feeds | `generateSitemap` and `generateRssFeed` |
| project_page.dfy | ProjectPage | the screenshot filter, `parseInt`, the project id and the cached release |
| theme.dfy | Theme | the theme manager |
| navigation.dfy | Navigation | the mobile menu manager |

The model proves these behaviours of the code as they stand:

- A bracketed frontmatter value such as `tags: [x, y]` makes the client
  parser throw. In `js/markdown-parser.js` the value becomes an array, and
  the following `startsWith` call on that array fails
  (`Frontmatter.ClientThrowsOnLists`). Only the build's parser yields lists.
- The README Markdown image rewrite is not idempotent in general:
  `ReadmeImages.MdNestedNotIdempotent` gives an input that a second pass
  changes. The external-link rewrite of post bodies, by contrast, is
  idempotent on every input (`PostLinks.ExternalIdempotent`).
- Italic spans cross lines and eat `* ` bullets
  (`MarkdownInline.ItalicEatsBullets`).
- An image with alt text becomes `!` plus a link
  (`MarkdownInline.ImageWithAltBecomesLink`).
- The first label of an e-mail domain is taken for a mention
  (`PostLinks.MentionInMailAddress`).
- Only the first `.md` leaves a slug (`BlogIndex.SlugOfDoubleExtension`).
- A frontmatter line with the key `__proto__` stores nothing in either
  parser, because assigning that key sets the object's prototype
  (`Frontmatter.ClientMetadata`, `Frontmatter.BuildMetadata`).

## Model

| member | source | states |
|---|---|---|
| Text.Trim | js/markdown-parser.js:93 | `trim()` yields the infix left after removing the white space at both ends: no white space at either end of the result, and only white space removed |
| Text.TrimOfTrimmed | js/markdown-parser.js:93 | trimming text without white space at its ends gives it back |
| Text.Split | js/markdown-parser.js:91 | `split(sep)` yields at least one piece, and no piece contains the separator |
| Text.JoinSplit | js/markdown-parser.js:91-93 | re-joining the pieces of a split with the same separator gives back the input, so a value keeps its later colons |
| Text.SplitAtChar | js/markdown-parser.js:91 | the first piece of a split at a character is the text before its first occurrence; the rest is split on its own |
| Text.ReplaceAllIsSplitJoin | build/build.js:199-202 | a literal global replacement equals splitting on the pattern and joining with the replacement |
| Text.ReplaceAllOnce | build/build.js:366-373 | a single occurrence whose first character occurs nowhere else is replaced in place |
| Text.Lower | js/project-page.js:168-169 | `toLowerCase` keeps the length and maps each character to its lower-case letter |
| Text.FindFrom | js/project-page.js:172-176 | finds the first occurrence at or after a position, and none exists exactly when it says so |
| Text.NatToStringRoundTrip | js/github-api.js:57 | reading back the decimal rendering of a number gives the number |
| HtmlEscape.Escape | js/markdown-parser.js:10-14 | `escapeHtml` never shortens its input |
| HtmlEscape.EscapeRoundTrip | js/markdown-parser.js:10-14 | decoding the four character references that text serialization emits gives back the original text |
| HtmlEscape.EscapeHasNoMarkup | js/markdown-parser.js:10-14 | escaped text holds no raw `<`, `>` or no-break space |
| HtmlEscape.EscapePlain | js/markdown-parser.js:10-14 | text without `&`, `<`, `>` or no-break space is left as it is |
| HtmlEscape.EscapeChars | js/markdown-parser.js:10-14 | every character of the escaped text comes from the input or from a character reference |
| MarkdownInline.WordRunWords | js/markdown-parser.js:17 | the language of a fence is the maximal run of `\w` characters |
| MarkdownInline.FencedBlock | js/markdown-parser.js:17-19 | a fenced block becomes one `<pre><code>` element whose language defaults to `text` and whose body is trimmed and escaped; the scan resumes after the closing fence |
| MarkdownInline.FencedFrame | js/markdown-parser.js:17-19 | text without a backtick holds no fenced block and is not escaped |
| MarkdownInline.FenceStraddle | js/markdown-parser.js:17 | the lazy body ends at the first closing fence: no three backticks start inside it |
| MarkdownInline.SpansFrame | js/markdown-parser.js:22-35 | inline code, bold and italic leave text without their delimiter unchanged |
| MarkdownInline.SpansRoundTrip | js/markdown-parser.js:22-35 | for text without `<` and a tag name without `/`, a span pass only inserts tags around runs, content unescaped: putting the delimiters back in place of the tags gives back the input |
| MarkdownInline.ItalicEatsBullets | js/markdown-parser.js:34-44 | italic's run crosses a newline, so two `* ` bullets become one `<em>` span and no line is left for the list rule |
| MarkdownInline.BracketAt | js/markdown-parser.js:38 | a link match ends inside the text after its start |
| MarkdownInline.LinksFrame | js/markdown-parser.js:38 | text without `[` is not changed by the link rule |
| MarkdownInline.ImagesFrame | js/markdown-parser.js:41 | text without `!` is not changed by the image rule |
| MarkdownInline.LinksCopy | js/markdown-parser.js:38 | where no link with text starts, the link rule copies the character |
| MarkdownInline.ImagesCopy | js/markdown-parser.js:41 | where no image starts, the image rule copies the character |
| MarkdownInline.ImageWithAltBecomesLink | js/markdown-parser.js:38-41 | links are rewritten first, so `![alt](src)` with alt text comes out as `!` plus an anchor |
| MarkdownInline.EmptyAltImage | js/markdown-parser.js:38-41 | only an image with empty alt text reaches the `<img … loading="lazy">` rule |
| MarkdownLines.Lines | js/markdown-parser.js:25-56 | a text has at least one line, and no line holds a line terminator |
| MarkdownLines.LinesOfMapLines | js/markdown-parser.js:25-56 | a line-anchored rule rewrites each line on its own and keeps the line terminators |
| MarkdownLines.MapLinesCompose | js/markdown-parser.js:25-56 | two line-anchored passes in a row equal one pass with the composed rewrite |
| MarkdownLines.MapLinesOneLine | js/markdown-parser.js:25-56 | on text without a line terminator a line-anchored pass rewrites the whole text once |
| MarkdownLines.PrefixRuleOneLine | js/markdown-parser.js:25-56 | no rule turns a single line into several |
| MarkdownLines.HeadingRulesKeepLines | js/markdown-parser.js:25-27 | the heading rules keep single lines single |
| MarkdownLines.ItemRulesKeepLines | js/markdown-parser.js:44-45 | the bullet rules keep single lines single |
| MarkdownLines.DigitRunEnd | js/markdown-parser.js:49 | the number of an ordered item is the maximal run of decimal digits |
| MarkdownLines.HeadingPassesPerLine | js/markdown-parser.js:25-27 | a line turned into a heading by one rule is left alone by the others: no line is wrapped twice |
| MarkdownLines.HeadingPasses | js/markdown-parser.js:25-27 | the three heading passes over a text classify each line exactly once |
| MarkdownLines.BulletPasses | js/markdown-parser.js:44-45 | the two bullet passes turn each `* ` or `- ` line with content into exactly one list item |
| MarkdownBlocks.ListSpan | js/markdown-parser.js:46 | the wrap spans from the first `<li>` to the last `</li>` that does not overlap it; there is no match exactly when no such pair exists |
| MarkdownBlocks.WrapListErase | js/markdown-parser.js:46 | only one `<ul>` … `</ul>` pair is inserted, at the ends of the span, and removing it gives back the input |
| MarkdownBlocks.ParaCases | js/markdown-parser.js:59-68 | a chunk is dropped exactly when it is blank and not a rendered block; otherwise it is kept as a block or becomes a paragraph whose text has no white space at its ends |
| MarkdownBlocks.ParagraphsOneChunk | js/markdown-parser.js:59-68 | text without a blank line is one chunk |
| Markdown.MarkdownToHtml | js/markdown-parser.js:4-5 | falsy (empty) input renders as the empty string |
| Markdown.InertPasses | js/markdown-parser.js:22-56 | every pass between the fence pass and the paragraph pass leaves markup-free text unchanged |
| Markdown.BoldEmphasis | js/markdown-parser.js:30-35 | bold runs before italic, so `**w**` gives exactly one `<strong>` element and no `<em>` |
| Markdown.BoldParagraph | js/markdown-parser.js:4-71 | rendering `**w**` yields exactly `<p><strong>w</strong></p>` |
| Markdown.StrongParagraph | js/markdown-parser.js:59-68 | a `<strong>` element is not a block, so the paragraph step wraps it in one `<p>` |
| Markdown.FencedParagraph | js/markdown-parser.js:4-71 | a one-line fenced block renders as one `<pre><code class="language-text">` element whose body, such as a `<script>` tag, has no raw `<` or `>` |
| Markdown.EscapedInert | js/markdown-parser.js:17-56 | an escaped fenced body triggers none of the later rules |
| Markdown.InertPipeline | js/markdown-parser.js:4-71 | text whose fence pass yields one inert `<pre>` line renders as that line |
| Frontmatter.Inner | js/markdown-parser.js:97-102 | `slice(1, -1)` drops exactly the first and last character, and is empty below two characters |
| Frontmatter.SplitLineAtFirstColon | js/markdown-parser.js:91-93 | a line is split at its first colon and the value keeps later colons; the line is skipped exactly when it has no colon or the colon comes first |
| Frontmatter.SplitLineParts | js/markdown-parser.js:91-92 | a line's entry is given by the first piece of its split and whether any piece follows |
| Frontmatter.Entries | js/markdown-parser.js:90 | one entry per line |
| Frontmatter.LastFor | js/markdown-parser.js:105 | the reference for duplicate keys: the value of the last line with the key, and none when no line has it |
| Frontmatter.CollectThrowsIff | js/markdown-parser.js:90-107 | the parse aborts exactly when some value fails to convert |
| Frontmatter.CollectLastWins | js/markdown-parser.js:105 | a stored key holds the converted value of its last line; other keys keep their prior value |
| Frontmatter.ParseFrontmatter | js/markdown-parser.js:74-83 | without a block (a newline after the closing `---` is required), metadata is empty and the content is the whole input; a failure is a `TypeError` |
| Frontmatter.ClientThrowsOnLists | js/markdown-parser.js:96-103 | the client parser throws exactly when a well-formed line has a bracketed value |
| Frontmatter.ClientCollectThrows | js/markdown-parser.js:96-103 | collecting the client's entries fails exactly when one of them is bracketed |
| Frontmatter.ClientMetadata | js/markdown-parser.js:85-109 | the content is everything after the closing `---`, and each key other than `__proto__` holds its last line's value with surrounding quotes removed; a `__proto__` line stores nothing |
| Frontmatter.BuildFrontmatter | build/build.js:247-248 | a post file has metadata exactly when it starts with a `---` block |
| Frontmatter.BuildMetadata | build/build.js:250-268 | each key of a post's metadata other than `__proto__` holds the converted value of its last well-formed line; a `__proto__` line stores nothing |
| Frontmatter.EmptyListValue | build/build.js:257-259 | `[]` becomes a list holding one empty string |
| Frontmatter.QuotedListValue | build/build.js:257-264 | quotes inside list elements are kept, since quote stripping applies to strings only |
| Frontmatter.StripBlock | build/build.js:280 | the post body is the input or a suffix at least nine characters shorter of a text starting with `---` |
| Frontmatter.StripBlockOf | build/build.js:280 | a text `---\n` + m + `\n---\n` + b, with no `\n---\n` in m before the closing delimiter, has body exactly b |
| Frontmatter.StripBlockParts | build/build.js:280 | conversely, a text with a block is the opening, a block text without an earlier closing delimiter, the closing `\n---\n` and the body |
| Frontmatter.StripBlockKeeps | build/build.js:280 | the body is the whole text exactly when the text has no block |
| Http.Member | js/github-api.js:129 | property access yields a value exactly for an object holding the key, and then that key's value |
| Http.EndpointsDistinct | js/github-api.js:48-61 | the repository, release, README and contents URLs of one repository all differ |
| ApiClient.Fetch | js/github-api.js:10-46 | a fresh entry answers without a request; a 404 gives `null` and stores nothing; another failure status throws; a parsed body is returned and stored with the time |
| ApiClient.FetchKeepsKeys | js/github-api.js:35-39 | entries are never evicted: a call adds or overwrites the one URL only |
| ApiClient.StoredThenFresh | js/github-api.js:3-39 | a stored response answers the same URL without a request for five minutes from the time it was stored, and not after |
| ApiClient.NotFoundMissesAgain | js/github-api.js:26-29 | after a 404 the next call for the URL goes to the network again |
| ApiClient.GetReadme | js/github-api.js:60-96 | `getReadme` never throws: failures give `null` and store nothing, and the raw text is stored under the README URL |
| ApiClient.StripSpaces | js/github-api.js:105 | stripping leaves no white space and never lengthens the text |
| ApiClient.StripSpacesKeeps | js/github-api.js:105 | text without white space is unchanged |
| ApiClient.StripSpacesIdempotent | js/github-api.js:105 | stripping twice is stripping once |
| ApiClient.StripSpacesConcat | js/github-api.js:105 | stripping distributes over concatenation |
| ApiClient.GetFileContent | js/github-api.js:98-117 | content comes back exactly when the fetch returns a body with a non-empty string `content` that decodes, and it is that decoding of the stripped text |
| ApiClient.GetIssueCount | js/github-api.js:127-130 | `open_issues_count` of a truthy body, 0 for a falsy one; errors propagate |
| ApiClient.MissingRepoHasNoIssues | js/github-api.js:26-130 | a repository that is not found has zero open issues |
| ReadmeImages.MdImageAt | build/build.js:111 | a Markdown image match starts with `!` and ends inside the text |
| ReadmeImages.MdRelative | build/build.js:110-113 | a relative Markdown image target gets the raw-content prefix, and the rest is rewritten on its own |
| ReadmeImages.MdAbsolute | build/build.js:110-113 | an `http(s)://` Markdown image is copied unchanged |
| ReadmeImages.MdIdempotent | build/build.js:110-113 | rewriting an image twice equals rewriting it once when no `!` occurs inside or after it |
| ReadmeImages.MdNestedOnce | build/build.js:110-113 | the outer target of a nested image swallows the inner image up to its `)` |
| ReadmeImages.MdNestedTwice | build/build.js:110-113 | on a second pass the outer image is absolute and copied, but the inner image is relative and rewritten |
| ReadmeImages.MdNestedNotIdempotent | build/build.js:110-113 | the Markdown image rewrite is not idempotent: a nested image changes on a second pass |
| ReadmeImages.LastSrcIs | build/build.js:117 | backtracking picks the last index where `src="` can start a match, and no match exists when there is none |
| ReadmeImages.ImgTagAt | build/build.js:117 | an `<img>` match starts with `<` and ends inside the text |
| ReadmeImages.ImgTagRelative | build/build.js:117 | a tag with a relative `src` is matched whole, with the attributes before `src="` as the group |
| ReadmeImages.ImgTagAbsolute | build/build.js:117 | a tag with an `http(s)://` `src` is not matched |
| ReadmeImages.ImgRelative | build/build.js:116-119 | a relative `<img src>` gets the prefix and keeps its other attributes |
| ReadmeImages.ImgAbsolute | build/build.js:116-119 | an absolute `<img>` tag is copied unchanged |
| ReadmeImages.ImgIdempotent | build/build.js:116-119 | rewriting a single tag twice equals rewriting it once |
| ReadmeImages.ReadmeMarkdownImage | build/build.js:110-119 | in a README, a relative Markdown image gets the prefix once; the `<img>` rewrite leaves it alone |
| ReadmeImages.ReadmeHtmlImage | build/build.js:110-119 | in a README, a relative `<img>` tag is left alone by the Markdown rewrite and gets the prefix from the tag rewrite |
| ProjectCache.GithubFetch | build/build.js:34-51 | `null` on 404, an error naming status and URL on any other failure status, otherwise the parsed body |
| ProjectCache.ReleaseOfFields | build/build.js:84-90 | each cached camelCase release field holds the body's value under its GitHub name |
| ProjectCache.RawDoc | build/build.js:98-171 | a document field is set exactly when its response is ok, and holds the rendering of the response text |
| ProjectCache.BuildProjectCache | build/build.js:54-187 | a snapshot is returned exactly when both required fetches return and the write succeeds, and it is the file written, under the project's id |
| ProjectCache.SnapshotFields | build/build.js:57-122 | a snapshot holds the project's fields and the build time; repository info and release only for truthy bodies (a 404 leaves them out); the README exactly when its response was ok, rendered after the image rewrite |
| ProjectCache.DocumentsNeverAbort | build/build.js:98-171 | README, CHANGELOG and ROADMAP failures never abort: two runs that agree on the required endpoints both store or both skip, and differ at most in the three documents |
| ProjectCache.RequiredFailureAborts | build/build.js:45-186 | a non-404 failure of the repository or release fetch returns `null` and writes nothing |
| BlogIndex.SlugOfName | build/build.js:271 | a name with `.md` only as its extension loses exactly the extension |
| BlogIndex.SlugOfDoubleExtension | build/build.js:271 | only the first `.md` is removed: `a.md.md` gives `a.md` |
| BlogIndex.MakePost | build/build.js:271-281 | a truthy frontmatter field is copied; a missing or falsy one becomes `Untitled` (title), `''` (date, author, excerpt) or `[]` (tags); the slug comes from the file name and the content is the text without its block |
| BlogIndex.MakePostDefaults | build/build.js:275-280 | without fields the post gets `Untitled`, empty date, author and excerpt, and no tags |
| BlogIndex.MarkdownFiles | build/build.js:233 | exactly the files ending in `.md` are kept |
| BlogIndex.MarkdownFilesConcat | build/build.js:233 | the filter keeps folder order: filtering a concatenation filters each part |
| BlogIndex.ReadPosts | build/build.js:242-284 | every post comes from a file with a block, and every such file gives a post |
| BlogIndex.ReadPostsConcat | build/build.js:242-284 | the read loop keeps folder order: reading a concatenation reads each part in turn |
| BlogIndex.Insert | build/build.js:287 | insertion adds the post to the sequence, a permutation |
| BlogIndex.InsertKeepsSorted | build/build.js:287 | inserting into a newest-first sequence keeps it newest first |
| BlogIndex.SortByDate | build/build.js:287 | the sorted posts are a permutation of the input, newest first |
| BlogIndex.WithKeyInsert | build/build.js:287 | insertion places a post before the older posts and after the equal-dated ones |
| BlogIndex.SortIsStable | build/build.js:287 | posts with the same date keep their folder order |
| BlogIndex.BuildBlogIndex | build/build.js:218-302 | no index, returning `undefined`, without a folder or Markdown files; the `catch` returning `[]` exactly when listing, a file read or the index write fails; otherwise the posts are sorted, a permutation of the parsed posts, and each index entry is its post without the content, in the same order; posts with the same date appear in the index in folder order |
| BlogIndex.IndexedPosts | build/build.js:233-284 | in a completed run, exactly the Markdown files with a block appear as indexed posts |
| PostLinks.UserRunEnd | build/build.js:346 | a user name is the maximal run of `[a-zA-Z0-9_-]` characters |
| PostLinks.MentionOf | build/build.js:345-351 | a mention followed by a non-name character becomes the avatar link and the name link |
| PostLinks.MentionInMailAddress | build/build.js:345-351 | in an e-mail address the domain's first label is taken for a user name |
| PostLinks.AnchorAt | build/build.js:355 | an anchor match starts with `<` and ends past `<a href="` |
| PostLinks.AnchorOfTag | build/build.js:355 | an `<a href="http(s)://…"…>` tag is matched whole, with its URL and the rest of the tag |
| PostLinks.SchemeOf | build/build.js:355 | the match needs an `http://` or `https://` scheme right after `href="` |
| PostLinks.ExternalRetargets | build/build.js:354-363 | a tag without `target=` or `user-mention` gains the new-tab attributes |
| PostLinks.ExternalKeeps | build/build.js:357-360 | a tag naming a target or a mention is kept as it is |
| PostLinks.ExternalNotAnchor | build/build.js:355 | a `<` that does not open an anchor is copied |
| PostLinks.NewTabNamesTarget | build/build.js:361 | the added attributes name a target, so a marked tag is kept by a later pass |
| PostLinks.AnchorLocal | build/build.js:355 | whether and how an anchor matches depends only on the text up to the end of the match |
| PostLinks.RetargetStable | build/build.js:354-363 | whatever the rewrite makes of a matched tag is matched again and kept by a second pass |
| PostLinks.NoPairCopies | build/build.js:355 | text in which no `"` is followed by a `>` holds no match and is copied |
| PostLinks.StepNone | build/build.js:355 | a position where no anchor matches still matches none after the text behind it has been rewritten |
| PostLinks.ExternalIdempotent | build/build.js:354-363 | marking external links twice equals marking them once, on every input |
| PostLinks.MentionLinksKept | build/build.js:349-363 | the links a mention produces are left alone by the new-tab rewrite |
| Pages.OtherPlaceholderKept | build/build.js:366-373 | replacing one placeholder leaves a different one alone |
| Pages.TagsHtml | build/build.js:332-336 | the tag list throws exactly for a non-empty text value, and is empty exactly for empty tags |
| Pages.PostPage | build/build.js:320-373 | a post page fails exactly when its tag list throws |
| Pages.PostPages | build/build.js:305-386 | one page per post in order, at `blog/posts/{slug}.html`; the first post whose page throws or whose file cannot be written stops the loop, and earlier pages remain |
| Pages.PostPageContent | build/build.js:342-372 | a template with only the content placeholder receives the rendered body unchanged |
| Pages.PostNamesBeforeContent | build/build.js:366-373 | the content placeholder is filled seventh and the slug last, after six plain names |
| Pages.OthersKept | build/build.js:366-373 | names other than `n` keep a template whose only placeholder is `n` |
| Pages.FillKept | build/build.js:366-373 | names whose replacement leaves a template alone can be skipped |
| Pages.FillStep | build/build.js:366-373 | filling proceeds one name after the other |
| Pages.ProjectPageName | build/build.js:199-202 | a template with only the name placeholder shows the project name |
| XmlEscape.FivePassesIsCharwise | build/build.js:503-508 | the chain of five replacements escapes each character on its own: later passes never touch the entities the `&` pass made |
| XmlEscape.EscapeEachHasNoSpecials | build/build.js:503-508 | escaped text holds no raw `<`, `>`, `"` or `'` |
| XmlEscape.EscapeEachRoundTrip | build/build.js:503-508 | a left-to-right decoder of the five predefined entities gives back the input of the escaper |
| XmlEscape.EscapeXml | build/build.js:501-509 | `escapeXml` output has no raw `<`, `>`, `"` or `'`, and decoding it gives back the input, the empty text included |
| Markup.CountConcat | build/build.js:396-431 | without a tag running across the seam, tag counts add up over concatenation |
| Markup.RenderCount | build/build.js:396-431 | rendered well-formed lines hold a tag exactly as often as there are lines that write it |
| Feeds.PostUrlsConcat | build/build.js:408-417 | post entries appear in the order of the posts |
| Feeds.ProjectUrlsConcat | build/build.js:420-429 | project entries appear in the order of the projects |
| Feeds.SitemapUrlCount | build/build.js:389-441 | the sitemap holds `1 + posts + projects` `<url>` tags |
| Feeds.Item | build/build.js:462-485 | an item throws exactly when the post's tags are a non-empty text, and the error is a `TypeError` |
| Feeds.Items | build/build.js:462-486 | the items of all posts, in order, exist exactly when no post throws |
| Feeds.Rss | build/build.js:444-498 | the feed is produced exactly when no post's tags throw |
| Feeds.ItemsConcat | build/build.js:462-486 | the items of two runs of posts follow each other |
| Feeds.OneItemEach | build/build.js:467 | each post contributes one `<item>` |
| Feeds.RssCounts | build/build.js:444-498 | the feed holds one `<item>` per post, an `<author>` per truthy author, a `<description>` for the channel and one per truthy excerpt, and a `<category>` per listed tag |
| ProjectPage.DigitRun | js/project-page.js:179 | `parseInt` reads the maximal run of digits |
| ProjectPage.RunValueDecimal | js/project-page.js:179 | decimal digit strings read as their value |
| ProjectPage.ParseIntOfNumber | js/project-page.js:179 | a printed number followed by a unit reads back as that number, e.g. `parseInt("640px")` is 640 |
| ProjectPage.Width | js/project-page.js:179 | a missing, unparsable or zero width counts as 999; otherwise the parsed width |
| ProjectPage.ScreenshotRule | js/project-page.js:167-190 | an image is a screenshot exactly when no exclusion hits, its width is at least 200, and it has a screenshot name or is wider than 400 |
| ProjectPage.ExclusionWins | js/project-page.js:172-176 | an exclusion hit rules an image out whatever its width |
| ProjectPage.NoWidthIncluded | js/project-page.js:179-187 | an image without a width and without an exclusion hit is included |
| ProjectPage.CaseBlind | js/project-page.js:168-169 | the filter ignores letter case in `src` and `alt` |
| ProjectPage.Screenshots | js/project-page.js:167-190 | exactly the images that pass the filter are kept |
| ProjectPage.ScreenshotsConcat | js/project-page.js:167-190 | the filter keeps README order |
| ProjectPage.FigureOf | js/project-page.js:199-204 | a figure shows the image source and its alt text, or `Screenshot` when the alt text is empty |
| ProjectPage.ShowScreenshots | js/project-page.js:192-206 | the section is hidden exactly when the grid is missing or nothing passed; otherwise one figure per screenshot, in order |
| ProjectPage.ProjectId | js/project-page.js:58 | an id exists exactly when the repository name has a `/` |
| ProjectPage.ProjectIdOf | js/project-page.js:58 | the id of `owner/name` is the lower-cased name |
| ProjectPage.RestoredRelease | js/project-page.js:63-69 | the restored release has exactly the five GitHub release keys |
| ProjectPage.ReleaseRoundTrip | js/project-page.js:63-69 | caching a release and restoring it gives back each release field of the body |
| ProjectPage.CachedRelease | js/project-page.js:56-75 | a cached release is found only when the id exists and the cache file holds a release |
| ProjectPage.ReadBack | js/project-page.js:58-69 | the page finds the snapshot under the project's id and restores its release |
| ProjectPage.BuildThenPage | js/project-page.js:58-69 | what the build stores, the page reads back: the release fields GitHub sent |
| Theme.Icon | js/theme.js:49-59 | the icon is a sun exactly in dark mode, a moon otherwise |
| Theme.InitialTheme | js/theme.js:8-20 | a saved choice wins, then the system preference (dark exactly when it prefers dark), then light |
| Theme.Apply | js/theme.js:40-61 | applying a theme sets the attribute and, if the button exists, its icon, and nothing else |
| Theme.Start | js/theme.js:3-27 | the page starts consistent, with the initial theme |
| Theme.Toggle | js/theme.js:63-67 | toggling gives dark exactly from light, saves the choice and keeps the page consistent |
| Theme.SystemChange | js/theme.js:30-37 | a system change is ignored when a choice is saved, and otherwise follows the system |
| Theme.ToggleTwice | js/theme.js:63-67 | toggling twice restores a light or dark page, with the choice now saved |
| Theme.ToggleThenSystem | js/theme.js:30-67 | after a toggle the system scheme no longer matters |
| Theme.ToggleSurvivesReload | js/theme.js:8-66 | after reloading, the page shows the theme last toggled to |
| Theme.RunConsistent | js/theme.js:22-67 | whatever events follow loading, the attribute and icon show the current theme |
| Navigation.Open | js/navigation.js:44-52 | opening activates the menu, button and overlay, sets `aria-expanded` to `true` and blocks scrolling |
| Navigation.Close | js/navigation.js:54-62 | closing clears all three, sets `aria-expanded` to `false` and resets scrolling |
| Navigation.Toggle | js/navigation.js:34-42 | the hamburger flips the menu |
| Navigation.Initial | js/navigation.js:2-12 | the page starts closed and consistent when `aria-expanded` is absent or `false` |
| Navigation.Step | js/navigation.js:9-31 | no listener acts unless all three elements exist; overlay and link clicks close; Escape closes only an open menu |
| Navigation.StepConsistent | js/navigation.js:14-62 | every listener keeps the flags equal, `aria-expanded` `true` exactly when open, and scrolling blocked exactly when open |
| Navigation.RunConsistent | js/navigation.js:14-62 | whatever the user does, the page stays consistent with the menu |
| Navigation.CloseIdempotent | js/navigation.js:54-62 | closing twice is closing once |
| Navigation.ToggleTwice | js/navigation.js:34-42 | two clicks on the hamburger restore the menu |
| Navigation.EscapeCloses | js/navigation.js:27-31 | Escape leaves the menu closed, and changes nothing on a closed menu |

## Left out

- Network and file-system I/O. Responses are a function from URL to `Response`, and the posts folder is a list of files. Failed reads and writes are parameters: a flag for the project snapshot and the blog index, a set of unreadable file names for the blog index, and a set of unwritable paths for the post pages. Reading the page templates and loading `marked` are assumed to succeed.
- The `marked` library, the JSON parser, base64/UTF-8 decoding (`atob`, `TextDecoder`) and the date library. They are function parameters; post dates are compared through an integer key function, so `NaN` dates are not modelled.
- The DOM. `innerHTML`, `querySelector`, listeners, `localStorage`, `matchMedia` and the browser's `img.src` resolution become state fields and parameters. `extractImages` of js/markdown-parser.js is not modelled because it only reads the DOM.
- The rendering of releases, repository statistics, changelog and roadmap on the project page (`loadRepositoryInfo`, `loadReleases`, `loadChangelog`, `loadRoadmap`, `loadReadme`). They only write DOM text.
- `Promise.all` concurrency, console logging and colours, the access-token header, and `generateHtmlSitemap` (fixed markup only).
- `$` patterns in replacement strings: substituted values are assumed to hold no `$`.
- Text.Lower: lower-cases ASCII letters only. Its uses are the screenshot filter (`ProjectPage`), the `i` flag of the external-link pattern (`PostLinks.SchemeEnd`, `PostLinks.AnchorAt`) and the project id (`ProjectPage.ProjectId`). The first two compare against ASCII text only, and no non-ASCII character lower-cases to an ASCII letter other than U+212A KELVIN SIGN (to `k`) and U+0130 (to `i` plus a combining dot), which cannot form `<a href="`, `http` or the filter words either way; the project id lower-cases repository names, which GitHub restricts to ASCII.
- Markdown.MarkdownToHtml: its own contract states only the empty case. The whole pipeline is stated on specific inputs by `Markdown.BoldParagraph`, `Markdown.FencedParagraph` and `Markdown.InertPipeline`.
- MarkdownBlocks.WrapListErase: does not state that ordered items, which are converted after the wrap, stay outside the `<ul>`.
- ReadmeImages.MdIdempotent: proved only when no `!` occurs inside or after the image, because the rewrite is not idempotent in general (`ReadmeImages.MdNestedNotIdempotent`).
- ReadmeImages.ImgIdempotent: proved for a single tag followed by text without `<`. A tag with two `src="` candidates is not covered.
- Feeds.SitemapUrlCount: assumes no slug, id or date text contains `<`, since such text would add tags of its own.
- Feeds.RssCounts: assumes no slug, publication date or author contains `<`, since authors are written without escaping.
- MarkdownInline.FencedBlock: assumes the body holds no three backticks and does not end in a backtick, so that the closing fence is the first one.
- MarkdownInline.SpansRoundTrip: proved only for text without `<` and tag names without `/`. Text that already holds a tag of the span's name would be read back as a delimiter, so no inverse exists in general.
