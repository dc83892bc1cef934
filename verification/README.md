# webpro.nl page transformations, in Dafny

This project models the core of the webpro.nl site generator. It covers the
static build under `scripts/` and `build/` and the Astro site under `src/`:

- the syntax-tree passes that rewrite a page's HTML tree (hast) and its
  Markdown tree (mdast);
- the pure helpers around them: date formatting, meta tags, link tags,
  structured data, the blog and reference indexes, and the sitemap.

Both trees are one generic rose tree, `Unist.Tree<T> = Node(data, children)`:

- a document is the sequence of the root's children;
- a node is addressed by a `Path` of child indexes;
- mutation is modelled as a pure function from the old tree to the new one.

Four operations stand for `unist-util-visit`:

- `Unist.Walk` is the read-only walk. Its visitor returns `Continue`, `Skip`
  or `Exit`, and its declarative partner is the pre-order listing
  `Unist.Preorder`.
- `Unist.FindFirst` is the first node a walk stops at.
- `Unist.Rewrite` is the mutating walk. Its visitor updates a node's data,
  replaces the node (and skips its children) or throws.
- `Unist.EditChildren` is an edit of one parent's child list: a splice, an
  unshift or a slice.

The model also fixes these conventions:

- Thrown `TypeError`s are `Result.Throws`, and JavaScript `undefined` is
  `Option.None`.
- The constants of `scripts/constants.js` are a `Site.Constants` record.
  `Site.WebPro()` gives the site's own values.
- Dates are calendar days. `Dates.Short` is the `YYYY-MM-DD` of
  `toISOString().split('T')[0]`, and `Dates.Long` is `Month D, YYYY`.
- The formatter `f.iso` that `scripts/hast/doc.js` and
  `scripts/structured-content.js` call is a parameter
  (`Doc.IsoFormat`), because no `iso` is defined next to `short` and `long`.

## Model

| member | source | states |
|---|---|---|
| Unist.FindFirst | scripts/hast/std-helpers.js:31-39 | the node a walk stopping at the first match reaches is the first matching node in document order, and it sits at the path it is reported at |
| Unist.UpToExitFindsFirstMatch | scripts/hast/std-helpers.js:34-38 | a walk whose visitor exits on a match visits exactly the nodes up to and including the first match, and exits iff some node matches |
| Unist.WalkIsPreorder | scripts/hast/std-helpers.js:34-38 | a walk that never skips visits the pre-order listing of the tree, cut after the first node whose visitor exits |
| Unist.EditChildren | scripts/hast/std-helpers.js:49-63 | editing one parent's child list changes that list as asked and keeps the parent's own data and the number of root children |
| Unist.EditChildrenFrame | scripts/hast/std-helpers.js:49-63 | every node that is neither above nor below the edited parent is unchanged and at the same path |
| Unist.EditChildrenUndo | scripts/hast/std-helpers.js:49-63 | an edit followed by its inverse edit of the same parent gives back the original tree |
| Unist.Rewrite | src/remark/uncode.ts:5-10 | a mutating walk over a forest that completes keeps the number of nodes at that level and the ones already done |
| Unist.RewriteRelabel | src/remark/uncode.ts:5-10 | a visitor that only rewrites each node's own data yields the tree with every node's data mapped and the shape unchanged |
| Unist.RewriteContinuing | src/remark/directives.ts:35-59 | a visitor that only updates data in place never ends the walk early, and each node of the result is related to the node at the same place in the input |
| Unist.RewriteIdle | src/remark/directives.ts:35-59 | when the visitor leaves every node as it is, the walk returns the tree unchanged |
| Unist.RelabelIdempotent | src/remark/uncode.ts:6-8 | mapping every node's data twice with an idempotent map is mapping it once |
| StdHelpers.FindElement | scripts/hast/std-helpers.js:31-39 | the callback is called only on elements that match, in document order |
| StdHelpers.FindElementEvery | scripts/hast/std-helpers.js:33-37 | with a callback that never stops the walk, it is called on every matching element of the tree, in document order |
| StdHelpers.FindElementFirst | scripts/hast/std-helpers.js:33-37 | with a callback that returns `false`, it is called once, on the first matching element, or not at all |
| StdHelpers.Append | scripts/hast/std-helpers.js:47-53 | the elements are pushed at the end of the children of the first element with that tag; with no such element the tree is unchanged |
| StdHelpers.AppendFrame | scripts/hast/std-helpers.js:47-53 | append changes nothing outside the element it appends to |
| StdHelpers.AppendUndo | scripts/hast/std-helpers.js:47-53 | dropping the appended elements again gives back the original tree |
| StdHelpers.InsertBefore | scripts/hast/std-helpers.js:61-67 | the element is spliced in directly before the first matching element, in that element's parent; with no match the tree is unchanged |
| StdHelpers.InsertBeforeFrame | scripts/hast/std-helpers.js:61-67 | nothing outside the parent of the matching element changes |
| StdHelpers.InsertBeforeUndo | scripts/hast/std-helpers.js:61-67 | removing the inserted element again gives back the original tree |
| StdHelpers.InsertBeforeStylesheets | scripts/hast/std-helpers.js:74-81 | the element goes before the first `link` whose `rel` is or lists `stylesheet`; with no such link the tree is unchanged |
| StdPlugins.AddInlineScript | scripts/hast/std-plugins.js:44-49 | a `script` with the given type and content is appended to the first `body`; without a body nothing changes |
| StdPlugins.AddScript | scripts/hast/std-plugins.js:54-59 | a `script` with the given `src` is appended to the first `body`; without a body nothing changes |
| StdPlugins.DirectiveName | scripts/hast/std-plugins.js:72-73 | a name is found only when the whole text is `[[` word characters `]]`, and it is those word characters |
| StdPlugins.DirectiveNameOf | scripts/hast/std-plugins.js:72-73 | every `[[name]]` with a non-empty word name is recognised, with that name |
| StdPlugins.CollectDirectives | scripts/hast/std-plugins.js:66-78 | every call collected is for a paragraph with one child whose text names a registered directive, with that directive's function |
| StdPlugins.CollectDirectivesInOrder | scripts/hast/std-plugins.js:71-78 | the calls are exactly the registered directive paragraphs of the tree, in document order |
| StdPlugins.CollectDirectivesComplete | scripts/hast/std-plugins.js:71-78 | no registered directive paragraph is missed |
| StdPlugins.RunDirectives | scripts/hast/std-plugins.js:80-83 | a single call runs its directive on the tree |
| StdPlugins.RunDirectivesAppend | scripts/hast/std-plugins.js:80-83 | the calls run one after another, each on the tree the previous one left |
| StdPlugins.HandleDirectives | scripts/hast/std-plugins.js:64-86 | a tree without registered directive paragraphs is returned unchanged |
| StdPlugins.HandleDirectivesInert | scripts/hast/std-plugins.js:64-86 | when every directive leaves the tree as it is, the whole pass does too |
| LegacyHelpers.InsertFirstInParent | scripts/hast/helpers.js:39-47 | the element becomes the first child of the parent of the first element with the tag, not its preceding sibling; with no such element the tree is unchanged |
| LegacyHelpers.InsertFirstAtFront | scripts/hast/helpers.js:39-47 | when the tagged element is its parent's first child, this agrees with the newer insert-before |
| LegacyHelpers.InsertFirstDiffers | scripts/hast/helpers.js:39-47 | when it is not the first child, the two helpers give different trees |
| LegacyHelpers.InsertFirstUndo | scripts/hast/helpers.js:39-47 | removing the parent's first child again gives back the original tree |
| LegacyHelpers.LegacyInsertBeforeStylesheets | scripts/hast/helpers.js:54-62 | the element goes before the first `link` whose `rel` includes `stylesheet`, as a substring of a string or an item of a list; a `link` without `rel` does not match, and one whose `rel` is a number or a boolean throws |
| LegacyHelpers.LegacyStylesheetsAgree | scripts/hast/helpers.js:54-62 | when every link's `rel` is a list, the legacy helper agrees with the newer one |
| LegacyHelpers.AlternateStylesheetDiffers | scripts/hast/helpers.js:56 | a string `rel` of `alternate stylesheet` matches by substring in the legacy helper, but the newer helper compares whole list items, so it does not match there |
| LegacyHelpers.LegacyPageHeader | scripts/hast/helpers.js:101-109 | the legacy header keeps the logo block of the newer header but differs from it |
| LegacyHelpers.LegacyAddPageHeader | scripts/hast/helpers.js:101-111 | the header becomes the first child of the parent of the first `main` |
| LegacyHelpers.LegacyEnrichArticleHeading | scripts/hast/helpers.js:77-96 | on an article, the first `h1` and everything before it in its parent are replaced by a header holding the heading and the byline, and the rest is kept; any other page is unchanged |
| LegacyHelpers.LegacyFooterContent | scripts/hast/helpers.js:119-128 | an article's footer holds the feedback paragraphs only, without the newer footer's icons; other pages get an empty footer |
| LegacyHelpers.LegacyAddPageFooter | scripts/hast/helpers.js:116-131 | the footer is appended to the first `body` |
| LegacyHelpers.LegacyAddBootScript | scripts/hast/helpers.js:136-143 | when every link's `rel` is a list, the legacy boot script pass gives the same tree as the newer one |
| LegacyHelpers.IndexList | scripts/hast/helpers.js:176-183 | the list has class `index` and one entry per article, in the given order, each linking to the article's path with its title and short date |
| LegacyHelpers.LegacyAddBlogIndex | scripts/hast/helpers.js:172-194 | on the index page, the list becomes the first child of the first `main`; otherwise the tree is unchanged |
| Plugins.AddPageHeader | scripts/hast/plugins.js:21-33 | the logo and theme-switch header is inserted directly before the first `main` |
| Plugins.WrapFirstHeading | scripts/hast/plugins.js:46-53 | the first `h1` and everything before it in its parent become one header holding the heading and the byline; the rest of the parent's children follow it unchanged |
| Plugins.WrapFirstHeadingFrame | scripts/hast/plugins.js:46-53 | nothing outside the heading's parent changes |
| Plugins.EnrichArticleHeading | scripts/hast/plugins.js:38-55 | only an article's first heading is wrapped, with the author link and long date; other pages and pages without `h1` are unchanged |
| Plugins.UseSprite | scripts/hast/plugins.js:60-63 | the `svg` built for a sprite references that sprite id again |
| Plugins.ConvertSprites | scripts/hast/plugins.js:68-77 | every sprite `img` becomes the `svg` that uses it, everything else is kept in place, no sprite image is left, and a tree without one is unchanged |
| Plugins.SpritesConvertedByMap | scripts/hast/plugins.js:68-77 | the node-by-node replacement converts every sprite image and leaves none |
| Plugins.FooterContent | scripts/hast/plugins.js:85-102 | an article's footer holds the icons and the two feedback paragraphs, the index page's the icons only, any other page's nothing |
| Plugins.AddPageFooter | scripts/hast/plugins.js:82-106 | the footer with that content is appended to the first `body` |
| Plugins.AddBootScript | scripts/hast/plugins.js:111-118 | the theme boot script goes directly before the first stylesheet link |
| Plugins.AddSimpleAnalytics | scripts/hast/plugins.js:123-132 | the analytics script and its `noscript` image are appended, in that order, to the first `body` |
| BuildPlugins.OnPart | build/hast/plugins.js:30-31 | the ` on <date>` part is there exactly when there is a publication date |
| BuildPlugins.UpdatePart | build/hast/plugins.js:31-32 | the `(last update: <date>)` part is there exactly when there is a modification date |
| BuildPlugins.BuildByline | build/hast/plugins.js:28-33 | the byline starts with the author link and holds the publication and update parts exactly when those dates exist, each in a `time` element |
| BuildPlugins.EnrichArticleHeading | build/hast/plugins.js:20-41 | articles and scraps get their first `h1` wrapped with the byline; other pages are unchanged |
| BuildPlugins.MeData | build/hast/plugins.js:119-135 | an anchor whose `href` is one of the author's own addresses gets `rel="me"` and keeps every other property; any other node is unchanged |
| BuildPlugins.RelateMyLinksToMe | build/hast/plugins.js:118-137 | the pass maps every node through that update and keeps the tree's shape |
| BuildPlugins.RelateMyLinksToMeAt | build/hast/plugins.js:118-137 | every node keeps its path and its number of children, and only its data is updated |
| BuildPlugins.AddPreRenderScript | build/hast/plugins.js:72-99 | the origin-trial meta goes directly before the first stylesheet link (nowhere when there is none), and the speculation-rules script is appended to the end of `body` (nowhere when there is no `body`) |
| BuildDirectives.AddFigure | build/hast/directives.js:8-15 | the figure throws unless the directive's link holds an image and both references resolve; otherwise it shows the image's definition URL and alt text, and the caption links to the link's definition URL |
| BuildDirectives.Listed | build/hast/directives.js:19-21 | the listed entries are exactly the present metadata that are not drafts |
| BuildDirectives.ListedAppend | build/hast/directives.js:19-21 | the articles and the scraps are filtered independently and their results concatenated |
| BuildDirectives.AddBlogIndex | build/hast/directives.js:18-30 | the index needs both article and scrap lists, and is a `ul.index` of one entry per listed article or scrap |
| BuildDirectives.AddBlogIndexContents | build/hast/directives.js:18-30 | the index holds each listed article or scrap once per occurrence, latest first when all have dates |
| BuildDirectives.AddReferencesIndex | build/hast/directives.js:33-44 | the references index is a plain `ul` of the sorted references, empty when there are none |
| BuildDirectives.AddReferencesIndexSorted | build/hast/directives.js:33-44 | it lists every non-draft reference once per occurrence, and no title is followed by a smaller one |
| BuildDirectives.BuildDirectiveTable | build/hast/directives.js:47-51 | the static build registers exactly `BLOG_INDEX`, `REFERENCES_INDEX` and `FIGURE` |
| Doc.PlusJs | scripts/hast/doc.js:19 | `HOST + meta.image` starts with the host and continues with the image path, or with `undefined` when there is none |
| Doc.BaseTags | scripts/hast/doc.js:13-24 | there are ten base tags and none of them is a type-specific property |
| Doc.BaseTagsReadBack | scripts/hast/doc.js:13-17 | the author, description and URL can be read back from the base tags by name and by property |
| Doc.BaseTagsImage | scripts/hast/doc.js:18-19 | the `og:title` tag reads as the page's title, and the `og:image` and `twitter:image` tags read as the host followed by the page's image |
| Doc.TypeTags | scripts/hast/doc.js:25-40 | pages and the index get two extra tags, articles three or four, other types none |
| Doc.GetMetaTags | scripts/hast/doc.js:12-42 | the site name and `og:type` read `WebPro`/`website` on pages, `WebPro Blog`/`website` on the index and `WebPro Blog`/`article` on articles; an article's publication time is always present and its modification time only when set |
| Doc.ExtraTagsFound | scripts/hast/doc.js:25-40 | the type-specific properties read back from the whole list are the ones pushed for that type |
| Doc.GetLinks | scripts/hast/doc.js:48-64 | the links start with the canonical link, end with the prefetch link, and hold one stylesheet link per configured stylesheet, directly after the canonical one |
| Doc.GetLinksStylesheets | scripts/hast/doc.js:51 | the stylesheet links list the configured stylesheets in their order |
| Structured.ArticleImage | scripts/structured-content.js:67 | an article's image is its own, unless that is missing or empty, in which case it is the site's PNG logo |
| Structured.StructuredJs | scripts/structured-content.js:74-81 | an article gets `Article` with headline, description and a one-image list, every other type `WebSite` with the profile list; both keep the site's author and publisher, the page URL and the formatted dates |
| Structured.TsImage | src/structured-content.ts:48 | the image is the page's own when truthy, else the publisher's logo when truthy, else there is none |
| Structured.Keywords | src/structured-content.ts:31-33 | keywords are present exactly when there is at least one tag |
| Structured.KeywordsReadBack | src/structured-content.ts:31-33 | splitting the keywords on commas gives the tags back when no tag holds a comma |
| Structured.StructuredTs | src/structured-content.ts:21-66 | the record always has the page URL, dates and language; the keywords are the tags joined by `,`; the author is the `Person` with the given name and URL and the publisher the `Organization` with the `/#organization` id, name and logo URL, each present exactly when given; an article gets headline, description and, when there is one, the image; any other type becomes `WebSite` with its `sameAs` |
| Content.WithoutDrafts | src/helpers.ts:10-11 | the entries kept are exactly those with data that are not drafts, in their order |
| Content.WithoutDraftsIdempotent | src/helpers.ts:10-11 | removing drafts twice removes nothing more |
| Content.WithoutDraftsAppend | src/helpers.ts:10-11 | removing drafts from a concatenation is removing them from each part |
| Content.GetBlogIndex | src/helpers.ts:26-30 | it throws exactly when two or more entries are sorted and one has no date; otherwise it is a permutation of all entries when drafts are asked for, and of the non-draft entries when they are not |
| Content.GetBlogIndexLatestFirst | src/helpers.ts:13 | the blog index is latest first whenever it is computed from two or more entries |
| Content.SyncMetaData | src/helpers.ts:15-18 | the merged data has every key of both, the entry's own value where it has one and the frontmatter's value elsewhere |
| Content.StripTrailingSlash | src/helpers.ts:40 | one trailing slash is removed and nothing else |
| Content.StripTrailingSlashUndo | src/helpers.ts:40 | stripping undoes appending one slash |
| Content.Classify | scripts/build.js:47-58 | files under `articles/` are articles, then files under `scraps/` are scraps, `blog.md` is the blog, and everything else is a page |
| Content.DefaultStylesheets | scripts/build.js:25-34 | a page has the four base stylesheets, articles and scraps those four plus two, and other types have no default stylesheets |
| Sitemap.StripSource | src/pages/sitemap.txt.ts:8 | a leading `/src/content/` or `/src/pages/` is removed, and any other path is kept |
| Sitemap.StripSuffixAsWritten | src/pages/sitemap.txt.ts:8 | a path without a `.md`, `.mdx` or `.astro` extension is kept; otherwise the extension goes, and before it `/index` if the name ends in `/index`, else `index` if it ends in `index`, else nothing (the leftmost match) |
| Sitemap.StripSuffixAgreement | src/pages/sitemap.txt.ts:8 | the expression as written and the corrected strip differ exactly on names that end in `index` without being the segment `index` |
| Sitemap.StripSuffixCutsName | src/pages/sitemap.txt.ts:8 | the expression as written turns `reindex.md` into `re` |
| Sitemap.StripSuffix | src/pages/sitemap.txt.ts:8 | the extension is removed, and `index` is removed only as a whole last path segment |
| Sitemap.StripSuffixFolds | src/pages/sitemap.txt.ts:8 | `x.md` and `x/index.md` give the same path `x` |
| Sitemap.Paths | src/pages/sitemap.txt.ts:5-9 | the paths are exactly the site paths (source prefix and suffix stripped as written) of the pages whose `draft` is not `true` |
| Sitemap.Dedupe | src/pages/sitemap.txt.ts:5-9 | each path appears once, and no path is gained or lost |
| Sitemap.DocumentsSorted | src/pages/sitemap.txt.ts:11-14 | the sitemap lists the URL of the site path, as written, of every non-draft page exactly once, nothing else, in strictly ascending order |
| Sitemap.SitemapText | src/pages/sitemap.txt.ts:14 | no pages give an empty body, and otherwise the body, built from the site paths as written, ends with the last URL |
| Sitemap.SitemapLines | src/pages/sitemap.txt.ts:14 | reading the body line by line gives the URLs back |
| OrderLinks.OrderDefinitionsAsWritten | scripts/mdast/order-links.js:19-57 | the pass as written succeeds exactly when every reference has a definition |
| OrderLinks.OrderDefinitionsAsWrittenNumbers | scripts/mdast/order-links.js:32-56 | as written, the first reference to an identifier gets its number in first-use order and every later one keeps the old identifier; the old definitions are gone and one new definition per number is appended with the original title and URL |
| OrderLinks.WrittenAt | scripts/mdast/order-links.js:32-43 | a reference keeps its identifier exactly when that identifier was ordered before it, and otherwise gets its position in the final order |
| OrderLinks.RenumberWritten | scripts/mdast/order-links.js:32-43 | numbering as written gives the references the identifiers `Written` describes, in document order, and keeps the definitions |
| OrderLinks.OrderDefinitionsAsWrittenDangles | scripts/mdast/order-links.js:39-42 | a second reference to an already numbered definition keeps its old identifier, which no definition has any more |
| OrderLinks.OrderDefinitions | scripts/mdast/order-links.js:19-57 | the corrected pass succeeds exactly when every reference has a definition |
| OrderLinks.OrderDefinitionsNumbers | scripts/mdast/order-links.js:32-56 | references are numbered 1, 2, ... by first use, the same definition always gets the same number, the old definitions are gone, and one new definition per number is appended with the original title and URL |
| OrderLinks.OrderDefinitionsResolve | scripts/mdast/order-links.js:32-56 | every reference in the result resolves to the definition with the URL its original identifier had |
| OrderLinks.OrderDefinitionsShares | scripts/mdast/order-links.js:39-42 | in the corrected pass, two references to one definition both get its number |
| OrderLinks.FirstSeen | scripts/mdast/order-links.js:32-38 | the order of first use starts with what was already seen and holds every identifier once it is used |
| OrderLinks.RenumberOutcome | scripts/mdast/order-links.js:32-43 | numbering the references fails exactly when a reference has no definition, and otherwise records the identifiers in order of first use |
| OrderLinks.RenumberRelabels | scripts/mdast/order-links.js:32-43 | numbering the references in document order is the same as renaming each to its position in the order of first use |
| OrderLinks.PruneCollect | scripts/mdast/order-links.js:45 | removing definitions leaves none and keeps the references |
| OrderLinks.NewDefsCollect | scripts/mdast/order-links.js:47-56 | the appended definitions are one per number, in order, holding no references |
| MdastHelpers.FirstYaml | scripts/mdast/helpers.js:15 | the front matter source is the first `yaml` child of the root, if there is one |
| MdastHelpers.GetFrontMatter | scripts/mdast/helpers.js:13-21 | with no `yaml` child or a loader error the front matter is empty; otherwise it is what the loader returns for the first `yaml` child |
| MdastHelpers.GetFrontMatterRootOnly | scripts/mdast/helpers.js:15 | only the root's own children are looked at, never deeper nodes |
| MdastHelpers.GetDocumentTitle | scripts/mdast/helpers.js:26-35 | the title is the value of the first child of the first depth-1 heading in document order, `""` when there is none, and it throws when that heading is empty |
| MdastHelpers.RemoveDocumentTitle | scripts/mdast/helpers.js:40-47 | the first depth-1 heading is removed from its parent and nothing else changes; without one the tree is unchanged |
| MdastHelpers.RemoveDocumentTitleFrame | scripts/mdast/helpers.js:40-47 | nodes outside that heading's parent stay at their paths |
| MdastHelpers.RemoveDocumentTitleUndo | scripts/mdast/helpers.js:40-47 | putting the heading back at its index gives back the original tree |
| Remark.FirstTitleIndex | src/remark/heading.ts:5 | the title is the first top-level depth-1 heading, if there is one |
| Remark.MoveTitle | src/remark/heading.ts:4-10 | the frontmatter title is that heading's text (literal values, and the non-empty `alt` of images and image references) and the heading is removed from the top level; without one nothing changes |
| Remark.MoveTitleImageAlt | src/remark/heading.ts:7 | an image that opens the heading gives its `alt` to the title, so `# ![logo](x.png) Title` is titled `logo Title` |
| Remark.MoveTitleUndo | src/remark/heading.ts:4-10 | putting the heading back at its index gives back the original children |
| Remark.UncodeData | src/remark/uncode.ts:6-8 | a `code` node of language `shell` becomes `uncode` with its language, meta and value kept; every other node is unchanged |
| Remark.UncodePass | src/remark/uncode.ts:4-11 | the pass maps every node of the tree through that change |
| Remark.UncodeAt | src/remark/uncode.ts:4-11 | each node keeps its path and number of children, and only its data changes |
| Remark.UncodeLeavesNoShell | src/remark/uncode.ts:4-11 | no shell code block is left anywhere in the tree |
| Remark.UncodeIdempotent | src/remark/uncode.ts:4-11 | running the pass twice is running it once |
| Remark.WithHints | src/remark/directives.ts:45-56 | the data gains `hName` and `hProperties` from the element, and `hChildren` only for a registered directive; every other key keeps its value |
| Remark.DirectiveAction | src/remark/directives.ts:35-57 | non-directive nodes are untouched; a text directive after a sibling with a value not ending in a space becomes the text `:name`, and after one without a value it throws; a directive at index 0 or after a value ending in a space stays a directive; a registered one throws exactly when its function does and otherwise takes the hints of the element it returns, and an unregistered one takes those of `h(name, attributes)` without children |
| Remark.TransformDirectives | src/remark/directives.ts:34-60 | every node of the result is its input node at the same place, unchanged if it is not a directive, else turned into `:name` text (text directives only) or given the hints of its function's element or of `h(name, attributes)`; a document without text directives whose registered functions never throw does not throw |
| Remark.TransformDirectivesFirst | src/remark/directives.ts:36-43 | the first node is visited at index 0: when its visit throws the pass throws, and a directive there is never turned into text |
| Unist.RewriteNeverThrows | src/remark/directives.ts:35-59 | a visitor that only updates in place and never throws on the nodes of a document gets through the whole document |
| Remark.TransformDirectivesNone | src/remark/directives.ts:34-60 | a tree without directives is returned unchanged |
| Remark.OptProp | src/remark/directives.ts:24-27 | an `undefined` attribute value leaves the property out |
| Remark.AddFigure | src/remark/directives.ts:18-28 | it throws exactly when the directive has no first child, that child no first child, or that grandchild no first child; otherwise the `img` gets the definition URL of the innermost node's identifier and that node's `alt`, the caption links to the definition URL of the middle node's identifier and shows the `alt`, and a URL or `alt` that is missing is left out |
| Remark.AddFigureReadsBack | src/remark/directives.ts:18-28 | for a linked image reference whose two definitions are among the siblings, the `img` shows the image definition's URL and the image's `alt`, and the caption links to the link definition's URL with the same text |
| Remark.AddFigureInlineImage | src/remark/directives.ts:20-26 | a link around an inline image gives an `img` without `src` that carries the image's `alt`, and the caption shows that `alt` |
| Remark.SiteDirectives | src/remark/directives.ts:30-32 | the Astro site registers exactly `FIGURE` |
| ShellCode.MetaTitle | scripts/mdast/code.js:41-44 | a title is only found in present meta and is never empty |
| ShellCode.MetaTitleLastWins | scripts/mdast/code.js:41 | a `title=` entry at the end of the meta is the title, whatever comes before it |
| ShellCode.Header | scripts/mdast/code.js:44-50 | the header holds the buttons alone without a title, and buttons, title, buttons with one |
| ShellCode.LarsLine | scripts/mdast/code.js:20 | a line of four or more words is its first three words and the command, joined by spaces |
| ShellCode.ColorizeLine | scripts/mdast/code.js:12-36 | a lone `$` becomes prompt, space, cursor; `$command` becomes prompt and command; a plain line stays text; a `lars` line starts with user and directory spans, has a branch span iff its third word is longer than one character (then the fourth word is the prompt and the command starts at word five), and otherwise shows the third word as the prompt and the command from word four; every line ends in a newline; a `lars` line of fewer than three words throws |
| ShellCode.ColorizeLineKeepsText | scripts/mdast/code.js:12-36 | the colouring keeps the line's text: the rendered text is the line followed by a newline |
| ShellCode.ColorizeLines | scripts/mdast/code.js:11-37 | the lines render exactly when each line does |
| ShellCode.ColorizeLinesText | scripts/mdast/code.js:11-37 | the rendered text of all lines is the lines joined by newlines, plus a final newline |
| ShellCode.ColorizePromptsText | scripts/mdast/code.js:10-38 | the terminal's text is the code block's text plus a newline |
| ShellCode.BuildShell | scripts/mdast/code.js:40-57 | the terminal is a `section.terminal` holding the header and a `pre` with a `code` of the coloured lines |
| ShellCode.CodeJs | scripts/mdast/code.js:64-97 | shell code builds the terminal; text or unlabelled code gets a `no-highlight` code element; other languages get `language-<lang>`; the text is always the value plus a newline |
| ShellCode.ColorizeLineTs | src/remark/code.ts:11-26 | the Astro colouring throws on the same `lars` lines as the static build's; `$`, `$command` and plain lines end in `<br />`; a `lars` line has user and directory spans, a bare one-character prompt or a branch span followed by the fourth word, then space, cursor, space and the words from the fifth on, and no `<br />` |
| ShellCode.ColorizeLineTsText | src/remark/code.ts:17-22 | with a one-character third word, the rendered text starts at the fifth word and skips the fourth |
| ShellCode.ColorizeLineTsDropsWord | src/remark/code.ts:17-22 | `lars ~ $ ls -la` renders as `lars ~ $   -la` |
| ShellCode.ColorizeLineTsFixed | src/remark/code.ts:11-26 | the corrected colouring throws on the same lines and marks up lines the same way, except that after a one-character prompt the command starts at the fourth word |
| ShellCode.ColorizeLineTsFixedText | src/remark/code.ts:17-22 | the corrected colouring keeps every word of the command |
| ShellCode.ColorizeLineTsFixedKeepsWord | src/remark/code.ts:17-22 | `lars ~ $ ls -la` renders as `lars ~ $   ls -la` |
| ShellCode.ColorizeLinesTs | src/remark/code.ts:11-26 | the lines, each coloured as written, render exactly when each line does |
| ShellCode.CodeTs | src/remark/code.ts:28-46 | only shell code is handled; it becomes a `section.terminal` with the header and a focusable `pre` whose `code.language-shell` holds the lines coloured as written |
| Dates.MonthName | scripts/helpers.js:1-14 | month names come from the twelve English names and hold no space |
| Dates.Short | build/helpers.js:20 | `f.short` is undefined exactly for an undefined date, and its result parses back to the same date as `YYYY-MM-DD` |
| Dates.ShortParses | scripts/helpers.js:16 | the ISO date of every date parses back to that date |
| Dates.Long | build/helpers.js:22-23 | `f.long` is undefined exactly for an undefined date, and otherwise is the month name, the day, a comma and the year |
| Dates.LongFields | scripts/helpers.js:18-19 | the long date splits on spaces into month, `day,` and year |
| Dates.SortByDate | build/helpers.js:28 | sorting by date permutes the list, latest first whenever every entry has a date |
| Dates.SortByDateDescending | scripts/helpers.js:23 | the insertion sort by the date comparator leaves the dated list latest first |
| Dates.DateCmpAsymmetric | build/helpers.js:28 | the date comparator never puts two entries before each other |
| Mdast.FindDefinition | src/remark/directives.ts:15-16 | the definition found is the first sibling that is a definition with that identifier, and none is found for a missing identifier |
| Mdast.DefinitionUrl | build/hast/directives.js:4-5 | a URL is found exactly when such a definition exists, and it is the URL of the first definition of the identifier |

## Left out

- Reading and writing files, the watch mode, the search index, the feed and
  the HTML layouts of the build scripts are not modelled. They are I/O around
  the passes.
- The `markdown-rambler` package that the static build's `build/` plugins
  import `findElement`, `append` and `insertBeforeStylesheets` from is not
  part of this model. Its helpers are taken to behave like those of
  `scripts/hast/std-helpers.js`.
- Plugins.ConvertSprites and BuildPlugins' copies of `convertSprites`,
  `addBootScript` and `addSimpleAnalytics` (`build/hast/plugins.js:46-55`,
  `60-67`, `104-113`): one model serves for the copies, because they are
  identical to the ones of `scripts/hast/plugins.js`.
- LegacyHelpers: the legacy `append`, `addInlineScript`, `addScript` and
  `addSimpleAnalytics` (`scripts/hast/helpers.js:23-31`, `67-72`, `148-153`,
  `158-167`) do the same as the newer ones, so the newer members stand for them.
- `hastscript`'s normalisation is not modelled. An element is the tag, the
  properties and the children exactly as given, so `class` is not renamed
  and numbers are not turned into strings.
- `f.iso` is a parameter of Doc and Structured. It is not defined next to
  `short` and `long`, so what it returns is not modelled.
- The YAML loader is a parameter of MdastHelpers.GetFrontMatter. The logging
  of its errors is left out.
- GetFrontMatter: a loaded record is a map of strings, so what `yaml.load`
  returns for a document that is not a mapping cannot be represented. For
  example, `yaml.load("")` gives `undefined` and a lone scalar gives that
  scalar, and `getFrontMatter` returns either as it is.
- `new URL(entry, base)` in the sitemap and in `getUrl` is modelled as the
  base followed by the path. URL resolution, such as `..` segments and
  percent-encoding, is not modelled.
- `deepmerge` and `lodash.merge` are modelled field by field. The merged
  base records hold no arrays, so array merging never happens.
- Asynchronous behaviour is not modelled. `await` in `handleDirectives`,
  `getBlogIndex` and `syncMetaData` is a plain sequential step, and the
  collection loading of `getCollection` and `entry.render` is a parameter.
- Strings are sequences of characters. UTF-16 code units, case folding and
  the exact text of thrown error messages are not modelled.
- JavaScript's `in` also sees inherited properties, which the directive
  tables do not rely on. Directive tables are modelled as maps of their own
  keys.
- Remark.MoveTitle removes the heading by its index. The source filters by
  object identity, which removes the same single node.
- Remark.DirectiveAction: a text directive turned into text keeps only
  `:name`. Its attributes and label are dropped, as in the source.
- Dates are calendar days (year, month, day) in UTC. Times of day, time
  zones and invalid dates are not modelled.
- Dates.DateCmp: a missing date is `undefined`, which makes the comparison
  NaN. A YAML `null` date, which `+` turns into 0 (the epoch), is not told
  apart from a missing one.
- Sorting uses a stable insertion sort. The order the JavaScript engine
  gives to entries that compare equal is not promised, and no contract
  relies on it.
- BuildDirectives.AddReferencesIndexSorted: the comparator
  `a.title > b.title ? 1 : -1` never returns 0. Only the order between
  different titles is stated.
- Content.GetBlogIndex: the result is stated as a permutation (of all
  entries, or of the non-draft ones) and as latest first. Which of two
  entries with the same date comes first is not stated.

## Findings

| source | as written | input that shows it | evidently intended | confidence | as-written member | corrected member |
|---|---|---|---|---|---|---|
| scripts/mdast/order-links.js:39-42 | a reference to a definition that is already numbered takes `def.identifier` from the new list, but that list holds the original definitions, so the reference keeps its old identifier | a paragraph `[a][foo] [b][foo]` with the definition `[foo]: /x` | both references are renumbered to `1` and resolve to the new definition `1` | high, not executed | OrderLinks.OrderDefinitionsAsWritten, OrderLinks.OrderDefinitionsAsWrittenDangles, OrderLinks.OrderDefinitionsAsWrittenNumbers | OrderLinks.OrderDefinitions, OrderLinks.OrderDefinitionsShares, OrderLinks.OrderDefinitionsNumbers |
| src/remark/code.ts:18-22 | when the third word of a `lars` line is a single character, it is shown as the prompt but the fourth word is dropped, because only the words after it are joined into the command | the line `lars ~ $ ls -la` | the command `ls -la` is shown after the prompt, as `scripts/mdast/code.js` does | high, not executed | ShellCode.ColorizeLineTs, ShellCode.ColorizeLineTsDropsWord | ShellCode.ColorizeLineTsFixed, ShellCode.ColorizeLineTsFixedKeepsWord |
| src/pages/sitemap.txt.ts:8 | `(\/?index)?` also removes `index` at the end of a longer file name | the page `src/content/reindex.md` is listed as `re` | `index` is removed only as a whole path segment, which gives `reindex` | high, not executed | Sitemap.StripSuffixAsWritten, Sitemap.StripSuffixCutsName, Sitemap.StripSuffixAgreement | Sitemap.StripSuffix, Sitemap.StripSuffixFolds |
