/**
 * The page-level HTML passes of `scripts/hast/plugins.js`, built on the
 * `std-helpers` primitives: page header, article heading, sprite
 * conversion, footer, boot script and analytics.
 */
module Plugins {
  import opened Util
  import opened Unist
  import opened Hast
  import opened Dates
  import opened Site
  import opened StdHelpers

  // ---------------------------------------------------------------------------
  // Page header.
  // ---------------------------------------------------------------------------

  const ThemeToggleId := "theme-toggle"

  /** `header[div.logo > a > img, label.theme-switch > button]`. */
  function PageHeader(logo: Logo): HTree {
    var img := El("img", map["src" := Str(logo.src), "width" := Num(32), "height" := Num(32), "alt" := Str(logo.alt)], []);
    var link := El("a", map["href" := Str(logo.href), "title" := Str("Go to homepage")], [img]);
    var div := El("div", map["class" := Str("logo")], [link]);
    var toggle := El("button", map[
      "type" := Str("button"), "id" := Str(ThemeToggleId), "role" := Str("switch"),
      "aria-label" := Str("Switch color theme"), "aria-checked" := Str("false")], []);
    var switch := El("label", map["class" := Str("theme-switch"), "for" := Str(ThemeToggleId)], [toggle]);
    El("header", map[], [div, switch])
  }

  /** `addPageHeader`: the header goes immediately before the first `main`. */
  function AddPageHeader(ns: seq<HTree>, logo: Logo): (r: seq<HTree>)
    ensures FirstTagged(ns, "main").None? ==> r == ns
    ensures FirstTagged(ns, "main").Some? ==> InsertedBefore(ns, r, FirstTagged(ns, "main").value.0, PageHeader(logo))
  {
    InsertBefore(ns, TagIs("main"), PageHeader(logo))
  }

  // ---------------------------------------------------------------------------
  // Article heading.
  // ---------------------------------------------------------------------------

  /** Replaces a children list by `header` followed by the entries after index `i`. */
  function KeepFrom(i: nat, header: HTree): seq<HTree> -> seq<HTree> {
    cs => if i < |cs| then [header] + cs[i + 1..] else cs
  }

  /**
   * `r` is `ns` with the node at `p` wrapped as `header[node, sub]`: the
   * header heads the parent's children, the siblings after the node follow
   * in order and the siblings before it are gone.
   */
  predicate HeadingWrapped(ns: seq<HTree>, r: seq<HTree>, p: Path, sub: HTree) {
    ValidPath(ns, p) && ValidParent(ns, ParentOf(p)) && ValidParent(r, ParentOf(p))
    && var before := ChildrenAt(ns, ParentOf(p));
       var after := ChildrenAt(r, ParentOf(p));
       var i := IndexOf(p);
       i < |before| && |after| == |before| - i
       && after[0] == El("header", map[], [before[i], sub])
       && after[1..] == before[i + 1..]
  }

  /** The callback the heading enrichers give `findElement(tree, 'h1', ...)`. */
  function WrapFirstHeading(ns: seq<HTree>, sub: HTree): (r: seq<HTree>)
    ensures FirstTagged(ns, "h1").None? ==> r == ns
    ensures FirstTagged(ns, "h1").Some? ==> HeadingWrapped(ns, r, FirstTagged(ns, "h1").value.0, sub)
  {
    var calls := FindElement(ns, TagIs("h1"), StopAtFirst());
    FindElementFirst(ns, TagIs("h1"), StopAtFirst());
    if |calls| == 0 then ns
    else
      var (p, n) := calls[0];
      ValidPathParent(ns, p);
      EditChildren(ns, ParentOf(p), KeepFrom(IndexOf(p), El("header", map[], [n, sub])))
  }

  /** Nodes outside the heading's parent are untouched. */
  lemma WrapFirstHeadingFrame(ns: seq<HTree>, sub: HTree, p: Path)
    requires FirstTagged(ns, "h1").Some? && ValidPath(ns, p)
    requires var q := ParentOf(FirstTagged(ns, "h1").value.0); !IsPrefix(q, p) && !IsPrefix(p, q)
    ensures ValidPath(WrapFirstHeading(ns, sub), p) && At(WrapFirstHeading(ns, sub), p) == At(ns, p)
  {
    var (f, n) := FirstTagged(ns, "h1").value;
    FindElementFirst(ns, TagIs("h1"), StopAtFirst());
    ValidPathParent(ns, f);
    EditChildrenFrame(ns, ParentOf(f), KeepFrom(IndexOf(f), El("header", map[], [n, sub])), p);
  }

  /** `div.meta["Published by ", a[name], " on ", long(published)]`; an undefined date adds nothing. */
  function Byline(author: Author, published: Option<Date>): HTree {
    El("div", map["class" := Str("meta")],
      [Txt("Published by "), El("a", map["href" := Str(author.href)], [Txt(author.name)]), Txt(" on ")]
      + OptTxt(Long(published)))
  }

  /** `enrichArticleHeading`: only article pages get their first `h1` wrapped. */
  function EnrichArticleHeading(ns: seq<HTree>, meta: Meta): (r: seq<HTree>)
    ensures meta.kind != "article" ==> r == ns
    ensures meta.kind == "article" && FirstTagged(ns, "h1").Some? ==>
      HeadingWrapped(ns, r, FirstTagged(ns, "h1").value.0, Byline(meta.author, meta.published))
    ensures FirstTagged(ns, "h1").None? ==> r == ns
  {
    if meta.kind == "article" then WrapFirstHeading(ns, Byline(meta.author, meta.published)) else ns
  }

  // ---------------------------------------------------------------------------
  // Sprites.
  // ---------------------------------------------------------------------------

  const SpriteSheet := "/img/sprites.svg#"

  /** The sprite id an `svg > use` reference points at, if it is one. */
  function SpriteRef(n: HTree): Option<string> {
    if HasTag(n, "svg") && |n.children| == 1 && HasTag(n.children[0], "use") then
      match Prop(n.children[0], "href")
      case Some(Str(h)) => if StartsWith(h, SpriteSheet) then Some(h[|SpriteSheet|..]) else None
      case _ => None
    else None
  }

  /** `useSprite(id)`: an `svg > use` pointing at `id` in the sprite sheet. */
  function UseSprite(id: string): (r: HTree)
    ensures SpriteRef(r) == Some(id)
  {
    var href := SpriteSheet + id;
    assert href[|SpriteSheet|..] == id;
    El("svg", map[], [El("use", map["href" := Str(href)], [])])
  }

  /** An `img` whose `src` contains `.svg#` (a missing `src` reads as "undefined", which does not). */
  predicate IsSpriteImg(n: HTree) {
    HasTag(n, "img") && Prop(n, "src").Some? && Contains(JsString(Prop(n, "src")), ".svg#")
  }

  /** `svg > use` with the image's `src` as `href`. */
  function SvgUse(src: PropValue): HTree {
    El("svg", map[], [El("use", map["href" := src], [])])
  }

  function SpriteStep(n: HTree): Step<HNode> {
    if IsSpriteImg(n) then Replace(SvgUse(Prop(n, "src").value)) else Update(n.data, Continue)
  }

  function SpriteVisitor(): (HTree, nat, seq<HTree>) -> Step<HNode> {
    (n: HTree, i: nat, siblings: seq<HTree>) => SpriteStep(n)
  }

  /** No sprite image anywhere in the document. */
  predicate NoSpriteImgs(ns: seq<HTree>)
    decreases ns
  {
    forall k :: 0 <= k < |ns| ==> !IsSpriteImg(ns[k]) && NoSpriteImgs(ns[k].children)
  }

  /**
   * `b` is `a` with every sprite image replaced, at the same index, by
   * `svg > use` carrying its `src`; every other node keeps its data and its
   * number of children.
   */
  predicate SpritesConverted(a: seq<HTree>, b: seq<HTree>)
    decreases a
  {
    |a| == |b|
    && forall k :: 0 <= k < |a| ==>
      if IsSpriteImg(a[k]) then b[k] == SvgUse(Prop(a[k], "src").value)
      else b[k].data == a[k].data && SpritesConverted(a[k].children, b[k].children)
  }

  /** `convertSprites`: every sprite image becomes `svg > use`, and the replacement is not descended into. */
  function ConvertSprites(ns: seq<HTree>): (r: seq<HTree>)
    ensures SpritesConverted(ns, r)
    ensures NoSpriteImgs(r)
    ensures NoSpriteImgs(ns) ==> r == ns
  {
    RewriteLocal([], ns, SpriteVisitor(), SpriteStep);
    SpritesConvertedByMap(ns);
    ConvertSpritesNone(ns);
    RewriteAll(ns, SpriteVisitor()).nodes
  }

  lemma {:induction false} SpritesConvertedByMap(ns: seq<HTree>)
    ensures SpritesConverted(ns, MapNodes(ns, SpriteStep)) && NoSpriteImgs(MapNodes(ns, SpriteStep))
    decreases ns
  {
    var r := MapNodes(ns, SpriteStep);
    forall k | 0 <= k < |ns|
      ensures if IsSpriteImg(ns[k]) then r[k] == SvgUse(Prop(ns[k], "src").value)
              else r[k].data == ns[k].data && SpritesConverted(ns[k].children, r[k].children)
      ensures !IsSpriteImg(r[k]) && NoSpriteImgs(r[k].children)
    {
      MapNodesAt(ns, SpriteStep, k);
      if IsSpriteImg(ns[k]) {
        var use := r[k].children[0];
        assert NoSpriteImgs(use.children);
      } else {
        SpritesConvertedByMap(ns[k].children);
      }
    }
  }

  lemma {:induction false} ConvertSpritesNone(ns: seq<HTree>)
    ensures NoSpriteImgs(ns) ==> MapNodes(ns, SpriteStep) == ns
    decreases ns
  {
    if |ns| > 0 && NoSpriteImgs(ns) {
      ConvertSpritesNone(ns[0].children);
      assert NoSpriteImgs(ns[1..]) by {
        forall k | 0 <= k < |ns[1..]|
          ensures !IsSpriteImg(ns[1..][k]) && NoSpriteImgs(ns[1..][k].children)
        {
          assert ns[1..][k] == ns[k + 1];
        }
      }
      ConvertSpritesNone(ns[1..]);
      assert ns == [ns[0]] + ns[1..];
    }
  }

  /** Converting twice changes nothing more. */
  lemma ConvertSpritesIdempotent(ns: seq<HTree>)
    ensures ConvertSprites(ConvertSprites(ns)) == ConvertSprites(ns)
  {
  }

  // ---------------------------------------------------------------------------
  // Footer, boot script and analytics.
  // ---------------------------------------------------------------------------

  function Link(href: string, children: seq<HTree>): HTree {
    El("a", map["href" := Str(href)], children)
  }

  /** `p.icons` with the feed, source and Twitter links. */
  function Icons(): HTree {
    El("p", map["class" := Str("icons")], [
      Link("/blog/feed.xml", [UseSprite("rss")]),
      Link("https://github.com/webpro/webpro.nl", [UseSprite("github")]),
      Link("https://twitter.com/webprolific", [UseSprite("twitter")])])
  }

  /** The two feedback paragraphs. */
  function Feedback(): seq<HTree> {
    [ El("p", map[], [Txt("Do yo have a question or did you find an issue in this article?")]),
      El("p", map[], [
        Link("https://github.com/webpro/webpro.nl", [Txt("Please let me know!")]),
        Txt(" This website is fully open-sourced at GitHub.")]) ]
  }

  /**
   * `content[type]` (the nested feedback array flattened): icons and
   * feedback for an article, icons for the index, nothing for a plain page
   * or a type the table does not list.
   */
  function FooterContent(kind: string): (c: seq<HTree>)
    ensures |c| == (if kind == "article" then 3 else if kind == "index" then 1 else 0)
    ensures |c| > 0 ==> c[0] == Icons()
    ensures kind == "article" ==> c[1..] == Feedback()
  {
    if kind == "article" then [Icons()] + Feedback()
    else if kind == "index" then [Icons()]
    else []
  }

  /** `addPageFooter`: a footer for the page type becomes the last child of the first `body`. */
  function AddPageFooter(ns: seq<HTree>, kind: string): (r: seq<HTree>)
    ensures FirstTagged(ns, "body").None? ==> r == ns
    ensures FirstTagged(ns, "body").Some? ==>
      var (p, body) := FirstTagged(ns, "body").value;
      ValidPath(r, p) && At(r, p).data == body.data
      && At(r, p).children == body.children + [El("footer", map[], FooterContent(kind))]
  {
    Append(ns, "body", [El("footer", map[], FooterContent(kind))])
  }

  const BootScriptSource := "(() => {\n    const theme = localStorage.getItem('theme');\n    if (theme) document.documentElement.classList.add(theme);\n  })();"

  function BootScript(): HTree {
    El("script", map[], [Txt(BootScriptSource)])
  }

  /** `addBootScript`: the theme script goes immediately before the first stylesheet link. */
  function AddBootScript(ns: seq<HTree>): (r: seq<HTree>)
    ensures (forall k :: 0 <= k < |Nodes(ns)| ==> !IsStylesheetLink(Nodes(ns)[k].1)) ==> r == ns
    ensures var f := FindFirst(ns, ElementMatching(StylesheetMatcher()));
      f.Some? ==> IsStylesheetLink(f.value.1) && InsertedBefore(ns, r, f.value.0, BootScript())
  {
    InsertBeforeStylesheets(ns, BootScript())
  }

  const AnalyticsHost := "https://smplnltcs.webpro.nl"

  function AnalyticsScript(): HTree {
    El("script", map["async" := Flag(true), "defer" := Flag(true), "src" := Str(AnalyticsHost + "/latest.js")], [])
  }

  function AnalyticsNoscript(): HTree {
    El("noscript", map[], [El("img", map[
      "src" := Str(AnalyticsHost + "/noscript.gif"), "alt" := Str(""),
      "referrerpolicy" := Str("no-referrer-when-downgrade")], [])])
  }

  /** `addSimpleAnalytics`: the script and then the noscript become the last two children of the first `body`. */
  function AddSimpleAnalytics(ns: seq<HTree>): (r: seq<HTree>)
    ensures FirstTagged(ns, "body").None? ==> r == ns
    ensures FirstTagged(ns, "body").Some? ==>
      var (p, body) := FirstTagged(ns, "body").value;
      ValidPath(r, p)
      && var cs := At(r, p).children;
         |cs| == |body.children| + 2 && cs[..|body.children|] == body.children
         && cs[|cs| - 2] == AnalyticsScript() && cs[|cs| - 1] == AnalyticsNoscript()
  {
    Append(ns, "body", [AnalyticsScript(), AnalyticsNoscript()])
  }
}
