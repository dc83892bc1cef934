/**
 * The older helper set of `scripts/hast/helpers.js`. Its `append` is the one
 * of `std-helpers` (the first element with the tag gets the children, then
 * the walk stops), so `StdHelpers.Append` serves both. Its `insertBefore`
 * differs: the new node becomes the FIRST child of the match's parent. Its
 * stylesheet test reads `rel?.includes('stylesheet')`, a substring test on
 * a string `rel` that throws on a number or boolean.
 */
module LegacyHelpers {
  import opened Util
  import opened Unist
  import opened Hast
  import opened Dates
  import opened Site
  import opened StdHelpers
  import opened Plugins

  // ---------------------------------------------------------------------------
  // insertBefore by unshift.
  // ---------------------------------------------------------------------------

  /** Puts `e` in front of a children list. */
  function Unshift(e: HTree): seq<HTree> -> seq<HTree> {
    cs => [e] + cs
  }

  /** `r` is `ns` with `e` added as the first child of the parent of the node at `p`. */
  predicate PrependedToParent(ns: seq<HTree>, r: seq<HTree>, p: Path, e: HTree) {
    ValidPath(ns, p) && ValidParent(ns, ParentOf(p)) && ValidParent(r, ParentOf(p))
    && ChildrenAt(r, ParentOf(p)) == [e] + ChildrenAt(ns, ParentOf(p))
  }

  /** `insertBefore(tree, tagName, element)`: `parent.children.unshift(element)` at the first element with the tag. */
  function InsertFirstInParent(ns: seq<HTree>, tag: string, e: HTree): (r: seq<HTree>)
    ensures FirstTagged(ns, tag).None? ==> r == ns
    ensures FirstTagged(ns, tag).Some? ==> PrependedToParent(ns, r, FirstTagged(ns, tag).value.0, e)
  {
    match FirstTagged(ns, tag)
    case None => ns
    case Some((p, _)) =>
      ValidPathParent(ns, p);
      EditChildren(ns, ParentOf(p), Unshift(e))
  }

  /** When the match is its parent's first child, unshifting is splicing in at the match's index. */
  lemma InsertFirstAtFront(ns: seq<HTree>, tag: string, e: HTree)
    requires FirstTagged(ns, tag).Some? && IndexOf(FirstTagged(ns, tag).value.0) == 0
    ensures InsertFirstInParent(ns, tag, e) == InsertBefore(ns, TagIs(tag), e)
  {
    var p := FirstTagged(ns, tag).value.0;
    InsertBeforeAt(ns, TagIs(tag), e, p);
    InsertFirstInParentAt(ns, tag, e, p);
    var cs := ChildrenAt(ns, ParentOf(p));
    assert SpliceIn(0, e)(cs) == Unshift(e)(cs) by {
      assert cs[..0] + [e] + cs[0..] == [e] + cs;
    }
    EditChildrenExt(ns, ParentOf(p), Unshift(e), SpliceIn(0, e));
  }

  /** When there is an element with the tag, the edit is an unshift onto its parent's children. */
  lemma InsertFirstInParentAt(ns: seq<HTree>, tag: string, e: HTree, p: Path)
    requires FirstTagged(ns, tag).Some? && FirstTagged(ns, tag).value.0 == p
    requires ValidPath(ns, p)
    ensures ValidParent(ns, ParentOf(p))
    ensures InsertFirstInParent(ns, tag, e) == EditChildren(ns, ParentOf(p), Unshift(e))
  {
    ValidPathParent(ns, p);
  }

  /** When the match has an earlier sibling other than `e`, the two `insertBefore`s disagree. */
  lemma InsertFirstDiffers(ns: seq<HTree>, tag: string, e: HTree)
    requires FirstTagged(ns, tag).Some?
    requires var p := FirstTagged(ns, tag).value.0;
      IndexOf(p) > 0 && ValidParent(ns, ParentOf(p))
      && |ChildrenAt(ns, ParentOf(p))| > 0 && ChildrenAt(ns, ParentOf(p))[0] != e
    ensures InsertFirstInParent(ns, tag, e) != InsertBefore(ns, TagIs(tag), e)
  {
    var p := FirstTagged(ns, tag).value.0;
    var q := ParentOf(p);
    var a, b := InsertFirstInParent(ns, tag, e), InsertBefore(ns, TagIs(tag), e);
    assert PrependedToParent(ns, a, p, e);
    assert InsertedBefore(ns, b, p, e);
    var before, i := ChildrenAt(ns, q), IndexOf(p);
    assert ChildrenAt(b, q)[..i] == before[..i];
    assert ChildrenAt(b, q)[0] == ChildrenAt(b, q)[..i][0] == before[0];
    assert ChildrenAt(a, q)[0] == e;
  }

  /** Dropping the parent's first child again gives the original document back. */
  lemma InsertFirstUndo(ns: seq<HTree>, tag: string, e: HTree)
    requires FirstTagged(ns, tag).Some?
    ensures EditChildren(InsertFirstInParent(ns, tag, e), ParentOf(FirstTagged(ns, tag).value.0), SpliceOut(0)) == ns
  {
    var p := FirstTagged(ns, tag).value.0;
    ValidPathParent(ns, p);
    var cs := ChildrenAt(ns, ParentOf(p));
    assert ([e] + cs)[..0] + ([e] + cs)[1..] == cs;
    EditChildrenUndo(ns, ParentOf(p), Unshift(e), SpliceOut(0));
  }

  // ---------------------------------------------------------------------------
  // insertBeforeStylesheets with `rel?.includes`.
  // ---------------------------------------------------------------------------

  /**
   * `node?.properties?.rel?.includes('stylesheet')`: a substring test on a
   * string, a membership test on a list, `undefined` (falsy) when there is no
   * `rel`, and a `TypeError` when `rel` has no `includes` method.
   */
  function RelIncludesStylesheet(rel: Option<PropValue>): Result<bool> {
    match rel
    case None => Ok(false)
    case Some(Str(s)) => Ok(Contains(s, "stylesheet"))
    case Some(Strs(items)) => Ok("stylesheet" in items)
    case Some(Num(_)) => Throws("TypeError: rel.includes is not a function")
    case Some(Flag(_)) => Throws("TypeError: rel.includes is not a function")
  }

  /** A `link` at which the walk stops: it either throws or matches. */
  predicate StopsLegacyWalk(n: HTree) {
    HasTag(n, "link") && match RelIncludesStylesheet(Prop(n, "rel")) case Throws(_) => true case Ok(b) => b
  }

  function LegacyStylesheetMatcher(): HTree -> bool {
    n => StopsLegacyWalk(n)
  }

  /**
   * `insertBeforeStylesheets(tree, element)` of `helpers.js`: `element` is
   * spliced in at the index of the first stylesheet link, unless a `link`
   * reached earlier (or that one) makes the test throw.
   */
  function LegacyInsertBeforeStylesheets(ns: seq<HTree>, e: HTree): (r: Result<seq<HTree>>)
    ensures FindFirst(ns, ElementMatching(LegacyStylesheetMatcher())).None? ==> r == Ok(ns)
    ensures var f := FindFirst(ns, ElementMatching(LegacyStylesheetMatcher()));
      f.Some? ==>
        (RelIncludesStylesheet(Prop(f.value.1, "rel")).Throws? <==> r.Throws?)
        && (r.Ok? ==> HasTag(f.value.1, "link") && InsertedBefore(ns, r.value, f.value.0, e))
  {
    match FindFirst(ns, ElementMatching(LegacyStylesheetMatcher()))
    case None => Ok(ns)
    case Some((p, n)) =>
      match RelIncludesStylesheet(Prop(n, "rel"))
      case Throws(err) => Throws(err)
      case Ok(_) =>
        ValidPathParent(ns, p);
        var r := EditChildren(ns, ParentOf(p), SpliceIn(IndexOf(p), e));
        Ok(r)
  }

  /** No `link` in the document has a string, number or boolean `rel`. */
  predicate LinkRelsAreLists(ns: seq<HTree>) {
    forall k :: 0 <= k < |Nodes(ns)| ==>
      HasTag(Nodes(ns)[k].1, "link") ==> Prop(Nodes(ns)[k].1, "rel").None? || Prop(Nodes(ns)[k].1, "rel").value.Strs?
  }

  /** With list-valued (or absent) `rel`s, as hastscript produces, both variants insert at the same place. */
  lemma LegacyStylesheetsAgree(ns: seq<HTree>, e: HTree)
    requires LinkRelsAreLists(ns)
    ensures LegacyInsertBeforeStylesheets(ns, e) == Ok(InsertBeforeStylesheets(ns, e))
  {
    var legacy, std := ElementMatching(LegacyStylesheetMatcher()), ElementMatching(StylesheetMatcher());
    var xs := Nodes(ns);
    forall k | 0 <= k < |xs|
      ensures legacy(xs[k].1) == std(xs[k].1)
    {
      var n := xs[k].1;
      if HasTag(n, "link") {
        assert Prop(n, "rel").None? || Prop(n, "rel").value.Strs?;
      }
    }
    FindFirstAgree(ns, legacy, std);
    FindElementFirst(ns, StylesheetMatcher(), StopAtFirst());
  }

  /** A document of one childless node lists just that node. */
  lemma LeafNodes(n: HTree)
    requires n.children == []
    ensures Nodes([n]) == [([0], n)]
  {
    var root: Path := [];
    assert root + [0] == [0];
    assert Preorder([n], root, 1) == [];
    assert Preorder(n.children, [0], 0) == [];
    assert Preorder([n], root, 0) == [([0], n)] + [] + [];
  }

  /** A `rel` string such as `alternate stylesheet` counts as a stylesheet here, but not in `std-helpers`. */
  lemma AlternateStylesheetDiffers(e: HTree)
    ensures var link := El("link", map["rel" := Str("alternate stylesheet")], []);
      InsertBeforeStylesheets([link], e) == [link]
      && LegacyInsertBeforeStylesheets([link], e) == Ok([e, link])
  {
    var link := El("link", map["rel" := Str("alternate stylesheet")], []);
    AlternateMatches(link);
    var p: Path := [0];
    assert ParentOf(p) == [] && IndexOf(p) == 0;
    var r := EditChildren([link], [], SpliceIn(0, e));
    assert r == ChildrenAt(r, []) == SpliceIn(0, e)([link]) == [e, link];
  }

  /** The link is the document's only node; it is a stylesheet link for the legacy test only. */
  lemma AlternateMatches(link: HTree)
    requires link == El("link", map["rel" := Str("alternate stylesheet")], [])
    ensures Nodes([link]) == [([0], link)]
    ensures !IsStylesheetLink(link) && StopsLegacyWalk(link)
    ensures RelIncludesStylesheet(Prop(link, "rel")) == Ok(true)
  {
    LeafNodes(link);
    ContainsSuffix("alternate ", "stylesheet");
    assert "alternate " + "stylesheet" == "alternate stylesheet";
  }


  // ---------------------------------------------------------------------------
  // Page passes.
  // ---------------------------------------------------------------------------

  /** The page header of `helpers.js`: as in `plugins.js`, but the toggle has no `aria-label`. */
  function LegacyPageHeader(logo: Logo): (h: HTree)
    ensures h != PageHeader(logo)
    ensures |h.children| == 2 && h.children[0] == PageHeader(logo).children[0]
  {
    var img := El("img", map["src" := Str(logo.src), "width" := Num(32), "height" := Num(32), "alt" := Str(logo.alt)], []);
    var link := El("a", map["href" := Str(logo.href), "title" := Str("Go to homepage")], [img]);
    var div := El("div", map["class" := Str("logo")], [link]);
    var toggle := El("button", map[
      "type" := Str("button"), "id" := Str(ThemeToggleId), "role" := Str("switch"), "aria-checked" := Str("false")], []);
    assert "aria-label" !in toggle.data.props;
    var switch := El("label", map["class" := Str("theme-switch"), "for" := Str(ThemeToggleId)], [toggle]);
    El("header", map[], [div, switch])
  }

  /** `addPageHeader` of `helpers.js`: the header becomes the first child of the first `main`'s parent. */
  function LegacyAddPageHeader(ns: seq<HTree>, logo: Logo): (r: seq<HTree>)
    ensures FirstTagged(ns, "main").None? ==> r == ns
    ensures FirstTagged(ns, "main").Some? ==> PrependedToParent(ns, r, FirstTagged(ns, "main").value.0, LegacyPageHeader(logo))
  {
    InsertFirstInParent(ns, "main", LegacyPageHeader(logo))
  }

  /** `enrichArticleHeading({page, article})`: the page type decides, the article supplies the byline. */
  function LegacyEnrichArticleHeading(ns: seq<HTree>, page: Meta, article: Meta): (r: seq<HTree>)
    ensures page.kind != "article" ==> r == ns
    ensures page.kind == "article" && FirstTagged(ns, "h1").Some? ==>
      HeadingWrapped(ns, r, FirstTagged(ns, "h1").value.0, Byline(article.author, article.published))
    ensures FirstTagged(ns, "h1").None? ==> r == ns
  {
    if page.kind == "article" then WrapFirstHeading(ns, Byline(article.author, article.published)) else ns
  }

  /** The footer text of `helpers.js`: the feedback paragraphs for an article, `null` (no children) otherwise. */
  function LegacyFooterContent(kind: string): (c: seq<HTree>)
    ensures c == (if kind == "article" then FooterContent(kind)[1..] else [])
  {
    if kind == "article" then Feedback() else []
  }

  /** `addPageFooter` of `helpers.js`: the footer becomes the last child of the first `body`. */
  function LegacyAddPageFooter(ns: seq<HTree>, kind: string): (r: seq<HTree>)
    ensures FirstTagged(ns, "body").None? ==> r == ns
    ensures FirstTagged(ns, "body").Some? ==>
      var (p, body) := FirstTagged(ns, "body").value;
      ValidPath(r, p) && At(r, p).data == body.data
      && At(r, p).children == body.children + [El("footer", map[], LegacyFooterContent(kind))]
  {
    Append(ns, "body", [El("footer", map[], LegacyFooterContent(kind))])
  }

  /** `addBootScript` of `helpers.js`: the theme script goes before the first stylesheet, by the substring test. */
  function LegacyAddBootScript(ns: seq<HTree>): (r: Result<seq<HTree>>)
    ensures LinkRelsAreLists(ns) ==> r == Ok(AddBootScript(ns))
  {
    LegacyBootScriptAgrees(ns);
    LegacyInsertBeforeStylesheets(ns, BootScript())
  }

  /** With list-valued `rel`s the legacy boot script lands where the newer pass puts it. */
  lemma LegacyBootScriptAgrees(ns: seq<HTree>)
    ensures LinkRelsAreLists(ns) ==> LegacyInsertBeforeStylesheets(ns, BootScript()) == Ok(AddBootScript(ns))
  {
    if LinkRelsAreLists(ns) {
      LegacyStylesheetsAgree(ns, BootScript());
    }
  }

  // ---------------------------------------------------------------------------
  // Blog index.
  // ---------------------------------------------------------------------------

  /** `li[a{href: pathname, title}[title], span[short(published)]]`. */
  function IndexEntry(article: Meta): HTree {
    El("li", map[], [
      El("a", map["href" := Str(article.pathname), "title" := Str(article.title)], [Txt(article.title)]),
      El("span", map[], OptTxt(Short(article.published)))])
  }

  /** What a reader of an index entry sees: the link target, the link text and the date text, if any. */
  function ReadEntry(li: HTree): Option<(string, string, Option<string>)> {
    if HasTag(li, "li") && |li.children| == 2 && HasTag(li.children[0], "a") && |li.children[0].children| == 1
       && Prop(li.children[0], "href").Some? && Prop(li.children[0], "href").value.Str?
       && li.children[0].children[0].data.Text? && |li.children[1].children| <= 1
       && (|li.children[1].children| == 1 ==> li.children[1].children[0].data.Text?)
    then
      var date := if |li.children[1].children| == 1 then Some(li.children[1].children[0].data.value) else None;
      Some((Prop(li.children[0], "href").value.s, li.children[0].children[0].data.value, date))
    else None
  }

  /** An entry reads back as the article's path, title and ISO date. */
  lemma ReadIndexEntry(article: Meta)
    ensures ReadEntry(IndexEntry(article)) == Some((article.pathname, article.title, Short(article.published)))
  {
  }

  /** `ul.index` with one entry per article, in input order. */
  function IndexList(articles: seq<Meta>): (ul: HTree)
    ensures HasTag(ul, "ul") && Prop(ul, "class") == Some(Str("index")) && |ul.children| == |articles|
    ensures forall k :: 0 <= k < |articles| ==>
      ReadEntry(ul.children[k]) == Some((articles[k].pathname, articles[k].title, Short(articles[k].published)))
  {
    var entries := seq(|articles|, k requires 0 <= k < |articles| => IndexEntry(articles[k]));
    forall k | 0 <= k < |articles|
      ensures ReadEntry(entries[k]) == Some((articles[k].pathname, articles[k].title, Short(articles[k].published)))
    {
      ReadIndexEntry(articles[k]);
    }
    El("ul", map["class" := Str("index")], entries)
  }

  /** `addBlogIndex` of `helpers.js`: on an index page the list becomes the first child of the first `main`. */
  function LegacyAddBlogIndex(ns: seq<HTree>, page: Meta, articles: seq<Meta>): (r: seq<HTree>)
    ensures page.kind != "index" || FirstTagged(ns, "main").None? ==> r == ns
    ensures page.kind == "index" && FirstTagged(ns, "main").Some? ==>
      var (p, main) := FirstTagged(ns, "main").value;
      ValidPath(r, p) && At(r, p).data == main.data && At(r, p).children == [IndexList(articles)] + main.children
  {
    if page.kind != "index" then ns
    else
      match FirstTagged(ns, "main")
      case None => ns
      case Some((p, _)) => EditChildren(ns, p, Unshift(IndexList(articles)))
  }
}
