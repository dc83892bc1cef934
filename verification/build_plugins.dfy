/**
 * The HTML passes of `build/hast/plugins.js`. They use `findElement`,
 * `append` and `insertBeforeStylesheets` from `markdown-rambler`, whose code
 * is not part of this model; they are taken to behave as the `std-helpers`
 * versions in `StdHelpers`. `convertSprites`, `addBootScript` and
 * `addSimpleAnalytics` are the same as in `scripts/hast/plugins.js` and are
 * modelled once, in `Plugins`.
 */
module BuildPlugins {
  import opened Util
  import opened Unist
  import opened Hast
  import opened Dates
  import opened Site
  import opened StdHelpers
  import opened Plugins
  import opened StdPlugins

  // ---------------------------------------------------------------------------
  // Article heading.
  // ---------------------------------------------------------------------------

  /** `h('time', { datetime: f.short(d) }, f.long(d))`. */
  function TimeEl(d: Date): HTree {
    El("time", map["datetime" := Str(Short(Some(d)).value)], [Txt(Long(Some(d)).value)])
  }

  /** The date a `time` element's `datetime` attribute holds, if it holds one. */
  function TimeValue(n: HTree): Option<Ymd> {
    match Prop(n, "datetime")
    case Some(Str(s)) => if HasTag(n, "time") then ParseShort(s) else None
    case _ => None
  }

  /** A `time` element is machine-readable as its date, and its text is the long form of the same date. */
  lemma TimeElReadsBack(d: Date)
    ensures TimeValue(TimeEl(d)) == Some(d)
    ensures TimeEl(d).children == [Txt(Long(Some(d)).value)]
  {
  }

  /** `Published by <a rel=author>name</a>`. */
  function BylineHead(author: Author): seq<HTree> {
    [Txt("Published by "), El("a", map["href" := Str(author.href), "rel" := Str("author")], [Txt(author.name)])]
  }

  /** ` on <time>` for a publication date. */
  function OnPart(published: Option<Date>): (cs: seq<HTree>)
    ensures |cs| == (if published.Some? then 2 else 0)
    ensures (Txt(" on ") in cs) <==> published.Some?
    ensures Txt(" (last update: ") !in cs
  {
    if published.Some? then [Txt(" on "), TimeEl(published.value)] else []
  }

  /** ` (last update: <time>)` for a modification date. */
  function UpdatePart(modified: Option<Date>): (cs: seq<HTree>)
    ensures |cs| == (if modified.Some? then 3 else 0)
    ensures (Txt(" (last update: ") in cs) <==> modified.Some?
    ensures Txt(" on ") !in cs
  {
    if modified.Some? then [Txt(" (last update: "), TimeEl(modified.value), Txt(")")] else []
  }

  /** Membership in a concatenation of three sequences. */
  lemma InConcat3<X>(x: X, a: seq<X>, b: seq<X>, c: seq<X>)
    ensures x in a + b + c <==> x in a || x in b || x in c
  {
    assert a + b + c == a + (b + c);
  }

  /**
   * The byline: `Published by <a rel=author>name</a>`, then ` on <time>` when
   * there is a publication date and ` (last update: <time>)` when there is a
   * modification date.
   */
  function BuildByline(meta: Meta): (div: HTree)
    ensures HasTag(div, "div") && Prop(div, "class") == Some(Str("meta"))
    ensures |div.children| == 2 + (if meta.published.Some? then 2 else 0) + (if meta.modified.Some? then 3 else 0)
    ensures div.children[..2] == BylineHead(meta.author)
    ensures (Txt(" on ") in div.children) <==> meta.published.Some?
    ensures (Txt(" (last update: ") in div.children) <==> meta.modified.Some?
    ensures meta.published.Some? ==> div.children[2..4] == [Txt(" on "), TimeEl(meta.published.value)]
    ensures meta.modified.Some? ==>
      div.children[|div.children| - 3..] == [Txt(" (last update: "), TimeEl(meta.modified.value), Txt(")")]
  {
    var cs := BylineHead(meta.author) + OnPart(meta.published) + UpdatePart(meta.modified);
    BylineChildren(meta);
    El("div", map["class" := Str("meta")], cs)
  }

  /** Where each part of the byline sits among its children. */
  lemma BylineChildren(meta: Meta)
    ensures var head, on, update := BylineHead(meta.author), OnPart(meta.published), UpdatePart(meta.modified);
      var cs := head + on + update;
      |cs| == 2 + |on| + |update|
      && cs[..2] == head && cs[2..2 + |on|] == on && cs[2 + |on|..] == update
      && ((Txt(" on ") in cs) <==> meta.published.Some?)
      && ((Txt(" (last update: ") in cs) <==> meta.modified.Some?)
  {
    var head, on, update := BylineHead(meta.author), OnPart(meta.published), UpdatePart(meta.modified);
    assert Txt(" on ") !in head && Txt(" (last update: ") !in head;
    var cs := head + on + update;
    InConcat3(Txt(" on "), head, on, update);
    InConcat3(Txt(" (last update: "), head, on, update);
    assert cs[..2] == head && cs[2..2 + |on|] == on && cs[2 + |on|..] == update;
  }

  /** `enrichArticleHeading(meta)`: article and scrap pages get their first `h1` wrapped with the byline. */
  function EnrichArticleHeading(ns: seq<HTree>, meta: Meta): (r: seq<HTree>)
    ensures meta.kind != "article" && meta.kind != "scrap" ==> r == ns
    ensures (meta.kind == "article" || meta.kind == "scrap") && FirstTagged(ns, "h1").Some? ==>
      HeadingWrapped(ns, r, FirstTagged(ns, "h1").value.0, BuildByline(meta))
    ensures FirstTagged(ns, "h1").None? ==> r == ns
  {
    if meta.kind == "article" || meta.kind == "scrap" then WrapFirstHeading(ns, BuildByline(meta)) else ns
  }

  // ---------------------------------------------------------------------------
  // rel="me".
  // ---------------------------------------------------------------------------

  /** The addresses that are the author's own. */
  const MeLinks: seq<string> := [
    "/",
    "/blog",
    "/blog/feed.xml",
    "/LarsKappert-CV.pdf",
    "https://github.com/webpro",
    "https://twitter.com/webprolific",
    "https://fosstodon.org/@webpro",
    "https://www.linkedin.com/in/larskappert/"
  ]

  /** An anchor whose `String(href)` is one of the author's addresses. */
  predicate IsMeLink(d: HNode) {
    d.Element? && d.tag == "a" && JsString(if "href" in d.props then Some(d.props["href"]) else None) in MeLinks
  }

  /** The callback's effect on one node: `rel` set to `me` on a matching anchor, nothing otherwise. */
  function MeData(d: HNode): (r: HNode)
    ensures IsMeLink(d) ==>
      r.Element? && r.tag == d.tag && r.data == d.data && "rel" in r.props && r.props["rel"] == Str("me")
    ensures IsMeLink(d) ==>
      forall key :: key in d.props && key != "rel" ==> key in r.props && r.props[key] == d.props[key]
    ensures IsMeLink(d) ==> r.props.Keys == d.props.Keys + {"rel"}
    ensures !IsMeLink(d) ==> r == d
  {
    if IsMeLink(d) then d.(props := d.props["rel" := Str("me")]) else d
  }

  function MeVisitor(): (HTree, nat, seq<HTree>) -> Step<HNode> {
    (n: HTree, i: nat, s: seq<HTree>) => Update(MeData(n.data), Continue)
  }

  /** `relateMyLinksToMe()`: every anchor to one of the author's addresses gets `rel="me"`; nothing else changes. */
  function RelateMyLinksToMe(ns: seq<HTree>): (r: seq<HTree>)
    ensures r == Relabel(ns, MeData)
  {
    RewriteRelabel([], ns, MeVisitor(), MeData);
    RewriteAll(ns, MeVisitor()).nodes
  }

  /** Node by node: the same paths, each node's data passed through `MeData`. */
  lemma RelateMyLinksToMeAt(ns: seq<HTree>, p: Path)
    requires ValidPath(ns, p)
    ensures ValidPath(RelateMyLinksToMe(ns), p)
    ensures At(RelateMyLinksToMe(ns), p).data == MeData(At(ns, p).data)
    ensures |At(RelateMyLinksToMe(ns), p).children| == |At(ns, p).children|
  {
    RelabelAtPath(ns, MeData, p);
  }

  /** Tagging twice is tagging once. */
  lemma RelateMyLinksToMeIdempotent(ns: seq<HTree>)
    ensures RelateMyLinksToMe(RelateMyLinksToMe(ns)) == RelateMyLinksToMe(ns)
  {
    forall d
      ensures MeData(MeData(d)) == MeData(d)
    {
      if IsMeLink(d) {
        var e := MeData(d);
        assert e.props["href"] == d.props["href"];
        assert IsMeLink(e);
        assert e.props["rel" := Str("me")] == e.props;
      }
    }
    RelabelIdempotent(ns, MeData);
  }

  // ---------------------------------------------------------------------------
  // Speculation rules.
  // ---------------------------------------------------------------------------

  const OriginTrialToken := "AoluPAbfPzR4zlBtS95MLfPE66yEk8lWPdJKRsJkIzybAfS+oVnBOyBR/8ODgLVuinBOaVyuc7RLMc42vvNUuwIAAABleyJvcmlnaW4iOiJodHRwczovL3d3dy53ZWJwcm8ubmw6NDQzIiwiZmVhdHVyZSI6IlNwZWN1bGF0aW9uUnVsZXNQcmVmZXRjaEZ1dHVyZSIsImV4cGlyeSI6MTcwNDQxMjc5OX0="

  function OriginTrialMeta(): HTree {
    El("meta", map["http-equiv" := Str("origin-trial"), "content" := Str(OriginTrialToken)], [])
  }

  const SpeculationRules := "\n{\n    \"prerender\": [\n      {\n        \"source\": \"document\",\n        \"where\": {\"href_matches\": \"/*\\\\?*#*\"},\n        \"eagerness\": \"moderate\"\n      }\n    ],\n    \"prefetch\": [\n      {\n        \"source\": \"document\",\n        \"where\": { \"not\": {\"href_matches\": \"/*\\\\?*#*\"} },\n        \"eagerness\": \"moderate\"\n      }\n    ]\n  }\n"

  function SpeculationScript(): HTree {
    El("script", map["type" := Str("speculationrules")], [Txt(SpeculationRules)])
  }

  /**
   * `addPreRenderScript()`: the origin-trial `meta` goes before the first
   * stylesheet link, then the speculation-rules script ends the first `body`
   * of the result.
   */
  function AddPreRenderScript(ns: seq<HTree>): (r: seq<HTree>)
    ensures var f := FindFirst(ns, ElementMatching(StylesheetMatcher()));
      var mid := InsertBeforeStylesheets(ns, OriginTrialMeta());
      (f.Some? ==> InsertedBefore(ns, mid, f.value.0, OriginTrialMeta())) && (f.None? ==> mid == ns)
      && (FirstTagged(mid, "body").Some? ==> BodyGained(mid, r, SpeculationScript()))
      && (FirstTagged(mid, "body").None? ==> r == mid)
  {
    AppendToBody(InsertBeforeStylesheets(ns, OriginTrialMeta()), SpeculationScript())
  }
}
