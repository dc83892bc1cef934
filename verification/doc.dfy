/**
 * The document-head derivations of `scripts/hast/doc.js`: the `<meta>` tags
 * and the `<link>` elements of a page, from its metadata and the site
 * constants.
 */
module Doc {
  import opened Util
  import opened Dates
  import opened Site

  /** `{ name?, property?, content? }`: one `<meta>` element of the head. */
  datatype MetaTag = MetaTag(name: Option<string>, property: Option<string>, content: Option<string>)

  /**
   * The date formatter the tags use (`f.iso`). `scripts/helpers.js` does not
   * define it, so it is left abstract; `None` stands for `undefined`.
   */
  type IsoFormat = Option<Date> -> Option<string>

  /** JavaScript's `a + b` for a string `a` and a string or `undefined` `b`. */
  function PlusJs(a: string, b: Option<string>): (r: string)
    ensures StartsWith(r, a)
    ensures b.Some? ==> r[|a|..] == b.value
    ensures b.None? ==> r[|a|..] == "undefined"
  {
    a + (if b.Some? then b.value else "undefined")
  }

  // ---------------------------------------------------------------------------
  // Reading the head back.
  // ---------------------------------------------------------------------------

  /**
   * The content of the first tag with `property` `p`: `None` when there is no
   * such tag, `Some(None)` when its content is `undefined`.
   */
  function PropertyContent(ts: seq<MetaTag>, p: string): (r: Option<Option<string>>)
    ensures r.None? <==> forall k :: 0 <= k < |ts| ==> ts[k].property != Some(p)
  {
    if |ts| == 0 then None
    else if ts[0].property == Some(p) then Some(ts[0].content)
    else
      var r := PropertyContent(ts[1..], p);
      assert forall k :: 1 <= k < |ts| ==> ts[k] == ts[1..][k - 1];
      r
  }

  /** The content of the first tag with `name` `n`, as `PropertyContent`. */
  function NameContent(ts: seq<MetaTag>, n: string): (r: Option<Option<string>>)
    ensures r.None? <==> forall k :: 0 <= k < |ts| ==> ts[k].name != Some(n)
  {
    if |ts| == 0 then None
    else if ts[0].name == Some(n) then Some(ts[0].content)
    else
      var r := NameContent(ts[1..], n);
      assert forall k :: 1 <= k < |ts| ==> ts[k] == ts[1..][k - 1];
      r
  }

  /** The first tag with the property decides. */
  lemma {:induction false} PropertyContentAt(ts: seq<MetaTag>, p: string, k: nat)
    requires k < |ts| && ts[k].property == Some(p)
    requires forall j :: 0 <= j < k ==> ts[j].property != Some(p)
    ensures PropertyContent(ts, p) == Some(ts[k].content)
  {
    if k > 0 {
      PropertyContentAt(ts[1..], p, k - 1);
    }
  }

  lemma {:induction false} NameContentAt(ts: seq<MetaTag>, n: string, k: nat)
    requires k < |ts| && ts[k].name == Some(n)
    requires forall j :: 0 <= j < k ==> ts[j].name != Some(n)
    ensures NameContent(ts, n) == Some(ts[k].content)
  {
    if k > 0 {
      NameContentAt(ts[1..], n, k - 1);
    }
  }

  /** Tags pushed after the base tags are only found when the base tags lack the property. */
  lemma {:induction false} PropertyContentAppend(a: seq<MetaTag>, b: seq<MetaTag>, p: string)
    ensures PropertyContent(a + b, p) == if PropertyContent(a, p).Some? then PropertyContent(a, p) else PropertyContent(b, p)
  {
    if |a| > 0 {
      assert (a + b)[1..] == a[1..] + b;
      PropertyContentAppend(a[1..], b, p);
    } else {
      assert a + b == b;
    }
  }

  // ---------------------------------------------------------------------------
  // getMetaTags.
  // ---------------------------------------------------------------------------

  /** A property that only the page type adds. */
  predicate TypeProperty(t: MetaTag) {
    t.property in {Some("og:site_name"), Some("og:type"), Some("article:published_time"), Some("article:modified_time")}
  }

  /** The ten tags every page has, in their fixed order. */
  function BaseTags(m: Meta, c: Constants): (r: seq<MetaTag>)
    ensures |r| == 10
    ensures forall k :: 0 <= k < |r| ==> !TypeProperty(r[k])
  {
    var image := PlusJs(c.host, m.image);
    [
      MetaTag(Some("author"), None, Some(m.author.name)),
      MetaTag(Some("description"), Some("og:description"), m.description),
      MetaTag(Some("twitter:description"), None, m.description),
      MetaTag(None, Some("og:url"), m.href),
      MetaTag(Some("twitter:title"), Some("og:title"), Some(m.title)),
      MetaTag(Some("twitter:image"), Some("og:image"), Some(image)),
      MetaTag(Some("twitter:card"), None, Some("summary_large_image")),
      MetaTag(Some("twitter:site"), None, Some("@webprolific")),
      MetaTag(Some("twitter:creator"), None, Some("@webprolific")),
      MetaTag(Some("twitter:image:alt"), None, Some(m.title))
    ]
  }

  /** The tags a page type adds after the base tags. */
  function TypeTags(m: Meta, iso: IsoFormat): (r: seq<MetaTag>)
    ensures |r| == (if m.kind == "page" || m.kind == "index" then 2
                    else if m.kind == "article" then (if m.modified.Some? then 4 else 3)
                    else 0)
  {
    if m.kind == "page" then
      [MetaTag(None, Some("og:site_name"), Some("WebPro")), MetaTag(None, Some("og:type"), Some("website"))]
    else if m.kind == "index" then
      [MetaTag(None, Some("og:site_name"), Some("WebPro Blog")), MetaTag(None, Some("og:type"), Some("website"))]
    else if m.kind == "article" then
      [MetaTag(None, Some("og:site_name"), Some("WebPro Blog")),
       MetaTag(None, Some("og:type"), Some("article")),
       MetaTag(None, Some("article:published_time"), iso(m.published))]
      + (if m.modified.Some? then [MetaTag(None, Some("article:modified_time"), iso(m.modified))] else [])
    else []
  }

  /**
   * `getMetaTags(meta)`: the base tags, then the site name and `og:type` of
   * a `page`, `index` or `article`, then an article's publication time and,
   * only when it has one, its modification time. Other types add nothing.
   */
  function GetMetaTags(m: Meta, c: Constants, iso: IsoFormat): (r: seq<MetaTag>)
    ensures |r| == 10 + |TypeTags(m, iso)|
    ensures r[..10] == BaseTags(m, c)
    ensures PropertyContent(r, "og:site_name") ==
      if m.kind == "page" then Some(Some("WebPro"))
      else if m.kind == "index" || m.kind == "article" then Some(Some("WebPro Blog"))
      else None
    ensures PropertyContent(r, "og:type") ==
      if m.kind == "page" || m.kind == "index" then Some(Some("website"))
      else if m.kind == "article" then Some(Some("article"))
      else None
    ensures PropertyContent(r, "article:published_time") ==
      if m.kind == "article" then Some(iso(m.published)) else None
    ensures PropertyContent(r, "article:modified_time") ==
      if m.kind == "article" && m.modified.Some? then Some(iso(m.modified)) else None
  {
    var base, extra := BaseTags(m, c), TypeTags(m, iso);
    assert (base + extra)[..10] == base;
    ExtraTagsFound(base, extra, m, iso);
    base + extra
  }

  lemma ExtraTagsFound(base: seq<MetaTag>, extra: seq<MetaTag>, m: Meta, iso: IsoFormat)
    requires forall k :: 0 <= k < |base| ==> !TypeProperty(base[k])
    requires extra == TypeTags(m, iso)
    ensures PropertyContent(base + extra, "og:site_name") ==
      if m.kind == "page" then Some(Some("WebPro"))
      else if m.kind == "index" || m.kind == "article" then Some(Some("WebPro Blog"))
      else None
    ensures PropertyContent(base + extra, "og:type") ==
      if m.kind == "page" || m.kind == "index" then Some(Some("website"))
      else if m.kind == "article" then Some(Some("article"))
      else None
    ensures PropertyContent(base + extra, "article:published_time") ==
      if m.kind == "article" then Some(iso(m.published)) else None
    ensures PropertyContent(base + extra, "article:modified_time") ==
      if m.kind == "article" && m.modified.Some? then Some(iso(m.modified)) else None
  {
    PropertyContentAppend(base, extra, "og:site_name");
    PropertyContentAppend(base, extra, "og:type");
    PropertyContentAppend(base, extra, "article:published_time");
    PropertyContentAppend(base, extra, "article:modified_time");
    if m.kind == "article" {
      ArticleTagsContent(m, iso);
    } else if m.kind == "page" || m.kind == "index" {
      SiteTagsContent(m, iso);
    }
  }

  /** The type tags of an article, read back by property. */
  lemma ArticleTagsContent(m: Meta, iso: IsoFormat)
    requires m.kind == "article"
    ensures var ts := TypeTags(m, iso);
      PropertyContent(ts, "og:site_name") == Some(Some("WebPro Blog"))
      && PropertyContent(ts, "og:type") == Some(Some("article"))
      && PropertyContent(ts, "article:published_time") == Some(iso(m.published))
      && PropertyContent(ts, "article:modified_time") == (if m.modified.Some? then Some(iso(m.modified)) else None)
  {
    var ts := TypeTags(m, iso);
    PropertyContentAt(ts, "og:site_name", 0);
    PropertyContentAt(ts, "og:type", 1);
    PropertyContentAt(ts, "article:published_time", 2);
    if m.modified.Some? {
      PropertyContentAt(ts, "article:modified_time", 3);
    }
  }

  /** The type tags of a page or the blog index, read back by property. */
  lemma SiteTagsContent(m: Meta, iso: IsoFormat)
    requires m.kind == "page" || m.kind == "index"
    ensures var ts := TypeTags(m, iso);
      PropertyContent(ts, "og:site_name") == Some(Some(if m.kind == "page" then "WebPro" else "WebPro Blog"))
      && PropertyContent(ts, "og:type") == Some(Some("website"))
      && PropertyContent(ts, "article:published_time").None?
      && PropertyContent(ts, "article:modified_time").None?
  {
    var ts := TypeTags(m, iso);
    PropertyContentAt(ts, "og:site_name", 0);
    PropertyContentAt(ts, "og:type", 1);
  }

  /** The base tags read back as the page's author, description and URL. */
  lemma BaseTagsReadBack(m: Meta, c: Constants)
    ensures var ts := BaseTags(m, c);
      NameContent(ts, "author") == Some(Some(m.author.name))
      && PropertyContent(ts, "og:description") == Some(m.description)
      && NameContent(ts, "twitter:description") == Some(m.description)
      && PropertyContent(ts, "og:url") == Some(m.href)
  {
    var ts := BaseTags(m, c);
    NameContentAt(ts, "author", 0);
    PropertyContentAt(ts, "og:description", 1);
    assert ts[1].name != Some("twitter:description");
    NameContentAt(ts, "twitter:description", 2);
    assert ts[1].property != Some("og:url");
    PropertyContentAt(ts, "og:url", 3);
  }

  /**
   * The base tags read back as the page's title, and its image as the host
   * followed by the page's image path (`undefined` when it has none).
   */
  lemma BaseTagsImage(m: Meta, c: Constants)
    ensures var ts := BaseTags(m, c);
      PropertyContent(ts, "og:title") == Some(Some(m.title))
      && PropertyContent(ts, "og:image") == Some(Some(PlusJs(c.host, m.image)))
      && NameContent(ts, "twitter:image") == Some(Some(PlusJs(c.host, m.image)))
  {
    BaseTagsTitle(m, c);
    BaseTagsOgImage(m, c);
    BaseTagsTwitterImage(m, c);
  }

  lemma BaseTagsTwitterImage(m: Meta, c: Constants)
    ensures NameContent(BaseTags(m, c), "twitter:image") == Some(Some(PlusJs(c.host, m.image)))
  {
    NameContentAt(BaseTags(m, c), "twitter:image", 5);
  }

  lemma BaseTagsTitle(m: Meta, c: Constants)
    ensures PropertyContent(BaseTags(m, c), "og:title") == Some(Some(m.title))
  {
    var ts := BaseTags(m, c);
    assert ts[1].property != Some("og:title") && ts[3].property != Some("og:title");
    PropertyContentAt(ts, "og:title", 4);
  }

  lemma BaseTagsOgImage(m: Meta, c: Constants)
    ensures PropertyContent(BaseTags(m, c), "og:image") == Some(Some(PlusJs(c.host, m.image)))
  {
    var ts := BaseTags(m, c);
    assert ts[1].property != Some("og:image") && ts[3].property != Some("og:image") && ts[4].property != Some("og:image");
    PropertyContentAt(ts, "og:image", 5);
  }

  // ---------------------------------------------------------------------------
  // getLinks.
  // ---------------------------------------------------------------------------

  /** `{ rel, href?, type?, sizes?, title? }`: one `<link>` element of the head. */
  datatype Link = Link(rel: string, href: Option<string>, kind: Option<string>, sizes: Option<string>, title: Option<string>)

  function Sheets(hrefs: seq<string>): (r: seq<Link>)
    ensures |r| == |hrefs|
    ensures forall k :: 0 <= k < |r| ==> r[k] == Link("stylesheet", Some(hrefs[k]), None, None, None)
  {
    seq(|hrefs|, k requires 0 <= k < |hrefs| => Link("stylesheet", Some(hrefs[k]), None, None, None))
  }

  /**
   * `getLinks(meta)`: the canonical link, a stylesheet link per entry of
   * `STYLESHEETS` in order, the icons, the manifest and the feed, and the
   * prefetch link last.
   */
  function GetLinks(m: Meta, c: Constants): (r: seq<Link>)
    ensures |r| == 7 + |c.stylesheets|
    ensures r[0] == Link("canonical", m.href, None, None, None)
    ensures r[|r| - 1] == Link("prefetch", m.prefetch, None, None, None)
    ensures forall k :: 0 <= k < |r| ==> (r[k].rel == "stylesheet" <==> 1 <= k <= |c.stylesheets|)
  {
    [Link("canonical", m.href, None, None, None)]
    + Sheets(c.stylesheets)
    + [
      Link("icon", Some("/favicon.ico"), None, Some("any"), None),
      Link("icon", Some(c.host + c.logoSvg), Some("image/svg+xml"), None, None),
      Link("apple-touch-icon", Some("/apple-touch-icon.png"), None, None, None),
      Link("manifest", Some("/manifest.json"), None, None, None),
      Link("alternate", Some(c.host + c.blogRssPathname), Some("application/rss+xml"), None, Some("WebPro Blog RSS Feed")),
      Link("prefetch", m.prefetch, None, None, None)
    ]
  }

  /** The `href`s of the stylesheet links, in document order. */
  function StylesheetHrefs(ls: seq<Link>): (r: seq<Option<string>>)
    ensures |r| <= |ls|
  {
    if |ls| == 0 then []
    else (if ls[0].rel == "stylesheet" then [ls[0].href] else []) + StylesheetHrefs(ls[1..])
  }

  lemma {:induction false} StylesheetHrefsAppend(a: seq<Link>, b: seq<Link>)
    ensures StylesheetHrefs(a + b) == StylesheetHrefs(a) + StylesheetHrefs(b)
  {
    if |a| > 0 {
      assert (a + b)[1..] == a[1..] + b;
      StylesheetHrefsAppend(a[1..], b);
    } else {
      assert a + b == b;
    }
  }

  lemma {:induction false} SheetsHrefs(hrefs: seq<string>)
    ensures StylesheetHrefs(Sheets(hrefs)) == seq(|hrefs|, k requires 0 <= k < |hrefs| => Some(hrefs[k]))
  {
    if |hrefs| > 0 {
      SheetsHrefs(hrefs[1..]);
      assert Sheets(hrefs)[1..] == Sheets(hrefs[1..]);
    }
  }

  /** The page loads exactly the site's stylesheets, in order. */
  lemma GetLinksStylesheets(m: Meta, c: Constants)
    ensures StylesheetHrefs(GetLinks(m, c)) == seq(|c.stylesheets|, k requires 0 <= k < |c.stylesheets| => Some(c.stylesheets[k]))
  {
    var head := [Link("canonical", m.href, None, None, None)];
    var sheets := Sheets(c.stylesheets);
    var tail := GetLinks(m, c)[1 + |sheets|..];
    assert GetLinks(m, c) == head + sheets + tail;
    StylesheetHrefsAppend(head + sheets, tail);
    StylesheetHrefsAppend(head, sheets);
    SheetsHrefs(c.stylesheets);
    assert StylesheetHrefs(tail) == [] by {
      NoStylesheets(tail);
    }
  }

  lemma {:induction false} NoStylesheets(ls: seq<Link>)
    requires forall k :: 0 <= k < |ls| ==> ls[k].rel != "stylesheet"
    ensures StylesheetHrefs(ls) == []
  {
    if |ls| > 0 {
      NoStylesheets(ls[1..]);
    }
  }

  /** With the site's five stylesheets the head has twelve links. */
  lemma WebProLinks(m: Meta)
    ensures |GetLinks(m, WebPro())| == 12
  {
  }
}
