/**
 * The schema.org records of a page: `getStructuredContent` of the static
 * build (`scripts/structured-content.js`) and of the Astro site
 * (`src/structured-content.ts`). The records are what the merges produce;
 * a key whose value is `undefined` is absent, as it is once serialised.
 */
module Structured {
  import opened Util
  import opened Dates
  import opened Site

  datatype Person = Person(name: string, url: string)

  /** `{ '@type': 'Organization', '@id', name, logo: { '@type': 'ImageObject', url } }`. */
  datatype Organization = Organization(id: string, name: string, logoUrl: string)

  /** `image`: a list of URLs in the static build, one URL on the Astro site. */
  datatype Image = ImageList(urls: seq<string>) | ImageUrl(url: string)

  /**
   * A schema.org record. `mainEntityOfPage` always has `@type` `WebPage`;
   * `pageId` is its `@id`.
   */
  datatype Schema = Schema(
    context: string,
    kind: string,
    author: Option<Person>,
    publisher: Option<Organization>,
    pageId: Option<string>,
    datePublished: Option<string>,
    dateModified: Option<string>,
    inLanguage: Option<string>,
    keywords: Option<string>,
    headline: Option<string>,
    description: Option<string>,
    image: Option<Image>,
    sameAs: Option<seq<string>>)

  /**
   * An `Article` has no `sameAs`; a `WebSite` has no headline, description
   * or image.
   */
  predicate WellTyped(s: Schema) {
    (s.kind == "Article" ==> s.sameAs.None?)
    && (s.kind == "WebSite" ==> s.headline.None? && s.description.None? && s.image.None?)
  }

  // ---------------------------------------------------------------------------
  // scripts/structured-content.js
  // ---------------------------------------------------------------------------

  /** The shared `base` record: the site's author and publisher and an empty `WebPage`. */
  function Base(c: Constants): Schema {
    Schema("https://schema.org", "WebSite",
      Some(Person(c.author, c.host)),
      Some(Organization(c.host + "/#organization", c.name, c.host + c.logoPng)),
      None, None, None, None, None, None, None, None, None)
  }

  /** `getPage(page)`: a `WebSite` with the site's profiles, dates and page URL. */
  function GetPage(m: Meta, c: Constants, iso: Option<Date> -> Option<string>): Schema {
    Base(c).(kind := "WebSite", sameAs := Some(c.sameAs),
      datePublished := iso(m.published), dateModified := iso(m.modified), pageId := m.href)
  }

  /** `page.image || LOGO_PNG_HREF`: an empty image path counts as none. */
  function ArticleImage(m: Meta, c: Constants): (r: string)
    ensures m.image.Some? && m.image.value != "" ==> r == m.image.value
    ensures m.image.None? || m.image.value == "" ==> r == c.host + c.logoPng
  {
    if m.image.Some? && m.image.value != "" then m.image.value else c.host + c.logoPng
  }

  /** `getArticle(page)`: an `Article` with headline, description, dates, page URL and one image. */
  function GetArticle(m: Meta, c: Constants, iso: Option<Date> -> Option<string>): Schema {
    Base(c).(kind := "Article", headline := Some(m.title), description := m.description,
      datePublished := iso(m.published), dateModified := iso(m.modified), pageId := m.href,
      image := Some(ImageList([ArticleImage(m, c)])))
  }

  /**
   * `getStructuredContent(page)`: an `Article` for type `article`, a
   * `WebSite` for every other type; both keep the base author and publisher.
   */
  function StructuredJs(m: Meta, c: Constants, iso: Option<Date> -> Option<string>): (r: Schema)
    ensures r.kind == (if m.kind == "article" then "Article" else "WebSite")
    ensures r.context == "https://schema.org"
    ensures r.author == Some(Person(c.author, c.host))
    ensures r.publisher == Some(Organization(c.host + "/#organization", c.name, c.host + c.logoPng))
    ensures r.pageId == m.href
    ensures r.datePublished == iso(m.published) && r.dateModified == iso(m.modified)
    ensures m.kind == "article" ==>
      r.headline == Some(m.title) && r.description == m.description && r.image == Some(ImageList([ArticleImage(m, c)]))
    ensures m.kind != "article" ==> r.sameAs == Some(c.sameAs)
  {
    if m.kind == "article" then GetArticle(m, c, iso) else GetPage(m, c, iso)
  }

  /**
   * The static build's record is well typed: an article has a headline and
   * an image and no `sameAs`; any other page has `sameAs` and none of the
   * article fields.
   */
  lemma StructuredJsWellTyped(m: Meta, c: Constants, iso: Option<Date> -> Option<string>)
    ensures var r := StructuredJs(m, c, iso);
      WellTyped(r)
      && (r.kind == "Article" ==> r.headline.Some? && r.image.Some?)
      && (r.kind == "WebSite" ==> r.sameAs.Some?)
  {
  }

  // ---------------------------------------------------------------------------
  // src/structured-content.ts
  // ---------------------------------------------------------------------------

  datatype Publisher = Publisher(href: string, name: string, logoSrc: string)

  /** The page data the Astro layout passes in; absent fields are `None`. */
  datatype Data = Data(
    kind: string,
    title: Option<string>,
    description: Option<string>,
    href: Option<string>,
    published: Option<string>,
    modified: Option<string>,
    language: Option<string>,
    tags: Option<seq<string>>,
    author: Option<Author>,
    publisher: Option<Publisher>,
    imageSrc: Option<string>,
    sameAs: Option<seq<string>>)

  /** JavaScript truthiness of an optional string. */
  predicate Truthy(s: Option<string>) {
    s.Some? && s.value != ""
  }

  /** `data.image?.src || data.publisher?.logo?.src`, kept only when truthy. */
  function TsImage(d: Data): (r: Option<string>)
    ensures r.Some? <==> Truthy(d.imageSrc) || (d.publisher.Some? && d.publisher.value.logoSrc != "")
    ensures Truthy(d.imageSrc) ==> r == d.imageSrc
    ensures !Truthy(d.imageSrc) && r.Some? ==> r.value == d.publisher.value.logoSrc
  {
    if Truthy(d.imageSrc) then d.imageSrc
    else if d.publisher.Some? && d.publisher.value.logoSrc != "" then Some(d.publisher.value.logoSrc)
    else None
  }

  /** The keywords: the tags joined by `,`, present only when there is at least one tag. */
  function Keywords(tags: Option<seq<string>>): (r: Option<string>)
    ensures r.Some? <==> tags.Some? && |tags.value| > 0
  {
    if tags.Some? && |tags.value| > 0 then Some(Join(tags.value, ",")) else None
  }

  /** The keywords split on `,` give the tags back when no tag holds a comma. */
  lemma KeywordsReadBack(tags: seq<string>)
    requires |tags| > 0 && forall k :: 0 <= k < |tags| ==> ',' !in tags[k]
    ensures Keywords(Some(tags)).Some? && Split(Keywords(Some(tags)).value, ',') == tags
  {
    SplitJoin(tags, ',');
  }

  /** The Astro `base` record: always the context, page, dates and language; optional keywords, author and publisher. */
  function TsBase(d: Data): Schema {
    Schema("https://schema.org", "Article",
      if d.author.Some? then Some(Person(d.author.value.name, d.author.value.href)) else None,
      if d.publisher.Some? then
        var p := d.publisher.value;
        Some(Organization(p.href + "/#organization", p.name, p.logoSrc))
      else None,
      d.href, d.published, d.modified, d.language, Keywords(d.tags),
      None, None, None, None)
  }

  /**
   * `getStructuredContent(data)` of the Astro site: an `Article` for type
   * `article` with headline, description and the image (the page's, else the
   * publisher's logo, else none); otherwise a `WebSite` with the `sameAs` list.
   */
  function StructuredTs(d: Data): (r: Schema)
    ensures r.context == "https://schema.org"
    ensures r.kind == (if d.kind == "article" then "Article" else "WebSite")
    ensures r.pageId == d.href && r.datePublished == d.published && r.dateModified == d.modified
    ensures r.inLanguage == d.language
    ensures r.keywords.Some? <==> d.tags.Some? && |d.tags.value| > 0
    ensures r.author.Some? <==> d.author.Some?
    ensures r.keywords == Keywords(d.tags)
    ensures r.author.Some? ==> r.author.value.url == d.author.value.href
    ensures r.author.Some? ==> r.author.value == Person(d.author.value.name, d.author.value.href)
    ensures r.publisher.Some? <==> d.publisher.Some?
    ensures r.publisher.Some? ==> r.publisher.value.id == d.publisher.value.href + "/#organization"
    ensures r.publisher.Some? ==>
      r.publisher.value == Organization(d.publisher.value.href + "/#organization", d.publisher.value.name, d.publisher.value.logoSrc)
    ensures d.kind == "article" ==>
      r.headline == d.title && r.description == d.description
      && (r.image.Some? <==> TsImage(d).Some?)
      && (r.image.Some? ==> r.image.value == ImageUrl(TsImage(d).value))
    ensures d.kind != "article" ==> r.sameAs == d.sameAs
  {
    var base := TsBase(d);
    if d.kind == "article" then
      base.(headline := d.title, description := d.description,
        image := if TsImage(d).Some? then Some(ImageUrl(TsImage(d).value)) else None)
    else base.(kind := "WebSite", sameAs := d.sameAs)
  }

  /** The Astro record is well typed too, and has an image exactly when an article has one to show. */
  lemma StructuredTsWellTyped(d: Data)
    ensures var r := StructuredTs(d);
      WellTyped(r)
      && (r.image.Some? <==> d.kind == "article" && TsImage(d).Some?)
      && (r.sameAs.Some? <==> d.kind != "article" && d.sameAs.Some?)
  {
  }
}
