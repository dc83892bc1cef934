/**
 * The directive functions of the static build (`build/hast/directives.js`):
 * a figure from a linked image, the blog index and the references index.
 * Each gets the directive's mdast node, its index, its parent's children and
 * the data of the file being built, and returns the element to render.
 */
module BuildDirectives {
  import opened Util
  import opened Unist
  import opened Hast
  import opened Mdast
  import opened Dates
  import opened Site
  import opened Sorting
  import opened Remark

  /**
   * `vFile.data.vFiles`: the metadata of the files of each collection, as far
   * as they were loaded (`None`: the collection is `undefined`).
   */
  datatype VFileData = VFileData(
    article: Option<seq<Option<Meta>>>,
    scrap: Option<seq<Option<Meta>>>,
    reference: Option<seq<Option<Meta>>>)

  type BuildDirective = (MTree, nat, seq<MTree>, VFileData) -> Result<HTree>

  // ---------------------------------------------------------------------------
  // Figure.
  // ---------------------------------------------------------------------------

  /**
   * `addFigure(node, index, parent)`: as the remark version, except that the
   * URLs are read from the definitions directly, so a missing definition
   * throws.
   */
  function AddFigure(n: MTree, i: nat, sibs: seq<MTree>): (r: Result<HTree>)
    ensures r.Throws? <==>
      |n.children| == 0 || |n.children[0].children| == 0 || |n.children[0].children[0].children| == 0
      || DefinitionUrl(sibs, Identifier(n.children[0].children[0].data)).None?
      || DefinitionUrl(sibs, Identifier(n.children[0].children[0].children[0].data)).None?
    ensures r.Ok? ==>
      var linkRef := n.children[0].children[0];
      var imgRef := linkRef.children[0];
      var src, href := DefinitionUrl(sibs, Identifier(imgRef.data)), DefinitionUrl(sibs, Identifier(linkRef.data));
      r.value == El("figure", map[], Figure(src, AltText(imgRef.data), href).children)
  {
    if |n.children| == 0 || |n.children[0].children| == 0 then Throws("TypeError: Cannot read properties of undefined (reading 'children')")
    else
      var linkRef := n.children[0].children[0];
      if |linkRef.children| == 0 then Throws("TypeError: Cannot read properties of undefined (reading 'alt')")
      else
        var imgRef := linkRef.children[0];
        match DefinitionUrl(sibs, Identifier(linkRef.data))
        case None => Throws("TypeError: Cannot read properties of undefined (reading 'url')")
        case Some(href) =>
          match DefinitionUrl(sibs, Identifier(imgRef.data))
          case None => Throws("TypeError: Cannot read properties of undefined (reading 'url')")
          case Some(src) => Ok(El("figure", map[], Figure(Some(src), AltText(imgRef.data), Some(href)).children))
  }

  /** Where the remark version succeeds with both definitions found, the build version gives the same figure. */
  lemma AddFigureAgrees(n: MTree, i: nat, sibs: seq<MTree>)
    requires AddFigure(n, i, sibs).Ok?
    ensures Remark.AddFigure(n, i, sibs).Ok?
    ensures var e := Remark.AddFigure(n, i, sibs).value;
      AddFigure(n, i, sibs).value == El(e.tag, e.props, e.children)
  {
  }

  // ---------------------------------------------------------------------------
  // Blog index.
  // ---------------------------------------------------------------------------

  /** `metas.filter(meta => meta && !meta.draft)`: the loaded, published entries, in order. */
  function Listed(ms: seq<Option<Meta>>): (r: seq<Meta>)
    ensures |r| <= |ms|
    ensures forall m :: m in r <==> Some(m) in ms && !m.draft
  {
    if |ms| == 0 then []
    else
      var rest := Listed(ms[1..]);
      assert forall x :: x in ms <==> x == ms[0] || x in ms[1..];
      if ms[0].Some? && !ms[0].value.draft then [ms[0].value] + rest else rest
  }

  /** The first page is listed, unless it is missing or a draft, ahead of the rest. */
  lemma ListedCons(ms: seq<Option<Meta>>)
    requires |ms| > 0
    ensures Listed(ms) == (if ms[0].Some? && !ms[0].value.draft then [ms[0].value] else []) + Listed(ms[1..])
  {
  }
  lemma {:induction false} ListedAppend(a: seq<Option<Meta>>, b: seq<Option<Meta>>)
    ensures Listed(a + b) == Listed(a) + Listed(b)
  {
    if |a| > 0 {
      assert (a + b)[0] == a[0] && (a + b)[1..] == a[1..] + b;
      ListedAppend(a[1..], b);
      ListedCons(a + b);
      ListedCons(a);
      var keep := if a[0].Some? && !a[0].value.draft then [a[0].value] else [];
      assert keep + (Listed(a[1..]) + Listed(b)) == (keep + Listed(a[1..])) + Listed(b);
    } else {
      assert a + b == b;
    }
  }

  function Published(): Meta -> Option<Date> {
    (m: Meta) => m.published
  }

  /** `<li><a href title>title</a><span>short date or ''</span></li>`. */
  function BlogEntry(m: Meta): HTree {
    var a := El("a", map["href" := Str(m.pathname), "title" := Str(m.title)], [Txt(m.title)]);
    var when := if m.published.Some? then Short(m.published).value else "";
    El("li", map[], [a, El("span", map[], [Txt(when)])])
  }

  /** An entry links to its page under its title, and its date reads back as the publication date. */
  lemma BlogEntryReadsBack(m: Meta)
    ensures var li := BlogEntry(m);
      HasTag(li, "li") && |li.children| == 2
      && Prop(li.children[0], "href") == Some(Str(m.pathname))
      && li.children[0].children == [Txt(m.title)]
      && |li.children[1].children| == 1
      && var when := li.children[1].children[0].data.value;
         (m.published.None? <==> when == "")
         && (m.published.Some? ==> ParseShort(when) == Some(m.published.value))
  {
    if m.published.Some? {
      var when := Short(m.published).value;
      assert ParseShort(when) == Some(m.published.value);
    }
  }

  function Entries(ms: seq<Meta>, entry: Meta -> HTree): (cs: seq<HTree>)
    ensures |cs| == |ms| && forall k :: 0 <= k < |ms| ==> cs[k] == entry(ms[k])
  {
    seq(|ms|, k requires 0 <= k < |ms| => entry(ms[k]))
  }

  /** The articles and scraps the blog index shows, in the order it shows them. */
  function BlogOrder(data: VFileData): seq<Meta>
    requires data.article.Some? && data.scrap.Some?
  {
    SortByDate(Listed(data.article.value + data.scrap.value), Published())
  }

  /**
   * `addBlogIndex(node, index, parent, vFile)`: a `ul.index` with an entry
   * for every published article and scrap, latest first. Either collection
   * being absent makes reading its entries throw.
   */
  function AddBlogIndex(data: VFileData): (r: Result<HTree>)
    ensures r.Ok? <==> data.article.Some? && data.scrap.Some?
    ensures r.Ok? ==>
      HasTag(r.value, "ul") && Prop(r.value, "class") == Some(Str("index"))
      && r.value.children == Entries(BlogOrder(data), BlogEntry)
  {
    if data.article.None? || data.scrap.None? then Throws("TypeError: Cannot read properties of undefined (reading 'data')")
    else Ok(El("ul", map["class" := Str("index")], Entries(BlogOrder(data), BlogEntry)))
  }

  /**
   * The index lists exactly the published articles and scraps, each once per
   * occurrence, and latest first when every one of them has a date.
   */
  lemma AddBlogIndexContents(data: VFileData)
    requires data.article.Some? && data.scrap.Some?
    ensures var shown := Listed(data.article.value + data.scrap.value);
      multiset(BlogOrder(data)) == multiset(shown)
      && (forall m :: m in BlogOrder(data) <==> (Some(m) in data.article.value || Some(m) in data.scrap.value) && !m.draft)
      && (AllDated(shown, Published()) ==> LatestFirst(BlogOrder(data), Published()))
  {
    var shown := Listed(data.article.value + data.scrap.value);
    forall m
      ensures m in BlogOrder(data) <==> m in shown
    {
      assert m in BlogOrder(data) <==> m in multiset(BlogOrder(data));
    }
  }

  // ---------------------------------------------------------------------------
  // References index.
  // ---------------------------------------------------------------------------

  /** `(a, b) => (a.title > b.title ? 1 : -1)`: never 0, so equal titles are "less" both ways. */
  function TitleCmp(): (Meta, Meta) -> int {
    (a: Meta, b: Meta) => if StrLess(b.title, a.title) then 1 else -1
  }

  lemma TitleCmpAsymmetric()
    ensures Asymmetric(TitleCmp())
  {
    forall a: Meta, b: Meta | TitleCmp()(a, b) > 0
      ensures TitleCmp()(b, a) <= 0
    {
      StrLessIrreflexiveAsym(a.title, b.title);
    }
  }

  /** The references, in the order the index shows them. */
  function ReferenceOrder(data: VFileData): seq<Meta> {
    InsertionSort(Listed(if data.reference.Some? then data.reference.value else []), TitleCmp())
  }

  /** `<li><a href title>title</a></li>`. */
  function ReferenceEntry(m: Meta): HTree {
    El("li", map[], [El("a", map["href" := Str(m.pathname), "title" := Str(m.title)], [Txt(m.title)])])
  }

  /** `addReferencesIndex(node, index, parent, vFile)`: a plain `ul` of the published references, by title. */
  function AddReferencesIndex(data: VFileData): (r: HTree)
    ensures HasTag(r, "ul") && r.data.props == map[]
    ensures r.children == Entries(ReferenceOrder(data), ReferenceEntry)
    ensures data.reference.None? ==> r.children == []
  {
    El("ul", map[], Entries(ReferenceOrder(data), ReferenceEntry))
  }

  /** Alphabetical order: each title is at most the title of any later entry. */
  predicate TitlesAscending(ms: seq<Meta>) {
    forall i, j :: 0 <= i < j < |ms| ==> !StrLess(ms[j].title, ms[i].title)
  }

  /** The index lists exactly the published references, alphabetically by title. */
  lemma AddReferencesIndexSorted(data: VFileData)
    ensures var refs := if data.reference.Some? then data.reference.value else [];
      multiset(ReferenceOrder(data)) == multiset(Listed(refs))
      && TitlesAscending(ReferenceOrder(data))
  {
    var r := ReferenceOrder(data);
    TitleCmpAsymmetric();
    assert AdjacentSorted(r, TitleCmp());
    forall i, j | 0 <= i < j < |r|
      ensures !StrLess(r[j].title, r[i].title)
    {
      AdjacentTitles(r, i, j);
    }
  }

  lemma {:induction false} AdjacentTitles(r: seq<Meta>, i: nat, j: nat)
    requires AdjacentSorted(r, TitleCmp())
    requires i < j < |r|
    ensures !StrLess(r[j].title, r[i].title)
    decreases j - i
  {
    assert TitleCmp()(r[i], r[i + 1]) <= 0;
    if i + 1 < j {
      AdjacentTitles(r, i + 1, j);
      StrLessTotal(r[j].title, r[i + 1].title);
      if StrLess(r[i + 1].title, r[j].title) && StrLess(r[j].title, r[i].title) {
        StrLessTransitive(r[i + 1].title, r[j].title, r[i].title);
      }
    }
  }

  // ---------------------------------------------------------------------------
  // Table.
  // ---------------------------------------------------------------------------

  /** The `directives` record of the build: `BLOG_INDEX`, `REFERENCES_INDEX` and `FIGURE`. */
  function BuildDirectiveTable(): (t: map<string, BuildDirective>)
    ensures t.Keys == {"BLOG_INDEX", "REFERENCES_INDEX", "FIGURE"}
  {
    map[
      "BLOG_INDEX" := (n: MTree, i: nat, sibs: seq<MTree>, data: VFileData) => AddBlogIndex(data),
      "REFERENCES_INDEX" := (n: MTree, i: nat, sibs: seq<MTree>, data: VFileData) => Ok(AddReferencesIndex(data)),
      "FIGURE" := (n: MTree, i: nat, sibs: seq<MTree>, data: VFileData) => AddFigure(n, i, sibs)
    ]
  }
}
