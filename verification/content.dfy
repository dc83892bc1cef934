/**
 * The collection helpers of the Astro site (`src/helpers.ts`) and the
 * content-type classifier of the static build (`scripts/build.js`).
 */
module Content {
  import opened Util
  import opened Dates
  import opened Sorting

  /** The fields of an entry's `data` the helpers read. */
  datatype EntryData = EntryData(published: Option<Date>, draft: Option<bool>)

  /** A collection entry; `data` is `None` when it is `undefined`. */
  datatype Entry = Entry(id: string, data: Option<EntryData>)

  // ---------------------------------------------------------------------------
  // withoutDrafts.
  // ---------------------------------------------------------------------------

  /** `entry.data && entry.data.draft !== true`. */
  predicate Publishable(e: Entry) {
    e.data.Some? && e.data.value.draft != Some(true)
  }

  function NotDraft(): Entry -> bool {
    (e: Entry) => Publishable(e)
  }

  /** `withoutDrafts(collection)`: the entries that have data and are not drafts, in their order. */
  function WithoutDrafts(es: seq<Entry>): (r: seq<Entry>)
    ensures forall k :: 0 <= k < |r| ==> Publishable(r[k])
    ensures forall e :: e in r <==> e in es && Publishable(e)
  {
    var r := Filter(es, NotDraft());
    forall e | e in es && Publishable(e)
      ensures e in r
    {
      FilterKeeps(es, NotDraft(), e);
    }
    r
  }

  /** Removing the drafts twice removes nothing more. */
  lemma WithoutDraftsIdempotent(es: seq<Entry>)
    ensures WithoutDrafts(WithoutDrafts(es)) == WithoutDrafts(es)
  {
    FilterFilter(es, NotDraft(), NotDraft(), NotDraft());
  }

  /** Every kept entry keeps its relative order: the result of a concatenation is the concatenation of the results. */
  lemma WithoutDraftsAppend(a: seq<Entry>, b: seq<Entry>)
    ensures WithoutDrafts(a + b) == WithoutDrafts(a) + WithoutDrafts(b)
  {
    FilterAppend(a, b, NotDraft());
  }

  // ---------------------------------------------------------------------------
  // getBlogIndex.
  // ---------------------------------------------------------------------------

  /** The publication date the comparator reads (`entry.data.published`). */
  function PublishedOf(): Entry -> Option<Date> {
    (e: Entry) => if e.data.Some? then e.data.value.published else None
  }

  /** Whether the comparator can read an entry's date without throwing. */
  predicate Readable(e: Entry) {
    e.data.Some? && e.data.value.published.Some?
  }

  /**
   * `getBlogIndex({ drafts })`: the articles and scraps, latest first, then
   * without drafts unless `drafts` is true. The comparator
   * `b.data.published.valueOf() - a.data.published.valueOf()` reads every
   * entry's date once there are two entries, so one without a date throws.
   */
  function GetBlogIndex(es: seq<Entry>, drafts: bool): (r: Result<seq<Entry>>)
    ensures r.Throws? <==> |es| >= 2 && exists k :: 0 <= k < |es| && !Readable(es[k])
    ensures r.Ok? ==> forall e :: e in r.value <==> e in es && (drafts || Publishable(e))
    ensures r.Ok? && drafts ==> multiset(r.value) == multiset(es)
    ensures r.Ok? && !drafts ==> multiset(r.value) == multiset(WithoutDrafts(es))
  {
    if |es| >= 2 && exists k :: 0 <= k < |es| && !Readable(es[k]) then
      Throws("TypeError: Cannot read properties of undefined (reading 'valueOf')")
    else
      var sorted := SortByDate(es, PublishedOf());
      assert forall e :: e in sorted <==> e in es by {
        forall e ensures e in sorted <==> e in es {
          assert e in sorted <==> e in multiset(sorted);
        }
      }
      FilterPermutation(sorted, es, NotDraft());
      Ok(if drafts then sorted else WithoutDrafts(sorted))
  }

  /** A sequence keeps its latest-first order when entries are dropped from it. */
  lemma {:induction false} FilterLatestFirst(xs: seq<Entry>, p: Entry -> bool)
    requires LatestFirst(xs, PublishedOf())
    ensures LatestFirst(Filter(xs, p), PublishedOf())
  {
    if |xs| > 0 {
      var key := PublishedOf();
      var tail := xs[1..];
      assert LatestFirst(tail, key) by {
        forall i, j | 0 <= i < j < |tail|
          ensures DayNumber(key(tail[j]).value) <= DayNumber(key(tail[i]).value)
        {
          assert tail[i] == xs[i + 1] && tail[j] == xs[j + 1];
        }
      }
      FilterLatestFirst(tail, p);
      var rest := Filter(tail, p);
      if p(xs[0]) {
        LatestFirstCons(xs[0], tail, rest);
      }
    }
  }

  /** Putting the latest entry in front of a latest-first selection of the rest keeps the order. */
  lemma LatestFirstCons(x: Entry, tail: seq<Entry>, rest: seq<Entry>)
    requires LatestFirst([x] + tail, PublishedOf())
    requires LatestFirst(rest, PublishedOf())
    requires forall k :: 0 <= k < |rest| ==> rest[k] in tail
    ensures LatestFirst([x] + rest, PublishedOf())
  {
    var key := PublishedOf();
    var xs := [x] + tail;
    var r := [x] + rest;
    assert key(xs[0]).Some?;
    forall j | 0 < j < |r|
      ensures key(r[j]).Some? && DayNumber(key(r[j]).value) <= DayNumber(key(x).value)
    {
      assert r[j] == rest[j - 1];
      var i :| 0 <= i < |tail| && tail[i] == r[j];
      assert xs[i + 1] == r[j];
    }
    forall i, j | 0 <= i < j < |r|
      ensures DayNumber(key(r[j]).value) <= DayNumber(key(r[i]).value)
    {
      if i > 0 {
        assert r[i] == rest[i - 1] && r[j] == rest[j - 1];
      }
    }
  }

  /** The blog index is latest first whenever it is computed. */
  lemma GetBlogIndexLatestFirst(es: seq<Entry>, drafts: bool)
    requires GetBlogIndex(es, drafts).Ok? && |es| >= 2
    ensures LatestFirst(GetBlogIndex(es, drafts).value, PublishedOf())
  {
    assert AllDated(es, PublishedOf());
    var sorted := SortByDate(es, PublishedOf());
    if !drafts {
      FilterLatestFirst(sorted, NotDraft());
    }
  }

  // ---------------------------------------------------------------------------
  // syncMetaData and getUrl.
  // ---------------------------------------------------------------------------

  /**
   * `{ ...remarkPluginFrontmatter, ...entry.data }`: every key of either,
   * with the entry's own value where it has one.
   */
  function SyncMetaData<V>(frontmatter: map<string, V>, data: map<string, V>): (r: map<string, V>)
    ensures r.Keys == frontmatter.Keys + data.Keys
    ensures forall k :: k in data ==> r[k] == data[k]
    ensures forall k :: k in frontmatter && k !in data ==> r[k] == frontmatter[k]
  {
    frontmatter + data
  }

  /** Syncing again with the same frontmatter changes nothing. */
  lemma SyncMetaDataIdempotent<V>(frontmatter: map<string, V>, data: map<string, V>)
    ensures SyncMetaData(frontmatter, SyncMetaData(frontmatter, data)) == SyncMetaData(frontmatter, data)
  {
  }

  /** `pathname.replace(/\/$/, '')`: one trailing slash removed. */
  function StripTrailingSlash(p: string): (r: string)
    ensures EndsWith(p, "/") ==> p == r + "/"
    ensures !EndsWith(p, "/") ==> r == p
  {
    if |p| > 0 && p[|p| - 1] == '/' then p[..|p| - 1] else p
  }

  /** Exactly one slash goes: stripping undoes appending one. */
  lemma StripTrailingSlashUndo(p: string)
    ensures StripTrailingSlash(p + "/") == p
  {
    assert (p + "/")[..|p|] == p;
  }

  // ---------------------------------------------------------------------------
  // scripts/build.js
  // ---------------------------------------------------------------------------

  /** The `type` option: the first rule that matches the file name decides. */
  function Classify(filename: string): (r: string)
    ensures r == "article" <==> StartsWith(filename, "articles/")
    ensures r == "scrap" <==> !StartsWith(filename, "articles/") && StartsWith(filename, "scraps/")
    ensures r == "blog" <==> filename == "blog.md"
    ensures r == "page" <==> !StartsWith(filename, "articles/") && !StartsWith(filename, "scraps/") && filename != "blog.md"
  {
    if StartsWith(filename, "articles/") then "article"
    else if StartsWith(filename, "scraps/") then
      assert filename[0] == 's';
      "scrap"
    else if filename == "blog.md" then "blog"
    else "page"
  }

  /** `defaultFilter`: the types that go into search and the feed. */
  predicate DefaultFilter(kind: string) {
    kind == "article" || kind == "scrap"
  }

  /** Search and the feed take exactly the files under `articles/` and `scraps/`. */
  lemma ClassifyFiltered(filename: string)
    ensures DefaultFilter(Classify(filename)) <==> StartsWith(filename, "articles/") || StartsWith(filename, "scraps/")
  {
  }

  /** The stylesheets of a plain page. */
  function PageStylesheets(): seq<string> {
    ["/css/fonts.css", "/css/stylesheet.css", "/css/theme-switch.css", "/css/search.css"]
  }

  /**
   * The stylesheets of the per-type defaults: articles and scraps share one
   * record, which adds the highlighting and terminal sheets to the page's.
   * `blog` sets no stylesheets of its own.
   */
  function DefaultStylesheets(kind: string): (r: Option<seq<string>>)
    ensures kind == "page" ==> r == Some(PageStylesheets())
    ensures kind == "article" || kind == "scrap" ==>
      r.Some? && |r.value| == |PageStylesheets()| + 2 && r.value[..|PageStylesheets()|] == PageStylesheets()
    ensures r.Some? <==> kind in {"page", "article", "scrap"}
  {
    if kind == "page" then Some(PageStylesheets())
    else if kind == "article" || kind == "scrap" then
      Some(PageStylesheets() + ["/css/hljs.github-dark-dimmed.min.css", "/css/terminal.css"])
    else None
  }
}
