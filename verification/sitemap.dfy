/**
 * The sitemap of the Astro site (`src/pages/sitemap.txt.ts`): every page
 * that is not a draft, its source path turned into a site path, each path
 * once, as absolute URLs in ascending order, one per line.
 */
module Sitemap {
  import opened Util
  import opened Sorting

  /** A page module found by the glob: its file path and `frontmatter.draft`, if any. */
  datatype Page = Page(filePath: string, draft: Option<bool>)

  /** `page?.frontmatter?.draft === true`: only a literal `true` excludes a page. */
  predicate IsDraft(p: Page) {
    p.draft == Some(true)
  }

  // ---------------------------------------------------------------------------
  // Path normalisation.
  // ---------------------------------------------------------------------------

  /** `.replace(/^\/src\/(content|pages)\//, '')`. */
  function StripSource(p: string): (r: string)
    ensures StartsWith(p, "/src/content/") ==> p == "/src/content/" + r
    ensures !StartsWith(p, "/src/content/") && StartsWith(p, "/src/pages/") ==> p == "/src/pages/" + r
    ensures !StartsWith(p, "/src/content/") && !StartsWith(p, "/src/pages/") ==> r == p
  {
    if StartsWith(p, "/src/content/") then p[13..]
    else if StartsWith(p, "/src/pages/") then p[11..]
    else p
  }

  /** The length of the `.md`, `.mdx` or `.astro` the path ends in, if it ends in one. */
  function ExtensionLength(p: string): (r: Option<nat>)
    ensures r.Some? ==> r.value <= |p| && p[|p| - r.value..] in {".md", ".mdx", ".astro"}
    ensures r.None? ==> !EndsWith(p, ".md") && !EndsWith(p, ".mdx") && !EndsWith(p, ".astro")
  {
    if EndsWith(p, ".md") then Some(3)
    else if EndsWith(p, ".mdx") then Some(4)
    else if EndsWith(p, ".astro") then Some(6)
    else None
  }

  /**
   * `.replace(/(\/?index)?\.(md|mdx|astro)$/, '')` as written. The leftmost
   * match wins, so before the extension `/index` goes if it is there, else a
   * bare `index`, even when it is only the end of a longer name.
   */
  function StripSuffixAsWritten(p: string): (r: string)
    ensures ExtensionLength(p).None? ==> r == p
    ensures ExtensionLength(p).Some? ==>
      var t := p[..|p| - ExtensionLength(p).value];
      (EndsWith(t, "/index") ==> t == r + "/index")
      && (!EndsWith(t, "/index") && EndsWith(t, "index") ==> t == r + "index")
      && (!EndsWith(t, "index") ==> r == t)
  {
    match ExtensionLength(p)
    case None => p
    case Some(n) =>
      var t := p[..|p| - n];
      if EndsWith(t, "/index") then
        CutSuffix(t, "/index");
        t[..|t| - 6]
      else if EndsWith(t, "index") then
        CutSuffix(t, "index");
        t[..|t| - 5]
      else t
  }

  /** A string that ends in a suffix is what comes before it, then the suffix. */
  lemma CutSuffix(t: string, suffix: string)
    requires EndsWith(t, suffix)
    ensures t == t[..|t| - |suffix|] + suffix
  {
  }

  /**
   * The regex as written and the corrected strip differ exactly on the
   * paths whose name before the extension ends in `index` without being the
   * segment `index`.
   */
  lemma StripSuffixAgreement(p: string)
    ensures StripSuffixAsWritten(p) != StripSuffix(p) <==>
      ExtensionLength(p).Some? &&
      var t := p[..|p| - ExtensionLength(p).value];
      EndsWith(t, "index") && !EndsWith(t, "/index") && t != "index"
  {
    if ExtensionLength(p).Some? {
      var t := p[..|p| - ExtensionLength(p).value];
      if EndsWith(t, "index") && !EndsWith(t, "/index") && t != "index" {
        assert |StripSuffixAsWritten(p)| == |t| - 5;
        assert StripSuffix(p) == t;
      }
    }
  }

  /** The file `reindex.md` becomes the path `re`. */
  lemma StripSuffixCutsName(p: string)
    requires p == "reindex.md"
    ensures StripSuffixAsWritten(p) == "re"
    ensures StripSuffix(p) == "reindex"
  {
    assert ExtensionLength(p) == Some(3);
    assert p[..7] == "reindex";
    assert "reindex"[2..] == "index";
  }

  /**
   * The suffix as evidently intended: the extension goes, and `index` goes
   * only as a whole path segment (the file `index` itself or a trailing
   * `/index`), so `blog/index.md` and `blog.md` both give `blog`.
   */
  function StripSuffix(p: string): (r: string)
    ensures ExtensionLength(p).None? ==> r == p
    ensures ExtensionLength(p).Some? ==>
      var t := p[..|p| - ExtensionLength(p).value];
      r == t || (t == "index" && r == "") || t == r + "/index"
  {
    match ExtensionLength(p)
    case None => p
    case Some(n) =>
      var t := p[..|p| - n];
      if t == "index" then ""
      else if EndsWith(t, "/index") then
        assert t == t[..|t| - 6] + "/index";
        t[..|t| - 6]
      else t
  }

  /** A page and the `index` page of a folder of the same name share one path. */
  lemma StripSuffixFolds(x: string)
    requires !EndsWith(x, "/index") && x != "index"
    ensures StripSuffix(x + ".md") == x
    ensures StripSuffix(x + "/index.md") == x
  {
    StripSuffixPlain(x);
    StripSuffixIndex(x);
  }

  lemma StripSuffixPlain(x: string)
    requires !EndsWith(x, "/index") && x != "index"
    ensures StripSuffix(x + ".md") == x
  {
    assert ExtensionLength(x + ".md") == Some(3);
    assert (x + ".md")[..|x|] == x;
  }

  lemma StripSuffixIndex(x: string)
    ensures StripSuffix(x + "/index.md") == x
  {
    var t := x + "/index";
    assert ExtensionLength(x + "/index.md") == Some(3);
    assert (x + "/index.md")[..|x| + 6] == t;
    assert t != "index" && EndsWith(t, "/index");
    assert t[..|t| - 6] == x;
  }

  /** The site path of a page's file, with the suffix regex as written. */
  function SitePath(filePath: string): string {
    StripSuffixAsWritten(StripSource(filePath))
  }

  // ---------------------------------------------------------------------------
  // The document.
  // ---------------------------------------------------------------------------

  /** The paths of the non-draft pages, in glob order. */
  function Paths(ps: seq<Page>): (r: seq<string>)
    ensures forall x :: x in r <==> exists k :: 0 <= k < |ps| && !IsDraft(ps[k]) && x == SitePath(ps[k].filePath)
  {
    if |ps| == 0 then []
    else
      var rest := Paths(ps[1..]);
      assert forall k :: 1 <= k < |ps| ==> ps[k] == ps[1..][k - 1];
      assert forall k :: 0 <= k < |ps| - 1 ==> ps[1..][k] == ps[k + 1];
      (if IsDraft(ps[0]) then [] else [SitePath(ps[0].filePath)]) + rest
  }

  predicate Distinct(xs: seq<string>) {
    forall i, j :: 0 <= i < j < |xs| ==> xs[i] != xs[j]
  }

  /** `new Set` filled in order: each value once, where it first occurs. */
  function Dedupe(xs: seq<string>): (r: seq<string>)
    ensures Distinct(r)
    ensures forall x :: x in r <==> x in xs
  {
    if |xs| == 0 then []
    else
      var init := xs[..|xs| - 1];
      var r := Dedupe(init);
      assert xs == init + [xs[|xs| - 1]];
      if xs[|xs| - 1] in r then r else r + [xs[|xs| - 1]]
  }

  /** `new URL(entry, base).href` for a relative path under the site root. */
  function Urls(base: string, xs: seq<string>): (r: seq<string>)
    ensures |r| == |xs| && forall k :: 0 <= k < |xs| ==> r[k] == base + xs[k]
  {
    seq(|xs|, k requires 0 <= k < |xs| => base + xs[k])
  }

  lemma UrlsDistinct(base: string, xs: seq<string>)
    requires Distinct(xs)
    ensures Distinct(Urls(base, xs))
  {
    var r := Urls(base, xs);
    forall i, j | 0 <= i < j < |r|
      ensures r[i] != r[j]
    {
      assert r[i][|base|..] == xs[i] && r[j][|base|..] == xs[j];
    }
  }

  /** The default `sort()` comparison of strings. */
  function StrCmp(): (string, string) -> int {
    (a: string, b: string) => if StrLess(b, a) then 1 else if StrLess(a, b) then -1 else 0
  }

  lemma StrCmpAsymmetric()
    ensures Asymmetric(StrCmp())
  {
    forall a: string, b: string | StrCmp()(a, b) > 0
      ensures StrCmp()(b, a) <= 0
    {
      StrLessIrreflexiveAsym(a, b);
    }
  }

  /** The URLs of the sitemap, in the order it lists them. */
  function Documents(ps: seq<Page>, base: string): seq<string> {
    InsertionSort(Urls(base, Dedupe(Paths(ps))), StrCmp())
  }

  /** `GET`: the documents joined by newlines, with none after the last. */
  function SitemapText(ps: seq<Page>, base: string): (r: string)
    ensures |Documents(ps, base)| == 0 ==> r == ""
    ensures |Documents(ps, base)| > 0 ==> EndsWith(r, Documents(ps, base)[|Documents(ps, base)| - 1])
  {
    var docs := Documents(ps, base);
    if |docs| == 0 then ""
    else
      JoinLast(docs, "\n");
      Join(docs, "\n")
  }

  /** A join ends in its last part. */
  lemma {:induction false} JoinLast(parts: seq<string>, sep: string)
    requires |parts| > 0
    ensures EndsWith(Join(parts, sep), parts[|parts| - 1])
  {
    if |parts| == 1 {
      assert Join(parts, sep) == parts[0];
    } else {
      JoinLast(parts[1..], sep);
      var rest := Join(parts[1..], sep);
      var last := parts[|parts| - 1];
      assert last == parts[1..][|parts[1..]| - 1];
      assert (parts[0] + sep + rest)[|parts[0] + sep + rest| - |last|..] == rest[|rest| - |last|..];
    }
  }

  /**
   * The sitemap lists the URL of every non-draft page exactly once and
   * nothing else, in strictly ascending order.
   */
  lemma DocumentsSorted(ps: seq<Page>, base: string)
    ensures var docs := Documents(ps, base);
      (forall u :: u in docs <==> exists k :: 0 <= k < |ps| && !IsDraft(ps[k]) && u == base + SitePath(ps[k].filePath))
      && (forall i, j :: 0 <= i < j < |docs| ==> StrLess(docs[i], docs[j]))
  {
    var paths := Dedupe(Paths(ps));
    var urls := Urls(base, paths);
    var docs := Documents(ps, base);
    UrlsDistinct(base, paths);
    StrCmpAsymmetric();
    assert multiset(docs) == multiset(urls);
    forall u
      ensures u in docs <==> exists k :: 0 <= k < |ps| && !IsDraft(ps[k]) && u == base + SitePath(ps[k].filePath)
    {
      assert u in docs <==> u in multiset(docs);
      assert u in urls <==> u in multiset(urls);
      if u in urls {
        var k :| 0 <= k < |urls| && urls[k] == u;
        assert paths[k] in Paths(ps);
      }
      if exists k :: 0 <= k < |ps| && !IsDraft(ps[k]) && u == base + SitePath(ps[k].filePath) {
        var k :| 0 <= k < |ps| && !IsDraft(ps[k]) && u == base + SitePath(ps[k].filePath);
        var x := SitePath(ps[k].filePath);
        assert x in paths;
        var i :| 0 <= i < |paths| && paths[i] == x;
        assert urls[i] == u;
      }
    }
    DistinctPermutation(urls, docs);
    forall i, j | 0 <= i < j < |docs|
      ensures StrLess(docs[i], docs[j])
    {
      AscendingPairs(docs, i, j);
    }
  }

  /** Adjacent order and distinctness give strict order between any two positions. */
  lemma {:induction false} AscendingPairs(xs: seq<string>, i: nat, j: nat)
    requires AdjacentSorted(xs, StrCmp()) && Distinct(xs)
    requires i < j < |xs|
    ensures StrLess(xs[i], xs[j])
    decreases j - i
  {
    assert StrCmp()(xs[i], xs[i + 1]) <= 0;
    StrLessTotal(xs[i], xs[i + 1]);
    if i + 1 < j {
      AscendingPairs(xs, i + 1, j);
      StrLessTransitive(xs[i], xs[i + 1], xs[j]);
    }
  }

  lemma {:induction false} DistinctCount(xs: seq<string>, x: string)
    requires Distinct(xs)
    ensures multiset(xs)[x] <= 1
  {
    if |xs| > 0 {
      assert xs == [xs[0]] + xs[1..];
      DistinctCount(xs[1..], x);
      if xs[0] == x {
        assert x !in xs[1..];
      }
    }
  }

  lemma TwiceCount(r: seq<string>, i: nat, j: nat)
    requires i < j < |r| && r[i] == r[j]
    ensures multiset(r)[r[i]] >= 2
  {
    assert r == r[..j] + r[j..];
    assert r[i] in r[..j] && r[j] == r[j..][0];
    assert multiset(r)[r[i]] == multiset(r[..j])[r[i]] + multiset(r[j..])[r[i]];
  }

  lemma DistinctPermutation(xs: seq<string>, r: seq<string>)
    requires Distinct(xs) && multiset(r) == multiset(xs)
    ensures Distinct(r)
  {
    forall i, j | 0 <= i < j < |r|
      ensures r[i] != r[j]
    {
      if r[i] == r[j] {
        TwiceCount(r, i, j);
        DistinctCount(xs, r[i]);
      }
    }
  }

  /** Reading the sitemap line by line gives the documents back, when no URL holds a newline. */
  lemma SitemapLines(ps: seq<Page>, base: string)
    requires |Documents(ps, base)| > 0
    requires forall k :: 0 <= k < |Documents(ps, base)| ==> '\n' !in Documents(ps, base)[k]
    ensures Split(SitemapText(ps, base), '\n') == Documents(ps, base)
  {
    SplitJoin(Documents(ps, base), '\n');
  }
}
