/**
 * The tree-edit primitives of `scripts/hast/std-helpers.js`: find elements in
 * preorder, append children to the first element with a tag, and insert a
 * node immediately before the first match (splicing it in at the match's
 * index).
 */
module StdHelpers {
  import opened Util
  import opened Unist
  import opened Hast

  /** The walk tests `'element'` first, so a matcher only ever sees elements. */
  function ElementMatching(m: HTree -> bool): HTree -> bool {
    n => IsElement(n) && m(n)
  }

  /** Whether a visited (path, node) pair is passed on to the callback. */
  function IsCall(m: HTree -> bool): ((Path, HTree)) -> bool {
    (x: (Path, HTree)) => IsElement(x.1) && m(x.1)
  }

  /** The visitor `findElement` hands to the walk: the callback's verdict on matches, continue elsewhere. */
  function FindVisitor(m: HTree -> bool, callback: (HTree, Path) -> Action): (HTree, Path) -> Action {
    (n: HTree, p: Path) => if IsElement(n) && m(n) then callback(n, p) else Continue
  }

  /** A callback that returns `false`: the walk stops at once. */
  function StopAtFirst(): (HTree, Path) -> Action {
    (n: HTree, p: Path) => Exit
  }

  /** A callback that returns nothing: the walk goes on. */
  function KeepGoing(): (HTree, Path) -> Action {
    (n: HTree, p: Path) => Continue
  }

  /**
   * `findElement(tree, tagName, callback)`: the (path, node) pairs the
   * callback is called with, in order. Every node of a document below the
   * root has a parent, so the source's parent test always passes.
   */
  function FindElement(ns: seq<HTree>, m: HTree -> bool, callback: (HTree, Path) -> Action): (calls: seq<(Path, HTree)>)
    ensures forall k :: 0 <= k < |calls| ==> IsElement(calls[k].1) && m(calls[k].1)
  {
    Filter(Walk(ns, [], 0, FindVisitor(m, callback)).0, IsCall(m))
  }

  /** A callback that never stops the walk is called on every matching element, in preorder. */
  lemma FindElementEvery(ns: seq<HTree>, m: HTree -> bool, callback: (HTree, Path) -> Action)
    requires forall n, p :: callback(n, p) == Continue
    ensures FindElement(ns, m, callback) == Filter(Nodes(ns), IsCall(m))
  {
    var v := FindVisitor(m, callback);
    assert forall n, p :: v(n, p) == Continue;
    WalkIsPreorder(ns, [], 0, v);
    NeverExits(Nodes(ns), v);
  }

  /** A callback returning `false` is called exactly once, on the first matching element, if there is one. */
  lemma FindElementFirst(ns: seq<HTree>, m: HTree -> bool, callback: (HTree, Path) -> Action)
    requires forall n, p :: callback(n, p) == Exit
    ensures FindElement(ns, m, callback)
         == match FindFirst(ns, ElementMatching(m)) case None => [] case Some(x) => [x]
  {
    var v := FindVisitor(m, callback);
    assert forall n, p :: v(n, p) == (if ElementMatching(m)(n) then Exit else Continue);
    WalkIsPreorder(ns, [], 0, v);
    CallsUpToExit(Nodes(ns), m, v);
  }

  /** Cut after the first match, the visited pairs hold one call: the first match, if any. */
  lemma CallsUpToExit(xs: seq<(Path, HTree)>, m: HTree -> bool, v: (HTree, Path) -> Action)
    requires forall n, p :: v(n, p) == (if ElementMatching(m)(n) then Exit else Continue)
    ensures Filter(UpToExit(xs, v), IsCall(m))
         == match FirstMatch(xs, ElementMatching(m)) case None => [] case Some(f) => [xs[f]]
  {
    var em := ElementMatching(m);
    UpToExitFindsFirstMatch(xs, em, v);
    var r := FirstMatch(xs, em);
    if r.Some? {
      var ys := UpToExit(xs, v);
      CallsUpToFirst(xs, m, r.value, ys);
    } else {
      UpToExitAll(xs, v);
      FilterNone(xs, IsCall(m));
    }
  }

  /** The prefix ending at the first matching element holds exactly one call. */
  lemma CallsUpToFirst(xs: seq<(Path, HTree)>, m: HTree -> bool, f: nat, ys: seq<(Path, HTree)>)
    requires f < |xs| && ElementMatching(m)(xs[f].1)
    requires forall j :: 0 <= j < f ==> !ElementMatching(m)(xs[j].1)
    requires |ys| == f + 1 && ys == xs[..|ys|]
    ensures Filter(ys, IsCall(m)) == [xs[f]]
  {
    assert ys == xs[..f] + [xs[f]];
    FilterUpToFirst(xs, f, IsCall(m));
  }


  /** Adds `elems` at the end of a children list. */
  function PushAll(elems: seq<HTree>): seq<HTree> -> seq<HTree> {
    cs => cs + elems
  }

  /** Drops the last `k` entries of a children list. */
  function DropLast(k: nat): seq<HTree> -> seq<HTree> {
    cs => if k <= |cs| then cs[..|cs| - k] else cs
  }

  /** The element `append` and friends act on: the first element in preorder with the tag. */
  function FirstTagged(ns: seq<HTree>, tag: string): Option<(Path, HTree)> {
    FindFirst(ns, ElementMatching(TagIs(tag)))
  }

  /**
   * `append(tree, tagName, ...elements)`: the elements go, in order, at the
   * end of the children of the first element with that tag.
   */
  function Append(ns: seq<HTree>, tag: string, elems: seq<HTree>): (r: seq<HTree>)
    ensures (forall k :: 0 <= k < |Nodes(ns)| ==> !HasTag(Nodes(ns)[k].1, tag)) ==> r == ns
    ensures FirstTagged(ns, tag).Some? ==>
      var (p, n) := FirstTagged(ns, tag).value;
      HasTag(n, tag) && ValidPath(r, p) && At(r, p) == Node(n.data, n.children + elems)
  {
    var calls := FindElement(ns, TagIs(tag), StopAtFirst());
    FindElementFirst(ns, TagIs(tag), StopAtFirst());
    if |calls| == 0 then ns
    else
      var p := calls[0].0;
      var r := EditChildren(ns, p, PushAll(elems));
      assert At(r, p).children == At(ns, p).children + elems;
      r
  }

  /** `append` touches no node off the path to the element it extends. */
  lemma AppendFrame(ns: seq<HTree>, tag: string, elems: seq<HTree>, p: Path)
    requires FirstTagged(ns, tag).Some? && ValidPath(ns, p)
    requires !IsPrefix(FirstTagged(ns, tag).value.0, p) && !IsPrefix(p, FirstTagged(ns, tag).value.0)
    ensures ValidPath(Append(ns, tag, elems), p) && At(Append(ns, tag, elems), p) == At(ns, p)
  {
    FindElementFirst(ns, TagIs(tag), StopAtFirst());
    EditChildrenFrame(ns, FirstTagged(ns, tag).value.0, PushAll(elems), p);
  }

  /** Dropping the appended children again gives the original document back. */
  lemma AppendUndo(ns: seq<HTree>, tag: string, elems: seq<HTree>)
    requires FirstTagged(ns, tag).Some?
    ensures EditChildren(Append(ns, tag, elems), FirstTagged(ns, tag).value.0, DropLast(|elems|)) == ns
  {
    var p := FirstTagged(ns, tag).value.0;
    FindElementFirst(ns, TagIs(tag), StopAtFirst());
    var cs := ChildrenAt(ns, p);
    assert (cs + elems)[..|cs + elems| - |elems|] == cs;
    EditChildrenUndo(ns, p, PushAll(elems), DropLast(|elems|));
  }

  /**
   * `r` is `ns` with `e` placed immediately before the node at `p`: the
   * parent gains exactly one child, the siblings before keep their places
   * and the node and its later siblings move one place right.
   */
  predicate InsertedBefore(ns: seq<HTree>, r: seq<HTree>, p: Path, e: HTree) {
    ValidPath(ns, p) && ValidParent(ns, ParentOf(p)) && ValidParent(r, ParentOf(p))
    && var before := ChildrenAt(ns, ParentOf(p));
       var after := ChildrenAt(r, ParentOf(p));
       var i := IndexOf(p);
       i < |before| && |after| == |before| + 1
       && after[..i] == before[..i] && after[i] == e && after[i + 1..] == before[i..]
  }

  /**
   * `insertBefore(tree, matcher, element)`: `element` is spliced into the
   * first match's parent at the match's index.
   */
  function InsertBefore(ns: seq<HTree>, m: HTree -> bool, e: HTree): (r: seq<HTree>)
    ensures FindFirst(ns, ElementMatching(m)).None? ==> r == ns
    ensures FindFirst(ns, ElementMatching(m)).Some? ==> InsertedBefore(ns, r, FindFirst(ns, ElementMatching(m)).value.0, e)
  {
    var calls := FindElement(ns, m, StopAtFirst());
    FindElementFirst(ns, m, StopAtFirst());
    if |calls| == 0 then ns
    else
      var p := calls[0].0;
      ValidPathParent(ns, p);
      EditChildren(ns, ParentOf(p), SpliceIn(IndexOf(p), e))
  }

  /** When there is a match, `insertBefore` is the splice at the match's index in its parent. */
  lemma InsertBeforeAt(ns: seq<HTree>, m: HTree -> bool, e: HTree, p: Path)
    requires FindFirst(ns, ElementMatching(m)).Some? && FindFirst(ns, ElementMatching(m)).value.0 == p
    ensures ValidPath(ns, p) && ValidParent(ns, ParentOf(p))
    ensures InsertBefore(ns, m, e) == EditChildren(ns, ParentOf(p), SpliceIn(IndexOf(p), e))
  {
    FindElementFirst(ns, m, StopAtFirst());
    ValidPathParent(ns, p);
  }

  /** Nodes outside the match's parent are untouched by `insertBefore`. */
  lemma InsertBeforeFrame(ns: seq<HTree>, m: HTree -> bool, e: HTree, p: Path)
    requires FindFirst(ns, ElementMatching(m)).Some? && ValidPath(ns, p)
    requires var q := ParentOf(FindFirst(ns, ElementMatching(m)).value.0); !IsPrefix(q, p) && !IsPrefix(p, q)
    ensures ValidPath(InsertBefore(ns, m, e), p) && At(InsertBefore(ns, m, e), p) == At(ns, p)
  {
    var f := FindFirst(ns, ElementMatching(m)).value.0;
    FindElementFirst(ns, m, StopAtFirst());
    ValidPathParent(ns, f);
    EditChildrenFrame(ns, ParentOf(f), SpliceIn(IndexOf(f), e), p);
  }

  /** Removing the inserted node again gives the original document back. */
  lemma InsertBeforeUndo(ns: seq<HTree>, m: HTree -> bool, e: HTree)
    requires FindFirst(ns, ElementMatching(m)).Some?
    ensures var f := FindFirst(ns, ElementMatching(m)).value.0;
      EditChildren(InsertBefore(ns, m, e), ParentOf(f), SpliceOut(IndexOf(f))) == ns
  {
    var f := FindFirst(ns, ElementMatching(m)).value.0;
    FindElementFirst(ns, m, StopAtFirst());
    ValidPathParent(ns, f);
    var cs := ChildrenAt(ns, ParentOf(f));
    var i := IndexOf(f);
    var cs' := cs[..i] + [e] + cs[i..];
    assert cs'[..i] + cs'[i + 1..] == cs;
    EditChildrenUndo(ns, ParentOf(f), SpliceIn(i, e), SpliceOut(i));
  }

  /** `[node?.properties?.rel].flat().includes('stylesheet')`: an exact token of a string or a list. */
  predicate RelHasStylesheet(rel: Option<PropValue>) {
    match rel
    case Some(Str(s)) => s == "stylesheet"
    case Some(Strs(items)) => "stylesheet" in items
    case _ => false
  }

  predicate IsStylesheetLink(n: HTree) {
    HasTag(n, "link") && RelHasStylesheet(Prop(n, "rel"))
  }

  function StylesheetMatcher(): HTree -> bool {
    n => IsStylesheetLink(n)
  }

  /** `insertBeforeStylesheets(tree, element)`: insert before the first stylesheet link. */
  function InsertBeforeStylesheets(ns: seq<HTree>, e: HTree): (r: seq<HTree>)
    ensures (forall k :: 0 <= k < |Nodes(ns)| ==> !IsStylesheetLink(Nodes(ns)[k].1)) ==> r == ns
    ensures var f := FindFirst(ns, ElementMatching(StylesheetMatcher()));
      f.Some? ==> IsStylesheetLink(f.value.1) && InsertedBefore(ns, r, f.value.0, e)
  {
    InsertBefore(ns, StylesheetMatcher(), e)
  }
}
