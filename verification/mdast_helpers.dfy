/**
 * The Markdown-tree helpers of `scripts/mdast/helpers.js`: reading the front
 * matter, and reading and removing the document title.
 */
module MdastHelpers {
  import opened Util
  import opened Unist
  import opened Mdast

  /** A loaded front-matter record (YAML scalars as strings). */
  type FrontMatter = map<string, string>

  /** The value of the first `yaml` child of the root, if there is one. */
  function FirstYaml(ns: seq<MTree>): (r: Option<string>)
    ensures r.None? <==> forall k :: 0 <= k < |ns| ==> !ns[k].data.Yaml?
    ensures r.Some? ==> exists k :: 0 <= k < |ns| && ns[k].data == Yaml(r.value) && forall j :: 0 <= j < k ==> !ns[j].data.Yaml?
  {
    if |ns| == 0 then None
    else if ns[0].data.Yaml? then Some(ns[0].data.value)
    else
      var r := FirstYaml(ns[1..]);
      assert forall k :: 1 <= k < |ns| ==> ns[k] == ns[1..][k - 1];
      r
  }

  /**
   * `getFrontMatter(tree)`: the first root-level `yaml` node loaded by
   * `load` (the YAML parser, which may throw). Without a `yaml` node, reading
   * its `value` throws; any error is caught and gives `{}`.
   */
  function GetFrontMatter(ns: seq<MTree>, load: string -> Result<FrontMatter>): (r: FrontMatter)
    ensures (forall k :: 0 <= k < |ns| ==> !ns[k].data.Yaml?) ==> r == map[]
    ensures FirstYaml(ns).Some? && load(FirstYaml(ns).value).Throws? ==> r == map[]
    ensures FirstYaml(ns).Some? && load(FirstYaml(ns).value).Ok? ==> r == load(FirstYaml(ns).value).value
    ensures r != map[] ==>
      exists k :: 0 <= k < |ns| && ns[k].data.Yaml? && load(ns[k].data.value) == Ok(r)
        && forall j :: 0 <= j < k ==> !ns[j].data.Yaml?
  {
    match FirstYaml(ns)
    case None => map[]
    case Some(v) =>
      match load(v)
      case Ok(fm) => fm
      case Throws(_) => map[]
  }

  /** Only root-level `yaml` nodes count: anything nested below the root's children is ignored. */
  lemma GetFrontMatterRootOnly(ns: seq<MTree>, ms: seq<MTree>, load: string -> Result<FrontMatter>)
    requires |ns| == |ms| && forall k :: 0 <= k < |ns| ==> ns[k].data == ms[k].data
    ensures GetFrontMatter(ns, load) == GetFrontMatter(ms, load)
  {
    assert FirstYaml(ns) == FirstYaml(ms) by {
      FirstYamlData(ns, ms);
    }
  }

  lemma {:induction false} FirstYamlData(ns: seq<MTree>, ms: seq<MTree>)
    requires |ns| == |ms| && forall k :: 0 <= k < |ns| ==> ns[k].data == ms[k].data
    ensures FirstYaml(ns) == FirstYaml(ms)
  {
    if |ns| > 0 {
      FirstYamlData(ns[1..], ms[1..]);
    }
  }

  /**
   * `getDocumentTitle(tree)`: the `value` of the first child of the first
   * depth-1 heading in preorder (`undefined` when that child has no value),
   * or `''` without such a heading. A heading without children makes
   * `node.children[0].value` throw.
   */
  function GetDocumentTitle(ns: seq<MTree>): (r: Result<Option<string>>)
    ensures FirstMatch(Nodes(ns), Heading1()).None? ==> r == Ok(Some(""))
    ensures FirstMatch(Nodes(ns), Heading1()).Some? ==>
      var h := Nodes(ns)[FirstMatch(Nodes(ns), Heading1()).value].1;
      IsHeading1(h) && (r.Throws? <==> |h.children| == 0) && (|h.children| > 0 ==> r == Ok(Value(h.children[0].data)))
  {
    match FindFirst(ns, Heading1())
    case None => Ok(Some(""))
    case Some((_, h)) =>
      if |h.children| == 0 then Throws("TypeError: Cannot read properties of undefined (reading 'value')")
      else Ok(Value(h.children[0].data))
  }

  /**
   * `removeDocumentTitle(tree)`: the first depth-1 heading in preorder is
   * spliced out of its parent's children; everything else keeps its order.
   */
  function RemoveDocumentTitle(ns: seq<MTree>): (r: seq<MTree>)
    ensures FindFirst(ns, Heading1()).None? ==> r == ns
    ensures FindFirst(ns, Heading1()).Some? ==>
      var p := FindFirst(ns, Heading1()).value.0;
      var q, i := ParentOf(p), IndexOf(p);
      ValidParent(ns, q) && ValidParent(r, q)
      && var before := ChildrenAt(ns, q);
         i < |before| && IsHeading1(before[i]) && ChildrenAt(r, q) == before[..i] + before[i + 1..]
  {
    match FindFirst(ns, Heading1())
    case None => ns
    case Some((p, _)) =>
      ValidPathParent(ns, p);
      EditChildren(ns, ParentOf(p), SpliceOut(IndexOf(p)))
  }

  /** Nodes off the title's parent are untouched. */
  lemma RemoveDocumentTitleFrame(ns: seq<MTree>, p: Path)
    requires FindFirst(ns, Heading1()).Some? && ValidPath(ns, p)
    requires var q := ParentOf(FindFirst(ns, Heading1()).value.0); !IsPrefix(q, p) && !IsPrefix(p, q)
    ensures ValidPath(RemoveDocumentTitle(ns), p) && At(RemoveDocumentTitle(ns), p) == At(ns, p)
  {
    var f := FindFirst(ns, Heading1()).value.0;
    ValidPathParent(ns, f);
    EditChildrenFrame(ns, ParentOf(f), SpliceOut(IndexOf(f)), p);
  }

  /** Putting the heading back at its index restores the document. */
  lemma RemoveDocumentTitleUndo(ns: seq<MTree>)
    requires FindFirst(ns, Heading1()).Some?
    ensures var (p, h) := FindFirst(ns, Heading1()).value;
      EditChildren(RemoveDocumentTitle(ns), ParentOf(p), SpliceIn(IndexOf(p), h)) == ns
  {
    var (p, h) := FindFirst(ns, Heading1()).value;
    ValidPathParent(ns, p);
    var cs := ChildrenAt(ns, ParentOf(p));
    var i := IndexOf(p);
    assert cs[i] == h;
    var cs' := cs[..i] + cs[i + 1..];
    assert cs'[..i] + [h] + cs'[i..] == cs;
    EditChildrenUndo(ns, ParentOf(p), SpliceOut(i), SpliceIn(i, h));
  }
}
