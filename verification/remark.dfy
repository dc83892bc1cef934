/**
 * The remark plugins of the Astro site (`src/remark/`): moving the title
 * into the front matter, marking shell code blocks, and turning directive
 * nodes into hast rendering hints.
 */
module Remark {
  import opened Util
  import opened Unist
  import opened Hast
  import opened Mdast

  // ---------------------------------------------------------------------------
  // moveTitle.
  // ---------------------------------------------------------------------------

  /** The index of the first depth-1 heading among the root's children. */
  function FirstTitleIndex(ns: seq<MTree>): (r: Option<nat>)
    ensures r.None? <==> forall k :: 0 <= k < |ns| ==> !IsHeading1(ns[k])
    ensures r.Some? ==> r.value < |ns| && IsHeading1(ns[r.value])
    ensures r.Some? ==> forall k :: 0 <= k < r.value ==> !IsHeading1(ns[k])
  {
    if |ns| == 0 then None
    else if IsHeading1(ns[0]) then Some(0)
    else
      var r := FirstTitleIndex(ns[1..]);
      assert forall k :: 1 <= k < |ns| ==> ns[k] == ns[1..][k - 1];
      if r.Some? then Some(r.value + 1) else None
  }

  /** The root's new children, and the front-matter title the plugin set (`None`: left as it was). */
  datatype Moved = Moved(children: seq<MTree>, title: Option<string>)

  /**
   * `moveTitle()`: the first depth-1 heading at the root becomes the
   * front-matter title (as plain text) and leaves the tree.
   */
  function MoveTitle(ns: seq<MTree>): (r: Moved)
    ensures r.title.None? <==> forall k :: 0 <= k < |ns| ==> !IsHeading1(ns[k])
    ensures r.title.None? ==> r.children == ns
    ensures r.title.Some? ==>
      var i := FirstTitleIndex(ns).value;
      r.title == Some(ToString(ns[i])) && r.children == ns[..i] + ns[i + 1..]
  {
    match FirstTitleIndex(ns)
    case None => Moved(ns, None)
    case Some(i) => Moved(ns[..i] + ns[i + 1..], Some(ToString(ns[i])))
  }

  /** Putting the heading back where it was restores the root's children; nothing else was touched. */
  lemma MoveTitleUndo(ns: seq<MTree>)
    requires FirstTitleIndex(ns).Some?
    ensures var i := FirstTitleIndex(ns).value;
      var cs := MoveTitle(ns).children;
      |cs| == |ns| - 1 && cs[..i] + [ns[i]] + cs[i..] == ns
  {
    RemoveAtUndo(ns, FirstTitleIndex(ns).value);
  }

  /**
   * An image that opens the heading contributes its non-empty `alt`: the
   * title of `# ![logo](x.png) Title` is `logo Title`.
   */
  lemma MoveTitleImageAlt(ns: seq<MTree>, url: string, alt: string, rest: seq<MTree>)
    requires FirstTitleIndex(ns).Some? && alt != ""
    requires ns[FirstTitleIndex(ns).value].children == [Node(Image(url, Some(alt)), [])] + rest
    ensures MoveTitle(ns).title == Some(alt + ToStrings(rest))
  {
    var h := ns[FirstTitleIndex(ns).value];
    var img := Node(Image(url, Some(alt)), []);
    assert Value(h.data).None? && AltText(h.data).None?;
    assert ToString(img) == alt;
    assert h.children[0] == img && h.children[1..] == rest;
    assert ToString(h) == ToStrings(h.children) == ToString(img) + ToStrings(rest);
  }

  // ---------------------------------------------------------------------------
  // uncode.
  // ---------------------------------------------------------------------------

  /** A fenced code block whose language is `shell`. */
  predicate IsShellCode(d: MNode) {
    d.Code? && d.lang == Some("shell")
  }

  /** A shell code block becomes an `uncode` node with the same fields; other nodes stay. */
  function UncodeData(d: MNode): (e: MNode)
    ensures IsShellCode(d) ==> e.Uncode? && e.lang == d.lang && e.meta == d.meta && e.value == d.value
    ensures !IsShellCode(d) ==> e == d
    ensures !IsShellCode(e)
  {
    if IsShellCode(d) then Uncode(d.lang, d.meta, d.value) else d
  }

  function UncodeVisitor(): (MTree, nat, seq<MTree>) -> Step<MNode> {
    (n: MTree, i: nat, s: seq<MTree>) => Update(UncodeData(n.data), Continue)
  }

  /** `uncode()`: visits every node and retypes shell code blocks. */
  function UncodePass(ns: seq<MTree>): (r: seq<MTree>)
    ensures r == Relabel(ns, UncodeData)
  {
    RewriteRelabel([], ns, UncodeVisitor(), UncodeData);
    RewriteAll(ns, UncodeVisitor()).nodes
  }

  /** Node by node: same paths, shell code retyped, everything else as it was. */
  lemma UncodeAt(ns: seq<MTree>, p: Path)
    requires ValidPath(ns, p)
    ensures ValidPath(UncodePass(ns), p)
    ensures var d, e := At(ns, p).data, At(UncodePass(ns), p).data;
      (IsShellCode(d) ==> e == Uncode(d.lang, d.meta, d.value))
      && (!IsShellCode(d) ==> e == d)
      && !IsShellCode(e)
    ensures |At(UncodePass(ns), p).children| == |At(ns, p).children|
  {
    RelabelAtPath(ns, UncodeData, p);
  }

  function NotShell(): MNode -> bool {
    d => !IsShellCode(d)
  }

  /** No shell code block is left anywhere in the result. */
  lemma UncodeLeavesNoShell(ns: seq<MTree>)
    ensures EveryNode(UncodePass(ns), NotShell())
  {
    RelabelAllFixed(ns, UncodeData);
    AllFixedEvery(UncodePass(ns));
  }

  lemma {:induction false} AllFixedEvery(ns: seq<MTree>)
    requires AllFixed(ns, UncodeData)
    ensures EveryNode(ns, NotShell())
    decreases ns
  {
    forall k | 0 <= k < |ns| {
      AllFixedEvery(ns[k].children);
    }
  }

  /** Running the plugin twice is running it once. */
  lemma UncodeIdempotent(ns: seq<MTree>)
    ensures UncodePass(UncodePass(ns)) == UncodePass(ns)
  {
    RelabelIdempotent(ns, UncodeData);
  }

  // ---------------------------------------------------------------------------
  // transformDirectives.
  // ---------------------------------------------------------------------------

  /** A hast element as a directive function returns it. */
  datatype HElement = HElement(tag: string, props: Props, children: seq<HTree>)

  /** A directive function: the directive node, its index and its parent's children. */
  type DirectiveVisitor = (MTree, nat, seq<MTree>) -> Result<HElement>

  type Directives = map<string, DirectiveVisitor>

  /** `h(name, attributes)` of hastscript, whose name and property normalisation is not part of this model. */
  type Hastscript = (string, map<string, string>) -> HElement

  /**
   * The hast hints a directive node gains from the element `e`: its tag
   * name and properties, and its children when `children` is set; every
   * other key keeps its value.
   */
  function WithHints(data: map<string, DataValue>, e: HElement, children: bool): (r: map<string, DataValue>)
    ensures r.Keys == data.Keys + {"hName", "hProperties"} + (if children then {"hChildren"} else {})
    ensures r["hName"] == HName(e.tag) && r["hProperties"] == HProperties(e.props)
    ensures children ==> r["hChildren"] == HChildren(e.children)
    ensures !children && "hChildren" in data ==> r["hChildren"] == data["hChildren"]
    ensures forall k :: k in data && k != "hName" && k != "hProperties" && (children ==> k != "hChildren") ==> r[k] == data[k]
  {
    var d := data["hName" := HName(e.tag)]["hProperties" := HProperties(e.props)];
    if children then d["hChildren" := HChildren(e.children)] else d
  }

  /**
   * A directive the visitor leaves a directive: not a text directive, or
   * one that is the first child, or one whose previous sibling's value ends
   * in a space.
   */
  predicate Kept(n: MTree, i: nat, sibs: seq<MTree>) {
    n.data.Directive?
    && (n.data.form != TextForm || i == 0 || i > |sibs|
        || (Value(sibs[i - 1].data).Some? && EndsWith(Value(sibs[i - 1].data).value, " ")))
  }

  /** What the visitor does with the node at index `i` of `sibs`. */
  function DirectiveAction(dirs: Directives, hs: Hastscript, n: MTree, i: nat, sibs: seq<MTree>): (s: Step<MNode>)
    ensures !n.data.Directive? ==> s == Update(n.data, Continue)
    ensures s.Update? ==> s.action == Continue
    ensures n.data.Directive? && n.data.form == TextForm && 0 < i <= |sibs| ==>
      (Value(sibs[i - 1].data).None? ==> s.Throw?)
      && (Value(sibs[i - 1].data).Some? && !EndsWith(Value(sibs[i - 1].data).value, " ") ==> s == Update(MText(":" + n.data.name), Continue))
    ensures s.Throw? ==> n.data.Directive?
    ensures Kept(n, i, sibs) && n.data.name in dirs ==>
      var d := n.data;
      (s.Throw? <==> dirs[d.name](n, i, sibs).Throws?)
      && (dirs[d.name](n, i, sibs).Ok? ==>
            s == Update(Directive(d.form, d.name, d.attributes, WithHints(d.data, dirs[d.name](n, i, sibs).value, true)), Continue))
    ensures Kept(n, i, sibs) && n.data.name !in dirs ==>
      var d := n.data;
      s == Update(Directive(d.form, d.name, d.attributes, WithHints(d.data, hs(d.name, d.attributes), false)), Continue)
  {
    match n.data
    case Directive(form, name, attrs, data) =>
      if form == TextForm && 0 < i <= |sibs| && Value(sibs[i - 1].data).None? then Throw
      else if form == TextForm && 0 < i <= |sibs| && !EndsWith(Value(sibs[i - 1].data).value, " ") then
        Update(MText(":" + name), Continue)
      else if name in dirs then
        match dirs[name](n, i, sibs)
        case Throws(_) => Throw
        case Ok(e) => Update(Directive(form, name, attrs, WithHints(data, e, true)), Continue)
      else
        Update(Directive(form, name, attrs, WithHints(data, hs(name, attrs), false)), Continue)
    case _ => Update(n.data, Continue)
  }

  function DirectiveStep(dirs: Directives, hs: Hastscript): (MTree, nat, seq<MTree>) -> Step<MNode> {
    (n: MTree, i: nat, sibs: seq<MTree>) => DirectiveAction(dirs, hs, n, i, sibs)
  }

  /**
   * How the pass may change one node: a non-directive stays as it is; a text
   * directive may become the text `:name`; otherwise a directive keeps its
   * form, name and attributes, and its data gains the hints of the element
   * its function returned for some position (registered name) or of
   * `h(name, attributes)` without children (other names).
   */
  ghost predicate Transformed(dirs: Directives, hs: Hastscript, a: MNode, b: MNode) {
    if !a.Directive? then b == a
    else
      (a.form == TextForm && b == MText(":" + a.name))
      || (a.name in dirs
          && exists n: MTree, i: nat, sibs: seq<MTree> :: n.data == a && dirs[a.name](n, i, sibs).Ok?
               && b == Directive(a.form, a.name, a.attributes, WithHints(a.data, dirs[a.name](n, i, sibs).value, true)))
      || (a.name !in dirs
          && b == Directive(a.form, a.name, a.attributes, WithHints(a.data, hs(a.name, a.attributes), false)))
  }

  ghost function TransformedRel(dirs: Directives, hs: Hastscript): (MNode, MNode) -> bool {
    (a: MNode, b: MNode) => Transformed(dirs, hs, a, b)
  }

  lemma DirectiveActionTransforms(dirs: Directives, hs: Hastscript, n: MTree, i: nat, sibs: seq<MTree>)
    ensures DirectiveAction(dirs, hs, n, i, sibs).Update? ==>
      Transformed(dirs, hs, n.data, DirectiveAction(dirs, hs, n, i, sibs).data)
  {
    var s := DirectiveAction(dirs, hs, n, i, sibs);
    if s.Update? && n.data.Directive? && s.data.Directive? && n.data.name in dirs {
      assert dirs[n.data.name](n, i, sibs).Ok?;
    }
  }

  /**
   * A directive that cannot make the visitor throw: not a text directive,
   * and, when its name is registered, a function that never throws.
   */
  ghost predicate Safe(dirs: Directives, d: MNode) {
    d.Directive? ==>
      d.form != TextForm && (d.name in dirs ==> forall n, i, sibs :: dirs[d.name](n, i, sibs).Ok?)
  }

  ghost function SafeIn(dirs: Directives): MNode -> bool {
    d => Safe(dirs, d)
  }

  /**
   * `transformDirectives(directives)`: the document keeps its shape, and
   * every node is changed only as `Transformed` allows. The pass throws only
   * when a directive function throws or a text directive follows a sibling
   * without a `value`, so a document whose directives are all `Safe` never
   * throws.
   */
  function TransformDirectives(ns: seq<MTree>, dirs: Directives, hs: Hastscript): (r: Result<seq<MTree>>)
    ensures r.Ok? ==> Pointwise(ns, r.value, TransformedRel(dirs, hs))
    ensures EveryNode(ns, SafeIn(dirs)) ==> r.Ok?
  {
    forall n, i, sibs ensures DirectiveStep(dirs, hs)(n, i, sibs).Update? ==>
      TransformedRel(dirs, hs)(n.data, DirectiveStep(dirs, hs)(n, i, sibs).data)
    {
      DirectiveActionTransforms(dirs, hs, n, i, sibs);
    }
    RewriteContinuing([], ns, DirectiveStep(dirs, hs), TransformedRel(dirs, hs));
    SafeNeverThrows(ns, dirs, hs);
    match RewriteAll(ns, DirectiveStep(dirs, hs))
    case Thrown => Throws("TypeError")
    case Done(r, _) => Ok(r)
  }

  lemma SafeNeverThrows(ns: seq<MTree>, dirs: Directives, hs: Hastscript)
    ensures EveryNode(ns, SafeIn(dirs)) ==> RewriteAll(ns, DirectiveStep(dirs, hs)).Done?
  {
    forall n: MTree, i, sibs | SafeIn(dirs)(n.data)
      ensures !DirectiveStep(dirs, hs)(n, i, sibs).Throw?
    {
      if n.data.Directive? && n.data.name in dirs {
        assert dirs[n.data.name](n, i, sibs).Ok?;
      }
    }
    if EveryNode(ns, SafeIn(dirs)) {
      RewriteNeverThrows([], ns, DirectiveStep(dirs, hs), SafeIn(dirs));
    }
  }

  /**
   * The first node of the document is visited first, at index 0: when its
   * visit throws, so does the pass, and a directive there is never turned
   * into text.
   */
  lemma TransformDirectivesFirst(ns: seq<MTree>, dirs: Directives, hs: Hastscript)
    requires |ns| > 0
    ensures DirectiveAction(dirs, hs, ns[0], 0, ns).Throw? ==> TransformDirectives(ns, dirs, hs).Throws?
    ensures TransformDirectives(ns, dirs, hs).Ok? && ns[0].data.Directive? ==>
      TransformDirectives(ns, dirs, hs).value[0].data.Directive?
  {
    var visit := DirectiveStep(dirs, hs);
    var none: seq<MTree> := [];
    assert none + ns == ns;
    if TransformDirectives(ns, dirs, hs).Ok? {
      RewriteFirstNode(ns, visit);
      if ns[0].data.Directive? {
        assert Kept(ns[0], 0, ns);
      }
    }
  }

  function NotDirective(): MNode -> bool {
    (d: MNode) => !d.Directive?
  }

  /** A document without directive nodes comes through unchanged. */
  lemma TransformDirectivesNone(ns: seq<MTree>, dirs: Directives, hs: Hastscript)
    requires EveryNode(ns, NotDirective())
    ensures TransformDirectives(ns, dirs, hs) == Ok(ns)
  {
    RewriteIdle([], ns, DirectiveStep(dirs, hs), NotDirective());
  }

  // ---------------------------------------------------------------------------
  // addFigure.
  // ---------------------------------------------------------------------------

  /** A property whose value may be `undefined`: hastscript leaves it out. */
  function OptProp(key: string, v: Option<string>): (ps: Props)
    ensures v.None? <==> ps == map[]
    ensures v.Some? ==> ps == map[key := Str(v.value)]
  {
    if v.Some? then
      var ps := map[key := Str(v.value)];
      assert key in ps;
      ps
    else map[]
  }

  /** `<figure><img src alt/><figcaption><a href>alt</a></figcaption></figure>`. */
  function Figure(src: Option<string>, alt: Option<string>, href: Option<string>): HElement {
    var img := El("img", OptProp("src", src) + OptProp("alt", alt), []);
    var a := El("a", OptProp("href", href), OptTxt(alt));
    HElement("figure", map[], [img, El("figcaption", map[], [a])])
  }

  /**
   * `addFigure(node, index, parent)`: the link reference is the first child
   * of the node's first child, the image reference its first child; their
   * definitions are looked up among the parent's children. A missing link or
   * image reference throws; a missing definition leaves its attribute out.
   */
  function AddFigure(n: MTree, i: nat, sibs: seq<MTree>): (r: Result<HElement>)
    ensures r.Throws? <==>
      |n.children| == 0 || |n.children[0].children| == 0 || |n.children[0].children[0].children| == 0
    ensures r.Ok? ==>
      var linkRef := n.children[0].children[0];
      var imgRef := linkRef.children[0];
      r.value == Figure(DefinitionUrl(sibs, Identifier(imgRef.data)), AltText(imgRef.data), DefinitionUrl(sibs, Identifier(linkRef.data)))
  {
    if |n.children| == 0 || |n.children[0].children| == 0 then Throws("TypeError: Cannot read properties of undefined (reading 'children')")
    else
      var linkRef := n.children[0].children[0];
      if |linkRef.children| == 0 then Throws("TypeError: Cannot read properties of undefined (reading 'alt')")
      else
        var imgRef := linkRef.children[0];
        var href := DefinitionUrl(sibs, Identifier(linkRef.data));
        var src := DefinitionUrl(sibs, Identifier(imgRef.data));
        Ok(Figure(src, AltText(imgRef.data), href))
  }

  /**
   * A figure built from a linked image whose definitions are siblings: the
   * image shows the image definition's URL with the image's alt text, and
   * the caption links to the link definition's URL with the same text.
   */
  lemma AddFigureReadsBack(n: MTree, i: nat, sibs: seq<MTree>, j: nat, k: nat)
    requires |n.children| > 0 && |n.children[0].children| > 0
    requires var linkRef := n.children[0].children[0];
      linkRef.data.LinkRef? && |linkRef.children| > 0 && linkRef.children[0].data.ImageRef?
    requires j < |sibs| && FindDefinition(sibs, Identifier(n.children[0].children[0].children[0].data)) == Some(j)
    requires k < |sibs| && FindDefinition(sibs, Identifier(n.children[0].children[0].data)) == Some(k)
    ensures AddFigure(n, i, sibs).Ok?
    ensures var fig := AddFigure(n, i, sibs).value;
      var img, caption := fig.children[0], fig.children[1];
      var imgRef := n.children[0].children[0].children[0].data;
      fig.tag == "figure" && |fig.children| == 2
      && Prop(img, "src") == Some(Str(sibs[j].data.url)) && Prop(img, "alt") == (if imgRef.alt.Some? then Some(Str(imgRef.alt.value)) else None)
      && HasTag(caption, "figcaption") && |caption.children| == 1
      && Prop(caption.children[0], "href") == Some(Str(sibs[k].data.url))
      && caption.children[0].children == OptTxt(imgRef.alt)
  {
  }

  /**
   * A link around an inline image (`[![logo](x.png)][link]`): the image has
   * no identifier, so no `src` is found, but its `alt` is on the `img` and
   * is the caption's text.
   */
  lemma AddFigureInlineImage(n: MTree, i: nat, sibs: seq<MTree>, url: string, alt: Option<string>)
    requires |n.children| > 0 && |n.children[0].children| > 0
    requires var linkRef := n.children[0].children[0];
      |linkRef.children| > 0 && linkRef.children[0].data == Image(url, alt)
    ensures AddFigure(n, i, sibs).Ok?
    ensures var fig := AddFigure(n, i, sibs).value;
      var img, caption := fig.children[0], fig.children[1];
      fig.tag == "figure" && |fig.children| == 2
      && Prop(img, "src") == None && Prop(img, "alt") == (if alt.Some? then Some(Str(alt.value)) else None)
      && HasTag(caption, "figcaption") && |caption.children| == 1
      && caption.children[0].children == OptTxt(alt)
  {
    assert FindDefinition(sibs, None) == None;
  }

  function FigureVisitor(): DirectiveVisitor {
    (n: MTree, i: nat, sibs: seq<MTree>) => AddFigure(n, i, sibs)
  }

  /** The `directives` record of the site: `FIGURE`. */
  function SiteDirectives(): (dirs: Directives)
    ensures dirs.Keys == {"FIGURE"}
  {
    map["FIGURE" := FigureVisitor()]
  }
}
