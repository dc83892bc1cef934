/**
 * Markdown syntax trees (mdast): the node payloads the Markdown passes look
 * at, and `mdast-util-to-string`.
 */
module Mdast {
  import opened Util
  import opened Unist
  import opened Hast

  datatype DirectiveForm = TextForm | LeafForm | ContainerForm

  /** A value in a directive node's `data` record: the hast rendering hints, or anything else. */
  datatype DataValue = HName(name: string) | HProperties(props: Props) | HChildren(children: seq<HTree>) | OtherData(s: string)

  /**
   * An mdast node. `Other` stands for every node type the passes do not
   * single out (`paragraph`, `emphasis`, `inlineCode`, ...), with its literal
   * `value` if it has one.
   */
  datatype MNode =
    | MText(value: string)
    | Heading(depth: int)
    | Code(lang: Option<string>, meta: Option<string>, value: string)
    | Uncode(lang: Option<string>, meta: Option<string>, value: string)
    | LinkRef(identifier: string, labelText: string)
    | ImageRef(identifier: string, labelText: string, alt: Option<string>)
    | Image(url: string, alt: Option<string>)
    | Definition(identifier: string, labelText: string, url: string, title: Option<string>)
    | Yaml(value: string)
    | Directive(form: DirectiveForm, name: string, attributes: map<string, string>, data: map<string, DataValue>)
    | Other(kind: string, literal: Option<string>)

  type MTree = Tree<MNode>

  /** `node.value`: the text of a literal node, `undefined` for the others. */
  function Value(d: MNode): Option<string> {
    match d
    case MText(v) => Some(v)
    case Code(_, _, v) => Some(v)
    case Uncode(_, _, v) => Some(v)
    case Yaml(v) => Some(v)
    case Other(_, v) => v
    case _ => None
  }

  predicate IsHeading1(n: MTree) {
    n.data.Heading? && n.data.depth == 1
  }

  function Heading1(): MTree -> bool {
    n => IsHeading1(n)
  }

  /**
   * `toString(node)` of `mdast-util-to-string`: a literal's value, else a
   * non-empty `alt` (of an image or an image reference), else the text of
   * the children.
   */
  function ToString(n: MTree): string
    decreases n, 1
  {
    if Value(n.data).Some? then Value(n.data).value
    else if AltText(n.data).Some? && AltText(n.data).value != "" then AltText(n.data).value
    else ToStrings(n.children)
  }

  function ToStrings(ns: seq<MTree>): string
    decreases ns, 0
  {
    if |ns| == 0 then "" else ToString(ns[0]) + ToStrings(ns[1..])
  }

  /** The text of a list of nodes is the text of its parts, joined. */
  lemma {:induction false} ToStringsAppend(a: seq<MTree>, b: seq<MTree>)
    ensures ToStrings(a + b) == ToStrings(a) + ToStrings(b)
  {
    if |a| > 0 {
      assert (a + b)[1..] == a[1..] + b;
      ToStringsAppend(a[1..], b);
    } else {
      assert a + b == b;
    }
  }

  /** `node.alt`: the alternative text of an image or an image reference, `undefined` for other nodes. */
  function AltText(d: MNode): Option<string> {
    match d
    case ImageRef(_, _, alt) => alt
    case Image(_, alt) => alt
    case _ => None
  }

  /** The `identifier` of a reference or definition, `undefined` for other nodes. */
  function Identifier(d: MNode): Option<string> {
    match d
    case LinkRef(id, _) => Some(id)
    case ImageRef(id, _, _) => Some(id)
    case Definition(id, _, _, _) => Some(id)
    case _ => None
  }

  /** `element.type === 'definition' && element.identifier === id`. */
  predicate Defines(d: MNode, id: Option<string>) {
    d.Definition? && id == Some(d.identifier)
  }

  /** `findDefinition(collection, id)`: the index of the first definition of `id` among `ns`. */
  function FindDefinition(ns: seq<MTree>, id: Option<string>): (r: Option<nat>)
    ensures r.None? <==> forall k :: 0 <= k < |ns| ==> !Defines(ns[k].data, id)
    ensures r.Some? ==> r.value < |ns| && Defines(ns[r.value].data, id)
    ensures r.Some? ==> forall k :: 0 <= k < r.value ==> !Defines(ns[k].data, id)
    ensures id.None? ==> r.None?
  {
    if |ns| == 0 then None
    else if Defines(ns[0].data, id) then Some(0)
    else
      var r := FindDefinition(ns[1..], id);
      assert forall k :: 1 <= k < |ns| ==> ns[k] == ns[1..][k - 1];
      if r.Some? then Some(r.value + 1) else None
  }

  /** `findDefinition(collection, id)?.url`. */
  function DefinitionUrl(ns: seq<MTree>, id: Option<string>): (url: Option<string>)
    ensures url.None? <==> FindDefinition(ns, id).None?
    ensures url.Some? ==> exists k :: 0 <= k < |ns| && Defines(ns[k].data, id) && ns[k].data.url == url.value
    ensures url.Some? ==> url.value == ns[FindDefinition(ns, id).value].data.url
  {
    match FindDefinition(ns, id)
    case None => None
    case Some(k) => Some(ns[k].data.url)
  }
}
