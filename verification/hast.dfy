/**
 * HTML syntax trees (hast): the node payloads, a plain `h(tag, props,
 * children)` constructor, and the JavaScript coercions the passes apply to
 * property values.
 */
module Hast {
  import opened Util
  import opened Unist

  /** A property value as hast stores it: a string, a token list, a number or a boolean. */
  datatype PropValue = Str(s: string) | Strs(items: seq<string>) | Num(n: int) | Flag(b: bool)

  type Props = map<string, PropValue>

  /**
   * A hast node. `ValuelessText` is a text node whose `value` is `undefined`
   * (built from a missing token); `data` holds an element's `data` record.
   */
  datatype HNode =
    | Element(tag: string, props: Props, data: map<string, string>)
    | Text(value: string)
    | ValuelessText
    | Comment(value: string)
    | Doctype

  type HTree = Tree<HNode>

  /** `h(tag, props, children)`. */
  function El(tag: string, props: Props, children: seq<HTree>): HTree {
    Node(Element(tag, props, map[]), children)
  }

  /** A text node. */
  function Txt(s: string): HTree {
    Node(Text(s), [])
  }

  /** A string child that may be `undefined`: hastscript drops an undefined child. */
  function OptTxt(s: Option<string>): (r: seq<HTree>)
    ensures s.None? <==> r == []
  {
    if s.Some? then [Txt(s.value)] else []
  }

  predicate IsElement(n: HTree) {
    n.data.Element?
  }

  predicate HasTag(n: HTree, tag: string) {
    n.data.Element? && n.data.tag == tag
  }

  /** The matcher a string argument stands for: tag-name equality. */
  function TagIs(tag: string): HTree -> bool {
    n => HasTag(n, tag)
  }

  /** `node?.properties?.[key]`. */
  function Prop(n: HTree, key: string): Option<PropValue> {
    if n.data.Element? && key in n.data.props then Some(n.data.props[key]) else None
  }

  /** `String(value)` of a property value (`undefined` when absent; a list joins with commas). */
  function JsString(v: Option<PropValue>): string {
    match v
    case None => "undefined"
    case Some(Str(s)) => s
    case Some(Strs(items)) => Join(items, ",")
    case Some(Num(n)) => IntToString(n)
    case Some(Flag(b)) => if b then "true" else "false"
  }

  /** `String(node.value)`: literal nodes have a value, the others give `"undefined"`. */
  function ValueString(n: HTree): string {
    match n.data
    case Text(v) => v
    case Comment(v) => v
    case _ => "undefined"
  }

  /** The text a node shows: a text node's value, else the text of its children. */
  function TextOf(n: HTree): string
    decreases n, 1
  {
    match n.data
    case Text(v) => v
    case Element(_, _, _) => TextsOf(n.children)
    case _ => ""
  }

  function TextsOf(ns: seq<HTree>): string
    decreases ns, 0
  {
    if |ns| == 0 then "" else TextOf(ns[0]) + TextsOf(ns[1..])
  }

  /** The text of a list of nodes is the text of its parts, joined. */
  lemma {:induction false} TextsOfAppend(a: seq<HTree>, b: seq<HTree>)
    ensures TextsOf(a + b) == TextsOf(a) + TextsOf(b)
  {
    if |a| > 0 {
      assert (a + b)[1..] == a[1..] + b;
      TextsOfAppend(a[1..], b);
    } else {
      assert a + b == b;
    }
  }
}
