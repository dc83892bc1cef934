/**
 * The generic plugins of `scripts/hast/std-plugins.js`: appending a script
 * to the body, and dispatching `[[NAME]]` paragraphs to registered directive
 * functions.
 */
module StdPlugins {
  import opened Util
  import opened Unist
  import opened Hast
  import opened StdHelpers

  // ---------------------------------------------------------------------------
  // Scripts.
  // ---------------------------------------------------------------------------

  /** `h('script', { type }, content)`: an undefined `type` is left out. */
  function InlineScript(kind: Option<string>, content: string): HTree {
    El("script", if kind.Some? then map["type" := Str(kind.value)] else map[], [Txt(content)])
  }

  /** The first `body` gained exactly `e`, as its last child. */
  predicate BodyGained(ns: seq<HTree>, r: seq<HTree>, e: HTree) {
    FirstTagged(ns, "body").Some?
    && var (p, body) := FirstTagged(ns, "body").value;
       ValidPath(r, p) && At(r, p).data == body.data
       && var cs := At(r, p).children;
          |cs| == |body.children| + 1 && cs[..|body.children|] == body.children && cs[|cs| - 1] == e
  }

  /** `append(tree, 'body', element)`, seen from the body. */
  function AppendToBody(ns: seq<HTree>, e: HTree): (r: seq<HTree>)
    ensures FirstTagged(ns, "body").None? ==> r == ns
    ensures FirstTagged(ns, "body").Some? ==> BodyGained(ns, r, e)
  {
    var r := Append(ns, "body", [e]);
    if FirstTagged(ns, "body").Some? then
      var (p, body) := FirstTagged(ns, "body").value;
      assert (body.children + [e])[..|body.children|] == body.children;
      r
    else r
  }

  /** `addInlineScript({type, content})`: one script, holding `content`, ends the first `body`. */
  function AddInlineScript(ns: seq<HTree>, kind: Option<string>, content: string): (r: seq<HTree>)
    ensures FirstTagged(ns, "body").None? ==> r == ns
    ensures FirstTagged(ns, "body").Some? ==> BodyGained(ns, r, InlineScript(kind, content))
  {
    AppendToBody(ns, InlineScript(kind, content))
  }

  /** `addScript({src})`: one empty script with that `src` ends the first `body`. */
  function AddScript(ns: seq<HTree>, src: string): (r: seq<HTree>)
    ensures FirstTagged(ns, "body").None? ==> r == ns
    ensures FirstTagged(ns, "body").Some? ==> BodyGained(ns, r, El("script", map["src" := Str(src)], []))
  {
    AppendToBody(ns, El("script", map["src" := Str(src)], []))
  }

  // ---------------------------------------------------------------------------
  // Directive names.
  // ---------------------------------------------------------------------------

  /** A character of the regular-expression class `\w`. */
  predicate IsWordChar(c: char) {
    ('a' <= c <= 'z') || ('A' <= c <= 'Z') || ('0' <= c <= '9') || c == '_'
  }

  /** A match of `\w+`. */
  predicate IsWord(s: string) {
    |s| > 0 && forall k :: 0 <= k < |s| ==> IsWordChar(s[k])
  }

  /** The `directive` group of `/^\[\[(?<directive>\w+)\]\]$/`, if the text matches. */
  function DirectiveName(text: string): (name: Option<string>)
    ensures name.Some? ==> IsWord(name.value) && text == "[[" + name.value + "]]"
  {
    if |text| >= 4 && text[..2] == "[[" && text[|text| - 2..] == "]]" && IsWord(text[2..|text| - 2]) then
      var inner := text[2..|text| - 2];
      assert text == text[..2] + inner + text[|text| - 2..];
      Some(inner)
    else None
  }

  /** Every word, wrapped in double brackets, is read back as itself. */
  lemma DirectiveNameOf(name: string)
    requires IsWord(name)
    ensures DirectiveName("[[" + name + "]]") == Some(name)
  {
    var text := "[[" + name + "]]";
    assert text[..2] == "[[" && text[|text| - 2..] == "]]" && text[2..|text| - 2] == name;
  }

  // ---------------------------------------------------------------------------
  // Collecting and running directives.
  // ---------------------------------------------------------------------------

  /** A paragraph with exactly one child: the only shape a directive can take. */
  predicate IsCandidate(n: HTree) {
    HasTag(n, "p") && |n.children| == 1
  }

  function CandidateMatcher(): HTree -> bool {
    n => IsCandidate(n)
  }

  /** A recorded directive: its name and the node and its place when it was found. */
  datatype DirectiveCall = DirectiveCall(name: string, path: Path, node: HTree)

  /** A directive function gets the document and the recorded `{node, index, parent}` and returns the document. */
  type DirectiveFn = (seq<HTree>, DirectiveCall) -> seq<HTree>

  type Registry = map<string, DirectiveFn>

  /** `String(node.children[0].value)` names a registered directive. */
  predicate Registered(n: HTree, reg: Registry) {
    |n.children| > 0
    && var name := DirectiveName(ValueString(n.children[0]));
       name.Some? && name.value in reg
  }

  /** The visited (path, node) pairs that get recorded. */
  function Hit(reg: Registry): ((Path, HTree)) -> bool {
    (x: (Path, HTree)) => Registered(x.1, reg)
  }

  /** The whole test a node passes to be recorded: element, candidate, registered. */
  function DirectiveHit(reg: Registry): ((Path, HTree)) -> bool {
    (x: (Path, HTree)) => IsElement(x.1) && IsCandidate(x.1) && Registered(x.1, reg)
  }

  /** The recorded calls for hits, in the same order. */
  function ToCalls(xs: seq<(Path, HTree)>, reg: Registry): (calls: seq<DirectiveCall>)
    requires forall k :: 0 <= k < |xs| ==> Registered(xs[k].1, reg)
    ensures |calls| == |xs|
    ensures forall k :: 0 <= k < |xs| ==>
      calls[k].path == xs[k].0 && calls[k].node == xs[k].1 && calls[k].name in reg
      && |xs[k].1.children| > 0 && "[[" + calls[k].name + "]]" == ValueString(xs[k].1.children[0])
  {
    if |xs| == 0 then []
    else
      var rest := xs[1..];
      assert forall k :: 0 <= k < |rest| ==> rest[k] == xs[k + 1];
      [CallOf(xs[0], reg)] + ToCalls(rest, reg)
  }

  /** The recorded call for one hit: the directive named by its text, at its place. */
  function CallOf(x: (Path, HTree), reg: Registry): (call: DirectiveCall)
    requires Registered(x.1, reg)
    ensures call.path == x.0 && call.node == x.1 && call.name in reg
    ensures |x.1.children| > 0 && "[[" + call.name + "]]" == ValueString(x.1.children[0])
  {
    DirectiveCall(DirectiveName(ValueString(x.1.children[0])).value, x.0, x.1)
  }

  /** The (path, node) pairs of a list of calls. */
  function Places(calls: seq<DirectiveCall>): (xs: seq<(Path, HTree)>)
    ensures |xs| == |calls|
    ensures forall k :: 0 <= k < |calls| ==> xs[k] == (calls[k].path, calls[k].node)
  {
    if |calls| == 0 then [] else [(calls[0].path, calls[0].node)] + Places(calls[1..])
  }

  /**
   * The first phase of `handleDirectives`: every candidate paragraph whose
   * text is `[[NAME]]` with a registered NAME, recorded with its place.
   */
  function CollectDirectives(ns: seq<HTree>, reg: Registry): (calls: seq<DirectiveCall>)
    ensures forall k :: 0 <= k < |calls| ==>
      ValidPath(ns, calls[k].path) && At(ns, calls[k].path) == calls[k].node
      && IsCandidate(calls[k].node) && calls[k].name in reg
      && ValueString(calls[k].node.children[0]) == "[[" + calls[k].name + "]]"
  {
    var found := FindElement(ns, CandidateMatcher(), KeepGoing());
    FindElementEvery(ns, CandidateMatcher(), KeepGoing());
    var hits := Filter(found, Hit(reg));
    var calls := ToCalls(hits, reg);
    forall k | 0 <= k < |calls|
      ensures ValidPath(ns, calls[k].path) && At(ns, calls[k].path) == calls[k].node
    {
      assert hits[k] in found;
      NodesSound(ns, hits[k]);
    }
    calls
  }

  /** The calls are exactly the hits of a preorder walk, in preorder: nothing missed, nothing extra, nothing reordered. */
  lemma CollectDirectivesInOrder(ns: seq<HTree>, reg: Registry)
    ensures Places(CollectDirectives(ns, reg)) == Filter(Nodes(ns), DirectiveHit(reg))
  {
    FindElementEvery(ns, CandidateMatcher(), KeepGoing());
    var found := FindElement(ns, CandidateMatcher(), KeepGoing());
    FilterFilter(Nodes(ns), IsCall(CandidateMatcher()), Hit(reg), DirectiveHit(reg));
    var hits := Filter(found, Hit(reg));
    assert Places(ToCalls(hits, reg)) == hits;
  }

  /** Every registered directive paragraph of the document is recorded. */
  lemma CollectDirectivesComplete(ns: seq<HTree>, reg: Registry, x: (Path, HTree))
    requires x in Nodes(ns) && IsCandidate(x.1) && Registered(x.1, reg)
    ensures x in Places(CollectDirectives(ns, reg))
  {
    CollectDirectivesInOrder(ns, reg);
    FilterKeeps(Nodes(ns), DirectiveHit(reg), x);
  }

  /** Runs the recorded calls one after the other, each with the document as the previous ones left it. */
  function RunDirectives(ns: seq<HTree>, calls: seq<DirectiveCall>, reg: Registry): (r: seq<HTree>)
    requires forall k :: 0 <= k < |calls| ==> calls[k].name in reg
    ensures |calls| == 1 ==> r == reg[calls[0].name](ns, calls[0])
    decreases |calls|
  {
    if |calls| == 0 then ns
    else RunDirectives(reg[calls[0].name](ns, calls[0]), calls[1..], reg)
  }

  /** Running a list of calls is running its first part and then its second. */
  lemma {:induction false} RunDirectivesAppend(ns: seq<HTree>, a: seq<DirectiveCall>, b: seq<DirectiveCall>, reg: Registry)
    requires forall k :: 0 <= k < |a| ==> a[k].name in reg
    requires forall k :: 0 <= k < |b| ==> b[k].name in reg
    ensures RunDirectives(ns, a + b, reg) == RunDirectives(RunDirectives(ns, a, reg), b, reg)
    decreases |a|
  {
    if |a| > 0 {
      assert (a + b)[1..] == a[1..] + b;
      RunDirectivesAppend(reg[a[0].name](ns, a[0]), a[1..], b, reg);
    } else {
      assert a + b == b;
    }
  }

  /** Directive functions that change nothing leave the document as it was. */
  lemma {:induction false} RunDirectivesInert(ns: seq<HTree>, calls: seq<DirectiveCall>, reg: Registry)
    requires forall k :: 0 <= k < |calls| ==> calls[k].name in reg
    requires forall name, t, c :: name in reg ==> reg[name](t, c) == t
    ensures RunDirectives(ns, calls, reg) == ns
    decreases |calls|
  {
    if |calls| > 0 {
      RunDirectivesInert(ns, calls[1..], reg);
    }
  }

  /** `handleDirectives(directives)`: collect all calls first, then run each once, in document order. */
  function HandleDirectives(ns: seq<HTree>, reg: Registry): (r: seq<HTree>)
    ensures (forall k :: 0 <= k < |Nodes(ns)| ==> !DirectiveHit(reg)(Nodes(ns)[k])) ==> r == ns
  {
    var calls := CollectDirectives(ns, reg);
    CollectDirectivesInOrder(ns, reg);
    NoHitsNoCalls(ns, reg);
    RunDirectives(ns, calls, reg)
  }

  /** Without a directive comment, nothing is collected from the pre-order listing. */
  lemma NoHitsNoCalls(ns: seq<HTree>, reg: Registry)
    ensures (forall k :: 0 <= k < |Nodes(ns)| ==> !DirectiveHit(reg)(Nodes(ns)[k])) ==> Filter(Nodes(ns), DirectiveHit(reg)) == []
  {
    if forall k :: 0 <= k < |Nodes(ns)| ==> !DirectiveHit(reg)(Nodes(ns)[k]) {
      FilterNone(Nodes(ns), DirectiveHit(reg));
    }
  }

  /** Apart from what the directive functions do, handling directives leaves the document alone. */
  lemma HandleDirectivesInert(ns: seq<HTree>, reg: Registry)
    requires forall name, t, c :: name in reg ==> reg[name](t, c) == t
    ensures HandleDirectives(ns, reg) == ns
  {
    RunDirectivesInert(ns, CollectDirectives(ns, reg), reg);
  }
}
