/**
 * The universal syntax tree shared by the HTML (hast) and Markdown (mdast)
 * passes, and the `unist-util-visit` traversal they rely on.
 *
 * A document is the list of the root's children; a node is addressed by the
 * path of child indices leading to it from the root.
 */
module Unist {
  import opened Util

  datatype Tree<T> = Node(data: T, children: seq<Tree<T>>)

  type Path = seq<nat>

  /** The verdict a visitor gives: go on, do not descend into this node, or stop the walk. */
  datatype Action = Continue | Skip | Exit

  predicate ValidPath<T>(ns: seq<Tree<T>>, p: Path)
    decreases p
  {
    |p| > 0 && p[0] < |ns| && (|p| == 1 || ValidPath(ns[p[0]].children, p[1..]))
  }

  function At<T>(ns: seq<Tree<T>>, p: Path): Tree<T>
    requires ValidPath(ns, p)
    decreases p
  {
    if |p| == 1 then ns[p[0]] else At(ns[p[0]].children, p[1..])
  }

  /** The root (empty path) or a node: something that has children. */
  predicate ValidParent<T>(ns: seq<Tree<T>>, q: Path) {
    q == [] || ValidPath(ns, q)
  }

  function ChildrenAt<T>(ns: seq<Tree<T>>, q: Path): seq<Tree<T>>
    requires ValidParent(ns, q)
  {
    if q == [] then ns else At(ns, q).children
  }

  function ParentOf(p: Path): Path
    requires |p| > 0
  {
    p[..|p| - 1]
  }

  function IndexOf(p: Path): nat
    requires |p| > 0
  {
    p[|p| - 1]
  }

  predicate IsPrefix(a: Path, b: Path) {
    |a| <= |b| && b[..|a|] == a
  }

  lemma {:induction false} ValidPathParent<T>(ns: seq<Tree<T>>, p: Path)
    requires ValidPath(ns, p)
    ensures ValidParent(ns, ParentOf(p))
    ensures IndexOf(p) < |ChildrenAt(ns, ParentOf(p))|
    ensures ChildrenAt(ns, ParentOf(p))[IndexOf(p)] == At(ns, p)
    decreases p
  {
    if |p| > 1 {
      ValidPathParent(ns[p[0]].children, p[1..]);
      assert ParentOf(p[1..]) == ParentOf(p)[1..];
      if |p| == 2 {
        assert ParentOf(p) == [p[0]];
      } else {
        ValidPathSplit(ns, ParentOf(p));
      }
    }
  }

  lemma ValidPathSplit<T>(ns: seq<Tree<T>>, p: Path)
    requires |p| > 1 && p[0] < |ns| && ValidPath(ns[p[0]].children, p[1..])
    ensures ValidPath(ns, p) && At(ns, p) == At(ns[p[0]].children, p[1..])
  {
  }

  /** Replaces the children of the node at `q` (the root's when `q` is empty) by `g` of them. */
  function EditChildren<T>(ns: seq<Tree<T>>, q: Path, g: seq<Tree<T>> -> seq<Tree<T>>): (r: seq<Tree<T>>)
    requires ValidParent(ns, q)
    ensures ValidParent(r, q)
    ensures ChildrenAt(r, q) == g(ChildrenAt(ns, q))
    ensures q != [] ==> |r| == |ns| && At(r, q).data == At(ns, q).data
    decreases q
  {
    if q == [] then g(ns)
    else
      var i := q[0];
      var r := ns[i := Node(ns[i].data, EditChildren(ns[i].children, q[1..], g))];
      assert r[i].children == EditChildren(ns[i].children, q[1..], g);
      r
  }

  /** Puts `e` at index `i` of a children list (`splice(i, 0, e)`). */
  function SpliceIn<T>(i: nat, e: Tree<T>): seq<Tree<T>> -> seq<Tree<T>> {
    cs => if i <= |cs| then cs[..i] + [e] + cs[i..] else cs
  }

  /** Removes index `i` of a children list (`splice(i, 1)`). */
  function SpliceOut<T>(i: nat): seq<Tree<T>> -> seq<Tree<T>> {
    cs => if i < |cs| then cs[..i] + cs[i + 1..] else cs
  }

  /** Nodes off the edited branch are untouched by `EditChildren`. */
  lemma {:induction false} EditChildrenFrame<T>(ns: seq<Tree<T>>, q: Path, g: seq<Tree<T>> -> seq<Tree<T>>, p: Path)
    requires ValidParent(ns, q) && ValidPath(ns, p)
    requires !IsPrefix(q, p) && !IsPrefix(p, q)
    ensures ValidPath(EditChildren(ns, q, g), p)
    ensures At(EditChildren(ns, q, g), p) == At(ns, p)
    decreases q
  {
    var r := EditChildren(ns, q, g);
    if p[0] != q[0] {
      if |p| > 1 {
        ValidPathSplit(r, p);
      }
    } else {
      assert |p| > 1 && |q| > 1;
      assert !IsPrefix(q[1..], p[1..]) && !IsPrefix(p[1..], q[1..]);
      EditChildrenFrame(ns[q[0]].children, q[1..], g, p[1..]);
      ValidPathSplit(r, p);
    }
  }

  /** Editing the same children list twice, the second edit undoing the first, restores the document. */
  lemma {:induction false} EditChildrenUndo<T>(ns: seq<Tree<T>>, q: Path, g: seq<Tree<T>> -> seq<Tree<T>>, h: seq<Tree<T>> -> seq<Tree<T>>)
    requires ValidParent(ns, q)
    requires h(g(ChildrenAt(ns, q))) == ChildrenAt(ns, q)
    ensures EditChildren(EditChildren(ns, q, g), q, h) == ns
    decreases q
  {
    if q != [] {
      var i := q[0];
      if |q| > 1 {
        assert ChildrenAt(ns[i].children, q[1..]) == ChildrenAt(ns, q);
      }
      EditChildrenUndo(ns[i].children, q[1..], g, h);
    }
  }

  /** Two edits that agree on the children they are given edit the document alike. */
  lemma {:induction false} EditChildrenExt<T>(ns: seq<Tree<T>>, q: Path, g1: seq<Tree<T>> -> seq<Tree<T>>, g2: seq<Tree<T>> -> seq<Tree<T>>)
    requires ValidParent(ns, q)
    requires g1(ChildrenAt(ns, q)) == g2(ChildrenAt(ns, q))
    ensures EditChildren(ns, q, g1) == EditChildren(ns, q, g2)
    decreases q
  {
    if q != [] {
      var i := q[0];
      if |q| > 1 {
        assert ChildrenAt(ns[i].children, q[1..]) == ChildrenAt(ns, q);
      }
      EditChildrenExt(ns[i].children, q[1..], g1, g2);
    }
  }

  // ---------------------------------------------------------------------------
  // Preorder: the declarative order in which `unist-util-visit` meets nodes.
  // ---------------------------------------------------------------------------

  /** Every node under `ns[i..]`, each before its descendants, with its path. */
  function Preorder<T>(ns: seq<Tree<T>>, parent: Path, i: nat): seq<(Path, Tree<T>)>
    decreases ns, |ns| - i
  {
    if i >= |ns| then []
    else [(parent + [i], ns[i])] + Preorder(ns[i].children, parent + [i], 0) + Preorder(ns, parent, i + 1)
  }

  /** The nodes of a whole document in preorder. */
  function Nodes<T>(ns: seq<Tree<T>>): seq<(Path, Tree<T>)> {
    Preorder(ns, [], 0)
  }

  /** Each entry of `Preorder` names a real node by its path below `parent`. */
  lemma {:induction false} PreorderSound<T>(ns: seq<Tree<T>>, parent: Path, i: nat, x: (Path, Tree<T>))
    requires x in Preorder(ns, parent, i)
    ensures |x.0| > |parent| && x.0[..|parent|] == parent && x.0[|parent|] >= i
    ensures ValidPath(ns, x.0[|parent|..]) && At(ns, x.0[|parent|..]) == x.1
    decreases ns, |ns| - i
  {
    var p := parent + [i];
    if x == (p, ns[i]) {
      assert x.0[|parent|..] == [i];
    } else if x in Preorder(ns[i].children, p, 0) {
      PreorderSound(ns[i].children, p, 0, x);
      var rel := x.0[|p|..];
      assert x.0[|parent|..] == [i] + rel;
      ValidPathSplit(ns, [i] + rel);
      assert ([i] + rel)[1..] == rel;
    } else {
      assert x in Preorder(ns, parent, i + 1);
      PreorderSound(ns, parent, i + 1, x);
    }
  }

  lemma NodesSound<T>(ns: seq<Tree<T>>, x: (Path, Tree<T>))
    requires x in Nodes(ns)
    ensures ValidPath(ns, x.0) && At(ns, x.0) == x.1
  {
    PreorderSound(ns, [], 0, x);
    assert x.0[0..] == x.0;
  }

  // ---------------------------------------------------------------------------
  // The read-only walk.
  // ---------------------------------------------------------------------------

  /**
   * `visit(tree, visitor)` from `unist-util-visit` for a visitor that does not
   * change the tree: the nodes it is called on, in order, and whether it
   * returned `EXIT` (after which nothing more is visited).
   */
  function Walk<T>(ns: seq<Tree<T>>, parent: Path, i: nat, visit: (Tree<T>, Path) -> Action): (r: (seq<(Path, Tree<T>)>, bool))
    ensures r.1 ==> |r.0| > 0 && visit(r.0[|r.0| - 1].1, r.0[|r.0| - 1].0) == Exit
    decreases ns, |ns| - i
  {
    if i >= |ns| then ([], false)
    else
      var p := parent + [i];
      var act := visit(ns[i], p);
      if act == Exit then ([(p, ns[i])], true)
      else
        var inner := if act == Skip then ([], false) else Walk(ns[i].children, p, 0, visit);
        if inner.1 then ([(p, ns[i])] + inner.0, true)
        else
          var rest := Walk(ns, parent, i + 1, visit);
          ([(p, ns[i])] + inner.0 + rest.0, rest.1)
  }

  /** Some element of `xs` makes the visitor exit. */
  predicate Exits<T>(xs: seq<(Path, Tree<T>)>, visit: (Tree<T>, Path) -> Action) {
    |xs| > 0 && (visit(xs[0].1, xs[0].0) == Exit || Exits(xs[1..], visit))
  }

  /** The prefix of `xs` up to and including the first element the visitor exits on. */
  function UpToExit<T>(xs: seq<(Path, Tree<T>)>, visit: (Tree<T>, Path) -> Action): (r: seq<(Path, Tree<T>)>)
    ensures |r| <= |xs| && r == xs[..|r|]
  {
    if |xs| == 0 then []
    else if visit(xs[0].1, xs[0].0) == Exit then [xs[0]]
    else [xs[0]] + UpToExit(xs[1..], visit)
  }

  lemma {:induction false} UpToExitAppend<T>(a: seq<(Path, Tree<T>)>, b: seq<(Path, Tree<T>)>, visit: (Tree<T>, Path) -> Action)
    ensures UpToExit(a + b, visit) == if Exits(a, visit) then UpToExit(a, visit) else a + UpToExit(b, visit)
    ensures Exits(a + b, visit) == (Exits(a, visit) || Exits(b, visit))
  {
    if |a| == 0 {
      assert a + b == b;
    } else {
      assert (a + b)[1..] == a[1..] + b;
      assert (a + b)[0] == a[0];
      UpToExitAppend(a[1..], b, visit);
    }
  }

  lemma {:induction false} UpToExitAll<T>(xs: seq<(Path, Tree<T>)>, visit: (Tree<T>, Path) -> Action)
    requires !Exits(xs, visit)
    ensures UpToExit(xs, visit) == xs
  {
    if |xs| > 0 {
      UpToExitAll(xs[1..], visit);
    }
  }

  /** A visitor that never exits lets the walk see everything. */
  lemma {:induction false} NeverExits<T>(xs: seq<(Path, Tree<T>)>, visit: (Tree<T>, Path) -> Action)
    requires forall n, p :: visit(n, p) != Exit
    ensures !Exits(xs, visit) && UpToExit(xs, visit) == xs
  {
    if |xs| > 0 {
      NeverExits(xs[1..], visit);
    }
  }

  /**
   * A walk whose visitor never skips meets the nodes in preorder and stops
   * right after the first node it exits on.
   */
  lemma {:induction false} WalkIsPreorder<T>(ns: seq<Tree<T>>, parent: Path, i: nat, visit: (Tree<T>, Path) -> Action)
    requires forall n, p :: visit(n, p) != Skip
    ensures Walk(ns, parent, i, visit).0 == UpToExit(Preorder(ns, parent, i), visit)
    ensures Walk(ns, parent, i, visit).1 == Exits(Preorder(ns, parent, i), visit)
    decreases ns, |ns| - i
  {
    if i < |ns| {
      var p := parent + [i];
      if visit(ns[i], p) != Exit {
        WalkIsPreorder(ns[i].children, p, 0, visit);
        WalkIsPreorder(ns, parent, i + 1, visit);
      }
      WalkPreorderStep(ns, parent, i, visit);
    }
  }

  /** One node of `WalkIsPreorder`: given the claim for its subtree and for its later siblings, it holds from the node on. */
  lemma WalkPreorderStep<T>(ns: seq<Tree<T>>, parent: Path, i: nat, visit: (Tree<T>, Path) -> Action)
    requires i < |ns| && forall n, p :: visit(n, p) != Skip
    requires var p := parent + [i];
      visit(ns[i], p) != Exit ==>
        Walk(ns[i].children, p, 0, visit).0 == UpToExit(Preorder(ns[i].children, p, 0), visit)
        && Walk(ns[i].children, p, 0, visit).1 == Exits(Preorder(ns[i].children, p, 0), visit)
        && Walk(ns, parent, i + 1, visit).0 == UpToExit(Preorder(ns, parent, i + 1), visit)
        && Walk(ns, parent, i + 1, visit).1 == Exits(Preorder(ns, parent, i + 1), visit)
    ensures Walk(ns, parent, i, visit).0 == UpToExit(Preorder(ns, parent, i), visit)
    ensures Walk(ns, parent, i, visit).1 == Exits(Preorder(ns, parent, i), visit)
  {
    var p := parent + [i];
    var head := [(p, ns[i])];
    var inner := Preorder(ns[i].children, p, 0);
    var rest := Preorder(ns, parent, i + 1);
    assert Preorder(ns, parent, i) == head + inner + rest;
    if visit(ns[i], p) == Exit {
      UpToExitAppend(head, inner + rest, visit);
      assert head + inner + rest == head + (inner + rest);
    } else {
      WalkContinue(ns, parent, i, visit);
      WalkCons(head, inner, rest, visit);
    }
  }

  /** A walk past a node whose visitor continues: the node, its subtree's walk, then, unless that exited, its siblings' walk. */
  lemma WalkContinue<T>(ns: seq<Tree<T>>, parent: Path, i: nat, visit: (Tree<T>, Path) -> Action)
    requires i < |ns| && visit(ns[i], parent + [i]) == Continue
    ensures var p := parent + [i];
      var inner, rest := Walk(ns[i].children, p, 0, visit), Walk(ns, parent, i + 1, visit);
      Walk(ns, parent, i, visit)
        == if inner.1 then ([(p, ns[i])] + inner.0, true) else ([(p, ns[i])] + inner.0 + rest.0, rest.1)
  {
  }

  /** The step of `WalkIsPreorder` past a node whose visitor continues: its subtree's walk, then its siblings'. */
  lemma WalkCons<T>(head: seq<(Path, Tree<T>)>, inner: seq<(Path, Tree<T>)>, rest: seq<(Path, Tree<T>)>, visit: (Tree<T>, Path) -> Action)
    requires |head| == 1 && visit(head[0].1, head[0].0) == Continue
    ensures Exits(inner, visit) ==>
      UpToExit(head + inner + rest, visit) == head + UpToExit(inner, visit) && Exits(head + inner + rest, visit)
    ensures !Exits(inner, visit) ==>
      UpToExit(head + inner + rest, visit) == head + UpToExit(inner, visit) + UpToExit(rest, visit)
      && Exits(head + inner + rest, visit) == Exits(rest, visit)
  {
    assert head + inner + rest == head + (inner + rest);
    UpToExitAppend(head, inner + rest, visit);
    UpToExitAppend(inner, rest, visit);
    assert !Exits(head, visit) && UpToExit(head, visit) == head;
    if !Exits(inner, visit) {
      UpToExitAll(inner, visit);
      assert head + (inner + UpToExit(rest, visit)) == head + inner + UpToExit(rest, visit);
    }
  }

  /** The position of the first element whose node satisfies `m`. */
  function FirstMatch<T>(xs: seq<(Path, Tree<T>)>, m: Tree<T> -> bool): (r: Option<nat>)
    ensures r.None? <==> forall k :: 0 <= k < |xs| ==> !m(xs[k].1)
    ensures r.Some? ==> r.value < |xs| && m(xs[r.value].1) && forall j :: 0 <= j < r.value ==> !m(xs[j].1)
  {
    if |xs| == 0 then None
    else if m(xs[0].1) then Some(0)
    else match FirstMatch(xs[1..], m)
      case None => None
      case Some(k) => Some(k + 1)
  }

  lemma {:induction false} UpToExitFindsFirstMatch<T>(xs: seq<(Path, Tree<T>)>, m: Tree<T> -> bool, visit: (Tree<T>, Path) -> Action)
    requires forall n, p :: visit(n, p) == (if m(n) then Exit else Continue)
    ensures Exits(xs, visit) <==> FirstMatch(xs, m).Some?
    ensures Exits(xs, visit) ==> UpToExit(xs, visit)[|UpToExit(xs, visit)| - 1] == xs[FirstMatch(xs, m).value]
    ensures Exits(xs, visit) ==> |UpToExit(xs, visit)| == FirstMatch(xs, m).value + 1
  {
    if |xs| > 0 && !m(xs[0].1) {
      UpToExitFindsFirstMatch(xs[1..], m, visit);
      UpToExitAppend([xs[0]], xs[1..], visit);
      assert xs == [xs[0]] + xs[1..];
    } else if |xs| > 0 {
      assert visit(xs[0].1, xs[0].0) == Exit;
    }
  }

  lemma {:induction false} FirstMatchAgree<T>(xs: seq<(Path, Tree<T>)>, m1: Tree<T> -> bool, m2: Tree<T> -> bool)
    requires forall k :: 0 <= k < |xs| ==> m1(xs[k].1) == m2(xs[k].1)
    ensures FirstMatch(xs, m1) == FirstMatch(xs, m2)
  {
    if |xs| > 0 {
      FirstMatchAgree(xs[1..], m1, m2);
    }
  }

  /**
   * The first node in preorder satisfying `m`, found the way the source finds
   * it: a walk whose visitor returns `EXIT` on the first match.
   */
  function FindFirst<T>(ns: seq<Tree<T>>, m: Tree<T> -> bool): (r: Option<(Path, Tree<T>)>)
    ensures r.None? <==> FirstMatch(Nodes(ns), m).None?
    ensures r.Some? ==> r.value == Nodes(ns)[FirstMatch(Nodes(ns), m).value]
    ensures r.Some? ==> ValidPath(ns, r.value.0) && At(ns, r.value.0) == r.value.1 && m(r.value.1)
  {
    var visit := (n: Tree<T>, p: Path) => if m(n) then Exit else Continue;
    var w := Walk(ns, [], 0, visit);
    WalkIsPreorder(ns, [], 0, visit);
    UpToExitFindsFirstMatch(Nodes(ns), m, visit);
    if w.1 then
      var x := w.0[|w.0| - 1];
      NodesSound(ns, x);
      Some(x)
    else None
  }

  /** Matchers that agree on every node of the document find the same node. */
  lemma FindFirstAgree<T>(ns: seq<Tree<T>>, m1: Tree<T> -> bool, m2: Tree<T> -> bool)
    requires forall k :: 0 <= k < |Nodes(ns)| ==> m1(Nodes(ns)[k].1) == m2(Nodes(ns)[k].1)
    ensures FindFirst(ns, m1) == FindFirst(ns, m2)
  {
    FirstMatchAgree(Nodes(ns), m1, m2);
  }

  // ---------------------------------------------------------------------------
  // The rewriting walk.
  // ---------------------------------------------------------------------------

  /**
   * What a mutating visitor does with the node it is given: change the node's
   * own fields in place and return an action (the walk then descends into
   * the node's children unless told otherwise), put a new node in its place
   * and return `SKIP`, or throw.
   */
  datatype Step<T> = Update(data: T, action: Action) | Replace(node: Tree<T>) | Throw

  datatype Rewritten<T> = Done(nodes: seq<Tree<T>>, exited: bool) | Thrown

  /**
   * `visit(tree, visitor)` for a visitor that changes the tree. `done` holds
   * the already visited siblings (as changed), `todo` those still to come;
   * the visitor is given the node, its index and its parent's current
   * children.
   */
  function Rewrite<T>(done: seq<Tree<T>>, todo: seq<Tree<T>>, visit: (Tree<T>, nat, seq<Tree<T>>) -> Step<T>): (r: Rewritten<T>)
    ensures r.Done? ==> |r.nodes| == |done| + |todo| && r.nodes[..|done|] == done
    decreases todo
  {
    if |todo| == 0 then Done(done, false)
    else
      var n := todo[0];
      match visit(n, |done|, done + todo)
      case Throw => Thrown
      case Replace(m) => Rewrite(done + [m], todo[1..], visit)
      case Update(d, act) =>
        if act == Exit then Done(done + [Node(d, n.children)] + todo[1..], true)
        else if act == Skip then Rewrite(done + [Node(d, n.children)], todo[1..], visit)
        else
          match Rewrite([], n.children, visit)
          case Thrown => Thrown
          case Done(cs, exited) =>
            if exited then Done(done + [Node(d, cs)] + todo[1..], true)
            else
              var r := Rewrite(done + [Node(d, cs)], todo[1..], visit);
              assert r.Done? ==> r.nodes[..|done|] == (done + [Node(d, cs)])[..|done|];
              r
  }

  /** The result of rewriting a whole document. */
  function RewriteAll<T>(ns: seq<Tree<T>>, visit: (Tree<T>, nat, seq<Tree<T>>) -> Step<T>): Rewritten<T> {
    Rewrite([], ns, visit)
  }

  /** A step that a context-free visitor can take without stopping the walk. */
  predicate Local<T>(s: Step<T>) {
    s.Replace? || (s.Update? && s.action != Exit)
  }

  /**
   * The rewrite done node by node by a visitor that looks only at the node:
   * a replaced node is not descended into, an updated one keeps (rewritten)
   * children unless skipped.
   */
  function MapNodes<T>(ns: seq<Tree<T>>, f: Tree<T> -> Step<T>): (r: seq<Tree<T>>)
    ensures |r| == |ns|
    decreases ns
  {
    if |ns| == 0 then []
    else
      var n := ns[0];
      var m := match f(n)
        case Replace(m) => m
        case Update(d, Skip) => Node(d, n.children)
        case Update(d, _) => Node(d, MapNodes(n.children, f))
        case Throw => n;
      [m] + MapNodes(ns[1..], f)
  }

  lemma {:induction false} MapNodesAt<T>(ns: seq<Tree<T>>, f: Tree<T> -> Step<T>, k: nat)
    requires k < |ns|
    ensures MapNodes(ns, f)[k] == MapNodes([ns[k]], f)[0]
  {
    if k > 0 {
      MapNodesAt(ns[1..], f, k - 1);
    }
  }

  /** A visitor that only looks at the node itself rewrites the document node by node. */
  lemma {:induction false} RewriteLocal<T>(done: seq<Tree<T>>, todo: seq<Tree<T>>, visit: (Tree<T>, nat, seq<Tree<T>>) -> Step<T>, f: Tree<T> -> Step<T>)
    requires forall n, i, s :: visit(n, i, s) == f(n)
    requires forall n :: Local(f(n))
    ensures Rewrite(done, todo, visit) == Done(done + MapNodes(todo, f), false)
    decreases todo
  {
    if |todo| > 0 {
      var n := todo[0];
      assert visit(n, |done|, done + todo) == f(n);
      assert Local(f(n));
      var m := match f(n)
        case Replace(m) => m
        case Update(d, Skip) => Node(d, n.children)
        case Update(d, _) => Node(d, MapNodes(n.children, f))
        case Throw => n;
      assert MapNodes(todo, f) == [m] + MapNodes(todo[1..], f);
      assert done + MapNodes(todo, f) == (done + [m]) + MapNodes(todo[1..], f);
      match f(n)
      case Replace(_) =>
        RewriteLocal(done + [m], todo[1..], visit, f);
      case Update(d, act) =>
        if act == Skip {
          RewriteLocal(done + [m], todo[1..], visit, f);
        } else {
          RewriteLocal([], n.children, visit, f);
          assert [] + MapNodes(n.children, f) == MapNodes(n.children, f);
          RewriteLocal(done + [m], todo[1..], visit, f);
        }
    }
  }


  /** Every node's data replaced by `g` of it, the shape kept. */
  function Relabel<T>(ns: seq<Tree<T>>, g: T -> T): (r: seq<Tree<T>>)
    ensures |r| == |ns|
    decreases ns
  {
    if |ns| == 0 then [] else [Node(g(ns[0].data), Relabel(ns[0].children, g))] + Relabel(ns[1..], g)
  }

  lemma {:induction false} RelabelAt<T>(ns: seq<Tree<T>>, g: T -> T, k: nat)
    requires k < |ns|
    ensures Relabel(ns, g)[k] == Node(g(ns[k].data), Relabel(ns[k].children, g))
  {
    if k > 0 {
      RelabelAt(ns[1..], g, k - 1);
    }
  }

  /** Relabelling keeps every path, and the node at a path is the relabelled original. */
  lemma {:induction false} RelabelAtPath<T>(ns: seq<Tree<T>>, g: T -> T, p: Path)
    requires ValidPath(ns, p)
    ensures ValidPath(Relabel(ns, g), p)
    ensures At(Relabel(ns, g), p) == Node(g(At(ns, p).data), Relabel(At(ns, p).children, g))
    decreases p
  {
    RelabelAt(ns, g, p[0]);
    if |p| > 1 {
      RelabelAtPath(ns[p[0]].children, g, p[1..]);
    }
  }

  /** Relabelling twice by an idempotent `g` is relabelling once. */
  lemma {:induction false} RelabelIdempotent<T>(ns: seq<Tree<T>>, g: T -> T)
    requires forall d :: g(g(d)) == g(d)
    ensures Relabel(Relabel(ns, g), g) == Relabel(ns, g)
    decreases ns
  {
    if |ns| > 0 {
      RelabelIdempotent(ns[0].children, g);
      RelabelIdempotent(ns[1..], g);
      var r := Relabel(ns, g);
      assert r[1..] == Relabel(ns[1..], g);
    }
  }

  /** `g` leaves the data of every node of the document as it is. */
  ghost predicate AllFixed<T>(ns: seq<Tree<T>>, g: T -> T)
    decreases ns
  {
    forall k :: 0 <= k < |ns| ==> g(ns[k].data) == ns[k].data && AllFixed(ns[k].children, g)
  }

  lemma {:induction false} RelabelFixed<T>(ns: seq<Tree<T>>, g: T -> T)
    requires AllFixed(ns, g)
    ensures Relabel(ns, g) == ns
    decreases ns
  {
    if |ns| > 0 {
      RelabelFixed(ns[0].children, g);
      assert AllFixed(ns[1..], g) by {
        forall k | 0 <= k < |ns[1..]|
          ensures g(ns[1..][k].data) == ns[1..][k].data && AllFixed(ns[1..][k].children, g)
        {
          assert ns[1..][k] == ns[k + 1];
        }
      }
      RelabelFixed(ns[1..], g);
      assert ns == [ns[0]] + ns[1..];
    }
  }

  /** After relabelling by an idempotent `g`, every node is fixed by `g`. */
  lemma {:induction false} RelabelAllFixed<T>(ns: seq<Tree<T>>, g: T -> T)
    requires forall d :: g(g(d)) == g(d)
    ensures AllFixed(Relabel(ns, g), g)
    decreases ns
  {
    var r := Relabel(ns, g);
    forall k | 0 <= k < |r|
      ensures g(r[k].data) == r[k].data && AllFixed(r[k].children, g)
    {
      RelabelAt(ns, g, k);
      RelabelAllFixed(ns[k].children, g);
    }
  }

  /** The step of a visitor that only relabels. */
  function RelabelStep<T>(g: T -> T): Tree<T> -> Step<T> {
    (n: Tree<T>) => Update(g(n.data), Continue)
  }

  lemma {:induction false} MapNodesRelabel<T>(ns: seq<Tree<T>>, g: T -> T)
    ensures MapNodes(ns, RelabelStep(g)) == Relabel(ns, g)
    decreases ns
  {
    if |ns| > 0 {
      MapNodesRelabel(ns[0].children, g);
      MapNodesRelabel(ns[1..], g);
    }
  }

  /** A visitor that sets each node's data to `g` of it and goes on relabels the whole document. */
  lemma RewriteRelabel<T>(done: seq<Tree<T>>, todo: seq<Tree<T>>, visit: (Tree<T>, nat, seq<Tree<T>>) -> Step<T>, g: T -> T)
    requires forall n, i, s :: visit(n, i, s) == Update(g(n.data), Continue)
    ensures Rewrite(done, todo, visit) == Done(done + Relabel(todo, g), false)
  {
    RewriteLocal(done, todo, visit, RelabelStep(g));
    MapNodesRelabel(todo, g);
  }

  /** Two documents of the same shape whose node data are related pairwise by `rel`. */
  predicate Pointwise<T>(a: seq<Tree<T>>, b: seq<Tree<T>>, rel: (T, T) -> bool)
    decreases a
  {
    |a| == |b| && forall k :: 0 <= k < |a| ==> rel(a[k].data, b[k].data) && Pointwise(a[k].children, b[k].children, rel)
  }

  lemma {:induction false} PointwiseRefl<T>(a: seq<Tree<T>>, rel: (T, T) -> bool)
    requires forall d :: rel(d, d)
    ensures Pointwise(a, a, rel)
    decreases a
  {
    forall k | 0 <= k < |a| {
      PointwiseRefl(a[k].children, rel);
    }
  }

  lemma PointwiseAppend<T>(a: seq<Tree<T>>, b: seq<Tree<T>>, c: seq<Tree<T>>, d: seq<Tree<T>>, rel: (T, T) -> bool)
    requires Pointwise(a, c, rel) && Pointwise(b, d, rel)
    ensures Pointwise(a + b, c + d, rel)
  {
    forall k | 0 <= k < |a + b|
      ensures rel((a + b)[k].data, (c + d)[k].data) && Pointwise((a + b)[k].children, (c + d)[k].children, rel)
    {
      if k < |a| {
        assert (a + b)[k] == a[k] && (c + d)[k] == c[k];
      } else {
        assert (a + b)[k] == b[k - |a|] && (c + d)[k] == d[k - |a|];
      }
    }
  }

  /**
   * A visitor that only updates nodes in place, each update related to the
   * node's old data by the reflexive `rel`, leaves a document of the same
   * shape whose data are related pointwise to the old ones.
   */
  lemma {:induction false} RewritePointwise<T>(done: seq<Tree<T>>, todo: seq<Tree<T>>, visit: (Tree<T>, nat, seq<Tree<T>>) -> Step<T>, rel: (T, T) -> bool)
    requires forall d :: rel(d, d)
    requires forall n, i, s :: visit(n, i, s).Update? ==> rel(n.data, visit(n, i, s).data)
    requires forall n, i, s :: !visit(n, i, s).Replace?
    ensures Rewrite(done, todo, visit).Done? ==> Pointwise(todo, Rewrite(done, todo, visit).nodes[|done|..], rel)
    decreases todo
  {
    var r := Rewrite(done, todo, visit);
    if |todo| > 0 && r.Done? {
      var n := todo[0];
      var step := visit(n, |done|, done + todo);
      assert step.Update? && rel(n.data, step.data);
      var d := step.data;
      PointwiseRefl(todo[1..], rel);
      PointwiseRefl(n.children, rel);
      var cs: seq<Tree<T>> := n.children;
      var exits := step.action == Exit;
      if step.action == Skip {
        RewriteSkipStep(done, todo, visit, d);
      } else if step.action == Continue {
        var inner := Rewrite([], n.children, visit);
        RewritePointwise([], n.children, visit, rel);
        assert inner.Done?;
        cs := inner.nodes;
        assert inner.nodes[0..] == cs;
        exits := inner.exited;
        if exits {
          RewriteInnerExitStep(done, todo, visit, d, cs);
        } else {
          RewriteContinueStep(done, todo, visit, d, cs);
        }
      } else {
        RewriteExitStep(done, todo, visit, d);
      }
      if exits {
        assert r.nodes == done + [Node(d, cs)] + todo[1..];
        assert r.nodes[|done| + 1..] == todo[1..];
      } else {
        RewritePointwise(done + [Node(d, cs)], todo[1..], visit, rel);
      }
      PointwiseAfter(done, n, todo[1..], d, cs, r.nodes, rel);
      assert todo == [n] + todo[1..];
    }
  }
  /** A node whose visit exits: the rest is copied and the walk reports the exit. */
  lemma RewriteExitStep<T>(done: seq<Tree<T>>, todo: seq<Tree<T>>, visit: (Tree<T>, nat, seq<Tree<T>>) -> Step<T>, d: T)
    requires |todo| > 0 && visit(todo[0], |done|, done + todo) == Update(d, Exit)
    ensures Rewrite(done, todo, visit) == Done(done + [Node(d, todo[0].children)] + todo[1..], true)
  {
  }
  /** A node whose visit skips its children: the walk goes on after it. */
  lemma RewriteSkipStep<T>(done: seq<Tree<T>>, todo: seq<Tree<T>>, visit: (Tree<T>, nat, seq<Tree<T>>) -> Step<T>, d: T)
    requires |todo| > 0 && visit(todo[0], |done|, done + todo) == Update(d, Skip)
    ensures Rewrite(done, todo, visit) == Rewrite(done + [Node(d, todo[0].children)], todo[1..], visit)
  {
  }
  /** A node whose children's walk exits: the rest is copied and the exit is passed up. */
  lemma RewriteInnerExitStep<T>(done: seq<Tree<T>>, todo: seq<Tree<T>>, visit: (Tree<T>, nat, seq<Tree<T>>) -> Step<T>, d: T, cs: seq<Tree<T>>)
    requires |todo| > 0 && visit(todo[0], |done|, done + todo) == Update(d, Continue)
    requires Rewrite([], todo[0].children, visit) == Done(cs, true)
    ensures Rewrite(done, todo, visit) == Done(done + [Node(d, cs)] + todo[1..], true)
  {
  }


  /**
   * A visitor that never replaces, skips or exits — it updates each node in
   * place and goes on, or throws — visits every node: if the walk completes,
   * each node's new data is related by `rel` to its old data.
   */
  lemma {:induction false} RewriteContinuing<T>(done: seq<Tree<T>>, todo: seq<Tree<T>>, visit: (Tree<T>, nat, seq<Tree<T>>) -> Step<T>, rel: (T, T) -> bool)
    requires forall n, i, s :: visit(n, i, s).Throw? || (visit(n, i, s).Update? && visit(n, i, s).action == Continue)
    requires forall n, i, s :: visit(n, i, s).Update? ==> rel(n.data, visit(n, i, s).data)
    ensures var r := Rewrite(done, todo, visit);
      r.Done? ==> !r.exited && Pointwise(todo, r.nodes[|done|..], rel)
    decreases todo
  {
    var r := Rewrite(done, todo, visit);
    if |todo| > 0 && r.Done? {
      var n := todo[0];
      var step := visit(n, |done|, done + todo);
      assert step.Update? && step.action == Continue && rel(n.data, step.data);
      var inner := Rewrite([], n.children, visit);
      RewriteContinuing([], n.children, visit, rel);
      assert inner == Done(inner.nodes, false);
      var cs := inner.nodes;
      assert inner.nodes[0..] == cs;
      RewriteContinueStep(done, todo, visit, step.data, cs);
      RewriteContinuing(done + [Node(step.data, cs)], todo[1..], visit, rel);
      PointwiseAfter(done, n, todo[1..], step.data, cs, r.nodes, rel);
      assert todo == [n] + todo[1..];
    }
  }
  /**
   * A walked node followed by walked siblings: if the result holds the
   * updated node right after `done`, the node and its siblings correspond
   * one to one to what follows `done`.
   */
  lemma PointwiseAfter<T>(done: seq<Tree<T>>, n: Tree<T>, rest: seq<Tree<T>>, d: T, cs: seq<Tree<T>>, nodes: seq<Tree<T>>, rel: (T, T) -> bool)
    requires rel(n.data, d) && Pointwise(n.children, cs, rel)
    requires |done| + 1 <= |nodes| && nodes[..|done| + 1] == done + [Node(d, cs)]
    requires Pointwise(rest, nodes[|done| + 1..], rel)
    ensures Pointwise([n] + rest, nodes[|done|..], rel)
  {
    assert nodes[|done|] == Node(d, cs);
    assert nodes[|done|..] == [Node(d, cs)] + nodes[|done| + 1..];
    PointwiseCons(n, rest, d, cs, nodes[|done| + 1..], rel);
  }
  /** One node whose visit continues into completed children: the walk goes on after it. */
  lemma RewriteContinueStep<T>(done: seq<Tree<T>>, todo: seq<Tree<T>>, visit: (Tree<T>, nat, seq<Tree<T>>) -> Step<T>, d: T, cs: seq<Tree<T>>)
    requires |todo| > 0 && visit(todo[0], |done|, done + todo) == Update(d, Continue)
    requires Rewrite([], todo[0].children, visit) == Done(cs, false)
    ensures Rewrite(done, todo, visit) == Rewrite(done + [Node(d, cs)], todo[1..], visit)
  {
  }

  lemma PointwiseCons<T>(n: Tree<T>, rest: seq<Tree<T>>, d: T, cs: seq<Tree<T>>, tail: seq<Tree<T>>, rel: (T, T) -> bool)
    requires rel(n.data, d) && Pointwise(n.children, cs, rel) && Pointwise(rest, tail, rel)
    ensures Pointwise([n] + rest, [Node(d, cs)] + tail, rel)
  {
    assert Pointwise([n], [Node(d, cs)], rel);
    PointwiseAppend([n], rest, [Node(d, cs)], tail, rel);
  }


  /** Every node of the document has data satisfying `p`. */
  predicate EveryNode<T>(ns: seq<Tree<T>>, p: T -> bool)
    decreases ns
  {
    forall k :: 0 <= k < |ns| ==> p(ns[k].data) && EveryNode(ns[k].children, p)
  }

  /** A visitor that leaves every node it can meet as it is and goes on changes nothing. */
  lemma {:induction false} RewriteIdle<T>(done: seq<Tree<T>>, todo: seq<Tree<T>>, visit: (Tree<T>, nat, seq<Tree<T>>) -> Step<T>, p: T -> bool)
    requires EveryNode(todo, p)
    requires forall n: Tree<T>, i, s :: p(n.data) ==> visit(n, i, s) == Update(n.data, Continue)
    ensures Rewrite(done, todo, visit) == Done(done + todo, false)
    decreases todo
  {
    if |todo| > 0 {
      var n := todo[0];
      assert p(n.data) && EveryNode(n.children, p);
      assert visit(n, |done|, done + todo) == Update(n.data, Continue);
      RewriteIdle([], n.children, visit, p);
      assert [] + n.children == n.children;
      assert Node(n.data, n.children) == n;
      assert EveryNode(todo[1..], p) by {
        forall k | 0 <= k < |todo[1..]|
          ensures p(todo[1..][k].data) && EveryNode(todo[1..][k].children, p)
        {
          assert todo[1..][k] == todo[k + 1];
        }
      }
      RewriteIdle(done + [n], todo[1..], visit, p);
      assert done + [n] + todo[1..] == done + todo;
    }
  }

  /** The siblings after the first node of a document satisfy what every node does. */
  lemma EveryNodeTail<T>(ns: seq<Tree<T>>, p: T -> bool)
    requires |ns| > 0 && EveryNode(ns, p)
    ensures p(ns[0].data) && EveryNode(ns[0].children, p) && EveryNode(ns[1..], p)
  {
    forall k | 0 <= k < |ns[1..]|
      ensures p(ns[1..][k].data) && EveryNode(ns[1..][k].children, p)
    {
      assert ns[1..][k] == ns[k + 1];
    }
  }

  /**
   * A visitor that only continues or throws, and never throws on a node
   * satisfying `p`, gets through a document whose every node satisfies `p`.
   */
  lemma {:induction false} RewriteNeverThrows<T>(done: seq<Tree<T>>, todo: seq<Tree<T>>, visit: (Tree<T>, nat, seq<Tree<T>>) -> Step<T>, p: T -> bool)
    requires forall n, i, s :: visit(n, i, s).Throw? || (visit(n, i, s).Update? && visit(n, i, s).action == Continue)
    requires forall n: Tree<T>, i, s :: p(n.data) ==> !visit(n, i, s).Throw?
    requires EveryNode(todo, p)
    ensures Rewrite(done, todo, visit).Done?
    decreases todo
  {
    if |todo| > 0 {
      var n := todo[0];
      var step := visit(n, |done|, done + todo);
      EveryNodeTail(todo, p);
      RewriteNeverThrows([], n.children, visit, p);
      var inner := Rewrite([], n.children, visit);
      RewriteContinuing([], n.children, visit, (a: T, b: T) => true);
      assert inner == Done(inner.nodes, false);
      RewriteContinueStep(done, todo, visit, step.data, inner.nodes);
      RewriteNeverThrows(done + [Node(step.data, inner.nodes)], todo[1..], visit, p);
    }
  }

  /** When a walk that only continues gets through, the first node's data is what its visit made of it. */
  lemma RewriteFirstNode<T>(ns: seq<Tree<T>>, visit: (Tree<T>, nat, seq<Tree<T>>) -> Step<T>)
    requires forall n, i, s :: visit(n, i, s).Throw? || (visit(n, i, s).Update? && visit(n, i, s).action == Continue)
    requires |ns| > 0 && Rewrite([], ns, visit).Done?
    ensures visit(ns[0], 0, ns).Update? && Rewrite([], ns, visit).nodes[0].data == visit(ns[0], 0, ns).data
  {
    var none: seq<Tree<T>> := [];
    assert none + ns == ns;
    var step := visit(ns[0], 0, ns);
    var inner := Rewrite([], ns[0].children, visit);
    RewriteContinuing([], ns[0].children, visit, (a: T, b: T) => true);
    assert inner == Done(inner.nodes, false);
    RewriteContinueStep(none, ns, visit, step.data, inner.nodes);
  }
}
