/**
 * `orderDefinitions()` of `scripts/mdast/order-links.js`: link and image
 * references are renumbered `1`, `2`, ... in order of first use, the old
 * definitions are removed, and one new definition per number is appended to
 * the root.
 */
module OrderLinks {
  import opened Util
  import opened Unist
  import opened Mdast

  predicate IsRef(d: MNode) {
    d.LinkRef? || d.ImageRef?
  }

  /** The identifiers of the link and image references, in preorder. */
  function RefIds(ns: seq<MTree>): seq<string>
    decreases ns
  {
    if |ns| == 0 then []
    else (if IsRef(ns[0].data) then [ns[0].data.identifier] else []) + RefIds(ns[0].children) + RefIds(ns[1..])
  }

  /** The definitions, in preorder. */
  function Defs(ns: seq<MTree>): (ds: seq<MNode>)
    ensures forall k :: 0 <= k < |ds| ==> ds[k].Definition?
    decreases ns
  {
    if |ns| == 0 then []
    else (if ns[0].data.Definition? then [ns[0].data] else []) + Defs(ns[0].children) + Defs(ns[1..])
  }

  lemma CollectAppend(a: seq<MTree>, b: seq<MTree>)
    ensures RefIds(a + b) == RefIds(a) + RefIds(b)
    ensures Defs(a + b) == Defs(a) + Defs(b)
  {
    RefIdsAppend(a, b);
    DefsAppend(a, b);
  }

  lemma {:induction false} RefIdsAppend(a: seq<MTree>, b: seq<MTree>)
    ensures RefIds(a + b) == RefIds(a) + RefIds(b)
  {
    if |a| > 0 {
      assert (a + b)[0] == a[0] && (a + b)[1..] == a[1..] + b;
      RefIdsAppend(a[1..], b);
    } else {
      assert a + b == b;
    }
  }

  lemma {:induction false} DefsAppend(a: seq<MTree>, b: seq<MTree>)
    ensures Defs(a + b) == Defs(a) + Defs(b)
  {
    if |a| > 0 {
      assert (a + b)[0] == a[0] && (a + b)[1..] == a[1..] + b;
      DefsAppend(a[1..], b);
    } else {
      assert a + b == b;
    }
  }

  /**
   * The shape rules of mdast the pass relies on: a definition is a leaf, and
   * no reference (phrasing content) holds a definition.
   */
  predicate WellFormed(ns: seq<MTree>)
    decreases ns
  {
    forall k :: 0 <= k < |ns| ==>
      (ns[k].data.Definition? ==> ns[k].children == [])
      && (IsRef(ns[k].data) ==> Defs(ns[k].children) == [])
      && WellFormed(ns[k].children)
  }

  // ---------------------------------------------------------------------------
  // Looking up definitions and numbering identifiers.
  // ---------------------------------------------------------------------------

  /** `defs.find(d => d.identifier === id)`: the first definition of `id`. */
  function FindDef(defs: seq<MNode>, id: string): (d: Option<MNode>)
    ensures d.None? <==> forall k :: 0 <= k < |defs| ==> !(defs[k].Definition? && defs[k].identifier == id)
    ensures d.Some? ==> d.value in defs && d.value.Definition? && d.value.identifier == id
  {
    if |defs| == 0 then None
    else if defs[0].Definition? && defs[0].identifier == id then Some(defs[0])
    else
      var r := FindDef(defs[1..], id);
      assert forall k :: 1 <= k < |defs| ==> defs[k] == defs[1..][k - 1];
      r
  }

  /** Every identifier of `ids` has a definition. */
  predicate AllDefined(defs: seq<MNode>, ids: seq<string>) {
    forall id :: id in ids ==> FindDef(defs, id).Some?
  }

  /** `seen` followed by the identifiers of `ids` not seen before, once each, in order of first appearance. */
  function FirstSeen(seen: seq<string>, ids: seq<string>): (r: seq<string>)
    ensures |seen| <= |r| && r[..|seen|] == seen
    ensures forall x :: x in r <==> x in seen || x in ids
    decreases |ids|
  {
    if |ids| == 0 then seen
    else FirstSeen(if ids[0] in seen then seen else seen + [ids[0]], ids[1..])
  }

  lemma {:induction false} FirstSeenAppend(seen: seq<string>, a: seq<string>, b: seq<string>)
    ensures FirstSeen(seen, a + b) == FirstSeen(FirstSeen(seen, a), b)
    decreases |a|
  {
    if |a| > 0 {
      assert (a + b)[0] == a[0] && (a + b)[1..] == a[1..] + b;
      FirstSeenAppend(if a[0] in seen then seen else seen + [a[0]], a[1..], b);
    } else {
      assert a + b == b;
    }
  }

  /** `xs` begins with `prefix`. */
  predicate Extends(xs: seq<string>, prefix: seq<string>) {
    |prefix| <= |xs| && xs[..|prefix|] == prefix
  }

  /** The index of the first occurrence of `x`. */
  function Pos(xs: seq<string>, x: string): (k: nat)
    requires x in xs
    ensures k < |xs| && xs[k] == x
    ensures forall j :: 0 <= j < k ==> xs[j] != x
  {
    if xs[0] == x then 0 else 1 + Pos(xs[1..], x)
  }

  /** A first occurrence stays where it is when the list grows at the end. */
  lemma PosExtends(a: seq<string>, b: seq<string>, x: string)
    requires Extends(b, a) && x in a
    ensures x in b && Pos(b, x) == Pos(a, x)
  {
    assert a[Pos(a, x)] == b[Pos(a, x)];
    assert Pos(b, x) < |a| ==> a[Pos(b, x)] == b[Pos(b, x)];
  }

  /** The number a reference to `id` gets once the definitions are ordered as `order`. */
  function NumberOf(order: seq<string>, id: string): string {
    if id in order then NatToString(Pos(order, id) + 1) else id
  }

  function Numbers(order: seq<string>, ids: seq<string>): (r: seq<string>)
    ensures |r| == |ids|
    ensures forall k :: 0 <= k < |ids| ==> r[k] == NumberOf(order, ids[k])
  {
    if |ids| == 0 then [] else [NumberOf(order, ids[0])] + Numbers(order, ids[1..])
  }

  /** `node.identifier = node.label = id` on a reference. */
  function WithId(d: MNode, id: string): MNode {
    match d
    case LinkRef(_, _) => LinkRef(id, id)
    case ImageRef(_, _, alt) => ImageRef(id, id, alt)
    case _ => d
  }

  /** The identifiers a node itself contributes to `RefIds`. */
  function Own(d: MNode): seq<string> {
    if IsRef(d) then [d.identifier] else []
  }

  /** A reference renamed to its number. */
  function Renamed(order: seq<string>, d: MNode): MNode {
    if IsRef(d) then WithId(d, NumberOf(order, d.identifier)) else d
  }

  function Rename(order: seq<string>): MNode -> MNode {
    d => Renamed(order, d)
  }

  // ---------------------------------------------------------------------------
  // Renumbering the references.
  // ---------------------------------------------------------------------------

  /**
   * One reference's turn in `refs.forEach`. `seen` holds the original
   * identifiers of the definitions ordered so far. A reference whose
   * definition is not ordered yet orders it and gets its number; one whose
   * definition is already ordered gets, as written, that definition's
   * original identifier back (`asWritten`), and otherwise its number. A
   * reference without any definition pushes `undefined`, and the next
   * access to it throws.
   */
  function NumberRef(defs: seq<MNode>, seen: seq<string>, id: string, asWritten: bool): Result<(string, seq<string>)> {
    if id in seen then Ok((if asWritten then id else NatToString(Pos(seen, id) + 1), seen))
    else if FindDef(defs, id).None? then Throws("TypeError: Cannot read properties of undefined")
    else Ok((NatToString(|seen| + 1), seen + [id]))
  }

  /** One node's own renumbering: the new payload and the identifiers ordered after it. */
  function RefStep(d: MNode, defs: seq<MNode>, seen: seq<string>, asWritten: bool): Result<(MNode, seq<string>)> {
    if !IsRef(d) then Ok((d, seen))
    else
      match NumberRef(defs, seen, d.identifier, asWritten)
      case Throws(e) => Throws(e)
      case Ok((id, seen1)) => Ok((WithId(d, id), seen1))
  }

  /** A node's step fails exactly when it is a reference without a definition, and orders its identifier. */
  lemma StepOutcome(d: MNode, defs: seq<MNode>, seen: seq<string>, asWritten: bool)
    requires AllDefined(defs, seen)
    ensures RefStep(d, defs, seen, asWritten).Ok? <==> AllDefined(defs, Own(d))
    ensures RefStep(d, defs, seen, asWritten).Ok? ==>
      RefStep(d, defs, seen, asWritten).value.1 == FirstSeen(seen, Own(d))
      && AllDefined(defs, FirstSeen(seen, Own(d)))
  {
    if IsRef(d) {
      assert Own(d)[1..] == [];
    }
  }

  /** The intended step renames a reference to its number in any order that extends the one after it. */
  lemma StepRenames(d: MNode, defs: seq<MNode>, seen: seq<string>, order: seq<string>)
    requires RefStep(d, defs, seen, false).Ok?
    requires Extends(order, RefStep(d, defs, seen, false).value.1)
    ensures RefStep(d, defs, seen, false).value.0 == Renamed(order, d)
  {
    if IsRef(d) {
      var id := d.identifier;
      var seen1 := RefStep(d, defs, seen, false).value.1;
      assert id in seen1;
      PosExtends(seen1, order, id);
      if id !in seen {
        assert seen1 == seen + [id];
        assert Pos(seen1, id) == |seen|;
      }
    }
  }

  /** The renumbered nodes and the identifiers ordered after them. */
  datatype Numbered = Numbered(nodes: seq<MTree>, seen: seq<string>)

  /** The references renumbered in preorder, the ordered identifiers threaded through. */
  function Renumber(ns: seq<MTree>, defs: seq<MNode>, seen: seq<string>, asWritten: bool): (r: Result<Numbered>)
    ensures r.Ok? ==> |r.value.nodes| == |ns|
    decreases ns
  {
    if |ns| == 0 then Ok(Numbered([], seen))
    else
      match RefStep(ns[0].data, defs, seen, asWritten)
      case Throws(e) => Throws(e)
      case Ok((d, seen1)) =>
        match Renumber(ns[0].children, defs, seen1, asWritten)
        case Throws(e) => Throws(e)
        case Ok(kids) =>
          match Renumber(ns[1..], defs, kids.seen, asWritten)
          case Throws(e) => Throws(e)
          case Ok(rest) => Ok(Numbered([Node(d, kids.nodes)] + rest.nodes, rest.seen))
  }

  /**
   * Renumbering fails exactly when some reference has no definition, and
   * otherwise orders the identifiers by first use; both variants agree on
   * this.
   */
  lemma {:induction false} RenumberOutcome(ns: seq<MTree>, defs: seq<MNode>, seen: seq<string>, asWritten: bool)
    requires AllDefined(defs, seen)
    ensures Renumber(ns, defs, seen, asWritten).Ok? <==> AllDefined(defs, RefIds(ns))
    ensures Renumber(ns, defs, seen, asWritten).Ok? ==>
      Renumber(ns, defs, seen, asWritten).value.seen == FirstSeen(seen, RefIds(ns))
    decreases ns
  {
    if |ns| > 0 {
      var n := ns[0];
      var h, c, t := Own(n.data), RefIds(n.children), RefIds(ns[1..]);
      assert RefIds(ns) == h + c + t;
      StepOutcome(n.data, defs, seen, asWritten);
      var head := RefStep(n.data, defs, seen, asWritten);
      if head.Ok? {
        var seen1 := head.value.1;
        RenumberOutcome(n.children, defs, seen1, asWritten);
        var kids := Renumber(n.children, defs, seen1, asWritten);
        if kids.Ok? {
          assert AllDefined(defs, kids.value.seen);
          RenumberOutcome(ns[1..], defs, kids.value.seen, asWritten);
          FirstSeenAppend(seen, h, c);
          FirstSeenAppend(seen, h + c, t);
        }
      }
    }
  }

  /**
   * The intended renumbering is a relabelling: every reference is renamed to
   * the number of its identifier in the final order (or in any extension of
   * it), wherever it sits.
   */
  lemma {:induction false} RenumberRelabels(ns: seq<MTree>, defs: seq<MNode>, seen: seq<string>, order: seq<string>)
    requires AllDefined(defs, seen)
    requires Renumber(ns, defs, seen, false).Ok?
    requires Extends(order, FirstSeen(seen, RefIds(ns)))
    ensures Renumber(ns, defs, seen, false).value.nodes == Relabel(ns, Rename(order))
    decreases ns
  {
    if |ns| > 0 {
      var n := ns[0];
      var h, c, t := Own(n.data), RefIds(n.children), RefIds(ns[1..]);
      assert RefIds(ns) == h + c + t;
      StepOutcome(n.data, defs, seen, false);
      var seen1 := RefStep(n.data, defs, seen, false).value.1;
      RenumberOutcome(n.children, defs, seen1, false);
      var mid := Renumber(n.children, defs, seen1, false).value.seen;
      FirstSeenAppend(seen, h, c);
      FirstSeenAppend(seen, h + c, t);
      ExtendsTrans(order, FirstSeen(mid, t), mid);
      ExtendsTrans(order, mid, seen1);
      StepRenames(n.data, defs, seen, order);
      RenumberRelabels(n.children, defs, seen1, order);
      RenumberRelabels(ns[1..], defs, mid, order);
    }
  }

  lemma ExtendsTrans(a: seq<string>, b: seq<string>, c: seq<string>)
    requires Extends(a, b) && Extends(b, c)
    ensures Extends(a, c)
  {
    assert a[..|c|] == a[..|b|][..|c|];
  }

  lemma {:induction false} NumbersAppend(order: seq<string>, a: seq<string>, b: seq<string>)
    ensures Numbers(order, a + b) == Numbers(order, a) + Numbers(order, b)
  {
    if |a| == 0 {
      assert a + b == b;
    } else {
      assert (a + b)[1..] == a[1..] + b;
      NumbersAppend(order, a[1..], b);
    }
  }

  /** Renaming references changes their identifiers to their numbers. */
  lemma {:induction false} RenameRefIds(ns: seq<MTree>, order: seq<string>)
    ensures RefIds(Relabel(ns, Rename(order))) == Numbers(order, RefIds(ns))
    decreases ns
  {
    if |ns| > 0 {
      var g := Rename(order);
      var r := Relabel(ns, g);
      assert r[0] == Node(g(ns[0].data), Relabel(ns[0].children, g)) && r[1..] == Relabel(ns[1..], g);
      RenameRefIds(ns[0].children, order);
      RenameRefIds(ns[1..], order);
      var h, c, t := Own(ns[0].data), RefIds(ns[0].children), RefIds(ns[1..]);
      assert Own(g(ns[0].data)) == Numbers(order, h);
      NumbersAppend(order, h, c);
      NumbersAppend(order, h + c, t);
    }
  }

  /** Renaming references leaves the definitions as they are. */
  lemma {:induction false} RenameDefs(ns: seq<MTree>, order: seq<string>)
    ensures Defs(Relabel(ns, Rename(order))) == Defs(ns)
    decreases ns
  {
    if |ns| > 0 {
      var g := Rename(order);
      var r := Relabel(ns, g);
      assert r[0] == Node(g(ns[0].data), Relabel(ns[0].children, g)) && r[1..] == Relabel(ns[1..], g);
      RenameDefs(ns[0].children, order);
      RenameDefs(ns[1..], order);
    }
  }

  lemma {:induction false} RenameWellFormed(ns: seq<MTree>, order: seq<string>)
    requires WellFormed(ns)
    ensures WellFormed(Relabel(ns, Rename(order)))
    decreases ns
  {
    var g := Rename(order);
    var r := Relabel(ns, g);
    forall k | 0 <= k < |r|
      ensures (r[k].data.Definition? ==> r[k].children == [])
        && (IsRef(r[k].data) ==> Defs(r[k].children) == [])
        && WellFormed(r[k].children)
    {
      RelabelAt(ns, g, k);
      RenameDefs(ns[k].children, order);
      RenameWellFormed(ns[k].children, order);
    }
  }

  // ---------------------------------------------------------------------------
  // Renumbering as written.
  // ---------------------------------------------------------------------------

  /**
   * The identifiers the references get as written, `seen` ordered before
   * them: a reference whose identifier is new gets the next number, one
   * whose identifier is already ordered keeps it.
   */
  function Written(seen: seq<string>, ids: seq<string>): (r: seq<string>)
    ensures |r| == |ids|
    decreases |ids|
  {
    if |ids| == 0 then []
    else
      var id := ids[0];
      [if id in seen then id else NatToString(|seen| + 1)] + Written(if id in seen then seen else seen + [id], ids[1..])
  }

  /**
   * Position by position: the `j`-th reference keeps its identifier when
   * that identifier was ordered before it, and otherwise gets the number of
   * its identifier in the final order.
   */
  lemma {:induction false} WrittenAt(seen: seq<string>, ids: seq<string>, j: nat)
    requires j < |ids|
    ensures ids[j] in FirstSeen(seen, ids)
    ensures Written(seen, ids)[j] ==
      if ids[j] in seen || ids[j] in ids[..j] then ids[j] else NatToString(Pos(FirstSeen(seen, ids), ids[j]) + 1)
    decreases |ids|
  {
    if j == 0 {
      WrittenHead(seen, ids);
    } else {
      var seen1 := if ids[0] in seen then seen else seen + [ids[0]];
      WrittenTail(seen, ids, j);
      WrittenAt(seen1, ids[1..], j - 1);
    }
  }

  /** The first reference is numbered when it is new and keeps its identifier otherwise. */
  lemma WrittenHead(seen: seq<string>, ids: seq<string>)
    requires |ids| > 0
    ensures ids[0] in FirstSeen(seen, ids)
    ensures Written(seen, ids)[0] ==
      if ids[0] in seen then ids[0] else NatToString(Pos(FirstSeen(seen, ids), ids[0]) + 1)
  {
    var id := ids[0];
    var seen1 := if id in seen then seen else seen + [id];
    assert FirstSeen(seen, ids) == FirstSeen(seen1, ids[1..]);
    if id !in seen {
      assert seen1[|seen|] == id;
      PosExtends(seen1, FirstSeen(seen, ids), id);
      assert Pos(seen1, id) == |seen|;
    }
  }

  /** A later reference is treated as in the rest of the list, after the first has been ordered. */
  lemma WrittenTail(seen: seq<string>, ids: seq<string>, j: nat)
    requires 0 < j < |ids|
    ensures var seen1 := if ids[0] in seen then seen else seen + [ids[0]];
      && Written(seen, ids)[j] == Written(seen1, ids[1..])[j - 1]
      && FirstSeen(seen, ids) == FirstSeen(seen1, ids[1..])
      && ids[1..][j - 1] == ids[j]
      && (ids[j] in seen1 || ids[j] in ids[1..][..j - 1] <==> ids[j] in seen || ids[j] in ids[..j])
  {
    assert ids[..j] == [ids[0]] + ids[1..][..j - 1];
  }

  lemma {:induction false} WrittenAppend(seen: seq<string>, a: seq<string>, b: seq<string>)
    ensures Written(seen, a + b) == Written(seen, a) + Written(FirstSeen(seen, a), b)
    decreases |a|
  {
    if |a| == 0 {
      assert a + b == b;
    } else {
      assert (a + b)[0] == a[0] && (a + b)[1..] == a[1..] + b;
      WrittenAppend(if a[0] in seen then seen else seen + [a[0]], a[1..], b);
    }
  }

  /** One node's own step as written: a reference gets the identifier `Written` gives it. */
  lemma StepWritten(d: MNode, defs: seq<MNode>, seen: seq<string>)
    requires RefStep(d, defs, seen, true).Ok?
    ensures Own(RefStep(d, defs, seen, true).value.0) == Written(seen, Own(d))
    ensures RefStep(d, defs, seen, true).value.0.Definition? <==> d.Definition?
  {
    if IsRef(d) {
      assert Own(d)[1..] == [];
    }
  }

  /** The identifiers and definitions of a node put in front of a list. */
  lemma CollectCons(d: MNode, kids: seq<MTree>, rest: seq<MTree>)
    ensures RefIds([Node(d, kids)] + rest) == Own(d) + RefIds(kids) + RefIds(rest)
    ensures Defs([Node(d, kids)] + rest) == (if d.Definition? then [d] else []) + Defs(kids) + Defs(rest)
  {
    var xs := [Node(d, kids)] + rest;
    assert xs[0] == Node(d, kids) && xs[1..] == rest;
  }

  /**
   * Renumbering as written changes the identifiers of the references as
   * `Written` says and leaves the definitions alone.
   */
  lemma {:induction false} RenumberWritten(ns: seq<MTree>, defs: seq<MNode>, seen: seq<string>)
    requires AllDefined(defs, seen)
    requires Renumber(ns, defs, seen, true).Ok?
    ensures RefIds(Renumber(ns, defs, seen, true).value.nodes) == Written(seen, RefIds(ns))
    ensures Defs(Renumber(ns, defs, seen, true).value.nodes) == Defs(ns)
    decreases ns
  {
    if |ns| > 0 {
      var n := ns[0];
      var h, c, t := Own(n.data), RefIds(n.children), RefIds(ns[1..]);
      assert RefIds(ns) == h + c + t;
      StepOutcome(n.data, defs, seen, true);
      StepWritten(n.data, defs, seen);
      var step := RefStep(n.data, defs, seen, true).value;
      var seen1 := step.1;
      RenumberOutcome(n.children, defs, seen1, true);
      RenumberWritten(n.children, defs, seen1);
      var kids := Renumber(n.children, defs, seen1, true).value;
      RenumberOutcome(ns[1..], defs, kids.seen, true);
      RenumberWritten(ns[1..], defs, kids.seen);
      var rest := Renumber(ns[1..], defs, kids.seen, true).value;
      assert Renumber(ns, defs, seen, true).value.nodes == [Node(step.0, kids.nodes)] + rest.nodes;
      CollectCons(step.0, kids.nodes, rest.nodes);
      WrittenAppend(seen, h, c);
      WrittenAppend(seen, h + c, t);
      FirstSeenAppend(seen, h, c);
      if step.0.Definition? {
        assert step.0 == n.data;
      }
    }
  }

  /** Renumbering as written keeps a document well formed. */
  lemma {:induction false} RenumberWrittenWellFormed(ns: seq<MTree>, defs: seq<MNode>, seen: seq<string>)
    requires AllDefined(defs, seen)
    requires Renumber(ns, defs, seen, true).Ok?
    requires WellFormed(ns)
    ensures WellFormed(Renumber(ns, defs, seen, true).value.nodes)
    decreases ns
  {
    if |ns| > 0 {
      var n := ns[0];
      StepOutcome(n.data, defs, seen, true);
      StepWritten(n.data, defs, seen);
      var step := RefStep(n.data, defs, seen, true).value;
      RenumberOutcome(n.children, defs, step.1, true);
      RenumberWritten(n.children, defs, step.1);
      RenumberWrittenWellFormed(n.children, defs, step.1);
      var kids := Renumber(n.children, defs, step.1, true).value;
      RenumberOutcome(ns[1..], defs, kids.seen, true);
      RenumberWrittenWellFormed(ns[1..], defs, kids.seen);
      var rest := Renumber(ns[1..], defs, kids.seen, true).value;
      var r := [Node(step.0, kids.nodes)] + rest.nodes;
      assert Renumber(ns, defs, seen, true).value.nodes == r;
      assert IsRef(step.0) <==> IsRef(n.data);
      if n.data.Definition? {
        assert n.children == [];
        assert kids.nodes == [];
      }
      forall k | 0 <= k < |r|
        ensures (r[k].data.Definition? ==> r[k].children == [])
          && (IsRef(r[k].data) ==> Defs(r[k].children) == [])
          && WellFormed(r[k].children)
      {
        if k > 0 {
          assert r[k] == rest.nodes[k - 1];
        }
      }
    }
  }

  // ---------------------------------------------------------------------------
  // Removing the old definitions.
  // ---------------------------------------------------------------------------

  /**
   * `remove(tree, 'definition')` below the root: definitions go, and so does
   * a parent whose children all went (the library's default `cascade`).
   */
  function PruneAll(ns: seq<MTree>): seq<MTree>
    decreases ns
  {
    if |ns| == 0 then []
    else
      var n := ns[0];
      var kept := PruneAll(n.children);
      if n.data.Definition? || (|n.children| > 0 && |kept| == 0) then PruneAll(ns[1..])
      else [Node(n.data, kept)] + PruneAll(ns[1..])
  }

  /**
   * `remove(tree, 'definition')` on the root's children. The root itself is
   * never removed; when every child would go, the library leaves the root's
   * children as they were.
   */
  function RemoveDefinitions(ns: seq<MTree>): seq<MTree> {
    var kept := PruneAll(ns);
    if |ns| > 0 && |kept| == 0 then ns else kept
  }

  /** Nothing is removed from a document without definitions. */
  lemma {:induction false} PruneNoDefs(ns: seq<MTree>)
    requires Defs(ns) == []
    ensures PruneAll(ns) == ns
    decreases ns
  {
    if |ns| > 0 {
      PruneNoDefs(ns[0].children);
      PruneNoDefs(ns[1..]);
      assert ns == [Node(ns[0].data, ns[0].children)] + ns[1..];
    }
  }

  /** Pruning removes every definition, and in a well-formed document no reference. */
  lemma {:induction false} PruneCollect(ns: seq<MTree>)
    ensures Defs(PruneAll(ns)) == []
    ensures WellFormed(ns) ==> RefIds(PruneAll(ns)) == RefIds(ns)
    decreases ns
  {
    if |ns| > 0 {
      var n := ns[0];
      PruneCollect(n.children);
      PruneCollect(ns[1..]);
      var kept := PruneAll(n.children);
      if !(n.data.Definition? || (|n.children| > 0 && |kept| == 0)) {
        CollectAppend([Node(n.data, kept)], PruneAll(ns[1..]));
      }
      if WellFormed(ns) {
        assert WellFormed(n.children) && WellFormed(ns[1..]);
        if IsRef(n.data) {
          PruneNoDefs(n.children);
        }
      }
    }
  }

  // ---------------------------------------------------------------------------
  // The pass.
  // ---------------------------------------------------------------------------

  /** The appended definitions' payloads: number `k + 1` takes the url and title of the first definition of `order[k]`. */
  function DefData(order: seq<string>, defs: seq<MNode>): (ds: seq<MNode>)
    requires AllDefined(defs, order)
    ensures |ds| == |order|
  {
    seq(|order|, k requires 0 <= k < |order| =>
      var def := FindDef(defs, order[k]).value;
      Definition(NatToString(k + 1), NatToString(k + 1), def.url, def.title))
  }

  function NewDefs(order: seq<string>, defs: seq<MNode>): (r: seq<MTree>)
    requires AllDefined(defs, order)
    ensures |r| == |order|
  {
    var ds := DefData(order, defs);
    seq(|ds|, k requires 0 <= k < |ds| => Node(ds[k], []))
  }

  /** The data of a list of nodes is the first node's data followed by the data of the rest. */
  lemma LeafData(ns: seq<MTree>)
    requires |ns| > 0
    ensures seq(|ns|, k requires 0 <= k < |ns| => ns[k].data)
         == [ns[0].data] + seq(|ns| - 1, k requires 0 <= k < |ns| - 1 => ns[1..][k].data)
  {
  }
  lemma {:induction false} LeafDefs(ns: seq<MTree>)
    requires forall k :: 0 <= k < |ns| ==> ns[k].data.Definition? && ns[k].children == []
    ensures RefIds(ns) == []
    ensures Defs(ns) == seq(|ns|, k requires 0 <= k < |ns| => ns[k].data)
  {
    if |ns| > 0 {
      var tail := ns[1..];
      assert forall k :: 0 <= k < |tail| ==> tail[k] == ns[k + 1];
      LeafDefs(tail);
      var none: seq<MTree> := [];
      assert ns[0].children == none;
      assert RefIds(ns) == RefIds(tail);
      assert Defs(ns) == [ns[0].data] + Defs(tail);
      LeafData(ns);
    }
  }

  lemma NewDefsCollect(order: seq<string>, defs: seq<MNode>)
    requires AllDefined(defs, order)
    ensures RefIds(NewDefs(order, defs)) == []
    ensures Defs(NewDefs(order, defs)) == DefData(order, defs)
  {
    LeafDefs(NewDefs(order, defs));
  }

  /** Both variants of the pass: renumber, remove the old definitions, append the new ones. */
  function Ordered(ns: seq<MTree>, asWritten: bool): (r: Result<seq<MTree>>)
    ensures r.Ok? <==> AllDefined(Defs(ns), RefIds(ns))
  {
    var defs := Defs(ns);
    RenumberOutcome(ns, defs, [], asWritten);
    match Renumber(ns, defs, [], asWritten)
    case Throws(e) => Throws(e)
    case Ok(num) => Ok(RemoveDefinitions(num.nodes) + NewDefs(num.seen, defs))
  }

  /**
   * `orderDefinitions()` as written: a second reference to an already
   * ordered definition is given back that definition's old identifier.
   */
  function OrderDefinitionsAsWritten(ns: seq<MTree>): (r: Result<seq<MTree>>)
    ensures r.Ok? <==> AllDefined(Defs(ns), RefIds(ns))
  {
    Ordered(ns, true)
  }

  /** `orderDefinitions()` as intended: every reference gets the number of its definition. */
  function OrderDefinitions(ns: seq<MTree>): (r: Result<seq<MTree>>)
    ensures r.Ok? <==> AllDefined(Defs(ns), RefIds(ns))
  {
    Ordered(ns, false)
  }

  /**
   * What the intended pass does: every reference is renamed to the number
   * of its identifier in first-use order, and the definitions left are
   * exactly the new ones, numbered `1`..`n`, each with the url and title of
   * the first definition of the identifier it replaces.
   */
  lemma OrderDefinitionsNumbers(ns: seq<MTree>)
    requires WellFormed(ns)
    requires OrderDefinitions(ns).Ok?
    ensures var order := FirstSeen([], RefIds(ns));
      var r := OrderDefinitions(ns).value;
      AllDefined(Defs(ns), order)
      && RefIds(r) == Numbers(order, RefIds(ns))
      && (RefIds(ns) != [] ==> Defs(r) == DefData(order, Defs(ns)))
  {
    var defs, none: seq<string> := Defs(ns), [];
    var order := FirstSeen(none, RefIds(ns));
    RenumberOutcome(ns, defs, none, false);
    var num := Renumber(ns, defs, none, false).value;
    assert num.seen == order;
    RenumberRelabels(ns, defs, none, order);
    RenameRefIds(ns, order);
    RenameDefs(ns, order);
    RenameWellFormed(ns, order);
    var kept, added := RemoveDefinitions(num.nodes), NewDefs(order, defs);
    assert OrderDefinitions(ns).value == kept + added;
    RemoveCollect(num.nodes);
    NewDefsCollect(order, defs);
    CollectAppend(kept, added);
  }

  /**
   * What the pass does as written: the first reference to an identifier is
   * renamed to its number in first-use order, every later reference to it
   * keeps the old identifier, and the definitions left are exactly the new
   * ones, numbered `1`..`n`, each with the url and title of the first
   * definition of the identifier it replaces.
   */
  lemma OrderDefinitionsAsWrittenNumbers(ns: seq<MTree>)
    requires WellFormed(ns)
    requires OrderDefinitionsAsWritten(ns).Ok?
    ensures var ids := RefIds(ns);
      var order := FirstSeen([], ids);
      var r := OrderDefinitionsAsWritten(ns).value;
      AllDefined(Defs(ns), order)
      && |RefIds(r)| == |ids|
      && (forall j :: 0 <= j < |ids| ==>
            RefIds(r)[j] == if ids[j] in ids[..j] then ids[j] else NumberOf(order, ids[j]))
      && (ids != [] ==> Defs(r) == DefData(order, Defs(ns)))
  {
    AsWrittenCollect(ns);
    WrittenFirstUse(RefIds(ns));
  }

  /** From the empty order, `Written` numbers first uses and keeps repeats. */
  lemma WrittenFirstUse(ids: seq<string>)
    ensures forall j :: 0 <= j < |ids| ==>
      Written([], ids)[j] == if ids[j] in ids[..j] then ids[j] else NumberOf(FirstSeen([], ids), ids[j])
  {
    forall j | 0 <= j < |ids|
      ensures Written([], ids)[j] == if ids[j] in ids[..j] then ids[j] else NumberOf(FirstSeen([], ids), ids[j])
    {
      WrittenFirstUseAt([], ids, j);
    }
  }

  /** An identifier not ordered beforehand is numbered at its first use and kept at the later ones. */
  lemma WrittenFirstUseAt(seen: seq<string>, ids: seq<string>, j: nat)
    requires j < |ids| && ids[j] !in seen
    ensures Written(seen, ids)[j] == if ids[j] in ids[..j] then ids[j] else NumberOf(FirstSeen(seen, ids), ids[j])
  {
    WrittenAt(seen, ids, j);
    if ids[j] !in ids[..j] {
      NumberOfIn(FirstSeen(seen, ids), ids[j]);
    }
  }

  /** The number of an identifier that is in the order is its position, from `1`. */
  lemma NumberOfIn(order: seq<string>, x: string)
    requires x in order
    ensures NumberOf(order, x) == NatToString(Pos(order, x) + 1)
  {
  }

  /** The references and definitions of the as-written result. */
  lemma AsWrittenCollect(ns: seq<MTree>)
    requires WellFormed(ns)
    requires OrderDefinitionsAsWritten(ns).Ok?
    ensures var ids := RefIds(ns);
      var order := FirstSeen([], ids);
      var r := OrderDefinitionsAsWritten(ns).value;
      AllDefined(Defs(ns), order)
      && RefIds(r) == Written([], ids)
      && (ids != [] ==> Defs(r) == DefData(order, Defs(ns)))
  {
    var defs, none: seq<string> := Defs(ns), [];
    var ids := RefIds(ns);
    var order := FirstSeen(none, ids);
    RenumberOutcome(ns, defs, none, true);
    RenumberWritten(ns, defs, none);
    RenumberWrittenWellFormed(ns, defs, none);
    var num := Renumber(ns, defs, none, true).value;
    assert num.seen == order;
    var kept, added := RemoveDefinitions(num.nodes), NewDefs(order, defs);
    assert OrderDefinitionsAsWritten(ns).value == kept + added;
    RemoveCollect(num.nodes);
    NewDefsCollect(order, defs);
    CollectAppend(kept, added);
  }

  /** Removing the old definitions keeps every reference of a well-formed document, and leaves no definition when there is a reference. */
  lemma RemoveCollect(ns: seq<MTree>)
    requires WellFormed(ns)
    ensures RefIds(RemoveDefinitions(ns)) == RefIds(ns)
    ensures RefIds(ns) != [] ==> Defs(RemoveDefinitions(ns)) == []
  {
    PruneCollect(ns);
    if |ns| > 0 && |PruneAll(ns)| == 0 {
      assert RefIds(PruneAll(ns)) == [];
    }
  }

  /** With the intended pass, every reference names a definition that is in the result. */
  lemma OrderDefinitionsResolve(ns: seq<MTree>, j: nat)
    requires WellFormed(ns)
    requires OrderDefinitions(ns).Ok?
    requires j < |RefIds(ns)|
    ensures var r := OrderDefinitions(ns).value;
      var id := RefIds(ns)[j];
      var k := Pos(FirstSeen([], RefIds(ns)), id);
      j < |RefIds(r)| && k < |Defs(r)|
      && Defs(r)[k].identifier == RefIds(r)[j]
      && Defs(r)[k].url == FindDef(Defs(ns), id).value.url
  {
    OrderDefinitionsNumbers(ns);
    var r := OrderDefinitions(ns).value;
    assert RefIds(ns)[j] in FirstSeen([], RefIds(ns));
    NumberResolves(FirstSeen([], RefIds(ns)), RefIds(ns), Defs(ns), RefIds(r), Defs(r), j);
  }

  /** The `j`-th reference, numbered, names the definition made for its identifier. */
  lemma NumberResolves(order: seq<string>, ids: seq<string>, defs: seq<MNode>, refs: seq<string>, ds: seq<MNode>, j: nat)
    requires AllDefined(defs, order)
    requires j < |ids| && ids[j] in order && refs == Numbers(order, ids) && ds == DefData(order, defs)
    ensures var k := Pos(order, ids[j]);
      j < |refs| && k < |ds| && ds[k].identifier == refs[j] && ds[k].url == FindDef(defs, ids[j]).value.url
  {
    var x := ids[j];
    var k := Pos(order, x);
    assert refs[j] == NumberOf(order, x);
    NumberOfIn(order, x);
    DefDataAt(order, defs, k);
  }

  /** The `k`-th definition made is numbered `k + 1` and carries the URL of the `k`-th identifier's definition. */
  lemma DefDataAt(order: seq<string>, defs: seq<MNode>, k: nat)
    requires AllDefined(defs, order) && k < |order|
    ensures DefData(order, defs)[k].identifier == NatToString(k + 1)
    ensures DefData(order, defs)[k].url == FindDef(defs, order[k]).value.url
  {
  }

  // ---------------------------------------------------------------------------
  // Two references to one definition.
  // ---------------------------------------------------------------------------

  const FooRef: MTree := Node(LinkRef("foo", "foo"), [])
  const FooDef: MTree := Node(Definition("foo", "foo", "/x", None), [])

  /** `[a][foo] [b][foo]` followed by `[foo]: /x`. */
  const Sample: seq<MTree> := [Node(Other("paragraph", None), [FooRef, FooRef]), FooDef]

  lemma SampleCollect()
    ensures Defs(Sample) == [FooDef.data]
    ensures RefIds(Sample) == ["foo", "foo"]
    ensures WellFormed(Sample)
    ensures FindDef(Defs(Sample), "foo") == Some(FooDef.data)
    ensures NatToString(1) == "1"
  {
    var empty: seq<MTree> := [];
    assert [FooRef, FooRef][1..] == [FooRef] && [FooRef][1..] == empty && Sample[1..] == [FooDef] && [FooDef][1..] == empty;
    assert Defs([FooDef]) == [FooDef.data];
    assert Defs([FooRef]) == [];
    assert Defs([FooRef, FooRef]) == [];
    assert RefIds([FooDef]) == [];
    assert RefIds([FooRef]) == ["foo"];
    assert RefIds([FooRef, FooRef]) == ["foo", "foo"];
    assert WellFormed(Sample[0].children);
  }

  const Ref1: MTree := Node(LinkRef("1", "1"), [])

  /** As written, the second reference keeps `foo`. */
  lemma SampleRenumberAsWritten()
    ensures Renumber([FooRef, FooRef], [FooDef.data], [], true) == Ok(Numbered([Ref1, FooRef], ["foo"]))
  {
    SampleCollect();
    var defs := [FooDef.data];
    var empty: seq<MTree> := [];
    var none: seq<string> := [];
    assert [FooRef, FooRef][1..] == [FooRef] && [FooRef][1..] == empty;
    assert Renumber(empty, defs, ["foo"], true) == Ok(Numbered([], ["foo"]));
    assert RefStep(FooRef.data, defs, ["foo"], true) == Ok((FooRef.data, ["foo"]));
    assert [Node(FooRef.data, [])] + empty == [FooRef];
    assert Renumber([FooRef], defs, ["foo"], true) == Ok(Numbered([FooRef], ["foo"]));
    assert none + ["foo"] == ["foo"];
    assert NumberRef(defs, none, "foo", true) == Ok(("1", ["foo"]));
    assert RefStep(FooRef.data, defs, [], true) == Ok((Ref1.data, ["foo"]));
    assert [Node(Ref1.data, [])] + [FooRef] == [Ref1, FooRef];
  }

  lemma SampleResultAsWritten()
    ensures OrderDefinitionsAsWritten(Sample) == Ok([Node(Other("paragraph", None), [Ref1, FooRef]), Node(Definition("1", "1", "/x", None), [])])
  {
    SampleCollect();
    SampleDocumentRenumberedAsWritten();
    SamplePruned();
    var para2 := Node(Other("paragraph", None), [Ref1, FooRef]);
    var nd := Node(Definition("1", "1", "/x", None), []);
    assert Ordered(Sample, true) == Ok([para2] + [nd]);
    assert [para2] + [nd] == [para2, nd];
  }

  lemma SampleDocumentRenumberedAsWritten()
    ensures Renumber(Sample, [FooDef.data], [], true) == Ok(Numbered([Node(Other("paragraph", None), [Ref1, FooRef]), FooDef], ["foo"]))
  {
    SampleCollect();
    SampleRenumberAsWritten();
    var defs := [FooDef.data];
    var empty: seq<MTree> := [];
    var para2 := Node(Other("paragraph", None), [Ref1, FooRef]);
    assert Sample[1..] == [FooDef] && [FooDef][1..] == empty;
    assert RefStep(FooDef.data, defs, ["foo"], true) == Ok((FooDef.data, ["foo"]));
    assert Renumber(empty, defs, ["foo"], true) == Ok(Numbered([], ["foo"]));
    assert [Node(FooDef.data, [])] + empty == [FooDef];
    assert Renumber([FooDef], defs, ["foo"], true) == Ok(Numbered([FooDef], ["foo"]));
    assert [para2] + [FooDef] == [para2, FooDef];
  }

  lemma SamplePruned()
    ensures RemoveDefinitions([Node(Other("paragraph", None), [Ref1, FooRef]), FooDef]) == [Node(Other("paragraph", None), [Ref1, FooRef])]
    ensures NewDefs(["foo"], [FooDef.data]) == [Node(Definition("1", "1", "/x", None), [])]
  {
    SampleCollect();
    var empty: seq<MTree> := [];
    var para2 := Node(Other("paragraph", None), [Ref1, FooRef]);
    assert [Ref1, FooRef][1..] == [FooRef] && [FooRef][1..] == empty && [para2, FooDef][1..] == [FooDef];
    assert [FooDef][1..] == empty;
    assert PruneAll([FooRef]) == [FooRef];
    assert PruneAll([Ref1, FooRef]) == [Ref1, FooRef];
    assert PruneAll([FooDef]) == [];
    assert PruneAll([para2, FooDef]) == [para2];
  }


  /**
   * As written, two references to one definition leave the second one
   * dangling: it keeps the identifier `foo`, while the only definition left
   * is `1`.
   */
  lemma OrderDefinitionsAsWrittenDangles()
    ensures OrderDefinitionsAsWritten(Sample).Ok?
    ensures var r := OrderDefinitionsAsWritten(Sample).value;
      RefIds(r) == ["1", "foo"] && Defs(r) == [Definition("1", "1", "/x", None)]
  {
    SampleResultAsWritten();
    var empty: seq<MTree> := [];
    var para2 := Node(Other("paragraph", None), [Ref1, FooRef]);
    var nd := Node(Definition("1", "1", "/x", None), []);
    assert [Ref1, FooRef][1..] == [FooRef] && [FooRef][1..] == empty && [para2, nd][1..] == [nd] && [nd][1..] == empty;
    assert RefIds([FooRef]) == ["foo"];
    assert RefIds([Ref1, FooRef]) == ["1", "foo"];
    assert RefIds([nd]) == [];
    assert Defs([Ref1, FooRef]) == [];
    assert Defs([nd]) == [nd.data];
  }

  /** The intended pass on the same document points both references at definition `1`. */
  lemma OrderDefinitionsShares()
    ensures OrderDefinitions(Sample).Ok?
    ensures var r := OrderDefinitions(Sample).value;
      RefIds(r) == ["1", "1"] && Defs(r) == [Definition("1", "1", "/x", None)]
  {
    SampleCollect();
    SampleNumbers();
    OrderDefinitionsNumbers(Sample);
  }

  lemma SampleNumbers()
    ensures FirstSeen([], ["foo", "foo"]) == ["foo"]
    ensures Numbers(["foo"], ["foo", "foo"]) == ["1", "1"]
    ensures AllDefined([FooDef.data], ["foo"])
    ensures DefData(["foo"], [FooDef.data]) == [Definition("1", "1", "/x", None)]
  {
    SampleCollect();
    SampleFirstSeen();
    SampleNumberOf();
    assert Numbers(["foo"], ["foo", "foo"])[0] == "1";
    assert Numbers(["foo"], ["foo", "foo"])[1] == "1";
  }
  lemma SampleFirstSeen()
    ensures FirstSeen([], ["foo", "foo"]) == ["foo"]
  {
    var none: seq<string> := [];
    assert ["foo", "foo"][1..] == ["foo"] && ["foo"][1..] == none;
    assert FirstSeen(["foo"], ["foo"]) == ["foo"];
  }
  lemma SampleNumberOf()
    ensures NumberOf(["foo"], "foo") == "1"
  {
    assert Pos(["foo"], "foo") == 0;
    assert NatToString(1) == "1";
  }
}
