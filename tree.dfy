/**
 * `getElementsTree` (src/store/pageBuilderStore.ts): the flat store resolved
 * into a nested tree starting at the root. A missing element becomes the
 * placeholder node "error-element"; a child id that names no element is
 * skipped. Like `getDescendantIds`, `buildTree` has no visited set, so it is
 * modelled on a `Ranked` store.
 */
module Tree {
  import opened Common
  import opened Styles
  import opened Elements
  import opened Descendants

  /** `PageElementTree`: an element whose `children` are resolved nodes instead of ids. */
  datatype Tree = Node(
    id: Id,
    kind: ElementType,
    content: Option<string>,
    style: Style,
    children: seq<Tree>,
    parentId: Option<Id>,
    isGroup: bool,
    groupName: Option<string>,
    listItems: Option<seq<string>>)

  /** `{ ...element, children }`. */
  function NodeOf(e: Element, kids: seq<Tree>): Tree
  {
    Node(e.id, e.kind, e.content, e.style, kids, e.parentId, e.isGroup, e.groupName, e.listItems)
  }

  /** The node `buildTree` returns for an id that names no element. */
  const ErrorNode := Node("error-element", Div, None, [], [], None, false, None, None)

  /** The tree `buildTree(id)` returns. */
  function TreeOf(es: seq<Element>, id: Id, ghost depth: map<Id, nat>, ghost bound: nat): Tree
    requires Ranked(es, depth, bound)
    decreases Measure(id, depth, bound), 1, 0
  {
    match Find(es, id)
    case None => ErrorNode
    case Some(e) => NodeOf(e, ChildTrees(es, e.children, Measure(id, depth, bound), depth, bound))
  }

  /** The nodes the `for (const childId of element.children)` loop pushes: present children only, in order. */
  function ChildTrees(es: seq<Element>, cs: seq<Id>, ghost m: nat, ghost depth: map<Id, nat>, ghost bound: nat): seq<Tree>
    requires Ranked(es, depth, bound)
    requires forall c | c in cs :: Measure(c, depth, bound) < m
    decreases m, 0, |cs|
  {
    if cs == [] then []
    else
      ChildTrees(es, cs[..|cs| - 1], m, depth, bound) +
      match Find(es, cs[|cs| - 1])
      case None => []
      case Some(child) => [TreeOf(es, child.id, depth, bound)]
  }

  /** `buildTree` itself, pushing child nodes in a loop as the source does. */
  method BuildTree(es: seq<Element>, id: Id, ghost depth: map<Id, nat>, ghost bound: nat) returns (t: Tree)
    requires Ranked(es, depth, bound)
    ensures t == TreeOf(es, id, depth, bound)
    decreases Measure(id, depth, bound)
  {
    var element := Find(es, id);
    if element.None? {
      return ErrorNode;
    }
    var e := element.value;
    ghost var m := Measure(id, depth, bound);
    var children: seq<Tree> := [];
    for k := 0 to |e.children|
      invariant children == ChildTrees(es, e.children[..k], m, depth, bound)
    {
      assert e.children[..k + 1][..k] == e.children[..k];
      var child := Find(es, e.children[k]);
      if child.Some? {
        var sub := BuildTree(es, child.value.id, depth, bound);
        children := children + [sub];
      }
    }
    assert e.children[..|e.children|] == e.children;
    t := NodeOf(e, children);
  }

  /** The ids of a list of nodes. */
  function RootIds(ts: seq<Tree>): (r: seq<Id>)
    ensures |r| == |ts|
    ensures forall i | 0 <= i < |ts| :: r[i] == ts[i].id
  {
    if ts == [] then [] else [ts[0].id] + RootIds(ts[1..])
  }

  /** `cs.filter(c => es.some(el => el.id === c))`: the ids of `cs` that name an element. */
  function PresentIds(es: seq<Element>, cs: seq<Id>): (r: seq<Id>)
    ensures forall c :: c in r <==> c in cs && c in Ids(es)
  {
    if cs == [] then [] else (if cs[0] in Ids(es) then [cs[0]] else []) + PresentIds(es, cs[1..])
  }

  lemma {:induction false} PresentIdsAppend(es: seq<Element>, cs: seq<Id>, c: Id)
    ensures PresentIds(es, cs + [c]) == PresentIds(es, cs) + (if c in Ids(es) then [c] else [])
  {
    if cs == [] {
      assert cs + [c] == [c];
    } else {
      assert (cs + [c])[1..] == cs[1..] + [c];
      PresentIdsAppend(es, cs[1..], c);
    }
  }

  lemma {:induction false} RootIdsAppend(ts: seq<Tree>, us: seq<Tree>)
    ensures RootIds(ts + us) == RootIds(ts) + RootIds(us)
  {
  }

  /** A found element's node carries the element's own fields; a missing one is the placeholder. */
  lemma TreeRoot(es: seq<Element>, id: Id, depth: map<Id, nat>, bound: nat)
    requires Ranked(es, depth, bound)
    ensures id !in Ids(es) ==> TreeOf(es, id, depth, bound) == ErrorNode
    ensures id in Ids(es) ==> var t, e := TreeOf(es, id, depth, bound), Find(es, id).value;
      t.id == id && t.kind == e.kind && t.content == e.content && t.style == e.style &&
      t.parentId == e.parentId && t.isGroup == e.isGroup && t.groupName == e.groupName && t.listItems == e.listItems
  {
  }

  /** The child nodes are the present child ids, in `children` order: missing ids are skipped, nothing is reordered. */
  lemma {:induction false} ChildTreesOrder(es: seq<Element>, cs: seq<Id>, m: nat, depth: map<Id, nat>, bound: nat)
    requires Ranked(es, depth, bound)
    requires forall c | c in cs :: Measure(c, depth, bound) < m
    ensures RootIds(ChildTrees(es, cs, m, depth, bound)) == PresentIds(es, cs)
    decreases |cs|
  {
    if cs != [] {
      var init, last := cs[..|cs| - 1], cs[|cs| - 1];
      assert cs == init + [last];
      ChildTreesOrder(es, init, m, depth, bound);
      PresentIdsAppend(es, init, last);
      var tail := match Find(es, last) case None => [] case Some(child) => [TreeOf(es, child.id, depth, bound)];
      assert ChildTrees(es, cs, m, depth, bound) == ChildTrees(es, init, m, depth, bound) + tail;
      RootIdsAppend(ChildTrees(es, init, m, depth, bound), tail);
      assert RootIds(tail) == if last in Ids(es) then [last] else [] by {
        if last in Ids(es) {
          TreeRoot(es, last, depth, bound);
        }
      }
    }
  }

  /** The ids of a tree in depth-first order, each node before its children. */
  function Preorder(t: Tree): seq<Id>
    decreases t
  {
    [t.id] + PreorderAll(t.children)
  }

  function PreorderAll(ts: seq<Tree>): seq<Id>
    decreases ts
  {
    if ts == [] then [] else PreorderAll(ts[..|ts| - 1]) + Preorder(ts[|ts| - 1])
  }

  lemma PreorderAllAppend(ts: seq<Tree>, t: Tree)
    ensures PreorderAll(ts + [t]) == PreorderAll(ts) + Preorder(t)
  {
    assert (ts + [t])[..|ts|] == ts;
  }

  /**
   * The tree and `getDescendantIds` visit the same ids in the same order:
   * flattening `buildTree(id)` depth-first gives `getDescendantIds(id)`.
   */
  lemma {:induction false} PreorderIsDescendants(es: seq<Element>, id: Id, depth: map<Id, nat>, bound: nat)
    requires Ranked(es, depth, bound) && id in Ids(es)
    ensures Preorder(TreeOf(es, id, depth, bound)) == DescendantIds(es, id, depth, bound)
    decreases Measure(id, depth, bound), 1, 0
  {
    var e := Find(es, id).value;
    var m := Measure(id, depth, bound);
    ChildPreorderIsDescendants(es, e.children, m, depth, bound);
    var t := TreeOf(es, id, depth, bound);
    assert t == NodeOf(e, ChildTrees(es, e.children, m, depth, bound));
  }

  lemma {:induction false} ChildPreorderIsDescendants(es: seq<Element>, cs: seq<Id>, m: nat, depth: map<Id, nat>, bound: nat)
    requires Ranked(es, depth, bound)
    requires forall c | c in cs :: Measure(c, depth, bound) < m
    ensures PreorderAll(ChildTrees(es, cs, m, depth, bound)) == ChildDescendants(es, cs, m, depth, bound)
    decreases m, 0, |cs|
  {
    if cs != [] {
      var init, last := cs[..|cs| - 1], cs[|cs| - 1];
      ChildPreorderIsDescendants(es, init, m, depth, bound);
      var front := ChildTrees(es, init, m, depth, bound);
      match Find(es, last)
      case None =>
        assert ChildTrees(es, cs, m, depth, bound) == front + [];
        assert front + [] == front;
      case Some(child) =>
        PreorderIsDescendants(es, last, depth, bound);
        PreorderAllAppend(front, TreeOf(es, last, depth, bound));
    }
  }

  /** On a well-formed, ranked store every element hangs below the root. */
  lemma {:induction false} UnderRoot(es: seq<Element>, root: Id, depth: map<Id, nat>, bound: nat, x: Id)
    requires WellFormed(es, root) && Ranked(es, depth, bound) && x in Ids(es)
    ensures x in DescendantIds(es, root, depth, bound)
    decreases depth[x]
  {
    var f := Find(es, x).value;
    if x != root {
      var p := f.parentId.value;
      var pe := Find(es, p).value;
      assert x in pe.children;
      UnderRoot(es, root, depth, bound, p);
      DescendantsClosedAt(es, root, depth, bound, p, x);
    } else {
      assert root in DescendantIds(es, root, depth, bound);
    }
  }

  /** On a well-formed, ranked store the tree built from the root shows every element. */
  lemma TreeCoversStore(es: seq<Element>, root: Id, depth: map<Id, nat>, bound: nat)
    requires WellFormed(es, root) && Ranked(es, depth, bound)
    ensures forall x | x in Ids(es) :: x in Preorder(TreeOf(es, root, depth, bound))
  {
    PreorderIsDescendants(es, root, depth, bound);
    forall x | x in Ids(es) ensures x in DescendantIds(es, root, depth, bound) {
      UnderRoot(es, root, depth, bound, x);
    }
  }
}
