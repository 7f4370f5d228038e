/**
 * `getDescendantIds` inside `deleteElement` (src/store/pageBuilderStore.ts):
 * the id itself, then, child by child, the descendant ids of each child.
 * An id that names no element contributes nothing. The recursion has no
 * visited set, so it is modelled on a `Ranked` store only.
 */
module Descendants {
  import opened Common
  import opened Elements

  /** The list `getDescendantIds(id)` returns. */
  function DescendantIds(es: seq<Element>, id: Id, ghost depth: map<Id, nat>, ghost bound: nat): seq<Id>
    requires Ranked(es, depth, bound)
    decreases Measure(id, depth, bound), 1, 0
  {
    match Find(es, id)
    case None => []
    case Some(e) => [id] + ChildDescendants(es, e.children, Measure(id, depth, bound), depth, bound)
  }

  /** The descendant lists of the ids `cs`, concatenated in order (the `forEach` over `children`). */
  function ChildDescendants(es: seq<Element>, cs: seq<Id>, ghost m: nat, ghost depth: map<Id, nat>, ghost bound: nat): seq<Id>
    requires Ranked(es, depth, bound)
    requires forall c | c in cs :: Measure(c, depth, bound) < m
    decreases m, 0, |cs|
  {
    if cs == [] then []
    else ChildDescendants(es, cs[..|cs| - 1], m, depth, bound) + DescendantIds(es, cs[|cs| - 1], depth, bound)
  }

  /** The recursive collection itself, accumulating child by child as the source does. */
  method CollectDescendants(es: seq<Element>, id: Id, ghost depth: map<Id, nat>, ghost bound: nat) returns (ids: seq<Id>)
    requires Ranked(es, depth, bound)
    ensures ids == DescendantIds(es, id, depth, bound)
    decreases Measure(id, depth, bound)
  {
    var element := Find(es, id);
    if element.None? {
      return [];
    }
    var e := element.value;
    ghost var m := Measure(id, depth, bound);
    ids := [id];
    for k := 0 to |e.children|
      invariant ids == [id] + ChildDescendants(es, e.children[..k], m, depth, bound)
    {
      var sub := CollectDescendants(es, e.children[k], depth, bound);
      assert e.children[..k + 1][..k] == e.children[..k];
      ids := ids + sub;
    }
    assert e.children[..|e.children|] == e.children;
  }

  /** A set of ids that contains, with each present element, all its present children. */
  ghost predicate ClosedUnderChildren(es: seq<Element>, s: set<Id>)
  {
    forall e, c | e in es && e.id in s && c in e.children && c in Ids(es) :: c in s
  }

  lemma {:induction false} ChildDescendantsHas(es: seq<Element>, cs: seq<Id>, m: nat, depth: map<Id, nat>, bound: nat, k: nat, x: Id)
    requires Ranked(es, depth, bound)
    requires forall c | c in cs :: Measure(c, depth, bound) < m
    requires k < |cs| && x in DescendantIds(es, cs[k], depth, bound)
    ensures x in ChildDescendants(es, cs, m, depth, bound)
    decreases |cs|
  {
    if k < |cs| - 1 {
      ChildDescendantsHas(es, cs[..|cs| - 1], m, depth, bound, k, x);
    }
  }

  lemma {:induction false} ChildDescendantsFrom(es: seq<Element>, cs: seq<Id>, m: nat, depth: map<Id, nat>, bound: nat, x: Id)
    requires Ranked(es, depth, bound)
    requires forall c | c in cs :: Measure(c, depth, bound) < m
    requires x in ChildDescendants(es, cs, m, depth, bound)
    ensures exists k :: 0 <= k < |cs| && x in DescendantIds(es, cs[k], depth, bound)
    decreases |cs|
  {
    var init := cs[..|cs| - 1];
    if x in ChildDescendants(es, init, m, depth, bound) {
      ChildDescendantsFrom(es, init, m, depth, bound, x);
      var k :| 0 <= k < |init| && x in DescendantIds(es, init[k], depth, bound);
      assert init[k] == cs[k];
    } else {
      assert x in DescendantIds(es, cs[|cs| - 1], depth, bound);
    }
  }

  /** Only ids of present elements are collected. */
  lemma {:induction false} DescendantsArePresent(es: seq<Element>, id: Id, depth: map<Id, nat>, bound: nat, x: Id)
    requires Ranked(es, depth, bound)
    requires x in DescendantIds(es, id, depth, bound)
    ensures x in Ids(es)
    decreases Measure(id, depth, bound)
  {
    var e := Find(es, id).value;
    if x != id {
      ChildDescendantsFrom(es, e.children, Measure(id, depth, bound), depth, bound, x);
      var k :| 0 <= k < |e.children| && x in DescendantIds(es, e.children[k], depth, bound);
      DescendantsArePresent(es, e.children[k], depth, bound, x);
    }
  }

  /** The collected ids contain, with each id, the present children of the element `find` returns for it. */
  lemma {:induction false} DescendantsClosedAt(es: seq<Element>, id: Id, depth: map<Id, nat>, bound: nat, x: Id, c: Id)
    requires Ranked(es, depth, bound)
    requires x in DescendantIds(es, id, depth, bound)
    requires x in Ids(es) && c in Find(es, x).value.children && c in Ids(es)
    ensures c in DescendantIds(es, id, depth, bound)
    decreases Measure(id, depth, bound)
  {
    var e := Find(es, id).value;
    var m := Measure(id, depth, bound);
    if x == id {
      var k :| 0 <= k < |e.children| && e.children[k] == c;
      assert c in DescendantIds(es, c, depth, bound);
      ChildDescendantsHas(es, e.children, m, depth, bound, k, c);
    } else {
      ChildDescendantsFrom(es, e.children, m, depth, bound, x);
      var k :| 0 <= k < |e.children| && x in DescendantIds(es, e.children[k], depth, bound);
      DescendantsClosedAt(es, e.children[k], depth, bound, x, c);
      ChildDescendantsHas(es, e.children, m, depth, bound, k, c);
    }
  }

  /** With distinct ids, the collected ids form a set closed under the child links. */
  lemma DescendantsClosed(es: seq<Element>, id: Id, depth: map<Id, nat>, bound: nat)
    requires Ranked(es, depth, bound) && UniqueIds(es)
    ensures ClosedUnderChildren(es, set x | x in DescendantIds(es, id, depth, bound))
  {
    forall e, c | e in es && e.id in DescendantIds(es, id, depth, bound) && c in e.children && c in Ids(es)
      ensures c in DescendantIds(es, id, depth, bound)
    {
      FindUnique(es, e);
      DescendantsClosedAt(es, id, depth, bound, e.id, c);
    }
  }

  /** The collected ids lie inside every child-closed set that contains `id`. */
  lemma {:induction false} DescendantsLeast(es: seq<Element>, id: Id, depth: map<Id, nat>, bound: nat, s: set<Id>, x: Id)
    requires Ranked(es, depth, bound)
    requires id in s && ClosedUnderChildren(es, s)
    requires x in DescendantIds(es, id, depth, bound)
    ensures x in s
    decreases Measure(id, depth, bound)
  {
    var e := Find(es, id).value;
    if x != id {
      ChildDescendantsFrom(es, e.children, Measure(id, depth, bound), depth, bound, x);
      var k :| 0 <= k < |e.children| && x in DescendantIds(es, e.children[k], depth, bound);
      var c := e.children[k];
      assert c in Ids(es) by {
        assert Find(es, c).Some?;
      }
      DescendantsLeast(es, c, depth, bound, s, x);
    }
  }

  /**
   * When the child links agree with the parent links, every collected id
   * other than `id` has its parent collected too: nothing outside the
   * subtree of `id` is collected.
   */
  lemma DescendantsParentCollected(es: seq<Element>, id: Id, depth: map<Id, nat>, bound: nat, x: Id)
    requires Ranked(es, depth, bound) && UniqueIds(es) && LinksSymmetric(es)
    requires x in DescendantIds(es, id, depth, bound) && x != id
    ensures ParentOf(es, x).Some? && ParentOf(es, x).value in DescendantIds(es, id, depth, bound)
  {
    var d := DescendantIds(es, id, depth, bound);
    var s := set y | y in d && (y == id || (ParentOf(es, y).Some? && ParentOf(es, y).value in d));
    DescendantsClosed(es, id, depth, bound);
    forall e, c | e in es && e.id in s && c in e.children && c in Ids(es)
      ensures c in s
    {
      var f := Find(es, c).value;
      assert f.parentId == Some(e.id);
    }
    DescendantsLeast(es, id, depth, bound, s, x);
  }
}
