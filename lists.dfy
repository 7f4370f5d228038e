/**
 * The list-item actions of the store (src/store/pageBuilderStore.ts):
 * `addListItem`, `updateListItem`, `deleteListItem` and `reorderListItem`
 * edit the `listItems` array of one element. Indices are JavaScript numbers
 * and may be negative; only `index >= length` is refused, so the
 * `Array.prototype.splice` rules for negative starts are modelled.
 */
module Lists {
  import opened Common
  import opened Elements
  import opened Descendants
  import opened Actions

  /** Where `splice(i, ...)` starts on an array of length `len`. */
  function SpliceStart(len: nat, i: int): (r: nat)
    ensures r <= len
    ensures 0 <= i <= len ==> r == i
    ensures 0 < len && i < len ==> r < len
    ensures i < 0 ==> r == if len + i < 0 then 0 else len + i
  {
    if i < 0 then (if len + i < 0 then 0 else len + i)
    else if i > len then len
    else i
  }

  /** `splice(k, 1)` on a copy: the entry at `k` is removed, when there is one. */
  function RemoveAt(xs: seq<string>, k: nat): (r: seq<string>)
    requires k <= |xs|
    ensures k == |xs| ==> r == xs
    ensures k < |xs| ==> |r| == |xs| - 1
    ensures k < |xs| ==> (forall j | 0 <= j < k :: r[j] == xs[j]) && (forall j | k <= j < |r| :: r[j] == xs[j + 1])
  {
    if k == |xs| then xs else xs[..k] + xs[k + 1..]
  }

  /** `splice(k, 0, x)`: `x` is inserted before position `k`. */
  function InsertAt(xs: seq<string>, k: nat, x: string): (r: seq<string>)
    requires k <= |xs|
    ensures |r| == |xs| + 1 && r[k] == x
    ensures forall j | 0 <= j < k :: r[j] == xs[j]
    ensures forall j | k < j < |r| :: r[j] == xs[j - 1]
  {
    xs[..k] + [x] + xs[k..]
  }

  function SetItems(items: seq<string>): Element -> Element
  {
    (e: Element) => e.(listItems := Some(items))
  }

  /** `listElement.listItems || []`. */
  function ItemsOf(e: Element): seq<string>
  {
    if e.listItems.Some? then e.listItems.value else []
  }

  /** `addListItem(listId, content)`. */
  function AddListItem(d: Doc, listId: Id, content: Option<string>): (r: Doc)
    ensures r.root == d.root
    ensures r.selected == d.selected
  {
    match Find(d.elements, listId)
    case None => d
    case Some(l) =>
      if !IsList(l.kind) then d
      else
        var items := ItemsOf(l);
        d.(elements := MapWhere(d.elements, listId, SetItems(items + [OrElse(content, Numbered("Item", |items|))])))
  }

  /**
   * `updateListItem(listId, index, content)`. A negative index passes the
   * guard and sets a non-index property of the copy, so the items stay as
   * they were (the elements are still rebuilt).
   */
  function UpdateListItem(d: Doc, listId: Id, index: int, content: string): (r: Doc)
    ensures r.root == d.root
    ensures r.selected == d.selected
  {
    match Find(d.elements, listId)
    case None => d
    case Some(l) =>
      if l.listItems.None? || index >= |l.listItems.value| then d
      else
        var items := l.listItems.value;
        var updated := if index >= 0 then items[index := content] else items;
        d.(elements := MapWhere(d.elements, listId, SetItems(updated)))
  }

  /** Removing the list element when its last item goes. */
  function DropList(d: Doc, l: Element): (r: Doc)
    ensures r.root == d.root
  {
    if !Truthy(l.parentId) then d
    else
      var p := l.parentId.value;
      if Find(d.elements, p).None? then d
      else Doc(KeepOutside(MapWhere(d.elements, p, RemoveChild(l.id)), {l.id}), Some(p), d.root)
  }

  /** `deleteListItem(listId, index)`. */
  function DeleteListItem(d: Doc, listId: Id, index: int): (r: Doc)
    ensures r.root == d.root
  {
    match Find(d.elements, listId)
    case None => d
    case Some(l) =>
      if l.listItems.None? || index >= |l.listItems.value| then d
      else
        var items := l.listItems.value;
        var updated := RemoveAt(items, SpliceStart(|items|, index));
        if |updated| == 0 then DropList(d, l)
        else d.(elements := MapWhere(d.elements, listId, SetItems(updated)))
  }

  /** The items after moving the entry at `oldIndex` to `newIndex`, both as `splice` reads them. */
  function Moved(items: seq<string>, oldIndex: int, newIndex: int): seq<string>
    requires |items| > 0 && oldIndex < |items|
  {
    var s := SpliceStart(|items|, oldIndex);
    var rest := RemoveAt(items, s);
    InsertAt(rest, SpliceStart(|rest|, newIndex), items[s])
  }

  /** `reorderListItem(listId, oldIndex, newIndex)`. */
  function ReorderListItem(d: Doc, listId: Id, oldIndex: int, newIndex: int): (r: Doc)
    ensures r.root == d.root
    ensures r.selected == d.selected
  {
    match Find(d.elements, listId)
    case None => d
    case Some(l) =>
      if l.listItems.None? || oldIndex >= |l.listItems.value| || newIndex >= |l.listItems.value| then d
      else if |l.listItems.value| == 0 then d
      else d.(elements := MapWhere(d.elements, listId, SetItems(Moved(l.listItems.value, oldIndex, newIndex))))
  }

  /** Removing an entry takes exactly that one entry out of the multiset of items. */
  lemma RemoveAtMultiset(xs: seq<string>, k: nat)
    requires k < |xs|
    ensures multiset(RemoveAt(xs, k)) + multiset{xs[k]} == multiset(xs)
  {
    SplitAt(xs, k);
    assert RemoveAt(xs, k) == xs[..k] + xs[k + 1..];
  }

  lemma InsertAtMultiset(xs: seq<string>, k: nat, x: string)
    requires k <= |xs|
    ensures multiset(InsertAt(xs, k, x)) == multiset(xs) + multiset{x}
  {
    assert xs == xs[..k] + xs[k..];
  }

  /** Inserting an entry and removing it again gives back the items. */
  lemma RemoveInserted(xs: seq<string>, k: nat, x: string)
    requires k <= |xs|
    ensures RemoveAt(InsertAt(xs, k, x), k) == xs
  {
  }

  /** A move keeps the items as a multiset: nothing is lost or duplicated. */
  lemma MovedPermutes(items: seq<string>, oldIndex: int, newIndex: int)
    requires |items| > 0 && oldIndex < |items|
    ensures |Moved(items, oldIndex, newIndex)| == |items|
    ensures multiset(Moved(items, oldIndex, newIndex)) == multiset(items)
  {
    var s := SpliceStart(|items|, oldIndex);
    var rest := RemoveAt(items, s);
    RemoveAtMultiset(items, s);
    InsertAtMultiset(rest, SpliceStart(|rest|, newIndex), items[s]);
  }

  /**
   * The moved entry stands where `newIndex` points in the shortened list, and
   * taking it out again leaves the other entries in their old order.
   */
  lemma MovedPlaces(items: seq<string>, oldIndex: int, newIndex: int)
    requires |items| > 0 && oldIndex < |items|
    ensures var s := SpliceStart(|items|, oldIndex); var t := SpliceStart(|items| - 1, newIndex);
      && Moved(items, oldIndex, newIndex)[t] == items[s]
      && RemoveAt(Moved(items, oldIndex, newIndex), t) == RemoveAt(items, s)
  {
    var s := SpliceStart(|items|, oldIndex);
    var rest := RemoveAt(items, s);
    RemoveInserted(rest, SpliceStart(|rest|, newIndex), items[s]);
  }

  /** With both indices in range, the entry at `oldIndex` ends up at `newIndex`. */
  lemma MovedInRange(items: seq<string>, oldIndex: int, newIndex: int)
    requires 0 <= oldIndex < |items| && 0 <= newIndex < |items|
    ensures Moved(items, oldIndex, newIndex)[newIndex] == items[oldIndex]
  {
    MovedPlaces(items, oldIndex, newIndex);
  }

  lemma SetItemsKeepsLinks(items: seq<string>)
    ensures KeepsLinks(SetItems(items))
  {
  }

  /** Replacing the items of one list disturbs neither the tree nor its ranking. */
  lemma ItemsEditKeepsTree(d: Doc, listId: Id, items: seq<string>, depth: map<Id, nat>, bound: nat)
    requires WellFormed(d.elements, d.root) && Ranked(d.elements, depth, bound)
    ensures var es := MapWhere(d.elements, listId, SetItems(items));
      WellFormed(es, d.root) && Ranked(es, depth, bound)
  {
    var es := MapWhere(d.elements, listId, SetItems(items));
    SetItemsKeepsLinks(items);
    SameLinksMapWhere(d.elements, listId, SetItems(items));
    SameLinksWellFormed(d.elements, es, d.root);
    SameLinksRanked(d.elements, es, depth, bound);
  }

  /** Replacing the items of one list keeps the same ranking, tree or not. */
  lemma ItemsEditKeepsRanking(d: Doc, listId: Id, items: seq<string>, depth: map<Id, nat>, bound: nat)
    requires Ranked(d.elements, depth, bound)
    ensures Ranked(MapWhere(d.elements, listId, SetItems(items)), depth, bound)
  {
    SetItemsKeepsLinks(items);
    SameLinksMapWhere(d.elements, listId, SetItems(items));
    SameLinksRanked(d.elements, MapWhere(d.elements, listId, SetItems(items)), depth, bound);
  }

  /** Adding to a missing element or to a non-list changes nothing. */
  lemma AddListItemNoop(d: Doc, listId: Id, content: Option<string>)
    requires listId !in Ids(d.elements) || !IsList(Find(d.elements, listId).value.kind)
    ensures AddListItem(d, listId, content) == d
  {
  }

  /**
   * Otherwise every element with the list's id gets the list's items with
   * one more entry at the end: the given text, or `Item N` for the N-th item
   * when the text is absent or empty. Nothing else changes.
   */
  lemma AddListItemEffect(d: Doc, listId: Id, content: Option<string>, i: nat)
    requires listId in Ids(d.elements) && IsList(Find(d.elements, listId).value.kind) && i < |d.elements|
    ensures var r := AddListItem(d, listId, content); var items := ItemsOf(Find(d.elements, listId).value);
      var text := if Truthy(content) then content.value else Numbered("Item", |items|);
      && r.selected == d.selected && r.root == d.root && |r.elements| == |d.elements|
      && r.elements[i] == if d.elements[i].id == listId then d.elements[i].(listItems := Some(items + [text])) else d.elements[i]
  {
  }

  lemma AddListItemKeepsTree(d: Doc, listId: Id, content: Option<string>, depth: map<Id, nat>, bound: nat)
    requires WellFormed(d.elements, d.root) && Ranked(d.elements, depth, bound)
    ensures var r := AddListItem(d, listId, content); WellFormed(r.elements, r.root) && Ranked(r.elements, depth, bound)
  {
    if listId in Ids(d.elements) && IsList(Find(d.elements, listId).value.kind) {
      var items := ItemsOf(Find(d.elements, listId).value);
      ItemsEditKeepsTree(d, listId, items + [OrElse(content, Numbered("Item", |items|))], depth, bound);
    }
  }

  lemma AddListItemKeepsRanking(d: Doc, listId: Id, content: Option<string>, depth: map<Id, nat>, bound: nat)
    requires Ranked(d.elements, depth, bound)
    ensures Ranked(AddListItem(d, listId, content).elements, depth, bound)
  {
    if listId in Ids(d.elements) && IsList(Find(d.elements, listId).value.kind) {
      var items := ItemsOf(Find(d.elements, listId).value);
      ItemsEditKeepsRanking(d, listId, items + [OrElse(content, Numbered("Item", |items|))], depth, bound);
    }
  }

  /** A missing element, an element without items, or an index at or past the end is refused. */
  lemma UpdateListItemRefused(d: Doc, listId: Id, index: int, content: string)
    requires listId !in Ids(d.elements) || Find(d.elements, listId).value.listItems.None?
      || index >= |Find(d.elements, listId).value.listItems.value|
    ensures UpdateListItem(d, listId, index, content) == d
  {
  }

  /** An update at `0 <= index < length` replaces exactly that entry of every element with the list's id. */
  lemma UpdateListItemEffect(d: Doc, listId: Id, index: int, content: string, i: nat)
    requires listId in Ids(d.elements) && i < |d.elements|
    requires Find(d.elements, listId).value.listItems.Some? && 0 <= index < |Find(d.elements, listId).value.listItems.value|
    ensures var r := UpdateListItem(d, listId, index, content); var items := Find(d.elements, listId).value.listItems.value;
      && r.selected == d.selected && r.root == d.root && |r.elements| == |d.elements|
      && r.elements[i] == if d.elements[i].id == listId then d.elements[i].(listItems := Some(items[index := content])) else d.elements[i]
  {
  }

  /**
   * A negative index passes the guard but writes no entry: with distinct ids
   * the store comes out exactly as it was.
   */
  lemma UpdateListItemNegative(d: Doc, listId: Id, index: int, content: string)
    requires UniqueIds(d.elements) && listId in Ids(d.elements) && Find(d.elements, listId).value.listItems.Some?
    requires index < 0
    ensures UpdateListItem(d, listId, index, content) == d
  {
    var l := Find(d.elements, listId).value;
    var r := MapWhere(d.elements, listId, SetItems(l.listItems.value));
    forall i | 0 <= i < |d.elements| ensures r[i] == d.elements[i] {
      if d.elements[i].id == listId {
        FindUnique(d.elements, d.elements[i]);
      }
    }
    assert r == d.elements;
  }

  lemma UpdateListItemKeepsTree(d: Doc, listId: Id, index: int, content: string, depth: map<Id, nat>, bound: nat)
    requires WellFormed(d.elements, d.root) && Ranked(d.elements, depth, bound)
    ensures var r := UpdateListItem(d, listId, index, content); WellFormed(r.elements, r.root) && Ranked(r.elements, depth, bound)
  {
    match Find(d.elements, listId)
    case None =>
    case Some(l) =>
      if l.listItems.Some? && index < |l.listItems.value| {
        var items := l.listItems.value;
        ItemsEditKeepsTree(d, listId, if index >= 0 then items[index := content] else items, depth, bound);
      }
  }

  lemma UpdateListItemKeepsRanking(d: Doc, listId: Id, index: int, content: string, depth: map<Id, nat>, bound: nat)
    requires Ranked(d.elements, depth, bound)
    ensures Ranked(UpdateListItem(d, listId, index, content).elements, depth, bound)
  {
    match Find(d.elements, listId)
    case None =>
    case Some(l) =>
      if l.listItems.Some? && index < |l.listItems.value| {
        var items := l.listItems.value;
        ItemsEditKeepsRanking(d, listId, if index >= 0 then items[index := content] else items, depth, bound);
      }
  }

  /** `deleteListItem` refuses what `updateListItem` refuses. */
  lemma DeleteListItemRefused(d: Doc, listId: Id, index: int)
    requires listId !in Ids(d.elements) || Find(d.elements, listId).value.listItems.None?
      || index >= |Find(d.elements, listId).value.listItems.value|
    ensures DeleteListItem(d, listId, index) == d
  {
  }

  /**
   * While at least two entries remain, the entry where `splice` starts is
   * removed from every element with the list's id, and nothing else changes.
   * For a negative index that is the entry `length + index` places from the
   * start (or the first one).
   */
  lemma DeleteListItemEffect(d: Doc, listId: Id, index: int, i: nat)
    requires listId in Ids(d.elements) && i < |d.elements|
    requires Find(d.elements, listId).value.listItems.Some?
    requires 2 <= |Find(d.elements, listId).value.listItems.value| && index < |Find(d.elements, listId).value.listItems.value|
    ensures var r := DeleteListItem(d, listId, index); var items := Find(d.elements, listId).value.listItems.value;
      var k := SpliceStart(|items|, index);
      && k < |items| && (0 <= index ==> k == index) && (index < 0 ==> k == if |items| + index < 0 then 0 else |items| + index)
      && r.selected == d.selected && r.root == d.root && |r.elements| == |d.elements|
      && r.elements[i] == if d.elements[i].id == listId then d.elements[i].(listItems := Some(RemoveAt(items, k))) else d.elements[i]
  {
  }

  /**
   * When the last entry goes, the list element itself is removed. An empty
   * list counts as present, so a negative index on it removes the list too.
   */
  lemma DeleteListItemDropsList(d: Doc, listId: Id, index: int)
    requires listId in Ids(d.elements) && Find(d.elements, listId).value.listItems.Some?
    requires var n := |Find(d.elements, listId).value.listItems.value|; (n == 1 && index < 1) || (n == 0 && index < 0)
    ensures DeleteListItem(d, listId, index) == DropList(d, Find(d.elements, listId).value)
  {
  }

  /** A missing or empty parent id, or a parent that is not there, refuses the removal of the list. */
  lemma DropListRefused(d: Doc, l: Element)
    requires !Truthy(l.parentId) || l.parentId.value !in Ids(d.elements)
    ensures DropList(d, l) == d
  {
  }

  /**
   * Otherwise the list element is removed, its id is taken out of its
   * parent's children, the parent is selected and every other element is
   * kept as it was.
   */
  lemma DropListEffect(d: Doc, l: Element)
    requires UniqueIds(d.elements)
    requires Truthy(l.parentId) && l.parentId.value in Ids(d.elements)
    ensures var r := DropList(d, l); var p := l.parentId.value; var parent := Find(d.elements, p).value;
      && r.selected == Some(p) && r.root == d.root
      && (forall x :: x in Ids(r.elements) <==> x in Ids(d.elements) && x != l.id)
      && IdSeq(r.elements) == Except(IdSeq(d.elements), {l.id})
      && (forall e | e in r.elements && e.id != p :: e in d.elements)
      && (forall e | e in r.elements && e.id == p :: e == parent.(children := Except(parent.children, {l.id})))
  {
    var es := d.elements;
    var p := l.parentId.value;
    var parent := Find(es, p).value;
    var m := MapWhere(es, p, RemoveChild(l.id));
    var r := KeepOutside(m, {l.id});
    SameLinksIdsOnly(es, m);
    DeletedIdOrder(es, p, l.id, {l.id});
    forall x ensures x in Ids(r) <==> x in Ids(es) && x != l.id {
      if x in Ids(r) {
        var e :| e in r && e.id == x;
      }
      if x in Ids(es) && x != l.id {
        var e :| e in m && e.id == x;
        assert e in r;
      }
    }
    forall e | e in r && e.id == p ensures e == parent.(children := Except(parent.children, {l.id})) {
      var k :| 0 <= k < |m| && m[k] == e;
      FindUnique(es, es[k]);
    }
  }

  /** On a well-formed store, dropping a list without children is `deleteElement` of that list. */
  lemma DropListAsDelete(d: Doc, l: Element, depth: map<Id, nat>, bound: nat)
    requires WellFormed(d.elements, d.root) && Ranked(d.elements, depth, bound)
    requires l in d.elements && l.children == []
    ensures DropList(d, l) == DeleteElement(d, l.id, depth, bound)
  {
    var es := d.elements;
    FindUnique(es, l);
    if l.id != d.root {
      var p := l.parentId.value;
      assert p in Ids(es);
      assert Truthy(l.parentId);
      assert DescendantIds(es, l.id, depth, bound) == [l.id];
      assert (set x | x in [l.id]) == {l.id};
    }
  }

  /**
   * Deleting an entry keeps the tree and its ranking, provided the list has
   * no children: removing its last entry removes it alone.
   */
  lemma DeleteListItemKeepsTree(d: Doc, listId: Id, index: int, depth: map<Id, nat>, bound: nat)
    requires WellFormed(d.elements, d.root) && Ranked(d.elements, depth, bound)
    requires forall e | e in d.elements && e.id == listId :: e.children == []
    ensures var r := DeleteListItem(d, listId, index); WellFormed(r.elements, r.root) && Ranked(r.elements, depth, bound)
  {
    match Find(d.elements, listId)
    case None =>
    case Some(l) =>
      if l.listItems.Some? && index < |l.listItems.value| {
        var items := l.listItems.value;
        var updated := RemoveAt(items, SpliceStart(|items|, index));
        if |updated| == 0 {
          DropListAsDelete(d, l, depth, bound);
          DeleteElementKeepsTree(d, l.id, depth, bound);
        } else {
          ItemsEditKeepsTree(d, listId, updated, depth, bound);
        }
      }
  }

  /** Deleting an item keeps the same ranking for any list, with or without child elements. */
  lemma DeleteListItemKeepsRanking(d: Doc, listId: Id, index: int, depth: map<Id, nat>, bound: nat)
    requires Ranked(d.elements, depth, bound)
    ensures Ranked(DeleteListItem(d, listId, index).elements, depth, bound)
  {
    match Find(d.elements, listId)
    case None =>
    case Some(l) =>
      if l.listItems.Some? && index < |l.listItems.value| {
        var items := l.listItems.value;
        var updated := RemoveAt(items, SpliceStart(|items|, index));
        if |updated| == 0 {
          if Truthy(l.parentId) && Find(d.elements, l.parentId.value).Some? {
            var p := l.parentId.value;
            var r := DropList(d, l).elements;
            assert DeletedFrom(d.elements, r, l.id, p, {l.id});
            DeletedRanked(d.elements, r, l.id, p, {l.id}, depth, bound);
          }
        } else {
          ItemsEditKeepsRanking(d, listId, updated, depth, bound);
        }
      }
  }

  /** A page whose list holds one entry and one child element. */
  const ListWithChild: Doc := Doc([
    Element("r", Div, None, [], ["u"], None, false, None, None),
    Element("u", Ul, None, [], ["x"], Some("r"), false, None, Some(["only"])),
    Element("x", Li, None, [], [], Some("u"), false, None, None)], None, "r")

  /**
   * Removing the last entry of a list removes the list element but not its
   * children: the child is left behind naming a parent that is gone.
   */
  lemma ListWithChildLinks()
    ensures LinksSymmetric(ListWithChild.elements)
  {
    var es := ListWithChild.elements;
    forall e, f | e in es && f in es ensures (f.id in e.children <==> f.parentId == Some(e.id)) {
      assert e == es[0] || e == es[1] || e == es[2];
      assert f == es[0] || f == es[1] || f == es[2];
    }
  }

  lemma ListWithChildWellFormed()
    ensures WellFormed(ListWithChild.elements, ListWithChild.root)
  {
    var es := ListWithChild.elements;
    assert Ids(es) == {"r", "u", "x"};
    assert forall e | e in es :: e == es[0] || e == es[1] || e == es[2];
    assert UniqueIds(es) by {
      assert es[0].id != es[1].id && es[0].id != es[2].id && es[1].id != es[2].id;
    }
    ListWithChildLinks();
  }

  lemma DropListElements(d: Doc, l: Element)
    requires Truthy(l.parentId) && l.parentId.value in Ids(d.elements)
    ensures DropList(d, l).elements == KeepOutside(MapWhere(d.elements, l.parentId.value, RemoveChild(l.id)), {l.id})
  {
  }

  lemma DeleteListItemOrphans()
    ensures var r := DeleteListItem(ListWithChild, "u", 0);
      && ListWithChild.elements[2] in r.elements && "u" !in Ids(r.elements)
      && !ParentsPresent(r.elements)
  {
    var es := ListWithChild.elements;
    var r := DeleteListItem(ListWithChild, "u", 0);
    var l := es[1];
    assert Find(es, "u") == Some(l);
    assert RemoveAt(["only"], SpliceStart(1, 0)) == [];
    assert r == DropList(ListWithChild, l);
    assert l.id == "u" && l.parentId == Some("r");
    assert Find(es, "r").Some?;
    DropListElements(ListWithChild, l);
    var m := MapWhere(es, "r", RemoveChild("u"));
    assert m[2] == es[2];
    assert es[2] in r.elements;
  }

  /** A missing element, an element without items, an index at or past the end, or an empty list is refused. */
  lemma ReorderListItemRefused(d: Doc, listId: Id, oldIndex: int, newIndex: int)
    requires listId !in Ids(d.elements) || Find(d.elements, listId).value.listItems.None?
      || |Find(d.elements, listId).value.listItems.value| == 0
      || oldIndex >= |Find(d.elements, listId).value.listItems.value|
      || newIndex >= |Find(d.elements, listId).value.listItems.value|
    ensures ReorderListItem(d, listId, oldIndex, newIndex) == d
  {
  }

  /** Otherwise every element with the list's id gets the moved items, and nothing else changes. */
  lemma ReorderListItemEffect(d: Doc, listId: Id, oldIndex: int, newIndex: int, i: nat)
    requires listId in Ids(d.elements) && i < |d.elements| && Find(d.elements, listId).value.listItems.Some?
    requires var n := |Find(d.elements, listId).value.listItems.value|; 0 < n && oldIndex < n && newIndex < n
    ensures var r := ReorderListItem(d, listId, oldIndex, newIndex); var items := Find(d.elements, listId).value.listItems.value;
      && r.selected == d.selected && r.root == d.root && |r.elements| == |d.elements|
      && r.elements[i] == if d.elements[i].id == listId then d.elements[i].(listItems := Some(Moved(items, oldIndex, newIndex))) else d.elements[i]
  {
  }

  lemma ReorderListItemKeepsTree(d: Doc, listId: Id, oldIndex: int, newIndex: int, depth: map<Id, nat>, bound: nat)
    requires WellFormed(d.elements, d.root) && Ranked(d.elements, depth, bound)
    ensures var r := ReorderListItem(d, listId, oldIndex, newIndex); WellFormed(r.elements, r.root) && Ranked(r.elements, depth, bound)
  {
    match Find(d.elements, listId)
    case None =>
    case Some(l) =>
      if l.listItems.Some? && 0 < |l.listItems.value| && oldIndex < |l.listItems.value| && newIndex < |l.listItems.value| {
        ItemsEditKeepsTree(d, listId, Moved(l.listItems.value, oldIndex, newIndex), depth, bound);
      }
  }

  lemma ReorderListItemKeepsRanking(d: Doc, listId: Id, oldIndex: int, newIndex: int, depth: map<Id, nat>, bound: nat)
    requires Ranked(d.elements, depth, bound)
    ensures Ranked(ReorderListItem(d, listId, oldIndex, newIndex).elements, depth, bound)
  {
    match Find(d.elements, listId)
    case None =>
    case Some(l) =>
      if l.listItems.Some? && oldIndex < |l.listItems.value| && newIndex < |l.listItems.value| && |l.listItems.value| > 0 {
        ItemsEditKeepsRanking(d, listId, Moved(l.listItems.value, oldIndex, newIndex), depth, bound);
      }
  }
}
