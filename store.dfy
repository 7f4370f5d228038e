/**
 * The store itself (`usePageBuilderStore` in src/store/pageBuilderStore.ts):
 * the state `elements`, `selectedElementId` and `rootElementId`, and one
 * method per action. Every action computes its new state from the old one
 * (the functions of `Actions` and `Lists`) and installs it, as zustand's
 * `set` does; returning `state` unchanged is a no-op. `uuidv4()` becomes an
 * id parameter the caller supplies.
 */
module Store {
  import opened Common
  import opened Styles
  import opened Elements
  import opened Descendants
  import opened Tree
  import opened Html
  import opened Css
  import opened Actions
  import opened Lists
  import opened Seed

  /** `d` is a tree, and `depth` ranks its child links. */
  ghost predicate RankedTree(d: Doc, depth: map<Id, nat>, bound: nat)
  {
    WellFormed(d.elements, d.root) && Ranked(d.elements, depth, bound)
  }

  /** A tree stays a tree under another name: `s` holds the elements and the root of `r`. */
  lemma Transfer(r: Doc, s: Doc, depth: map<Id, nat>, bound: nat)
    requires WellFormed(r.elements, r.root) && Ranked(r.elements, depth, bound)
    requires s.elements == r.elements && s.root == r.root
    ensures RankedTree(s, depth, bound)
  {
  }

  /** `s` holds the elements and the root of the store `d` after grouping siblings. */
  lemma GroupedTree(d: Doc, ids: seq<Id>, groupId: Id, depth: map<Id, nat>, bound: nat, s: Doc)
    requires RankedTree(d, depth, bound) && Fresh(d.elements, groupId) && SiblingGroup(d, ids)
    requires s.elements == Actions.GroupElements(d, ids, groupId).elements && s.root == d.root
    ensures RankedTree(s, GroupDepth(d, ids, groupId, depth), GroupBound(d, ids, bound))
  {
    GroupElementsKeepsTree(d, ids, groupId, depth, bound);
  }

  /** `s` holds the elements and the root of the store `d` after adding an element. */
  lemma AddedTree(d: Doc, kind: ElementType, parentId: Option<Id>, newId: Id, depth: map<Id, nat>, bound: nat, s: Doc)
    requires Fresh(d.elements, newId)
    requires s.elements == Actions.AddElement(d, kind, parentId, newId).elements && s.root == d.root
    ensures var p := EffectiveParent(d, parentId);
      var newDepth := if p in Ids(d.elements) then AddedDepth(depth, p, newId) else depth;
      && (RankedTree(d, depth, bound) ==> RankedTree(s, newDepth, bound + 1))
      && (Ranked(d.elements, depth, bound) ==> Ranked(s.elements, newDepth, bound + 1))
  {
    if RankedTree(d, depth, bound) {
      AddElementKeepsTree(d, kind, parentId, newId, depth, bound);
    }
    if Ranked(d.elements, depth, bound) {
      AddElementKeepsRanking(d, kind, parentId, newId, depth, bound);
    }
  }

  class PageBuilderStore {
    var elements: seq<Element>
    var selectedElementId: Option<Id>
    const rootElementId: Id

    /** A ranking of the child links that shows they are acyclic (see `Ranked`). */
    ghost var depth: map<Id, nat>
    ghost var bound: nat

    /** The state as a value. */
    function State(): Doc
      reads this
    {
      Doc(elements, selectedElementId, rootElementId)
    }

    /** The child links are acyclic, so the recursive walks terminate. */
    ghost predicate Acyclic()
      reads this
    {
      Ranked(elements, depth, bound)
    }

    /** The store is a tree rooted at `rootElementId`. */
    ghost predicate Valid()
      reads this
    {
      RankedTree(State(), depth, bound)
    }

    /** The initial page: a root holding a navigation bar, with fresh distinct ids. */
    constructor (k: SeedIds)
      requires Distinct(k)
      ensures State() == SeedDoc(k)
      ensures Valid()
    {
      elements := SeedElements(k);
      selectedElementId := None;
      rootElementId := k.root;
      depth := SeedDepth(k);
      bound := 4;
      SeedWellFormed(k);
    }

    /** `addElement(type, parentId)`, `newId` being what `uuidv4()` returns. */
    method AddElement(kind: ElementType, parentId: Option<Id>, newId: Id)
      requires Fresh(elements, newId)
      modifies this
      ensures State() == Actions.AddElement(old(State()), kind, parentId, newId)
      ensures old(Valid()) ==> Valid()
      ensures old(Acyclic()) ==> Acyclic()
    {
      ghost var d := State();
      ghost var p := EffectiveParent(d, parentId);
      ghost var newDepth := if p in Ids(d.elements) then AddedDepth(depth, p, newId) else depth;
      var r := Actions.AddElement(State(), kind, parentId, newId);
      elements, selectedElementId := r.elements, r.selected;
      depth, bound := newDepth, bound + 1;
      AddedTree(d, kind, parentId, newId, old(depth), old(bound), State());
    }

    /** `selectElement(id)`. */
    method SelectElement(id: Option<Id>)
      modifies this
      ensures selectedElementId == id && elements == old(elements)
      ensures depth == old(depth) && bound == old(bound)
      ensures old(Valid()) ==> Valid()
      ensures old(Acyclic()) ==> Acyclic()
    {
      selectedElementId := id;
    }

    /** `updateElementStyle(id, style)`. */
    method UpdateElementStyle(id: Id, style: Style)
      modifies this
      ensures State() == Actions.UpdateElementStyle(old(State()), id, style)
      ensures depth == old(depth) && bound == old(bound)
      ensures old(Valid()) ==> Valid()
      ensures old(Acyclic()) ==> Acyclic()
    {
      ghost var d, valid, acyclic := State(), Valid(), Acyclic();
      var r := Actions.UpdateElementStyle(State(), id, style);
      if valid {
        EditsKeepTree(d, id, style, "", depth, bound);
      }
      if acyclic {
        EditsKeepRanking(d, id, style, "", depth, bound);
      }
      elements := r.elements;
      if valid {
        Transfer(r, State(), depth, bound);
      }
    }

    /** `updateElementContent(id, content)`. */
    method UpdateElementContent(id: Id, content: string)
      modifies this
      ensures State() == Actions.UpdateElementContent(old(State()), id, content)
      ensures depth == old(depth) && bound == old(bound)
      ensures old(Valid()) ==> Valid()
      ensures old(Acyclic()) ==> Acyclic()
    {
      ghost var d, valid, acyclic := State(), Valid(), Acyclic();
      var r := Actions.UpdateElementContent(State(), id, content);
      if valid {
        EditsKeepTree(d, id, [], content, depth, bound);
      }
      if acyclic {
        EditsKeepRanking(d, id, [], content, depth, bound);
      }
      elements := r.elements;
      if valid {
        Transfer(r, State(), depth, bound);
      }
    }

    /** `updateElementName(id, name)`. */
    method UpdateElementName(id: Id, name: string)
      modifies this
      ensures State() == Actions.UpdateElementName(old(State()), id, name)
      ensures depth == old(depth) && bound == old(bound)
      ensures old(Valid()) ==> Valid()
      ensures old(Acyclic()) ==> Acyclic()
    {
      ghost var d, valid, acyclic := State(), Valid(), Acyclic();
      var r := Actions.UpdateElementName(State(), id, name);
      if valid {
        EditsKeepTree(d, id, [], name, depth, bound);
      }
      if acyclic {
        EditsKeepRanking(d, id, [], name, depth, bound);
      }
      elements := r.elements;
      if valid {
        Transfer(r, State(), depth, bound);
      }
    }

    /** `deleteElement(id)`; it walks the subtree, so the links must be acyclic. */
    method DeleteElement(id: Id)
      requires Acyclic()
      modifies this
      ensures State() == Actions.DeleteElement(old(State()), id, old(depth), old(bound))
      ensures depth == old(depth) && bound == old(bound)
      ensures old(Valid()) ==> Valid()
      ensures Acyclic()
    {
      ghost var d, valid := State(), Valid();
      var r := Actions.DeleteElement(State(), id, depth, bound);
      if valid {
        DeleteElementKeepsTree(d, id, depth, bound);
      }
      DeleteElementKeepsRanking(d, id, depth, bound);
      elements, selectedElementId := r.elements, r.selected;
      if valid {
        Transfer(r, State(), depth, bound);
      }
    }

    /**
     * `groupElements(ids)`, `groupId` being what `uuidv4()` returns. The tree
     * is kept when the grouped elements share the first one's parent.
     */
    method GroupElements(ids: seq<Id>, groupId: Id)
      requires Fresh(elements, groupId)
      modifies this
      ensures State() == Actions.GroupElements(old(State()), ids, groupId)
      ensures old(Valid()) && SiblingGroup(old(State()), ids) ==> Valid()
      ensures (old(Acyclic() && UniqueIds(elements) && LinksSymmetric(elements) && ParentsPresent(elements))
               && SiblingGroup(old(State()), ids)) ==> Acyclic()
    {
      ghost var d, keeps := State(), Valid() && SiblingGroup(State(), ids);
      ghost var ranks := Acyclic() && UniqueIds(elements) && LinksSymmetric(elements) && ParentsPresent(elements)
        && SiblingGroup(State(), ids);
      if ranks {
        GroupElementsKeepsRanking(d, ids, groupId, depth, bound);
      }
      ghost var newDepth, newBound := GroupDepth(d, ids, groupId, depth), GroupBound(d, ids, bound);
      var r := Actions.GroupElements(State(), ids, groupId);
      elements, selectedElementId := r.elements, r.selected;
      depth, bound := newDepth, newBound;
      if keeps {
        GroupedTree(d, ids, groupId, old(depth), old(bound), State());
      }
    }

    /** `getElementsTree()`: on a tree, every element of the store is in it. */
    method GetElementsTree() returns (t: Tree)
      requires Acyclic()
      ensures t == TreeOf(elements, rootElementId, depth, bound)
      ensures Valid() ==> forall x | x in Ids(elements) :: x in Preorder(t)
    {
      t := BuildTree(elements, rootElementId, depth, bound);
      if Valid() {
        TreeCoversStore(elements, rootElementId, depth, bound);
      }
    }

    /** `generateHTML()`: on a tree without images, every element's class is in the markup. */
    method GenerateHTML() returns (html: string)
      requires Acyclic()
      ensures html == GenerateHtml(elements, rootElementId, depth, bound)
      ensures Valid() && (forall e | e in elements :: e.kind != Img) ==>
        forall x | x in Ids(elements) :: Within(ClassAttr(x), html)
    {
      var t := GetElementsTree();
      html := ElementHtml(t);
      if Valid() && forall e | e in elements :: e.kind != Img {
        forall x | x in Ids(elements) ensures Within(ClassAttr(x), html) {
          HtmlShowsEveryElement(elements, rootElementId, depth, bound, x);
        }
      }
    }

    /** `generateCSS()`: the base styles, then every element's rule. */
    method GenerateCSS() returns (css: string)
      ensures css == GenerateCss(elements)
      ensures BaseCss + RuleSep <= css
      ensures forall i | 0 <= i < |elements| :: Within(Rule(elements[i]), css)
    {
      css := GenerateCss(elements);
      forall i | 0 <= i < |elements| ensures Within(Rule(elements[i]), css) {
        CssHasRule(elements, i);
      }
    }

    /** `addListItem(listId, content)`. */
    method AddListItem(listId: Id, content: Option<string>)
      modifies this
      ensures State() == Lists.AddListItem(old(State()), listId, content)
      ensures depth == old(depth) && bound == old(bound)
      ensures old(Valid()) ==> Valid()
      ensures old(Acyclic()) ==> Acyclic()
    {
      ghost var d, valid, acyclic := State(), Valid(), Acyclic();
      var r := Lists.AddListItem(State(), listId, content);
      if valid {
        AddListItemKeepsTree(d, listId, content, depth, bound);
      }
      if acyclic {
        AddListItemKeepsRanking(d, listId, content, depth, bound);
      }
      elements := r.elements;
      if valid {
        Transfer(r, State(), depth, bound);
      }
    }

    /** `updateListItem(listId, index, content)`. */
    method UpdateListItem(listId: Id, index: int, content: string)
      modifies this
      ensures State() == Lists.UpdateListItem(old(State()), listId, index, content)
      ensures depth == old(depth) && bound == old(bound)
      ensures old(Valid()) ==> Valid()
      ensures old(Acyclic()) ==> Acyclic()
    {
      ghost var d, valid, acyclic := State(), Valid(), Acyclic();
      var r := Lists.UpdateListItem(State(), listId, index, content);
      if valid {
        UpdateListItemKeepsTree(d, listId, index, content, depth, bound);
      }
      if acyclic {
        UpdateListItemKeepsRanking(d, listId, index, content, depth, bound);
      }
      elements := r.elements;
      if valid {
        Transfer(r, State(), depth, bound);
      }
    }

    /** `deleteListItem(listId, index)`; the tree is kept when the list has no child elements. */
    method DeleteListItem(listId: Id, index: int)
      modifies this
      ensures State() == Lists.DeleteListItem(old(State()), listId, index)
      ensures depth == old(depth) && bound == old(bound)
      ensures old(Valid()) && (forall e | e in old(elements) && e.id == listId :: e.children == []) ==> Valid()
      ensures old(Acyclic()) ==> Acyclic()
    {
      ghost var d, keeps, acyclic := State(), Valid() && (forall e | e in elements && e.id == listId :: e.children == []), Acyclic();
      if acyclic {
        DeleteListItemKeepsRanking(d, listId, index, depth, bound);
      }
      var r := Lists.DeleteListItem(State(), listId, index);
      if keeps {
        DeleteListItemKeepsTree(d, listId, index, depth, bound);
      }
      elements, selectedElementId := r.elements, r.selected;
      if keeps {
        Transfer(r, State(), depth, bound);
      }
    }

    /** `reorderListItem(listId, oldIndex, newIndex)`. */
    method ReorderListItem(listId: Id, oldIndex: int, newIndex: int)
      modifies this
      ensures State() == Lists.ReorderListItem(old(State()), listId, oldIndex, newIndex)
      ensures depth == old(depth) && bound == old(bound)
      ensures old(Valid()) ==> Valid()
      ensures old(Acyclic()) ==> Acyclic()
    {
      ghost var d, valid, acyclic := State(), Valid(), Acyclic();
      var r := Lists.ReorderListItem(State(), listId, oldIndex, newIndex);
      if valid {
        ReorderListItemKeepsTree(d, listId, oldIndex, newIndex, depth, bound);
      }
      if acyclic {
        ReorderListItemKeepsRanking(d, listId, oldIndex, newIndex, depth, bound);
      }
      elements := r.elements;
      if valid {
        Transfer(r, State(), depth, bound);
      }
    }
  }
}
