/**
 * The structural and editing actions of the store
 * (src/store/pageBuilderStore.ts): what each `set(state => ...)` computes
 * from the current state. `uuidv4()` is a parameter: the id the call would
 * draw.
 */
module Actions {
  import opened Common
  import opened Styles
  import opened Elements
  import opened Descendants

  /** The store's three data fields. */
  datatype Doc = Doc(elements: seq<Element>, selected: Option<Id>, root: Id)

  /** `defaultStyles`, which every new element starts from. */
  const DefaultStyle: Style := [Prop("display", "flex"), Prop("flexDirection", "column"), Prop("padding", "0"), Prop("margin", "0")]

  /** The type-specific properties `addElement` spreads over `defaultStyles`, in the source's order. */
  function TypeStyle(kind: ElementType): seq<Prop>
  {
    match kind
    case Div | Section => [Prop("padding", "4px"), Prop("minHeight", "20px"), Prop("minWidth", "20px")]
    case H1 => [Prop("fontSize", "2rem"), Prop("fontWeight", "bold"), Prop("margin", "0 0 1rem 0")]
    case H2 => [Prop("fontSize", "1.75rem"), Prop("fontWeight", "bold"), Prop("margin", "0 0 0.875rem 0")]
    case H3 => [Prop("fontSize", "1.5rem"), Prop("fontWeight", "bold"), Prop("margin", "0 0 0.75rem 0")]
    case P => [Prop("fontSize", "1rem"), Prop("margin", "0 0 1rem 0")]
    case A => [Prop("color", "#1890ff"), Prop("textDecoration", "none")]
    case Button =>
      [Prop("padding", "0.5rem 1rem"), Prop("backgroundColor", "#212529"), Prop("color", "white"), Prop("border", "none"),
       Prop("borderRadius", "4px"), Prop("cursor", "pointer"), Prop("width", "100%"), Prop("textAlign", "center")]
    case Img => [Prop("width", "150px"), Prop("height", "auto"), Prop("objectFit", "contain")]
    case Ul | Ol =>
      [Prop("paddingLeft", "30px"), Prop("listStylePosition", "outside"),
       Prop("listStyleType", if kind == Ul then "disc" else "decimal"), Prop("maxWidth", "100%"),
       Prop("wordBreak", "break-word"), Prop("overflowWrap", "break-word"), Prop("margin", "0 0 1rem 0")]
    case Li =>
      [Prop("display", "list-item"), Prop("maxWidth", "100%"), Prop("wordBreak", "break-word"),
       Prop("overflowWrap", "break-word"), Prop("marginLeft", "0")]
    case Span => [Prop("display", "inline")]
    case H4 | H5 | H6 => []
  }

  /** The style of a new element. */
  function NewStyle(kind: ElementType): Style
  {
    Merge(DefaultStyle, TypeStyle(kind))
  }

  /** `<noun> N`, where N is one more than `count`. */
  function Numbered(noun: string, count: nat): string
  {
    noun + " " + NatToString(count + 1)
  }

  /** The elements the counter of `kind` counts: lists of both kinds together, divs other than the root. */
  function Counted(root: Id, kind: ElementType): Element -> bool
  {
    (e: Element) =>
      if kind == Div then e.kind == Div && e.id != root
      else if IsList(kind) then IsList(e.kind)
      else e.kind == kind
  }

  /** The word the counter-based content of `kind` starts with, for the types that have one. */
  function Noun(kind: ElementType): Option<string>
  {
    match kind
    case Div => Some("Div")
    case Section => Some("Section")
    case Span => Some("Span")
    case Button => Some("Button")
    case A => Some("Link")
    case Img => Some("Image")
    case Ul | Ol => Some("List")
    case Li => Some("Item")
    case _ => None
  }

  /** The counter-based default content of a new element. */
  function DefaultContent(es: seq<Element>, root: Id, kind: ElementType): Option<string>
  {
    match Noun(kind)
    case Some(noun) => Some(Numbered(noun, Count(es, Counted(root, kind))))
    case None => if kind in {P, H1, H2, H3} then Some("Double click to edit text") else None
  }

  const SeededItems := ["List item 1", "List item 2", "List item 3"]

  /** The element `addElement` builds. */
  function NewElement(d: Doc, kind: ElementType, parent: Id, id: Id): Element
  {
    Element(id, kind, DefaultContent(d.elements, d.root, kind), NewStyle(kind), [], Some(parent), false, None,
            if IsList(kind) then Some(SeededItems) else None)
  }

  /** `parentId || rootElementId`. */
  function EffectiveParent(d: Doc, parentId: Option<Id>): Id
  {
    if Truthy(parentId) then parentId.value else d.root
  }

  function AppendChild(id: Id): Element -> Element
  {
    (e: Element) => e.(children := e.children + [id])
  }

  /** `addElement(type, parentId)`, the new element's id being `newId`. */
  function AddElement(d: Doc, kind: ElementType, parentId: Option<Id>, newId: Id): (r: Doc)
    ensures r.root == d.root
  {
    var p := EffectiveParent(d, parentId);
    if Find(d.elements, p).None? then d
    else Doc(MapWhere(d.elements, p, AppendChild(newId)) + [NewElement(d, kind, p, newId)], Some(newId), d.root)
  }

  /** A missing parent leaves the state as it was. */
  lemma AddElementMissingParent(d: Doc, kind: ElementType, parentId: Option<Id>, newId: Id)
    requires EffectiveParent(d, parentId) !in Ids(d.elements)
    ensures AddElement(d, kind, parentId, newId) == d
  {
  }

  /**
   * Otherwise exactly one element is appended, the new id goes last in the
   * parent's children, the new element becomes selected and nothing else changes.
   */
  lemma AddElementEffect(d: Doc, kind: ElementType, parentId: Option<Id>, newId: Id)
    requires EffectiveParent(d, parentId) in Ids(d.elements)
    ensures var r := AddElement(d, kind, parentId, newId); var p := EffectiveParent(d, parentId);
      && |r.elements| == |d.elements| + 1
      && r.elements[|d.elements|] == NewElement(d, kind, p, newId)
      && r.selected == Some(newId) && r.root == d.root
      && (forall i | 0 <= i < |d.elements| && d.elements[i].id != p :: r.elements[i] == d.elements[i])
      && (forall i | 0 <= i < |d.elements| && d.elements[i].id == p ::
            r.elements[i] == d.elements[i].(children := d.elements[i].children + [newId]))
  {
  }

  /**
   * The new element has the requested type, no children, the effective
   * parent and the fresh id; a list starts with three seeded items, and a
   * paragraph or an h1-h3 heading with the editing placeholder.
   */
  lemma NewElementShape(d: Doc, kind: ElementType, parentId: Option<Id>, newId: Id)
    ensures var n := NewElement(d, kind, EffectiveParent(d, parentId), newId);
      && n.id == newId && n.kind == kind && n.children == [] && !n.isGroup && n.groupName == None
      && n.parentId == Some(if Truthy(parentId) then parentId.value else d.root)
      && n.style == NewStyle(kind)
      && n.listItems == (if IsList(kind) then Some(["List item 1", "List item 2", "List item 3"]) else None)
      && (kind in {P, H1, H2, H3} ==> n.content == Some("Double click to edit text"))
      && (kind in {H4, H5, H6} ==> n.content == None)
  {
  }

  lemma DefaultStyleUnique()
    ensures UniqueNames(DefaultStyle)
  {
  }

  /** A new element's style has distinct property names. */
  lemma NewStyleUnique(kind: ElementType)
    ensures UniqueNames(NewStyle(kind))
  {
    DefaultStyleUnique();
    MergeUnique(DefaultStyle, TypeStyle(kind));
  }

  /** The element of `es` that an element of the updated store came from. */
  lemma AppendOrigin(es: seq<Element>, p: Id, newId: Id, e: Element) returns (o: Element)
    requires e in MapWhere(es, p, AppendChild(newId))
    ensures o in es && o.id == e.id && o.parentId == e.parentId
    ensures e.children == if o.id == p then o.children + [newId] else o.children
  {
    var r := MapWhere(es, p, AppendChild(newId));
    var i :| 0 <= i < |r| && r[i] == e;
    o := es[i];
  }

  /** The elements after an `addElement` under parent `p`, for a new element `n`. */
  ghost predicate AddedUnder(es: seq<Element>, r: seq<Element>, p: Id, n: Element)
  {
    && r == MapWhere(es, p, AppendChild(n.id)) + [n]
    && p in Ids(es) && Fresh(es, n.id)
    && n.children == [] && n.parentId == Some(p)
  }

  lemma AddedIds(es: seq<Element>, r: seq<Element>, p: Id, n: Element)
    requires AddedUnder(es, r, p, n)
    ensures Ids(r) == Ids(es) + {n.id}
  {
    var m := MapWhere(es, p, AppendChild(n.id));
    SameLinksIdsOnly(es, m);
    IdsAppend(m, n);
  }

  lemma SameLinksIdsOnly(es: seq<Element>, m: seq<Element>)
    requires |m| == |es| && forall i | 0 <= i < |es| :: m[i].id == es[i].id
    ensures Ids(m) == Ids(es)
  {
    forall x | x in Ids(m) ensures x in Ids(es) {
      var i :| 0 <= i < |m| && m[i].id == x;
      assert es[i].id == x;
    }
    forall x | x in Ids(es) ensures x in Ids(m) {
      var i :| 0 <= i < |es| && es[i].id == x;
      assert m[i].id == x;
    }
  }

  lemma AddedUnique(es: seq<Element>, r: seq<Element>, p: Id, n: Element)
    requires AddedUnder(es, r, p, n) && UniqueIds(es)
    ensures UniqueIds(r)
  {
    forall i, j | 0 <= i < j < |r| ensures r[i].id != r[j].id {
      assert r[i].id == es[i].id;
      if j == |es| {
        assert es[i] in es;
      } else {
        assert r[j].id == es[j].id;
      }
    }
  }

  lemma AddedRooted(es: seq<Element>, r: seq<Element>, p: Id, n: Element, root: Id)
    requires AddedUnder(es, r, p, n) && RootedAt(es, root)
    ensures RootedAt(r, root)
  {
    AddedIds(es, r, p, n);
    forall e | e in r ensures e.id != "" && (e.parentId.None? <==> e.id == root) {
      if e != n {
        var o := AppendOrigin(es, p, n.id, e);
      }
    }
  }

  lemma AddedParents(es: seq<Element>, r: seq<Element>, p: Id, n: Element)
    requires AddedUnder(es, r, p, n) && ParentsPresent(es)
    ensures ParentsPresent(r)
  {
    AddedIds(es, r, p, n);
    forall e | e in r && e.parentId.Some? ensures e.parentId.value in Ids(r) {
      if e != n {
        var o := AppendOrigin(es, p, n.id, e);
      }
    }
  }

  lemma AddedChildren(es: seq<Element>, r: seq<Element>, p: Id, n: Element)
    requires AddedUnder(es, r, p, n) && ChildrenPresent(es)
    ensures ChildrenPresent(r)
  {
    AddedIds(es, r, p, n);
    forall e, c | e in r && c in e.children ensures c in Ids(r) {
      if e != n {
        var o := AppendOrigin(es, p, n.id, e);
      }
    }
  }

  lemma AddedLinks(es: seq<Element>, r: seq<Element>, p: Id, n: Element)
    requires AddedUnder(es, r, p, n) && LinksSymmetric(es) && ParentsPresent(es)
    ensures LinksSymmetric(r)
  {
    forall e, f | e in r && f in r ensures (f.id in e.children <==> f.parentId == Some(e.id)) {
      if e == n {
        if f != n {
          var g := AppendOrigin(es, p, n.id, f);
          assert f.parentId != Some(n.id) by {
            if g.parentId.Some? {
              assert g.parentId.value in Ids(es);
            }
          }
        }
      } else {
        var o := AppendOrigin(es, p, n.id, e);
        if f == n {
          assert n.id !in o.children;
        } else {
          var g := AppendOrigin(es, p, n.id, f);
          assert g.id != n.id;
        }
      }
    }
  }

  /** The ranking after an `addElement`: the new element one level below its parent. */
  function AddedDepth(depth: map<Id, nat>, p: Id, newId: Id): map<Id, nat>
  {
    if p in depth then depth[newId := depth[p] + 1] else depth
  }

  lemma AddedRanked(es: seq<Element>, r: seq<Element>, p: Id, n: Element, depth: map<Id, nat>, bound: nat)
    requires AddedUnder(es, r, p, n) && Ranked(es, depth, bound)
    ensures Ranked(r, AddedDepth(depth, p, n.id), bound + 1)
  {
    var d2 := AddedDepth(depth, p, n.id);
    var pe := Find(es, p).value;
    assert p in depth by {
      assert pe in es;
    }
    forall e | e in r ensures e.id in d2 && d2[e.id] < bound + 1 {
      if e != n {
        var o := AppendOrigin(es, p, n.id, e);
      }
    }
    forall e, c | e in r && c in e.children && c in d2 ensures d2[e.id] < d2[c] {
      var o := AppendOrigin(es, p, n.id, e);
      assert o.id != n.id;
      if c != n.id {
        assert c in o.children;
      }
    }
  }

  /** Adding an element under a present parent with a fresh id keeps the store a ranked tree. */
  lemma AddElementKeepsTree(d: Doc, kind: ElementType, parentId: Option<Id>, newId: Id, depth: map<Id, nat>, bound: nat)
    requires WellFormed(d.elements, d.root) && Ranked(d.elements, depth, bound) && Fresh(d.elements, newId)
    ensures var r := AddElement(d, kind, parentId, newId); var p := EffectiveParent(d, parentId);
      && WellFormed(r.elements, r.root)
      && Ranked(r.elements, if p in Ids(d.elements) then AddedDepth(depth, p, newId) else depth, bound + 1)
  {
    var p := EffectiveParent(d, parentId);
    if p in Ids(d.elements) {
      var n := NewElement(d, kind, p, newId);
      var r := AddElement(d, kind, parentId, newId).elements;
      assert AddedUnder(d.elements, r, p, n);
      AddedUnique(d.elements, r, p, n);
      AddedRooted(d.elements, r, p, n, d.root);
      AddedParents(d.elements, r, p, n);
      AddedChildren(d.elements, r, p, n);
      AddedLinks(d.elements, r, p, n);
      AddedRanked(d.elements, r, p, n, depth, bound);
    }
  }

  /** Adding under a present parent with a fresh id keeps a ranking, tree or not. */
  lemma AddElementKeepsRanking(d: Doc, kind: ElementType, parentId: Option<Id>, newId: Id, depth: map<Id, nat>, bound: nat)
    requires Ranked(d.elements, depth, bound) && Fresh(d.elements, newId)
    ensures var r := AddElement(d, kind, parentId, newId); var p := EffectiveParent(d, parentId);
      Ranked(r.elements, if p in Ids(d.elements) then AddedDepth(depth, p, newId) else depth, bound + 1)
  {
    var p := EffectiveParent(d, parentId);
    if p in Ids(d.elements) {
      var n := NewElement(d, kind, p, newId);
      var r := AddElement(d, kind, parentId, newId).elements;
      assert AddedUnder(d.elements, r, p, n);
      AddedRanked(d.elements, r, p, n, depth, bound);
    }
  }

  function RemoveChild(id: Id): Element -> Element
  {
    (e: Element) => e.(children := Except(e.children, {id}))
  }

  /** `deleteElement(id)`. */
  function DeleteElement(d: Doc, id: Id, ghost depth: map<Id, nat>, ghost bound: nat): (r: Doc)
    requires Ranked(d.elements, depth, bound)
    ensures r.root == d.root
  {
    if id == d.root then d
    else match Find(d.elements, id)
      case None => d
      case Some(e) =>
        if !Truthy(e.parentId) then d
        else
          var p := e.parentId.value;
          var drop := DescendantIds(d.elements, id, depth, bound);
          Doc(KeepOutside(MapWhere(d.elements, p, RemoveChild(id)), set x | x in drop), Some(p), d.root)
  }

  /** Removing a child link and then the ids in `drop` keeps the other ids in their order. */
  lemma DeletedIdOrder(es: seq<Element>, p: Id, id: Id, drop: set<Id>)
    ensures IdSeq(KeepOutside(MapWhere(es, p, RemoveChild(id)), drop)) == Except(IdSeq(es), drop)
  {
    MapWhereIds(es, p, RemoveChild(id));
    KeepOutsideIds(MapWhere(es, p, RemoveChild(id)), drop);
  }

  /** The root, an unknown id and an element without a parent are never deleted. */
  lemma DeleteElementNoop(d: Doc, id: Id, depth: map<Id, nat>, bound: nat)
    requires Ranked(d.elements, depth, bound)
    requires id == d.root || id !in Ids(d.elements) || !Truthy(ParentOf(d.elements, id))
    ensures DeleteElement(d, id, depth, bound) == d
  {
  }

  /** The element of `es` that an element kept by `deleteElement` came from. */
  lemma RemoveOrigin(es: seq<Element>, p: Id, id: Id, drop: set<Id>, e: Element) returns (o: Element)
    requires e in KeepOutside(MapWhere(es, p, RemoveChild(id)), drop)
    ensures o in es && o.id == e.id && o.parentId == e.parentId && e.id !in drop
    ensures e.children == if o.id == p then Except(o.children, {id}) else o.children
    ensures o.id != p ==> e == o
    ensures o.id == p ==> e == o.(children := Except(o.children, {id}))
  {
    var m := MapWhere(es, p, RemoveChild(id));
    var i :| 0 <= i < |m| && m[i] == e;
    o := es[i];
  }

  /**
   * Otherwise exactly the element and the ids its descendants collection
   * gathers are removed, the id leaves its parent's children, the parent
   * becomes selected, and every other element stays as it was.
   */
  lemma DeleteElementEffect(d: Doc, id: Id, depth: map<Id, nat>, bound: nat)
    requires Ranked(d.elements, depth, bound) && UniqueIds(d.elements)
    requires id != d.root && id in Ids(d.elements) && Truthy(ParentOf(d.elements, id))
    ensures var r := DeleteElement(d, id, depth, bound); var p := ParentOf(d.elements, id).value;
      && r.selected == Some(p) && r.root == d.root
      && (forall x :: x in Ids(r.elements) <==> x in Ids(d.elements) && x !in DescendantIds(d.elements, id, depth, bound))
      && IdSeq(r.elements) == Except(IdSeq(d.elements), Members(DescendantIds(d.elements, id, depth, bound)))
      && (forall e | e in r.elements && e.id != p :: e in d.elements)
      && (forall e | e in r.elements && e.id == p ::
            e == Find(d.elements, p).value.(children := Except(Find(d.elements, p).value.children, {id})))
  {
    var es := d.elements;
    var p := ParentOf(es, id).value;
    var dropSeq := DescendantIds(es, id, depth, bound);
    var drop := set x | x in dropSeq;
    var m := MapWhere(es, p, RemoveChild(id));
    var r := KeepOutside(m, drop);
    assert DeleteElement(d, id, depth, bound).elements == r;
    SameLinksIdsOnly(es, m);
    DeletedIdOrder(es, p, id, drop);
    assert Members(dropSeq) == drop;
    forall x ensures x in Ids(r) <==> x in Ids(es) && x !in dropSeq {
      if x in Ids(r) {
        var e :| e in r && e.id == x;
        var o := RemoveOrigin(es, p, id, drop, e);
      }
      if x in Ids(es) && x !in dropSeq {
        var e :| e in m && e.id == x;
        assert e in r;
      }
    }
    forall e | e in r && e.id == p ensures e == Find(es, p).value.(children := Except(Find(es, p).value.children, {id})) {
      var o := RemoveOrigin(es, p, id, drop, e);
      FindUnique(es, o);
    }
    forall e | e in r && e.id != p ensures e in es {
      var o := RemoveOrigin(es, p, id, drop, e);
    }
  }

  /** Every collected id lies at least as deep as the id the collection starts from. */
  lemma DescendantsDeep(es: seq<Element>, id: Id, depth: map<Id, nat>, bound: nat, x: Id)
    requires Ranked(es, depth, bound) && id in Ids(es)
    requires x in DescendantIds(es, id, depth, bound)
    ensures x in depth && id in depth && depth[x] >= depth[id]
  {
    var e := Find(es, id).value;
    assert id in depth;
    var s := set y | y in Ids(es) && y in depth && depth[y] >= depth[id];
    forall f, c | f in es && f.id in s && c in f.children && c in Ids(es) ensures c in s {
      var g := Find(es, c).value;
    }
    DescendantsLeast(es, id, depth, bound, s, x);
  }

  /** The facts about the removed set that the invariant proof needs. */
  lemma DeleteFacts(es: seq<Element>, root: Id, id: Id, depth: map<Id, nat>, bound: nat)
    requires WellFormed(es, root) && Ranked(es, depth, bound)
    requires id != root && id in Ids(es) && Truthy(ParentOf(es, id))
    ensures var dropSeq := DescendantIds(es, id, depth, bound);
      && id in dropSeq && root !in dropSeq && ParentOf(es, id).value !in dropSeq
      && ParentOf(es, id).value in Ids(es)
  {
    var dropSeq := DescendantIds(es, id, depth, bound);
    var e := Find(es, id).value;
    var p := e.parentId.value;
    assert p in Ids(es);
    var pe := Find(es, p).value;
    assert id in pe.children;
    if root in dropSeq {
      DescendantsParentCollected(es, id, depth, bound, root);
    }
    if p in dropSeq {
      DescendantsDeep(es, id, depth, bound, p);
    }
  }

  ghost predicate DeletedFrom(es: seq<Element>, r: seq<Element>, id: Id, p: Id, drop: set<Id>)
  {
    r == KeepOutside(MapWhere(es, p, RemoveChild(id)), drop)
  }

  lemma DeletedUnique(es: seq<Element>, r: seq<Element>, id: Id, p: Id, drop: set<Id>)
    requires DeletedFrom(es, r, id, p, drop) && UniqueIds(es)
    ensures UniqueIds(r)
  {
    var m := MapWhere(es, p, RemoveChild(id));
    assert UniqueIds(m) by {
      forall i, j | 0 <= i < j < |m| ensures m[i].id != m[j].id {
        assert m[i].id == es[i].id && m[j].id == es[j].id;
      }
    }
    KeepOutsideUnique(m, drop);
  }

  lemma DeletedRooted(es: seq<Element>, r: seq<Element>, id: Id, p: Id, drop: set<Id>, root: Id)
    requires DeletedFrom(es, r, id, p, drop) && RootedAt(es, root) && root !in drop
    ensures RootedAt(r, root)
  {
    var m := MapWhere(es, p, RemoveChild(id));
    SameLinksIdsOnly(es, m);
    var e :| e in m && e.id == root;
    assert e in r;
    forall e | e in r ensures e.id != "" && (e.parentId.None? <==> e.id == root) {
      var o := RemoveOrigin(es, p, id, drop, e);
    }
  }

  /** Every id of `drop` other than `id` has its parent in `drop` too. */
  ghost predicate ParentsCollected(es: seq<Element>, id: Id, drop: set<Id>)
  {
    forall x | x in drop && x != id :: ParentOf(es, x).Some? && ParentOf(es, x).value in drop
  }

  /** The collected descendants are closed both ways along the links. */
  lemma DropClosed(es: seq<Element>, root: Id, id: Id, depth: map<Id, nat>, bound: nat)
    requires WellFormed(es, root) && Ranked(es, depth, bound)
    ensures var drop := set x | x in DescendantIds(es, id, depth, bound);
      ClosedUnderChildren(es, drop) && ParentsCollected(es, id, drop)
  {
    var drop := set x | x in DescendantIds(es, id, depth, bound);
    DescendantsClosed(es, id, depth, bound);
    forall x | x in drop && x != id ensures ParentOf(es, x).Some? && ParentOf(es, x).value in drop {
      DescendantsParentCollected(es, id, depth, bound, x);
    }
  }

  lemma DeletedParents(es: seq<Element>, r: seq<Element>, id: Id, p: Id, drop: set<Id>)
    requires DeletedFrom(es, r, id, p, drop) && UniqueIds(es) && ParentsPresent(es) && LinksSymmetric(es)
    requires ClosedUnderChildren(es, drop)
    ensures ParentsPresent(r)
  {
    var m := MapWhere(es, p, RemoveChild(id));
    SameLinksIdsOnly(es, m);
    forall e | e in r && e.parentId.Some? ensures e.parentId.value in Ids(r) {
      var o := RemoveOrigin(es, p, id, drop, e);
      var q := o.parentId.value;
      var qe := Find(es, q).value;
      assert o.id in qe.children;
      var qm :| qm in m && qm.id == q;
      assert qm in r;
    }
  }

  lemma DeletedChildren(es: seq<Element>, r: seq<Element>, id: Id, p: Id, drop: set<Id>)
    requires DeletedFrom(es, r, id, p, drop) && UniqueIds(es) && ChildrenPresent(es) && LinksSymmetric(es)
    requires ParentsCollected(es, id, drop) && id in Ids(es) && ParentOf(es, id) == Some(p)
    ensures ChildrenPresent(r)
  {
    var m := MapWhere(es, p, RemoveChild(id));
    SameLinksIdsOnly(es, m);
    var ie := Find(es, id).value;
    forall e, c | e in r && c in e.children ensures c in Ids(r) {
      var o := RemoveOrigin(es, p, id, drop, e);
      assert c in o.children;
      assert c != id by {
        if o.id != p {
          assert ie.parentId != Some(o.id);
        }
      }
      var ce := Find(es, c).value;
      assert ce.parentId == Some(o.id);
      var cm :| cm in m && cm.id == c;
      assert cm in r;
    }
  }

  lemma DeletedLinks(es: seq<Element>, r: seq<Element>, id: Id, p: Id, drop: set<Id>)
    requires DeletedFrom(es, r, id, p, drop) && LinksSymmetric(es) && id in drop
    ensures LinksSymmetric(r)
  {
    forall e, f | e in r && f in r ensures (f.id in e.children <==> f.parentId == Some(e.id)) {
      var o := RemoveOrigin(es, p, id, drop, e);
      var g := RemoveOrigin(es, p, id, drop, f);
    }
  }

  lemma DeletedRanked(es: seq<Element>, r: seq<Element>, id: Id, p: Id, drop: set<Id>, depth: map<Id, nat>, bound: nat)
    requires DeletedFrom(es, r, id, p, drop) && Ranked(es, depth, bound)
    ensures Ranked(r, depth, bound)
  {
    forall e | e in r ensures e.id in depth && depth[e.id] < bound {
      var o := RemoveOrigin(es, p, id, drop, e);
    }
    forall e, c | e in r && c in e.children && c in depth ensures depth[e.id] < depth[c] {
      var o := RemoveOrigin(es, p, id, drop, e);
      assert c in o.children;
    }
  }

  /** Deleting keeps the store a tree, ranked by the same depths. */
  lemma DeleteElementKeepsTree(d: Doc, id: Id, depth: map<Id, nat>, bound: nat)
    requires WellFormed(d.elements, d.root) && Ranked(d.elements, depth, bound)
    ensures var r := DeleteElement(d, id, depth, bound);
      WellFormed(r.elements, r.root) && Ranked(r.elements, depth, bound)
  {
    var es := d.elements;
    if id != d.root && id in Ids(es) && Truthy(ParentOf(es, id)) {
      var p := ParentOf(es, id).value;
      var drop := set x | x in DescendantIds(es, id, depth, bound);
      var r := DeleteElement(d, id, depth, bound).elements;
      assert DeletedFrom(es, r, id, p, drop);
      DeleteFacts(es, d.root, id, depth, bound);
      DeletedUnique(es, r, id, p, drop);
      DeletedRooted(es, r, id, p, drop, d.root);
      DropClosed(es, d.root, id, depth, bound);
      DeletedParents(es, r, id, p, drop);
      DeletedChildren(es, r, id, p, drop);
      DeletedLinks(es, r, id, p, drop);
      DeletedRanked(es, r, id, p, drop, depth, bound);
    }
  }

  /** Deleting keeps the same ranking, tree or not. */
  lemma DeleteElementKeepsRanking(d: Doc, id: Id, depth: map<Id, nat>, bound: nat)
    requires Ranked(d.elements, depth, bound)
    ensures Ranked(DeleteElement(d, id, depth, bound).elements, depth, bound)
  {
    var es := d.elements;
    if id != d.root && id in Ids(es) && Truthy(ParentOf(es, id)) {
      var p := ParentOf(es, id).value;
      var drop := set x | x in DescendantIds(es, id, depth, bound);
      var r := DeleteElement(d, id, depth, bound).elements;
      assert DeletedFrom(es, r, id, p, drop);
      DeletedRanked(es, r, id, p, drop, depth, bound);
    }
  }

  /** `selectElement(id)`. */
  function SelectElement(d: Doc, id: Option<Id>): Doc
  {
    d.(selected := id)
  }

  function MergeStyle(style: Style): Element -> Element
  {
    (e: Element) => e.(style := Merge(e.style, style))
  }

  /** `updateElementStyle(id, style)`. */
  function UpdateElementStyle(d: Doc, id: Id, style: Style): (r: Doc)
    ensures r.root == d.root
    ensures r.selected == d.selected
  {
    d.(elements := MapWhere(d.elements, id, MergeStyle(style)))
  }

  function SetContent(content: string): Element -> Element
  {
    (e: Element) => e.(content := Some(content))
  }

  /** `updateElementContent(id, content)`. */
  function UpdateElementContent(d: Doc, id: Id, content: string): (r: Doc)
    ensures r.root == d.root
    ensures r.selected == d.selected
  {
    d.(elements := MapWhere(d.elements, id, SetContent(content)))
  }

  function Rename(name: string): Element -> Element
  {
    (e: Element) => if e.isGroup then e.(groupName := Some(name), content := Some(name)) else e.(content := Some(name))
  }

  /** `updateElementName(id, name)`. */
  function UpdateElementName(d: Doc, id: Id, name: string): (r: Doc)
    ensures r.root == d.root
    ensures r.selected == d.selected
  {
    d.(elements := MapWhere(d.elements, id, Rename(name)))
  }

  /** Selecting changes the selection alone. */
  lemma SelectElementOnly(d: Doc, id: Option<Id>)
    ensures var r := SelectElement(d, id);
      r.selected == id && r.elements == d.elements && r.root == d.root
  {
  }

  /**
   * A style update touches only the elements carrying the id, and there
   * merges key-wise: a given property overwrites, an omitted one persists.
   */
  lemma UpdateElementStyleEffect(d: Doc, id: Id, style: Style, i: nat, name: string)
    requires i < |d.elements| && UniqueNames(style)
    ensures var r := UpdateElementStyle(d, id, style);
      && |r.elements| == |d.elements| && r.selected == d.selected && r.root == d.root
      && (d.elements[i].id != id ==> r.elements[i] == d.elements[i])
      && (d.elements[i].id == id ==>
            && r.elements[i] == d.elements[i].(style := r.elements[i].style)
            && Get(r.elements[i].style, name) == if name in Names(style) then Get(style, name) else Get(d.elements[i].style, name))
  {
    MergeGet(d.elements[i].style, style, name);
  }

  /** A style update keeps the properties an element already had in their order, and their names distinct. */
  lemma UpdateElementStyleOrder(d: Doc, id: Id, style: Style, i: nat)
    requires i < |d.elements| && d.elements[i].id == id && UniqueNames(d.elements[i].style)
    ensures var s := UpdateElementStyle(d, id, style).elements[i].style; var s0 := d.elements[i].style;
      |s| >= |s0| && Names(s)[..|s0|] == Names(s0) && UniqueNames(s)
  {
    MergeKeepsOrder(d.elements[i].style, style);
    MergeUnique(d.elements[i].style, style);
  }

  /** A content update sets the content of the matching elements only. */
  lemma UpdateElementContentEffect(d: Doc, id: Id, content: string, i: nat)
    requires i < |d.elements|
    ensures var r := UpdateElementContent(d, id, content);
      && |r.elements| == |d.elements| && r.selected == d.selected && r.root == d.root
      && r.elements[i] == if d.elements[i].id == id then d.elements[i].(content := Some(content)) else d.elements[i]
  {
  }

  /** A rename sets the content, and the group name too exactly when the element is a group. */
  lemma UpdateElementNameEffect(d: Doc, id: Id, name: string, i: nat)
    requires i < |d.elements|
    ensures var r := UpdateElementName(d, id, name); var e := d.elements[i]; var f := r.elements[i];
      && |r.elements| == |d.elements| && r.selected == d.selected && r.root == d.root
      && (e.id != id ==> f == e)
      && (e.id == id ==> f.content == Some(name) && f.(content := e.content, groupName := e.groupName) == e)
      && (e.id == id && e.isGroup ==> f.groupName == Some(name))
      && (e.id == id && !e.isGroup ==> f.groupName == e.groupName)
  {
  }

  /** No edit of a single element disturbs the tree. */
  lemma EditsKeepTree(d: Doc, id: Id, style: Style, text: string, depth: map<Id, nat>, bound: nat)
    requires WellFormed(d.elements, d.root) && Ranked(d.elements, depth, bound)
    ensures var r := UpdateElementStyle(d, id, style); WellFormed(r.elements, r.root) && Ranked(r.elements, depth, bound)
    ensures var r := UpdateElementContent(d, id, text); WellFormed(r.elements, r.root) && Ranked(r.elements, depth, bound)
    ensures var r := UpdateElementName(d, id, text); WellFormed(r.elements, r.root) && Ranked(r.elements, depth, bound)
  {
    var a := UpdateElementStyle(d, id, style).elements;
    var b := UpdateElementContent(d, id, text).elements;
    var c := UpdateElementName(d, id, text).elements;
    assert SameLinks(d.elements, a) && SameLinks(d.elements, b) && SameLinks(d.elements, c);
    SameLinksWellFormed(d.elements, a, d.root);
    SameLinksWellFormed(d.elements, b, d.root);
    SameLinksWellFormed(d.elements, c, d.root);
    SameLinksRanked(d.elements, a, depth, bound);
    SameLinksRanked(d.elements, b, depth, bound);
    SameLinksRanked(d.elements, c, depth, bound);
  }

  /** The three edits keep the same ranking, tree or not. */
  lemma EditsKeepRanking(d: Doc, id: Id, style: Style, text: string, depth: map<Id, nat>, bound: nat)
    requires Ranked(d.elements, depth, bound)
    ensures Ranked(UpdateElementStyle(d, id, style).elements, depth, bound)
    ensures Ranked(UpdateElementContent(d, id, text).elements, depth, bound)
    ensures Ranked(UpdateElementName(d, id, text).elements, depth, bound)
  {
    var a := UpdateElementStyle(d, id, style).elements;
    var b := UpdateElementContent(d, id, text).elements;
    var c := UpdateElementName(d, id, text).elements;
    assert SameLinks(d.elements, a) && SameLinks(d.elements, b) && SameLinks(d.elements, c);
    SameLinksRanked(d.elements, a, depth, bound);
    SameLinksRanked(d.elements, b, depth, bound);
    SameLinksRanked(d.elements, c, depth, bound);
  }

  /** The style of a new group. */
  const GroupStyle: Style := Merge(DefaultStyle, [Prop("display", "flex"), Prop("flexDirection", "row"), Prop("padding", "4px")])

  /** `Group N`, N being one more than the number of groups. */
  function GroupName(es: seq<Element>): string
  {
    Numbered("Group", Count(es, (e: Element) => e.isGroup))
  }

  function RegroupChildren(ids: seq<Id>, groupId: Id): Element -> Element
  {
    (e: Element) => e.(children := Except(e.children, Members(ids)) + [groupId])
  }

  function Reparent(groupId: Id): Element -> Element
  {
    (e: Element) => e.(parentId := Some(groupId))
  }

  /** The group element itself. */
  function GroupElement(es: seq<Element>, ids: seq<Id>, p: Id, groupId: Id): Element
  {
    Element(groupId, Div, Some(GroupName(es)), GroupStyle, ids, Some(p), true, Some(GroupName(es)), None)
  }

  /** The elements after grouping `ids` under `groupId` inside parent `p`. */
  function Regrouped(es: seq<Element>, ids: seq<Id>, p: Id, groupId: Id): seq<Element>
  {
    MapWhereIn(MapWhere(es, p, RegroupChildren(ids, groupId)), Members(ids), Reparent(groupId)) + [GroupElement(es, ids, p, groupId)]
  }

  /** `groupElements(elementIds)`, the group's id being `groupId`. */
  function GroupElements(d: Doc, ids: seq<Id>, groupId: Id): (r: Doc)
    ensures r.root == d.root
  {
    if |ids| < 2 then d
    else match Find(d.elements, ids[0])
      case None => d
      case Some(first) =>
        if !Truthy(first.parentId) then d
        else Doc(Regrouped(d.elements, ids, first.parentId.value, groupId), Some(groupId), d.root)
  }

  /** Whether `groupElements(ids)` creates a group: at least two ids, the first of them present with a parent. */
  predicate Groups(d: Doc, ids: seq<Id>)
  {
    |ids| >= 2 && Truthy(ParentOf(d.elements, ids[0]))
  }

  /** Fewer than two ids, or a first element that is missing or has no parent, change nothing. */
  lemma GroupElementsNoop(d: Doc, ids: seq<Id>, groupId: Id)
    requires |ids| < 2 || ids[0] !in Ids(d.elements) || !Truthy(ParentOf(d.elements, ids[0]))
    ensures GroupElements(d, ids, groupId) == d
  {
  }

  /**
   * Otherwise a group div holding exactly `ids`, in order, is appended under
   * the first element's parent and selected; that parent's other children
   * keep their order with the group last; every grouped element is
   * re-parented to the group; nothing else changes.
   */
  lemma GroupElementsEffect(d: Doc, ids: seq<Id>, groupId: Id, i: nat)
    requires |ids| >= 2 && ids[0] in Ids(d.elements) && Truthy(ParentOf(d.elements, ids[0]))
    requires i < |d.elements|
    ensures var r := GroupElements(d, ids, groupId); var p := ParentOf(d.elements, ids[0]).value;
      var e := d.elements[i]; var f := r.elements[i]; var g := r.elements[|d.elements|];
      && |r.elements| == |d.elements| + 1 && r.selected == Some(groupId) && r.root == d.root
      && g.id == groupId && g.kind == Div && g.children == ids && g.parentId == Some(p) && g.isGroup
      && g.groupName == Some(GroupName(d.elements)) && g.content == g.groupName
      && g.style == GroupStyle && g.listItems == None
      && f.id == e.id && f.kind == e.kind && f.content == e.content && f.style == e.style
      && f.isGroup == e.isGroup && f.groupName == e.groupName && f.listItems == e.listItems
      && f.children == (if e.id == p then Except(e.children, Members(ids)) + [groupId] else e.children)
      && f.parentId == (if e.id in ids then Some(groupId) else e.parentId)
  {
  }


  /** The element of `es` that a regrouped element came from. */
  lemma RegroupOrigin(es: seq<Element>, ids: seq<Id>, p: Id, groupId: Id, e: Element) returns (o: Element)
    requires e in MapWhereIn(MapWhere(es, p, RegroupChildren(ids, groupId)), Members(ids), Reparent(groupId))
    ensures o in es && o.id == e.id
    ensures e.children == if o.id == p then Except(o.children, Members(ids)) + [groupId] else o.children
    ensures e.parentId == if o.id in ids then Some(groupId) else o.parentId
  {
    var m := MapWhere(es, p, RegroupChildren(ids, groupId));
    var r := MapWhereIn(m, Members(ids), Reparent(groupId));
    var i :| 0 <= i < |r| && r[i] == e;
    o := es[i];
  }

  /** Every id in `ids` names an element whose parent is `p`. */
  ghost predicate Siblings(es: seq<Element>, ids: seq<Id>, p: Id)
  {
    forall x | x in ids :: x in Ids(es) && ParentOf(es, x) == Some(p)
  }

  /** The ids to group are present and share the parent of the first one. */
  ghost predicate SiblingGroup(d: Doc, ids: seq<Id>)
  {
    |ids| > 0 && Siblings(d.elements, ids, OrElse(ParentOf(d.elements, ids[0]), ""))
  }

  lemma RegroupedIds(es: seq<Element>, ids: seq<Id>, p: Id, groupId: Id)
    ensures Ids(Regrouped(es, ids, p, groupId)) == Ids(es) + {groupId}
  {
    var m := MapWhere(es, p, RegroupChildren(ids, groupId));
    var n := MapWhereIn(m, Members(ids), Reparent(groupId));
    SameLinksIdsOnly(es, m);
    SameLinksIdsOnly(m, n);
    IdsAppend(n, GroupElement(es, ids, p, groupId));
  }

  lemma RegroupedUnique(es: seq<Element>, ids: seq<Id>, p: Id, groupId: Id)
    requires UniqueIds(es) && groupId !in Ids(es)
    ensures UniqueIds(Regrouped(es, ids, p, groupId))
  {
    var r := Regrouped(es, ids, p, groupId);
    forall i, j | 0 <= i < j < |r| ensures r[i].id != r[j].id {
      assert r[i].id == es[i].id;
      if j == |es| {
        assert es[i] in es;
      } else {
        assert r[j].id == es[j].id;
      }
    }
  }

  lemma RegroupedRooted(es: seq<Element>, ids: seq<Id>, p: Id, groupId: Id, root: Id)
    requires RootedAt(es, root) && ParentsPresent(es) && Fresh(es, groupId) && p in Ids(es) && Siblings(es, ids, p)
    ensures RootedAt(Regrouped(es, ids, p, groupId), root)
  {
    var r := Regrouped(es, ids, p, groupId);
    var g := GroupElement(es, ids, p, groupId);
    RegroupedIds(es, ids, p, groupId);
    forall e | e in r ensures e.id != "" && (e.parentId.None? <==> e.id == root) {
      if e != g {
        var o := RegroupOrigin(es, ids, p, groupId, e);
        if o.id in ids {
          assert ParentOf(es, o.id) == Some(p);
        }
      }
    }
  }

  lemma RegroupedParents(es: seq<Element>, ids: seq<Id>, p: Id, groupId: Id)
    requires ParentsPresent(es) && p in Ids(es)
    ensures ParentsPresent(Regrouped(es, ids, p, groupId))
  {
    var r := Regrouped(es, ids, p, groupId);
    var g := GroupElement(es, ids, p, groupId);
    RegroupedIds(es, ids, p, groupId);
    forall e | e in r && e.parentId.Some? ensures e.parentId.value in Ids(r) {
      if e != g {
        var o := RegroupOrigin(es, ids, p, groupId, e);
      }
    }
  }

  lemma RegroupedChildren(es: seq<Element>, ids: seq<Id>, p: Id, groupId: Id)
    requires ChildrenPresent(es) && Siblings(es, ids, p)
    ensures ChildrenPresent(Regrouped(es, ids, p, groupId))
  {
    var r := Regrouped(es, ids, p, groupId);
    var g := GroupElement(es, ids, p, groupId);
    RegroupedIds(es, ids, p, groupId);
    forall e, c | e in r && c in e.children ensures c in Ids(r) {
      if e != g {
        var o := RegroupOrigin(es, ids, p, groupId, e);
      }
    }
  }

  lemma RegroupedLinks(es: seq<Element>, ids: seq<Id>, p: Id, groupId: Id)
    requires UniqueIds(es) && ParentsPresent(es) && LinksSymmetric(es)
    requires Fresh(es, groupId) && p in Ids(es) && Siblings(es, ids, p)
    ensures LinksSymmetric(Regrouped(es, ids, p, groupId))
  {
    var r := Regrouped(es, ids, p, groupId);
    var g := GroupElement(es, ids, p, groupId);
    forall e, f | e in r && f in r ensures (f.id in e.children <==> f.parentId == Some(e.id)) {
      if e == g {
        RegroupedLinksGroup(es, ids, p, groupId, f);
      } else {
        var o := RegroupOrigin(es, ids, p, groupId, e);
        if f == g {
          assert groupId !in o.children;
        } else {
          var q := RegroupOrigin(es, ids, p, groupId, f);
          RegroupedLinksStep(es, ids, p, groupId, o, q);
        }
      }
    }
  }

  lemma RegroupedLinksGroup(es: seq<Element>, ids: seq<Id>, p: Id, groupId: Id, f: Element)
    requires ParentsPresent(es) && Fresh(es, groupId) && p in Ids(es) && Siblings(es, ids, p)
    requires f in Regrouped(es, ids, p, groupId)
    ensures f.id in ids <==> f.parentId == Some(groupId)
  {
    var g := GroupElement(es, ids, p, groupId);
    if f != g {
      var q := RegroupOrigin(es, ids, p, groupId, f);
      if q.parentId.Some? {
        assert q.parentId.value in Ids(es);
      }
    }
  }

  lemma RegroupedLinksStep(es: seq<Element>, ids: seq<Id>, p: Id, groupId: Id, o: Element, q: Element)
    requires UniqueIds(es) && LinksSymmetric(es) && Siblings(es, ids, p) && groupId !in Ids(es)
    requires o in es && q in es
    ensures var children := if o.id == p then Except(o.children, Members(ids)) + [groupId] else o.children;
      var parent := if q.id in ids then Some(groupId) else q.parentId;
      q.id in children <==> parent == Some(o.id)
  {
    assert q.id != groupId;
    assert o.id != groupId;
    if q.id in ids {
      FindUnique(es, q);
      assert q.parentId == Some(p);
    }
  }

  /** The ranking after a grouping: all depths doubled, the group just below its parent. */
  function GroupedDepth(depth: map<Id, nat>, p: Id, groupId: Id): map<Id, nat>
  {
    (map x | x in depth :: 2 * depth[x])[groupId := if p in depth then 2 * depth[p] + 1 else 0]
  }

  /** The ranking of the store after `groupElements(ids)`. */
  function GroupDepth(d: Doc, ids: seq<Id>, groupId: Id, depth: map<Id, nat>): map<Id, nat>
  {
    if Groups(d, ids) then GroupedDepth(depth, ParentOf(d.elements, ids[0]).value, groupId) else depth
  }

  function GroupBound(d: Doc, ids: seq<Id>, bound: nat): nat
  {
    if Groups(d, ids) then 2 * bound else bound
  }

  lemma RegroupedRanked(es: seq<Element>, ids: seq<Id>, p: Id, groupId: Id, depth: map<Id, nat>, bound: nat)
    requires Ranked(es, depth, bound) && UniqueIds(es) && LinksSymmetric(es)
    requires Fresh(es, groupId) && p in Ids(es) && Siblings(es, ids, p)
    ensures Ranked(Regrouped(es, ids, p, groupId), GroupedDepth(depth, p, groupId), 2 * bound)
  {
    var r := Regrouped(es, ids, p, groupId);
    var g := GroupElement(es, ids, p, groupId);
    var d2 := GroupedDepth(depth, p, groupId);
    var pe := Find(es, p).value;
    assert p in depth;
    forall e | e in r ensures e.id in d2 && d2[e.id] < 2 * bound {
      if e != g {
        var o := RegroupOrigin(es, ids, p, groupId, e);
      }
    }
    forall e, c | e in r && c in e.children && c in d2 ensures d2[e.id] < d2[c] {
      if e == g {
        var ce := Find(es, c).value;
        assert ce.parentId == Some(p);
        assert c in pe.children;
      } else {
        var o := RegroupOrigin(es, ids, p, groupId, e);
        assert o.id != groupId;
        if c != groupId {
          assert c in o.children;
        }
      }
    }
  }

  /**
   * Grouping siblings under a fresh id keeps the store a ranked tree. (Ids
   * that do not share the first element's parent can break it; see
   * `GroupingAcrossParents`.)
   */
  lemma GroupElementsKeepsTree(d: Doc, ids: seq<Id>, groupId: Id, depth: map<Id, nat>, bound: nat)
    requires WellFormed(d.elements, d.root) && Ranked(d.elements, depth, bound) && Fresh(d.elements, groupId)
    requires SiblingGroup(d, ids)
    ensures var r := GroupElements(d, ids, groupId);
      WellFormed(r.elements, r.root) && Ranked(r.elements, GroupDepth(d, ids, groupId, depth), GroupBound(d, ids, bound))
  {
    var es := d.elements;
    if Groups(d, ids) {
      var p := ParentOf(es, ids[0]).value;
      assert p in Ids(es);
      RegroupedUnique(es, ids, p, groupId);
      RegroupedRooted(es, ids, p, groupId, d.root);
      RegroupedParents(es, ids, p, groupId);
      RegroupedChildren(es, ids, p, groupId);
      RegroupedLinks(es, ids, p, groupId);
      RegroupedRanked(es, ids, p, groupId, depth, bound);
    }
  }

  /**
   * Grouping siblings keeps a ranking on any store whose ids are distinct,
   * whose links agree and whose parents are present, tree or not.
   */
  lemma GroupElementsKeepsRanking(d: Doc, ids: seq<Id>, groupId: Id, depth: map<Id, nat>, bound: nat)
    requires Ranked(d.elements, depth, bound) && UniqueIds(d.elements) && LinksSymmetric(d.elements)
    requires ParentsPresent(d.elements) && Fresh(d.elements, groupId) && SiblingGroup(d, ids)
    ensures Ranked(GroupElements(d, ids, groupId).elements, GroupDepth(d, ids, groupId, depth), GroupBound(d, ids, bound))
  {
    var es := d.elements;
    if Groups(d, ids) {
      var p := ParentOf(es, ids[0]).value;
      assert p in Ids(es);
      RegroupedRanked(es, ids, p, groupId, depth, bound);
    }
  }

  /** Counting by a predicate the edit does not affect gives the same count. */
  lemma {:induction false} CountSame(es: seq<Element>, r: seq<Element>, pred: Element -> bool)
    requires |r| == |es| && forall i | 0 <= i < |es| :: pred(r[i]) == pred(es[i])
    ensures Count(r, pred) == Count(es, pred)
  {
    if es != [] {
      CountSame(es[1..], r[1..], pred);
    }
  }

  /** An added element is counted by its own type's counter. */
  /** Appending a child id keeps what a counter sees, so the count grows by the appended element alone. */
  lemma CountAdded(es: seq<Element>, p: Id, newId: Id, n: Element, pred: Element -> bool)
    requires forall e :: pred(AppendChild(newId)(e)) == pred(e)
    ensures Count(MapWhere(es, p, AppendChild(newId)) + [n], pred) == Count(es, pred) + if pred(n) then 1 else 0
  {
    var m := MapWhere(es, p, AppendChild(newId));
    CountSame(es, m, pred);
    CountAppend(m, n, pred);
  }

  lemma NewElementCounted(d: Doc, kind: ElementType, p: Id, newId: Id)
    requires newId != d.root
    ensures Counted(d.root, kind)(NewElement(d, kind, p, newId))
  {
  }

  lemma AddElementCount(d: Doc, kind: ElementType, parentId: Option<Id>, newId: Id)
    requires EffectiveParent(d, parentId) in Ids(d.elements) && newId != d.root
    ensures var r := AddElement(d, kind, parentId, newId);
      Count(r.elements, Counted(d.root, kind)) == Count(d.elements, Counted(d.root, kind)) + 1
  {
    var p := EffectiveParent(d, parentId);
    NewElementCounted(d, kind, p, newId);
    CountAdded(d.elements, p, newId, NewElement(d, kind, p, newId), Counted(d.root, kind));
  }

  /** So the next element of a numbered type gets the next number. */
  lemma AddElementNumbering(d: Doc, kind: ElementType, parentId: Option<Id>, newId: Id)
    requires EffectiveParent(d, parentId) in Ids(d.elements) && newId != d.root && Noun(kind).Some?
    ensures var r := AddElement(d, kind, parentId, newId); var n := Count(d.elements, Counted(d.root, kind));
      && DefaultContent(d.elements, d.root, kind) == Some(Numbered(Noun(kind).value, n))
      && DefaultContent(r.elements, r.root, kind) == Some(Numbered(Noun(kind).value, n + 1))
  {
    AddElementCount(d, kind, parentId, newId);
  }

  /** A grouping adds one group, so the next group is numbered one higher. */
  lemma GroupElementsNumbering(d: Doc, ids: seq<Id>, groupId: Id)
    requires |ids| >= 2 && ids[0] in Ids(d.elements) && Truthy(ParentOf(d.elements, ids[0]))
    ensures var r := GroupElements(d, ids, groupId);
      && Count(r.elements, (e: Element) => e.isGroup) == Count(d.elements, (e: Element) => e.isGroup) + 1
      && GroupName(r.elements) == Numbered("Group", Count(d.elements, (e: Element) => e.isGroup) + 1)
  {
    var p := ParentOf(d.elements, ids[0]).value;
    var isGroup := (e: Element) => e.isGroup;
    var m := MapWhere(d.elements, p, RegroupChildren(ids, groupId));
    var n := MapWhereIn(m, Members(ids), Reparent(groupId));
    CountSame(d.elements, n, isGroup);
    CountAppend(n, GroupElement(d.elements, ids, p, groupId), isGroup);
  }

  /**
   * `groupElements` does not check that the ids share a parent. Grouping a
   * child with its own parent is accepted and makes a cycle
   * `r -> g -> r`: the result has no ranking, and the root gets a parent.
   */
  lemma GroupingAcrossParents()
    ensures var d := Doc([Element("r", Div, None, [], ["a"], None, false, None, None),
                          Element("a", P, None, [], [], Some("r"), false, None, None)], None, "r");
      var r := GroupElements(d, ["a", "r"], "g");
      && r.elements[0].id == "r" && r.elements[0].parentId == Some("g")
      && !RootedAt(r.elements, "r")
      && forall depth: map<Id, nat>, bound: nat :: !Ranked(r.elements, depth, bound)
  {
    var d := Doc([Element("r", Div, None, [], ["a"], None, false, None, None),
                  Element("a", P, None, [], [], Some("r"), false, None, None)], None, "r");
    var r := GroupElements(d, ["a", "r"], "g");
    assert Find(d.elements, "a") == Some(d.elements[1]);
    var re := r.elements[0];
    var g := r.elements[2];
    assert re.id == "r" && re.parentId == Some("g") && "g" in re.children;
    assert g.id == "g" && "r" in g.children;
    assert re in r.elements && g in r.elements;
    forall depth: map<Id, nat>, bound: nat ensures !Ranked(r.elements, depth, bound) {
      if Ranked(r.elements, depth, bound) {
        assert false;
      }
    }
  }
}
