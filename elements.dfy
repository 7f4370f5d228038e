/**
 * The flat, id-linked element store: `ElementType` (src/types/index.ts) and
 * `PageElementRef` (src/store/pageBuilderStore.ts). Elements refer to each
 * other only through ids: `children` lists child ids in render order and
 * `parentId` names the owner (`null` for the page root).
 */
module Elements {
  import opened Common
  import opened Styles

  datatype ElementType =
    | Div | H1 | H2 | H3 | H4 | H5 | H6 | P | A | Img | Ul | Ol | Li | Button | Span | Section

  /** The `type` string, which is also the HTML tag name. */
  function TagName(t: ElementType): string
  {
    match t
    case Div => "div"
    case H1 => "h1"
    case H2 => "h2"
    case H3 => "h3"
    case H4 => "h4"
    case H5 => "h5"
    case H6 => "h6"
    case P => "p"
    case A => "a"
    case Img => "img"
    case Ul => "ul"
    case Ol => "ol"
    case Li => "li"
    case Button => "button"
    case Span => "span"
    case Section => "section"
  }

  predicate IsList(t: ElementType)
  {
    t == Ul || t == Ol
  }

  predicate IsHeading(t: ElementType)
  {
    t in {H1, H2, H3, H4, H5, H6}
  }

  type Id = string

  /**
   * One element. The source's field `type` is called `kind` here (`type` is a
   * Dafny keyword); an absent `isGroup` is `false`.
   */
  datatype Element = Element(
    id: Id,
    kind: ElementType,
    content: Option<string>,
    style: Style,
    children: seq<Id>,
    parentId: Option<Id>,
    isGroup: bool,
    groupName: Option<string>,
    listItems: Option<seq<string>>)

  function Ids(es: seq<Element>): set<Id>
  {
    set e | e in es :: e.id
  }

  /** `es.find(el => el.id === id)`: the first element with that id. */
  function Find(es: seq<Element>, id: Id): (r: Option<Element>)
    ensures r.Some? <==> id in Ids(es)
    ensures r.Some? ==> r.value in es && r.value.id == id
  {
    if es == [] then None
    else if es[0].id == id then Some(es[0])
    else
      assert Ids(es) == {es[0].id} + Ids(es[1..]);
      Find(es[1..], id)
  }

  lemma IdsAppend(es: seq<Element>, e: Element)
    ensures Ids(es + [e]) == Ids(es) + {e.id}
  {
    forall x | x in Ids(es + [e]) ensures x in Ids(es) + {e.id} {
      var f :| f in es + [e] && f.id == x;
    }
    forall x | x in Ids(es) ensures x in Ids(es + [e]) {
      var f :| f in es && f.id == x;
      assert f in es + [e];
    }
    assert e in es + [e];
  }

  predicate UniqueIds(es: seq<Element>)
  {
    forall i, j | 0 <= i < j < |es| :: es[i].id != es[j].id
  }

  /** With distinct ids, `Find` returns the one element carrying the id. */
  lemma {:induction false} FindUnique(es: seq<Element>, e: Element)
    requires UniqueIds(es) && e in es
    ensures Find(es, e.id) == Some(e)
  {
    if es[0] != e {
      assert es[0].id != e.id by {
        var k :| 0 <= k < |es| && es[k] == e;
      }
      FindUnique(es[1..], e);
    }
  }

  /** `es.map(el => el.id === id ? f(el) : el)`. */
  function MapWhere(es: seq<Element>, id: Id, f: Element -> Element): (r: seq<Element>)
    ensures |r| == |es|
    ensures forall i | 0 <= i < |es| :: r[i] == if es[i].id == id then f(es[i]) else es[i]
  {
    seq(|es|, i requires 0 <= i < |es| => if es[i].id == id then f(es[i]) else es[i])
  }

  /** `es.map(el => ids.includes(el.id) ? f(el) : el)`. */
  function MapWhereIn(es: seq<Element>, ids: set<Id>, f: Element -> Element): (r: seq<Element>)
    ensures |r| == |es|
    ensures forall i | 0 <= i < |es| :: r[i] == if es[i].id in ids then f(es[i]) else es[i]
  {
    seq(|es|, i requires 0 <= i < |es| => if es[i].id in ids then f(es[i]) else es[i])
  }

  /** `es.filter(el => !drop.includes(el.id))`. */
  function KeepOutside(es: seq<Element>, drop: set<Id>): (r: seq<Element>)
    ensures forall e :: e in r <==> e in es && e.id !in drop
  {
    if es == [] then []
    else if es[0].id in drop then KeepOutside(es[1..], drop)
    else [es[0]] + KeepOutside(es[1..], drop)
  }

  lemma {:induction false} KeepOutsideUnique(es: seq<Element>, drop: set<Id>)
    requires UniqueIds(es)
    ensures UniqueIds(KeepOutside(es, drop))
  {
    if es != [] {
      KeepOutsideUnique(es[1..], drop);
      if es[0].id !in drop {
        var rest := KeepOutside(es[1..], drop);
        forall e | e in rest ensures e.id != es[0].id {
          var k :| 0 <= k < |es[1..]| && es[1..][k] == e;
          assert es[k + 1] == e;
        }
      }
    }
  }

  /** The ids of `es`, in order. */
  function IdSeq(es: seq<Element>): (r: seq<Id>)
    ensures |r| == |es|
    ensures forall i | 0 <= i < |es| :: r[i] == es[i].id
  {
    seq(|es|, i requires 0 <= i < |es| => es[i].id)
  }

  /** The id set is the set of entries of the id sequence. */
  lemma IdsOfIdSeq(es: seq<Element>)
    ensures Ids(es) == Members(IdSeq(es))
  {
    forall x | x in Members(IdSeq(es)) ensures x in Ids(es) {
      var i :| 0 <= i < |es| && IdSeq(es)[i] == x;
      assert es[i] in es;
    }
  }

  /** The filter keeps the surviving ids in their order. */
  lemma {:induction false} KeepOutsideIds(es: seq<Element>, drop: set<Id>)
    ensures IdSeq(KeepOutside(es, drop)) == Except(IdSeq(es), drop)
  {
    if es != [] {
      assert IdSeq(es)[0] == es[0].id;
      assert IdSeq(es)[1..] == IdSeq(es[1..]);
      KeepOutsideIds(es[1..], drop);
      if es[0].id !in drop {
        var rest := KeepOutside(es[1..], drop);
        assert IdSeq([es[0]] + rest) == [es[0].id] + IdSeq(rest);
      }
    }
  }

  /** A map that keeps every id keeps the id sequence. */
  lemma MapWhereIds(es: seq<Element>, id: Id, f: Element -> Element)
    requires forall e :: f(e).id == e.id
    ensures IdSeq(MapWhere(es, id, f)) == IdSeq(es)
  {
  }

  /** `es.filter(pred).length`. */
  function Count(es: seq<Element>, pred: Element -> bool): (n: nat)
    ensures n <= |es|
  {
    if es == [] then 0 else (if pred(es[0]) then 1 else 0) + Count(es[1..], pred)
  }

  lemma {:induction false} CountAppend(es: seq<Element>, x: Element, pred: Element -> bool)
    ensures Count(es + [x], pred) == Count(es, pred) + if pred(x) then 1 else 0
  {
    if es == [] {
      assert es + [x] == [x];
    } else {
      assert (es + [x])[1..] == es[1..] + [x];
      CountAppend(es[1..], x, pred);
    }
  }

  /**
   * The tree invariants of the store: distinct non-empty ids, a present root
   * that alone has no parent, every parent present, every child id present,
   * and `c in p.children` exactly when `c.parentId == p.id`.
   */
  ghost predicate WellFormed(es: seq<Element>, root: Id)
  {
    && UniqueIds(es)
    && RootedAt(es, root)
    && ParentsPresent(es)
    && ChildrenPresent(es)
    && LinksSymmetric(es)
  }

  ghost predicate RootedAt(es: seq<Element>, root: Id)
  {
    && root in Ids(es)
    && (forall e | e in es :: e.id != "")
    && (forall e | e in es :: (e.parentId.None? <==> e.id == root))
  }

  ghost predicate ParentsPresent(es: seq<Element>)
  {
    forall e | e in es && e.parentId.Some? :: e.parentId.value in Ids(es)
  }

  ghost predicate ChildrenPresent(es: seq<Element>)
  {
    forall e, c | e in es && c in e.children :: c in Ids(es)
  }

  ghost predicate LinksSymmetric(es: seq<Element>)
  {
    forall e, f | e in es && f in es :: (f.id in e.children <==> f.parentId == Some(e.id))
  }

  /** The parent id of the element `find` returns for `x`, when there is one. */
  function ParentOf(es: seq<Element>, x: Id): Option<Id>
  {
    match Find(es, x)
    case None => None
    case Some(e) => e.parentId
  }

  /**
   * An id `uuidv4()` may hand out: non-empty, carried by no element and
   * named in no element's `children`.
   */
  predicate Fresh(es: seq<Element>, id: Id)
  {
    id != "" && id !in Ids(es) && forall e | e in es :: id !in e.children
  }

  /** An edit that keeps an element's id and both of its links. */
  ghost predicate KeepsLinks(f: Element -> Element)
  {
    forall e :: f(e).id == e.id && f(e).children == e.children && f(e).parentId == e.parentId
  }

  /** `r` is `es` with, at most, the payload (everything but id and links) of some elements changed. */
  ghost predicate SameLinks(es: seq<Element>, r: seq<Element>)
  {
    && |r| == |es|
    && forall i | 0 <= i < |es| :: r[i].id == es[i].id && r[i].children == es[i].children && r[i].parentId == es[i].parentId
  }

  lemma SameLinksMapWhere(es: seq<Element>, id: Id, f: Element -> Element)
    requires KeepsLinks(f)
    ensures SameLinks(es, MapWhere(es, id, f))
  {
  }

  lemma SameLinksIds(es: seq<Element>, r: seq<Element>)
    requires SameLinks(es, r)
    ensures Ids(r) == Ids(es)
  {
    forall x | x in Ids(r) ensures x in Ids(es) {
      var i :| 0 <= i < |r| && r[i].id == x;
      assert es[i].id == x;
    }
    forall x | x in Ids(es) ensures x in Ids(r) {
      var i :| 0 <= i < |es| && es[i].id == x;
      assert r[i].id == x;
    }
  }

  /** The element of `es` that an element of `r` was made from. */
  lemma SameLinksOrigin(es: seq<Element>, r: seq<Element>, e: Element) returns (o: Element)
    requires SameLinks(es, r) && e in r
    ensures o in es && o.id == e.id && o.children == e.children && o.parentId == e.parentId
  {
    var i :| 0 <= i < |r| && r[i] == e;
    o := es[i];
  }

  /** Editing the payload of elements keeps every tree invariant. */
  lemma SameLinksWellFormed(es: seq<Element>, r: seq<Element>, root: Id)
    requires SameLinks(es, r) && WellFormed(es, root)
    ensures WellFormed(r, root)
  {
    SameLinksIds(es, r);
    assert UniqueIds(r) by {
      forall i, j | 0 <= i < j < |r| ensures r[i].id != r[j].id {
        assert r[i].id == es[i].id && r[j].id == es[j].id;
      }
    }
    forall e | e in r ensures e.id != "" && (e.parentId.None? <==> e.id == root) {
      var o := SameLinksOrigin(es, r, e);
    }
    forall e | e in r && e.parentId.Some? ensures e.parentId.value in Ids(r) {
      var o := SameLinksOrigin(es, r, e);
    }
    forall e, c | e in r && c in e.children ensures c in Ids(r) {
      var o := SameLinksOrigin(es, r, e);
    }
    forall e, f | e in r && f in r ensures (f.id in e.children <==> f.parentId == Some(e.id)) {
      var o := SameLinksOrigin(es, r, e);
      var p := SameLinksOrigin(es, r, f);
    }
  }

  /** Editing the payload of elements keeps a ranking. */
  lemma SameLinksRanked(es: seq<Element>, r: seq<Element>, depth: map<Id, nat>, bound: nat)
    requires SameLinks(es, r) && Ranked(es, depth, bound)
    ensures Ranked(r, depth, bound)
  {
    forall x | x in r ensures x.id in depth && depth[x.id] < bound && forall c | c in x.children && c in depth :: depth[x.id] < depth[c] {
      var i :| 0 <= i < |r| && r[i] == x;
      assert es[i] in es;
    }
  }

  /**
   * A witness that the child links are acyclic: every child id (that has a
   * depth) lies strictly deeper than its parent, and every depth is below
   * `bound`. Every recursion over `children` terminates on such a store.
   */
  ghost predicate Ranked(es: seq<Element>, depth: map<Id, nat>, bound: nat)
  {
    && (forall e | e in es :: e.id in depth && depth[e.id] < bound)
    && (forall e, c | e in es && c in e.children && c in depth :: depth[e.id] < depth[c])
  }

  /** What a recursion on id `id` may still spend. */
  function Measure(id: Id, depth: map<Id, nat>, bound: nat): nat
  {
    if id in depth && depth[id] < bound then bound - depth[id] else 0
  }

  /** On a ranked store each child of a present element has a smaller measure. */
  lemma ChildMeasure(es: seq<Element>, depth: map<Id, nat>, bound: nat, e: Element, c: Id)
    requires Ranked(es, depth, bound) && e in es && c in e.children
    ensures Measure(c, depth, bound) < Measure(e.id, depth, bound)
  {
  }
}
