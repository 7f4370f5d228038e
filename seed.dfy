/**
 * The initial state of the store (src/store/pageBuilderStore.ts): a page
 * container holding a navbar with a logo and a container of three links.
 * The seven ids are the ones `uuidv4()` hands out when the store is created.
 */
module Seed {
  import opened Common
  import opened Styles
  import opened Elements
  import opened Actions

  datatype SeedIds = SeedIds(root: Id, navbar: Id, logo: Id, links: Id, link1: Id, link2: Id, link3: Id)

  /** Seven distinct, non-empty ids. */
  predicate Distinct(k: SeedIds)
  {
    && k.root != "" && k.navbar != "" && k.logo != "" && k.links != "" && k.link1 != "" && k.link2 != "" && k.link3 != ""
    && k.root != k.navbar && k.root != k.logo && k.root != k.links && k.root != k.link1
    && k.root != k.link2 && k.root != k.link3 && k.navbar != k.logo && k.navbar != k.links
    && k.navbar != k.link1 && k.navbar != k.link2 && k.navbar != k.link3 && k.logo != k.links
    && k.logo != k.link1 && k.logo != k.link2 && k.logo != k.link3 && k.links != k.link1
    && k.links != k.link2 && k.links != k.link3 && k.link1 != k.link2 && k.link1 != k.link3
    && k.link2 != k.link3
  }

  /** The page container's style: `{ ...defaultStyles, width: "100%", height: "100%" }`. */
  const RootStyle: Style := DefaultStyle + [Prop("width", "100%"), Prop("height", "100%")]

  /** Both properties are new, so the spread appends them in order. */
  lemma RootStyleIsSpread()
    ensures RootStyle == Merge(DefaultStyle, [Prop("width", "100%"), Prop("height", "100%")])
  {
    MergeFresh(DefaultStyle, [Prop("width", "100%"), Prop("height", "100%")]);
  }

  const LinkStyle: Style := [Prop("color", "#0d6efd"), Prop("textDecoration", "none"), Prop("fontSize", "16px")]

  function Link(k: SeedIds, id: Id, text: string): Element
  {
    Element(id, A, Some(text), LinkStyle, [], Some(k.links), false, None, None)
  }

  function SeedElements(k: SeedIds): seq<Element>
  {
    [ Element(k.root, Div, Some("Page Container"), RootStyle, [k.navbar], None, false, None, None),
      Element(k.navbar, Div, Some("Navbar"),
              [Prop("display", "flex"), Prop("flexDirection", "row"), Prop("justifyContent", "space-between"),
               Prop("alignItems", "center"), Prop("padding", "16px"), Prop("backgroundColor", "#f8f9fa"),
               Prop("width", "100%"), Prop("borderBottom", "1px solid #dee2e6")],
              [k.logo, k.links], Some(k.root), false, None, None),
      Element(k.logo, H1, Some("Logo"),
              [Prop("margin", "0"), Prop("fontSize", "24px"), Prop("fontWeight", "bold"), Prop("color", "#333")],
              [], Some(k.navbar), false, None, None),
      Element(k.links, Div, Some("Links Container"),
              [Prop("display", "flex"), Prop("flexDirection", "row"), Prop("gap", "20px")],
              [k.link1, k.link2, k.link3], Some(k.navbar), false, None, None),
      Link(k, k.link1, "Home"),
      Link(k, k.link2, "About"),
      Link(k, k.link3, "Contact") ]
  }

  /** The store as it is created: nothing selected. */
  function SeedDoc(k: SeedIds): Doc
  {
    Doc(SeedElements(k), None, k.root)
  }

  /** The depths of the seed tree. */
  function SeedDepth(k: SeedIds): map<Id, nat>
  {
    map[k.root := 0, k.navbar := 1, k.logo := 2, k.links := 2, k.link1 := 3, k.link2 := 3, k.link3 := 3]
  }

  lemma SeedMembers(k: SeedIds, e: Element)
    requires e in SeedElements(k)
    ensures var es := SeedElements(k);
      e == es[0] || e == es[1] || e == es[2] || e == es[3] || e == es[4] || e == es[5] || e == es[6]
  {
  }

  lemma SeedIdSet(k: SeedIds)
    ensures Ids(SeedElements(k)) == {k.root, k.navbar, k.logo, k.links, k.link1, k.link2, k.link3}
  {
    var es := SeedElements(k);
    IdsOfIdSeq(es);
    var ids := [k.root, k.navbar, k.logo, k.links, k.link1, k.link2, k.link3];
    assert IdSeq(es) == ids;
    assert forall x :: x in ids <==> x in {k.root, k.navbar, k.logo, k.links, k.link1, k.link2, k.link3};
  }

  lemma SeedUnique(k: SeedIds)
    requires Distinct(k)
    ensures UniqueIds(SeedElements(k))
  {
  }

  lemma SeedRooted(k: SeedIds)
    requires Distinct(k)
    ensures RootedAt(SeedElements(k), k.root)
  {
    SeedIdSet(k);
    forall e | e in SeedElements(k) ensures e.id != "" && (e.parentId.None? <==> e.id == k.root) {
      SeedMembers(k, e);
    }
  }

  lemma SeedPresent(k: SeedIds)
    ensures ParentsPresent(SeedElements(k)) && ChildrenPresent(SeedElements(k))
  {
    SeedIdSet(k);
    forall e | e in SeedElements(k) && e.parentId.Some? ensures e.parentId.value in Ids(SeedElements(k)) {
      SeedMembers(k, e);
    }
    forall e, c | e in SeedElements(k) && c in e.children ensures c in Ids(SeedElements(k)) {
      SeedMembers(k, e);
    }
  }

  /** The links of one seed element agree with the parents of all seven. */
  lemma SeedLinksAt(k: SeedIds, i: nat)
    requires Distinct(k) && i < 7
    ensures var es := SeedElements(k);
      forall f | f in es :: (f.id in es[i].children <==> f.parentId == Some(es[i].id))
  {
    var es := SeedElements(k);
    if i == 0 {
      forall f | f in es ensures f.id in es[0].children <==> f.parentId == Some(es[0].id) {
        SeedMembers(k, f);
      }
    } else if i == 1 {
      forall f | f in es ensures f.id in es[1].children <==> f.parentId == Some(es[1].id) {
        SeedMembers(k, f);
      }
    } else if i == 2 {
      forall f | f in es ensures f.id in es[2].children <==> f.parentId == Some(es[2].id) {
        SeedMembers(k, f);
      }
    } else if i == 3 {
      forall f | f in es ensures f.id in es[3].children <==> f.parentId == Some(es[3].id) {
        SeedMembers(k, f);
      }
    } else if i == 4 {
      forall f | f in es ensures f.id in es[4].children <==> f.parentId == Some(es[4].id) {
        SeedMembers(k, f);
      }
    } else if i == 5 {
      forall f | f in es ensures f.id in es[5].children <==> f.parentId == Some(es[5].id) {
        SeedMembers(k, f);
      }
    } else if i == 6 {
      forall f | f in es ensures f.id in es[6].children <==> f.parentId == Some(es[6].id) {
        SeedMembers(k, f);
      }
    }
  }

  lemma SeedLinks(k: SeedIds)
    requires Distinct(k)
    ensures LinksSymmetric(SeedElements(k))
  {
    var es := SeedElements(k);
    SeedLinksAt(k, 0);
    SeedLinksAt(k, 1);
    SeedLinksAt(k, 2);
    SeedLinksAt(k, 3);
    SeedLinksAt(k, 4);
    SeedLinksAt(k, 5);
    SeedLinksAt(k, 6);
    forall e, f | e in es && f in es ensures (f.id in e.children <==> f.parentId == Some(e.id)) {
      SeedMembers(k, e);
    }
  }

  lemma SeedRankedAt(k: SeedIds, i: nat)
    requires Distinct(k) && i < 7
    ensures var es := SeedElements(k); var dm := SeedDepth(k);
      es[i].id in dm && dm[es[i].id] < 4 && forall c | c in es[i].children && c in dm :: dm[es[i].id] < dm[c]
  {
    var es := SeedElements(k);
    var dm := SeedDepth(k);
    if i == 0 {
      assert es[0].id in dm;
      forall c | c in es[0].children && c in dm ensures dm[es[0].id] < dm[c] {
      }
    } else if i == 1 {
      assert es[1].id in dm;
      forall c | c in es[1].children && c in dm ensures dm[es[1].id] < dm[c] {
      }
    } else if i == 2 {
      assert es[2].children == [] && es[2].id in dm;
    } else if i == 3 {
      assert es[3].id in dm;
      forall c | c in es[3].children && c in dm ensures dm[es[3].id] < dm[c] {
      }
    } else if i == 4 {
      assert es[4].children == [] && es[4].id in dm;
    } else if i == 5 {
      assert es[5].children == [] && es[5].id in dm;
    } else if i == 6 {
      assert es[6].children == [] && es[6].id in dm;
    }
  }

  lemma SeedRanked(k: SeedIds)
    requires Distinct(k)
    ensures Ranked(SeedElements(k), SeedDepth(k), 4)
  {
    var es := SeedElements(k);
    forall i | 0 <= i < 7 ensures var dm := SeedDepth(k);
      es[i].id in dm && dm[es[i].id] < 4 && forall c | c in es[i].children && c in dm :: dm[es[i].id] < dm[c]
    {
      SeedRankedAt(k, i);
    }
    forall e | e in es ensures exists i :: 0 <= i < 7 && es[i] == e {
      SeedMembers(k, e);
    }
  }

  /** The seed is a tree rooted at the page container. */
  lemma SeedWellFormed(k: SeedIds)
    requires Distinct(k)
    ensures WellFormed(SeedElements(k), k.root)
    ensures Ranked(SeedElements(k), SeedDepth(k), 4)
  {
    SeedUnique(k);
    SeedRooted(k);
    SeedPresent(k);
    SeedLinks(k);
    SeedRanked(k);
  }
}
