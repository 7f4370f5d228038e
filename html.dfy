/**
 * `generateHTML` (src/store/pageBuilderStore.ts): the tree of
 * `getElementsTree` rendered depth-first, one tag per node, each carrying
 * the class `element-<id>` that `generateCSS` styles.
 */
module Html {
  import opened Common
  import opened Styles
  import opened Elements
  import opened Tree

  /** The editor's default text, removed from exported content. */
  const Placeholder := "Double click to edit text"

  const ItemOpen := "<li style=\"display: list-item; word-break: break-word; overflow-wrap: break-word;\">"

  function ClassName(id: Id): string
  {
    "element-" + id
  }

  /** The attribute every rendered node carries. */
  function ClassAttr(id: Id): string
  {
    "class=\"" + ClassName(id) + "\""
  }

  /** `content ? content.replace("Double click to edit text", "") : ""`. */
  function CleanContent(t: Tree): string
  {
    if Truthy(t.content) then ReplaceFirst(t.content.value, Placeholder, "") else ""
  }

  function UpperCase(s: string): (r: string)
    ensures |r| == |s|
  {
    seq(|s|, i requires 0 <= i < |s| => Upper(s[i]))
  }

  /** The text shown when the cleaned content is empty. */
  function FallbackText(kind: ElementType): string
  {
    if kind == P then "Paragraph text"
    else if IsHeading(kind) then UpperCase(TagName(kind)) + " Heading"
    else if kind == A then "Link text"
    else if kind == Button then "Button"
    else ""
  }

  /** `cleanContent || fallback`. */
  function DisplayContent(t: Tree): string
  {
    if CleanContent(t) != "" then CleanContent(t) else FallbackText(t.kind)
  }

  /** The types rendered as `<type class="...">text children</type>`. */
  predicate IsTextKind(kind: ElementType)
  {
    IsHeading(kind) || kind == P || kind == Span || kind == Button
  }

  function ItemHtml(item: string): string
  {
    ItemOpen + item + "</li>"
  }

  /** `listItems.map(item => <li ...>item</li>).join("")`. */
  function ItemsHtml(items: seq<string>): string
  {
    Concat(MapSeq(items, ItemHtml))
  }

  function ListOpen(t: Tree): string
  {
    "<" + TagName(t.kind) + " " + ClassAttr(t.id) + ListStyle(t.kind)
  }

  function ListStyle(kind: ElementType): string
  {
    " style=\"list-style-type: " + (if kind == Ul then "disc" else "decimal") + ";\">"
  }

  const PlaceholderSrc := "src=\"https://via.placeholder.com/150\""

  const LinkAttrs := "href=\"#\" target=\"_blank\""

  /** The opening tag of a text or container node. */
  function OpenTag(kind: ElementType, id: Id): string
  {
    "<" + TagName(kind) + " " + ClassAttr(id) + ">"
  }

  function CloseTag(kind: ElementType): string
  {
    "</" + TagName(kind) + ">"
  }

  /** The opening tag of a link. */
  function LinkOpen(id: Id): string
  {
    "<a " + ClassAttr(id) + " " + LinkAttrs + ">"
  }

  /** The whole markup of an image. */
  function ImgHtml(id: Id): string
  {
    "<img " + ClassAttr(id) + " " + PlaceholderSrc + " alt=\"Image\">"
  }

  /** Indentation of the template literal used when a list has no items. */
  const ItemIndent := "\n            "
  const CloseIndent := "\n          "

  /**
   * `generateElementHTML(element)`: an image is one placeholder tag and
   * drops its children; every other node is its opening markup, its
   * children's markup, and its closing markup.
   */
  function ElementHtml(t: Tree): string
    decreases t
  {
    if t.kind == Img then ImgHtml(t.id)
    else Head(t) + ChildrenHtml(t.children) + Tail(t)
  }

  /** What a non-image node emits before its children. */
  function Head(t: Tree): string
  {
    if IsList(t.kind) then ListOpen(t) + ListBody(t)
    else if IsTextKind(t.kind) then OpenTag(t.kind, t.id) + DisplayContent(t)
    else if t.kind == A then LinkOpen(t.id) + DisplayContent(t)
    else OpenTag(t.kind, t.id)
  }

  /** The items of a list, or the three default items when it has none. */
  function ListBody(t: Tree): string
  {
    if t.listItems.Some? && |t.listItems.value| > 0 then ItemsHtml(t.listItems.value)
    else
      ItemIndent + ItemHtml("List item 1") +
      ItemIndent + ItemHtml("List item 2") +
      ItemIndent + ItemHtml("List item 3") +
      ItemIndent
  }

  /** What a non-image node emits after its children. */
  function Tail(t: Tree): string
  {
    if IsList(t.kind) && !(t.listItems.Some? && |t.listItems.value| > 0) then CloseIndent + CloseTag(t.kind)
    else CloseTag(t.kind)
  }

  /** `children.map(generateElementHTML).join("")`. */
  function ChildrenHtml(ts: seq<Tree>): string
    decreases ts
  {
    if ts == [] then "" else ChildrenHtml(ts[..|ts| - 1]) + ElementHtml(ts[|ts| - 1])
  }

  /** `generateHTML()`: the markup of the whole page tree. */
  function GenerateHtml(es: seq<Element>, root: Id, ghost depth: map<Id, nat>, ghost bound: nat): string
    requires Ranked(es, depth, bound)
  {
    ElementHtml(TreeOf(es, root, depth, bound))
  }

  /** The ids whose class the markup of `t` shows: a node, then its children's, except below an image. */
  function Rendered(t: Tree): seq<Id>
    decreases t
  {
    [t.id] + if t.kind == Img then [] else RenderedAll(t.children)
  }

  function RenderedAll(ts: seq<Tree>): seq<Id>
    decreases ts
  {
    if ts == [] then [] else RenderedAll(ts[..|ts| - 1]) + Rendered(ts[|ts| - 1])
  }

  /** The children's markup is `children.map(generateElementHTML).join("")`. */
  lemma {:induction false} ChildrenHtmlIsConcat(ts: seq<Tree>)
    ensures ChildrenHtml(ts) == Concat(MapSeq(ts, ElementHtml))
    decreases |ts|
  {
    if ts != [] {
      var init := ts[..|ts| - 1];
      ChildrenHtmlIsConcat(init);
      ConcatMapLast(ts, ElementHtml);
    }
  }

  /** The children's markup comes one child after another, in order. */
  lemma ChildrenHtmlSplit(ts: seq<Tree>, k: nat)
    requires k < |ts|
    ensures ChildrenHtml(ts) == ChildrenHtml(ts[..k]) + ElementHtml(ts[k]) + ChildrenHtml(ts[k + 1..])
  {
    ChildrenHtmlIsConcat(ts);
    ChildrenHtmlIsConcat(ts[..k]);
    ChildrenHtmlIsConcat(ts[k + 1..]);
    ConcatMapSplit(ts, ElementHtml, k);
  }

  /** The opening tag of a text or container node carries the node's class. */
  lemma OpenTagHasClass(kind: ElementType, id: Id)
    ensures Within(ClassAttr(id), OpenTag(kind, id))
  {
    var c := ClassAttr(id);
    WithinSelf(c);
    WithinPrefix(c, c, "<" + TagName(kind) + " ");
    WithinSuffix(c, "<" + TagName(kind) + " " + c, ">");
  }

  /** The opening markup of a non-image node carries the node's class. */
  lemma HeadHasClass(t: Tree)
    requires t.kind != Img
    ensures Within(ClassAttr(t.id), Head(t))
  {
    var c := ClassAttr(t.id);
    WithinSelf(c);
    if IsList(t.kind) {
      WithinPrefix(c, c, "<" + TagName(t.kind) + " ");
      WithinSuffix(c, "<" + TagName(t.kind) + " " + c, ListStyle(t.kind));
      WithinSuffix(c, ListOpen(t), ListBody(t));
    } else if IsTextKind(t.kind) {
      OpenTagHasClass(t.kind, t.id);
      WithinSuffix(c, OpenTag(t.kind, t.id), DisplayContent(t));
    } else if t.kind == A {
      WithinPrefix(c, c, "<a ");
      WithinSuffix(c, "<a " + c, " ");
      WithinSuffix(c, "<a " + c + " ", LinkAttrs);
      WithinSuffix(c, "<a " + c + " " + LinkAttrs, ">");
      WithinSuffix(c, LinkOpen(t.id), DisplayContent(t));
    } else {
      OpenTagHasClass(t.kind, t.id);
    }
  }

  /** Every node outside an image's subtree shows its class in the markup, so the CSS rules reach it. */
  lemma {:induction false} RenderedHasClass(t: Tree, x: Id)
    requires x in Rendered(t)
    ensures Within(ClassAttr(x), ElementHtml(t))
    decreases t
  {
    var c := ClassAttr(x);
    if t.kind == Img {
      WithinSelf(c);
      WithinPrefix(c, c, "<img ");
      WithinSuffix(c, "<img " + c, " ");
      WithinSuffix(c, "<img " + c + " ", PlaceholderSrc);
      WithinSuffix(c, "<img " + c + " " + PlaceholderSrc, " alt=\"Image\">");
    } else if x == t.id {
      HeadHasClass(t);
      WithinSuffix(c, Head(t), ChildrenHtml(t.children));
      WithinSuffix(c, Head(t) + ChildrenHtml(t.children), Tail(t));
    } else {
      RenderedAllHasClass(t.children, x);
      WithinPrefix(c, ChildrenHtml(t.children), Head(t));
      WithinSuffix(c, Head(t) + ChildrenHtml(t.children), Tail(t));
    }
  }

  lemma {:induction false} RenderedAllHasClass(ts: seq<Tree>, x: Id)
    requires x in RenderedAll(ts)
    ensures Within(ClassAttr(x), ChildrenHtml(ts))
    decreases ts
  {
    var init, last := ts[..|ts| - 1], ts[|ts| - 1];
    if x in RenderedAll(init) {
      RenderedAllHasClass(init, x);
      WithinSuffix(ClassAttr(x), ChildrenHtml(init), ElementHtml(last));
    } else {
      RenderedHasClass(last, x);
      WithinPrefix(ClassAttr(x), ElementHtml(last), ChildrenHtml(init));
    }
  }

  /** An image always shows the placeholder picture; its content, items and children are never rendered. */
  lemma ImageMarkup(t: Tree, u: Tree)
    requires t.kind == Img && u.kind == Img && u.id == t.id
    ensures Within(PlaceholderSrc, ElementHtml(t))
    ensures ElementHtml(u) == ElementHtml(t)
  {
    var c := ClassAttr(t.id);
    WithinSelf(PlaceholderSrc);
    WithinPrefix(PlaceholderSrc, PlaceholderSrc, "<img " + c + " ");
    WithinSuffix(PlaceholderSrc, "<img " + c + " " + PlaceholderSrc, " alt=\"Image\">");
  }

  lemma PrefixOf(a: string, b: string)
    ensures a <= a + b
  {
    assert (a + b)[..|a|] == a;
  }

  /** A link always opens with its class and `href="#" target="_blank"`, then its text, then its children. */
  lemma LinkMarkup(t: Tree)
    requires t.kind == A
    ensures LinkOpen(t.id) + DisplayContent(t) <= ElementHtml(t)
  {
    var h := Head(t);
    assert h == LinkOpen(t.id) + DisplayContent(t);
    Assoc(h, ChildrenHtml(t.children), Tail(t));
    PrefixOf(h, ChildrenHtml(t.children) + Tail(t));
  }

  lemma LinkOpenAttrs(id: Id)
    ensures Within(LinkAttrs, LinkOpen(id))
  {
    var c := ClassAttr(id);
    WithinSelf(LinkAttrs);
    WithinPrefix(LinkAttrs, LinkAttrs, "<a " + c + " ");
    WithinSuffix(LinkAttrs, "<a " + c + " " + LinkAttrs, ">");
  }

  /** A list with items shows its items, then its children, then its closing tag: no default items. */
  lemma ListMarkup(t: Tree)
    requires IsList(t.kind) && t.listItems.Some? && |t.listItems.value| > 0
    ensures ElementHtml(t) == ListOpen(t) + ItemsHtml(t.listItems.value) + ChildrenHtml(t.children) + CloseTag(t.kind)
  {
  }

  /** Item `k` is rendered after the items before it and before the items after it. */
  lemma ItemsHtmlSplit(items: seq<string>, k: nat)
    requires k < |items|
    ensures ItemsHtml(items) == ItemsHtml(items[..k]) + ItemHtml(items[k]) + ItemsHtml(items[k + 1..])
  {
    ConcatMapSplit(items, ItemHtml, k);
  }

  /**
   * Cleaning removes the first placeholder and keeps everything else: text
   * `a + placeholder + b` in which no placeholder starts inside `a` is
   * cleaned to `a + b`, whatever `b` holds.
   */
  lemma RemovesFirstPlaceholder(a: string, b: string)
    requires forall j | 0 <= j < |a| :: !OccursAt(a + Placeholder + b, Placeholder, j)
    ensures ReplaceFirst(a + Placeholder + b, Placeholder, "") == a + b
  {
    var s := a + Placeholder + b;
    assert s[|a|..|a| + |Placeholder|] == Placeholder;
    assert OccursAt(s, Placeholder, |a|);
    IndexOfFirst(s, Placeholder);
    var i := IndexOf(s, Placeholder).value;
    assert i == |a|;
    assert s[..i] == a;
    assert s[i + |Placeholder|..] == b;
  }

  /** Only the first placeholder goes: content holding it twice keeps one copy. */
  lemma PlaceholderTwice(t: Tree)
    requires t.content == Some(Placeholder + Placeholder)
    ensures CleanContent(t) == Placeholder
    ensures DisplayContent(t) == Placeholder
  {
    RemovesFirstPlaceholder("", Placeholder);
    assert "" + Placeholder + Placeholder == Placeholder + Placeholder;
    assert "" + Placeholder == Placeholder;
  }

  /** Cleaning leaves nothing exactly when the content is falsy or is the placeholder alone. */
  lemma CleanContentEmpty(t: Tree)
    ensures CleanContent(t) == "" <==> !Truthy(t.content) || t.content == Some(Placeholder)
  {
    if t.content == Some(Placeholder) {
      RemovesFirstPlaceholder("", "");
      assert "" + Placeholder + "" == Placeholder;
    } else if Truthy(t.content) {
      var s := t.content.value;
      match IndexOf(s, Placeholder)
      case None =>
      case Some(i) =>
        var out := s[..i] + "" + s[i + |Placeholder|..];
        assert ReplaceFirst(s, Placeholder, "") == out;
        assert |out| == |s| - |Placeholder|;
        assert s[0..|s|] == s;
    }
  }

  /**
   * A paragraph whose content is missing, empty or only the placeholder
   * shows "Paragraph text"; any other content is shown cleaned.
   */
  lemma ParagraphFallback(t: Tree)
    requires t.kind == P
    ensures !Truthy(t.content) || t.content == Some(Placeholder) ==> DisplayContent(t) == "Paragraph text"
    ensures Truthy(t.content) && t.content != Some(Placeholder) ==> DisplayContent(t) == CleanContent(t)
  {
    CleanContentEmpty(t);
  }

  /**
   * A heading whose content is missing, empty or only the placeholder shows
   * its upper-cased tag followed by " Heading" (an h2 shows "H2 Heading");
   * any other content is shown cleaned.
   */
  lemma HeadingFallback(t: Tree)
    requires IsHeading(t.kind)
    ensures !Truthy(t.content) || t.content == Some(Placeholder) ==>
      DisplayContent(t) == UpperCase(TagName(t.kind)) + " Heading"
    ensures Truthy(t.content) && t.content != Some(Placeholder) ==> DisplayContent(t) == CleanContent(t)
    ensures t.kind == H2 ==> UpperCase(TagName(t.kind)) + " Heading" == "H2 Heading"
  {
    CleanContentEmpty(t);
  }

  /** A childless paragraph holding "Hello" renders as `<p class="element-<id>">Hello</p>`. */
  lemma HelloParagraph(t: Tree)
    requires t.kind == P && t.content == Some("Hello") && t.children == []
    ensures ElementHtml(t) == OpenTag(P, t.id) + "Hello" + CloseTag(P)
  {
    IndexOfFirst("Hello", Placeholder);
    assert IndexOf("Hello", Placeholder) == None;
  }

  /** A tree built from a store without images shows every node's class: nothing is dropped. */
  lemma {:induction false} NoImageRendersAll(es: seq<Element>, id: Id, depth: map<Id, nat>, bound: nat)
    requires Ranked(es, depth, bound) && forall e | e in es :: e.kind != Img
    ensures Rendered(TreeOf(es, id, depth, bound)) == Preorder(TreeOf(es, id, depth, bound))
    decreases Measure(id, depth, bound), 1, 0
  {
    match Find(es, id)
    case None =>
    case Some(e) =>
      var m := Measure(id, depth, bound);
      NoImageRendersAllChildren(es, e.children, m, depth, bound);
  }

  lemma {:induction false} NoImageRendersAllChildren(es: seq<Element>, cs: seq<Id>, m: nat, depth: map<Id, nat>, bound: nat)
    requires Ranked(es, depth, bound) && forall e | e in es :: e.kind != Img
    requires forall c | c in cs :: Measure(c, depth, bound) < m
    ensures RenderedAll(ChildTrees(es, cs, m, depth, bound)) == PreorderAll(ChildTrees(es, cs, m, depth, bound))
    decreases m, 0, |cs|
  {
    if cs != [] {
      var init, last := cs[..|cs| - 1], cs[|cs| - 1];
      NoImageRendersAllChildren(es, init, m, depth, bound);
      var front := ChildTrees(es, init, m, depth, bound);
      match Find(es, last)
      case None =>
        assert ChildTrees(es, cs, m, depth, bound) == front + [];
        assert front + [] == front;
      case Some(child) =>
        var t := TreeOf(es, last, depth, bound);
        NoImageRendersAll(es, last, depth, bound);
        assert ChildTrees(es, cs, m, depth, bound) == front + [t];
        assert (front + [t])[..|front|] == front;
    }
  }

  /**
   * On a well-formed store without images, the page markup carries the
   * class of every element, so every CSS rule applies to some tag.
   */
  lemma HtmlShowsEveryElement(es: seq<Element>, root: Id, depth: map<Id, nat>, bound: nat, x: Id)
    requires WellFormed(es, root) && Ranked(es, depth, bound) && x in Ids(es)
    requires forall e | e in es :: e.kind != Img
    ensures Within(ClassAttr(x), GenerateHtml(es, root, depth, bound))
  {
    TreeCoversStore(es, root, depth, bound);
    NoImageRendersAll(es, root, depth, bound);
    RenderedHasClass(TreeOf(es, root, depth, bound), x);
  }
}
