# Page builder store

A Dafny model of the document store of a drag-and-drop page builder
(`usePageBuilderStore`, a zustand store). The store holds a flat list of
elements linked by ids (`children` lists child ids in render order,
`parentId` names the owner), the id of the selected element and the id of
the root element. Its actions add, edit, delete and group elements and edit
the item lists of `ul`/`ol` elements; three readers turn the flat list into
a nested tree, into HTML markup and into a stylesheet.

Layout, one module per file:

- `common.dfy`: optional values, JavaScript truthiness, number formatting,
  `join`, `indexOf` and the first-occurrence `replace`.
- `styles.dfy`: a style as an ordered list of properties with unique names.
  Property order is JavaScript's insertion order. The file also holds object
  spread as a right-biased merge, `delete`, `x = x || v`, and the camelCase
  to kebab-case conversion.
- `elements.dfy`: `ElementType`, the element record, `find`, and the tree
  invariant `WellFormed`. It also holds `Ranked`, a ranking of the child links
  that shows they are acyclic; the recursive walks terminate by it.
- `descendants.dfy`: `getDescendantIds`, as a specification function and as
  a method that accumulates ids in a loop, as the source does.
- `tree.dfy`: `getElementsTree`'s `buildTree`, as a function and as a method
  that pushes child nodes in a loop.
- `html.dfy`: `generateHTML`.
- `css.dfy`: `generateCSS`, with the in-place cleaning of each style as a
  method (`CleanStyle`) proved equal to a function (`CleanedStyle`).
- `actions.dfy` and `lists.dfy`: each action as a function from the old
  state to the new one, which is what the action's `set(state => ...)`
  computes. Each comes with lemmas for its no-op cases, its effect and the
  invariant it keeps.
- `seed.dfy`: the initial page.
- `store.dfy`: the store as a class with the fields `elements`,
  `selectedElementId` and `rootElementId`. Each action is a method that
  installs the new state. Each method is proved to keep the tree invariant
  `Valid()` wherever the source does.

`uuidv4()` is modelled as an id parameter. The caller supplies it, and a
precondition (`Fresh`) says it is new. The console output is left out.

## Model

| member | source | states |
|---|---|---|
| Store.PageBuilderStore.constructor | src/store/pageBuilderStore.ts:63-174 | the store starts as the seed page with nothing selected, and the seed page is a well-formed ranked tree |
| Store.PageBuilderStore.AddElement | src/store/pageBuilderStore.ts:176-384 | the new state is `addElement`'s result; a tree stays a tree, and an acyclic store stays acyclic |
| Store.PageBuilderStore.SelectElement | src/store/pageBuilderStore.ts:386-388 | only the selection changes, to the given id; the elements and the ranking are unchanged |
| Store.PageBuilderStore.UpdateElementStyle | src/store/pageBuilderStore.ts:390-396 | the new state is `updateElementStyle`'s result; a tree stays a tree, and an acyclic store stays acyclic under the same ranking |
| Store.PageBuilderStore.UpdateElementContent | src/store/pageBuilderStore.ts:398-404 | the new state is `updateElementContent`'s result; a tree stays a tree, and an acyclic store stays acyclic under the same ranking |
| Store.PageBuilderStore.UpdateElementName | src/store/pageBuilderStore.ts:406-420 | the new state is `updateElementName`'s result; a tree stays a tree, and an acyclic store stays acyclic under the same ranking |
| Store.PageBuilderStore.DeleteElement | src/store/pageBuilderStore.ts:422-473 | the new state is `deleteElement`'s result; a tree stays a tree, and the store stays acyclic under the same ranking |
| Store.PageBuilderStore.GroupElements | src/store/pageBuilderStore.ts:475-539 | the new state is `groupElements`'s result; a tree stays a tree when the grouped ids share the first one's parent; such a grouping also keeps any acyclic store with distinct ids, agreeing links and present parents acyclic |
| Store.PageBuilderStore.GetElementsTree | src/store/pageBuilderStore.ts:541-587 | the tree `buildTree(rootElementId)` returns; on a tree store every element appears in it |
| Store.PageBuilderStore.GenerateHTML | src/store/pageBuilderStore.ts:589-664 | the markup of the element tree; on a tree store without images, every element's `class="element-<id>"` occurs in it |
| Store.PageBuilderStore.GenerateCSS | src/store/pageBuilderStore.ts:666-919 | the stylesheet starts with the base styles and a blank line, and every element's rule occurs in it |
| Store.PageBuilderStore.AddListItem | src/store/pageBuilderStore.ts:921-948 | the new state is `addListItem`'s result; a tree stays a tree, and an acyclic store stays acyclic under the same ranking |
| Store.PageBuilderStore.UpdateListItem | src/store/pageBuilderStore.ts:950-973 | the new state is `updateListItem`'s result; a tree stays a tree, and an acyclic store stays acyclic under the same ranking |
| Store.PageBuilderStore.DeleteListItem | src/store/pageBuilderStore.ts:975-1029 | the new state is `deleteListItem`'s result; a tree stays a tree when the list element has no child elements; an acyclic store stays acyclic under the same ranking for any list |
| Store.PageBuilderStore.ReorderListItem | src/store/pageBuilderStore.ts:1031-1056 | the new state is `reorderListItem`'s result; a tree stays a tree, and an acyclic store stays acyclic under the same ranking |
| Seed.SeedWellFormed | src/store/pageBuilderStore.ts:74-172 | with seven distinct ids, the seed elements form a well-formed tree under the root, ranked four levels deep |
| Seed.SeedIdSet | src/store/pageBuilderStore.ts:74-172 | the seed holds exactly the seven generated ids |
| Seed.RootStyleIsSpread | src/store/pageBuilderStore.ts:79-83 | the root's style is the default style spread with `width` and `height` of 100% |
| Actions.AddElementMissingParent | src/store/pageBuilderStore.ts:348-358 | when the effective parent (`parentId`, or the root when `parentId` is absent or empty) is not an element, the state is unchanged |
| Actions.AddElementEffect | src/store/pageBuilderStore.ts:177-383 | otherwise exactly one element is appended at the end; the new id goes last in the parent's `children`; the new element is selected; no other element changes |
| Actions.NewElementShape | src/store/pageBuilderStore.ts:317-343 | the new element has the new id, the requested type and no children; its parent is `parentId`, or the root when that is falsy; a `ul` or `ol` starts with the items "List item 1" to "List item 3" and any other type with none; a `p` or `h1`-`h3` starts with the content "Double click to edit text", an `h4`-`h6` with none |
| Actions.NewStyleUnique | src/store/pageBuilderStore.ts:184-272 | every type's default style names each property once |
| Actions.AddElementCount | src/store/pageBuilderStore.ts:274-325 | adding an element raises its type's counter (non-root divs; lists of both kinds together) by exactly one |
| Actions.AddElementNumbering | src/store/pageBuilderStore.ts:274-325 | a numbered type's default content is its noun and the counter plus one, so the next element of that type gets the next number |
| Actions.AddElementKeepsTree | src/store/pageBuilderStore.ts:348-383 | adding a fresh id under any parent keeps the tree invariant and a ranking |
| Actions.AddElementKeepsRanking | src/store/pageBuilderStore.ts:348-383 | on any ranked store, adding a fresh id keeps a ranking, one level deeper |
| Actions.DeleteElementNoop | src/store/pageBuilderStore.ts:425-433 | deleting the root, an unknown id or an element without a parent changes nothing |
| Actions.DeleteElementEffect | src/store/pageBuilderStore.ts:450-471 | otherwise the remaining ids are exactly the old ids minus the element's descendants, in their old order; the parent loses the id from `children` and becomes selected; every other survivor is unchanged |
| Actions.DeleteElementKeepsTree | src/store/pageBuilderStore.ts:422-473 | deleting keeps the tree invariant and the ranking |
| Actions.DeleteElementKeepsRanking | src/store/pageBuilderStore.ts:422-473 | on any ranked store, deleting keeps the same ranking |
| Actions.SelectElementOnly | src/store/pageBuilderStore.ts:386-388 | selecting changes only the selection |
| Actions.UpdateElementStyleEffect | src/store/pageBuilderStore.ts:390-396 | only elements with the id change, and only in their style; a given property overwrites, an omitted one persists |
| Actions.UpdateElementStyleOrder | src/store/pageBuilderStore.ts:393 | the merged style keeps the old properties first, in their order, and names each property once |
| Actions.UpdateElementContentEffect | src/store/pageBuilderStore.ts:398-404 | only elements with the id change, and only in their content |
| Actions.UpdateElementNameEffect | src/store/pageBuilderStore.ts:406-420 | a rename sets `content`, and sets `groupName` only when `isGroup` is set; nothing else changes |
| Actions.EditsKeepTree | src/store/pageBuilderStore.ts:390-420 | the three edits keep the tree invariant and the ranking |
| Actions.EditsKeepRanking | src/store/pageBuilderStore.ts:390-420 | on any ranked store, the three edits keep the same ranking |
| Actions.GroupElementsNoop | src/store/pageBuilderStore.ts:476-486 | fewer than two ids, or a first id that is missing or has no parent, changes nothing |
| Actions.GroupElementsEffect | src/store/pageBuilderStore.ts:488-537 | otherwise a group div is appended with the given ids as children, in the given order, under the first element's parent. That parent drops the grouped ids and gets the group id last. Every grouped element's parent becomes the group. The group has the group style and no list items, it is selected, and nothing else changes |
| Actions.GroupElementsNumbering | src/store/pageBuilderStore.ts:489-491 | the group is named "Group N", N being the number of existing groups plus one, and the group count grows by one |
| Actions.GroupElementsKeepsTree | src/store/pageBuilderStore.ts:475-539 | grouping siblings under a fresh id keeps the tree invariant, with a ranking twice as deep |
| Actions.GroupElementsKeepsRanking | src/store/pageBuilderStore.ts:475-539 | grouping siblings on a store with distinct ids, agreeing links and present parents keeps a ranking, tree or not |
| Actions.GroupingAcrossParents | src/store/pageBuilderStore.ts:485-532 | grouping an element with its own parent makes the root a child of the group; the store then has no root and its child links have no ranking |
| Descendants.CollectDescendants | src/store/pageBuilderStore.ts:436-448 | the accumulating loop returns the id, then each child's descendants in `children` order |
| Descendants.DescendantsArePresent | src/store/pageBuilderStore.ts:436-448 | every collected id names an element |
| Descendants.DescendantsClosed | src/store/pageBuilderStore.ts:443-445 | the collected set contains every present child of every collected element |
| Descendants.DescendantsLeast | src/store/pageBuilderStore.ts:436-448 | it is contained in every children-closed set holding the start id, so exactly the subtree is removed |
| Descendants.DescendantsParentCollected | src/store/pageBuilderStore.ts:436-448 | on a symmetric store, every collected id other than the start has its parent collected |
| Tree.BuildTree | src/store/pageBuilderStore.ts:544-572 | the loop that pushes child nodes builds the tree the specification function describes |
| Tree.TreeRoot | src/store/pageBuilderStore.ts:545-571 | a missing id gives the placeholder node `error-element` with no children; a found element's node carries the element's own fields |
| Tree.ChildTreesOrder | src/store/pageBuilderStore.ts:558-566 | the child nodes are the child ids that name an element, in `children` order; missing ids are skipped |
| Tree.PreorderIsDescendants | src/store/pageBuilderStore.ts:544-572 | the tree's depth-first ids are exactly `getDescendantIds` of its root |
| Tree.TreeCoversStore | src/store/pageBuilderStore.ts:574-575 | on a well-formed store, every element appears in the tree built from the root |
| Html.ChildrenHtmlSplit | src/store/pageBuilderStore.ts:595 | the children's markup is each child's markup, concatenated in order |
| Html.OpenTagHasClass | src/store/pageBuilderStore.ts:598 | every opening tag carries `class="element-<id>"` |
| Html.RenderedHasClass | src/store/pageBuilderStore.ts:592-661 | every node the recursion renders puts its class into the output |
| Html.NoImageRendersAll | src/store/pageBuilderStore.ts:592-661 | without images, the nodes rendered are the whole tree in depth-first order |
| Html.HtmlShowsEveryElement | src/store/pageBuilderStore.ts:589-664 | on a well-formed store without images, every element's class occurs in the page markup |
| Html.ImageMarkup | src/store/pageBuilderStore.ts:617-619 | an image always emits the placeholder `src`, and its markup depends on its id alone |
| Html.LinkMarkup | src/store/pageBuilderStore.ts:655-657 | a link's markup starts with its opening tag followed by its display text |
| Html.LinkOpenAttrs | src/store/pageBuilderStore.ts:656 | every link's opening tag carries `href="#" target="_blank"` |
| Html.ListMarkup | src/store/pageBuilderStore.ts:627-635 | a list with items emits its opening tag, its items, its children's markup and its closing tag, in that order |
| Html.ItemsHtmlSplit | src/store/pageBuilderStore.ts:628-633 | the items' markup is one `<li>` per item, in order |
| Html.RemovesFirstPlaceholder | src/store/pageBuilderStore.ts:601-603 | `replace` removes the first occurrence of the placeholder text only |
| Html.PlaceholderTwice | src/store/pageBuilderStore.ts:601-603 | content holding the placeholder twice keeps one copy |
| Html.CleanContentEmpty | src/store/pageBuilderStore.ts:601-603 | cleaning leaves nothing exactly when the content is missing, empty or the placeholder alone |
| Html.ParagraphFallback | src/store/pageBuilderStore.ts:604-607 | a paragraph with missing, empty or placeholder-only content shows "Paragraph text"; any other content is shown cleaned |
| Html.HeadingFallback | src/store/pageBuilderStore.ts:604-609 | a heading with missing, empty or placeholder-only content shows its upper-cased tag and " Heading" ("H2 Heading" for an `h2`); any other content is shown cleaned |
| Html.HelloParagraph | src/store/pageBuilderStore.ts:646-652 | a childless paragraph with content "Hello" renders as its tags around "Hello" |
| Css.CleanStyle | src/store/pageBuilderStore.ts:757-903 | the statement-by-statement edits of the `cleanStyle` copy produce the cleaned style |
| Css.EditorOnlyDropped | src/store/pageBuilderStore.ts:760-761 | the cleaned style has no `outline` and no `zIndex` |
| Css.NoEditorDecls | src/store/pageBuilderStore.ts:905-912 | no property of the cleaned style is `outline` or `zIndex` |
| Css.SelectionBorderDropped | src/store/pageBuilderStore.ts:764-769 | for types other than button, `border` is dropped exactly when it is one of the two selection borders |
| Css.ButtonBorder | src/store/pageBuilderStore.ts:838-848 | a button keeps a non-selection border and otherwise gets `none` |
| Css.SelectionBackgroundDropped | src/store/pageBuilderStore.ts:772-774 | `background` is dropped exactly when it is `#1890ff` |
| Css.EmptyContainerSized | src/store/pageBuilderStore.ts:777-791 | an empty `div` or `section` is exported with a minimum height, a minimum width and a padding |
| Css.ParagraphFontSize | src/store/pageBuilderStore.ts:826-830 | a paragraph without a truthy `fontSize` gets `1rem`, and one with it keeps it |
| Css.HeadingDefaults | src/store/pageBuilderStore.ts:851-896 | a heading gets its level's font size and margin and a bold weight, each only where it has no truthy value |
| Css.FlexHasDisplay | src/store/pageBuilderStore.ts:901-903 | every cleaned style with a flex direction has a display |
| Css.CleanedKeepsOthers | src/store/pageBuilderStore.ts:757-903 | a property that no cleaning step touches passes through unchanged |
| Css.CleanedUnique | src/store/pageBuilderStore.ts:757-903 | the cleaned style names each property once |
| Css.RuleHasDecl | src/store/pageBuilderStore.ts:905-914 | every property of the cleaned style stands as a declaration in the element's rule |
| Css.RuleShowsProperty | src/store/pageBuilderStore.ts:905-914 | a property of the cleaned style is exported as `kebab-name: value;` |
| Css.CssHasRule | src/store/pageBuilderStore.ts:916-918 | the stylesheet is the base styles, a blank line, then the rules, each of which occurs in it |
| Styles.MergeGet | src/store/pageBuilderStore.ts:393 | in `{ ...a, ...b }` a property given in `b` overwrites, and one `b` omits persists |
| Styles.MergeKeepsOrder | src/store/pageBuilderStore.ts:393 | the spread keeps `a`'s properties first, in their order |
| Styles.MergeFresh | src/store/pageBuilderStore.ts:79-83 | spreading properties that are all new appends them in their order |
| Styles.PutNames | src/store/pageBuilderStore.ts:781 | assigning a property keeps the key order, and a new key goes last |
| Styles.RemoveNames | src/store/pageBuilderStore.ts:760 | `delete` removes the key and keeps the order of the others |
| Styles.SetDefault | src/store/pageBuilderStore.ts:781 | `if (!s[name]) s[name] = value` leaves a truthy value and otherwise sets `value` |
| Styles.KebabCaseIsLowerCase | src/store/pageBuilderStore.ts:909 | the kebab-case name has no upper-case letter |
| Styles.KebabCaseRoundTrip | src/store/pageBuilderStore.ts:909 | converting back to camelCase gives the original name, when the name has no dash |
| Lists.SpliceStart | src/store/pageBuilderStore.ts:990 | `splice` counts a negative start from the end, clamps it at 0, and clamps a start past the end to the length |
| Lists.RemoveAt | src/store/pageBuilderStore.ts:990 | `splice(k, 1)` drops entry `k` and shifts the later ones down, and removes nothing at the end |
| Lists.InsertAt | src/store/pageBuilderStore.ts:1048 | `splice(k, 0, x)` puts `x` at `k` and shifts the later entries up |
| Lists.RemoveInserted | src/store/pageBuilderStore.ts:1047-1048 | removing an entry just inserted gives the list back |
| Lists.MovedPermutes | src/store/pageBuilderStore.ts:1046-1048 | a reorder keeps the length and the multiset of the items |
| Lists.MovedPlaces | src/store/pageBuilderStore.ts:1047-1048 | the moved entry lands at the insertion start, and the other entries keep their relative order |
| Lists.MovedInRange | src/store/pageBuilderStore.ts:1047-1048 | with indices in range, the item at `oldIndex` ends up at `newIndex` |
| Lists.AddListItemNoop | src/store/pageBuilderStore.ts:923-930 | an unknown id or an element that is not a list changes nothing |
| Lists.AddListItemEffect | src/store/pageBuilderStore.ts:932-946 | otherwise the list gets the content, or "Item N+1" when the content is falsy, appended; nothing else changes |
| Lists.AddListItemKeepsTree | src/store/pageBuilderStore.ts:921-948 | adding an item keeps the tree invariant |
| Lists.AddListItemKeepsRanking | src/store/pageBuilderStore.ts:921-948 | on any ranked store, adding an item keeps the same ranking |
| Lists.UpdateListItemRefused | src/store/pageBuilderStore.ts:952-962 | an unknown id, a missing item list or `index >= length` changes nothing |
| Lists.UpdateListItemEffect | src/store/pageBuilderStore.ts:964-971 | otherwise item `index` becomes the content; nothing else changes |
| Lists.UpdateListItemNegative | src/store/pageBuilderStore.ts:965 | a negative index passes the guard but leaves every item as it was |
| Lists.UpdateListItemKeepsTree | src/store/pageBuilderStore.ts:950-973 | updating an item keeps the tree invariant |
| Lists.UpdateListItemKeepsRanking | src/store/pageBuilderStore.ts:950-973 | on any ranked store, updating an item keeps the same ranking |
| Lists.DeleteListItemRefused | src/store/pageBuilderStore.ts:977-987 | an unknown id, a missing item list or `index >= length` changes nothing |
| Lists.DeleteListItemEffect | src/store/pageBuilderStore.ts:989-1027 | with two or more items, the entry at the splice start is removed (a negative index counts from the end) and nothing else changes |
| Lists.DeleteListItemDropsList | src/store/pageBuilderStore.ts:992-1020 | removing the last item removes the list element instead |
| Lists.DropListRefused | src/store/pageBuilderStore.ts:995-1000 | a list without a parent or with a missing parent is kept |
| Lists.DropListEffect | src/store/pageBuilderStore.ts:1002-1019 | otherwise only the list's id disappears and the other ids keep their order, the parent drops it from `children` and becomes selected, and no other element changes |
| Lists.DropListAsDelete | src/store/pageBuilderStore.ts:1003-1014 | for a childless list this is exactly `deleteElement` of the list |
| Lists.DeleteListItemKeepsTree | src/store/pageBuilderStore.ts:975-1029 | deleting an item of a childless list keeps the tree invariant |
| Lists.DeleteListItemKeepsRanking | src/store/pageBuilderStore.ts:975-1029 | on any ranked store, deleting an item keeps the same ranking, whether or not the list has child elements |
| Lists.DeleteListItemOrphans | src/store/pageBuilderStore.ts:1013-1014 | removing a list that has a child element leaves the child pointing to a parent that is gone |
| Lists.ReorderListItemRefused | src/store/pageBuilderStore.ts:1033-1044 | an unknown id, a missing or empty item list, or either index `>= length` changes nothing |
| Lists.ReorderListItemEffect | src/store/pageBuilderStore.ts:1046-1054 | otherwise the list gets its items with one entry moved; nothing else changes |
| Lists.ReorderListItemKeepsTree | src/store/pageBuilderStore.ts:1031-1056 | reordering keeps the tree invariant |
| Lists.ReorderListItemKeepsRanking | src/store/pageBuilderStore.ts:1031-1056 | on any ranked store, reordering keeps the same ranking |

## Left out

- The `catch` branch of `getElementsTree` (576-586) is not modelled. It is reached only when the recursion overflows the stack on a cyclic store. The model requires the child links to be acyclic (`Acyclic()`) for `deleteElement`, `getElementsTree` and `generateHTML`.
- Store.PageBuilderStore.GroupElements: the tree invariant is proved only when the grouped ids share the first element's parent. The source does not check this, and other groupings can break the tree (`Actions.GroupingAcrossParents`). Acyclicity is proved kept for sibling groupings only, and only on stores with distinct ids, agreeing links and present parents.
- Store.PageBuilderStore.DeleteListItem: the tree invariant is proved only for a list element without child elements. Otherwise the source orphans the children (`Lists.DeleteListItemOrphans`).
- Lists.ReorderListItem: an empty item list with two negative indices passes the source's guard. `splice` then inserts `undefined` into the list. The model treats an empty list as refused and leaves it unchanged.
- Style values are strings. `undefined` and numeric values, and so the `value !== undefined` filter (906), are not modelled. Nor is the ordering JavaScript gives integer-like property keys.
- Indices are integers; fractional or `NaN` indices are not modelled.
- The camelCase conversion and `toUpperCase` are modelled for ASCII letters only.
- `uuidv4()` is modelled as an id parameter with a freshness precondition; randomness is not modelled.
- `console.*` output, the zustand `create`/`set`/`get` plumbing (as opposed to the state it replaces), and the other stores and UI components are not part of this model.
- The seed's counters are not evaluated on the seed page, e.g. that the first added div is "Div 3". Only the general counting lemmas are proved.
- The base stylesheet (670-751) is a constant string; nothing is proved about its contents.
