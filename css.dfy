/**
 * `generateCSS` (src/store/pageBuilderStore.ts): a fixed base stylesheet,
 * then one `.element-<id>` rule per element in store order. Each rule is the
 * element's style with the editor's selection styling stripped and per-type
 * defaults filled in, with the property names in kebab-case.
 */
module Css {
  import opened Common
  import opened Styles
  import opened Elements

  /** The base stylesheet every export starts with. */
  const BaseCss := @"
/* Base styles for consistent text rendering */
* {
  box-sizing: border-box;
}

body {
  font-family: 'Arial', sans-serif;
  line-height: 1.5;
  color: #333;
  margin: 0;
  padding: 0;
}

.page-container {
  width: 100%;
  max-width: none !important;
}

h1 {
  font-size: 2rem;
  margin-bottom: 1rem;
}

h2 {
  font-size: 1.75rem;
  margin-bottom: 0.875rem;
}

h3 {
  font-size: 1.5rem;
  margin-bottom: 0.75rem;
}

p {
  font-size: 1rem;
  margin-bottom: 1rem;
}

a {
  color: #1890ff;
  text-decoration: none;
}

a:hover {
  text-decoration: underline;
}

button {
  font-size: 1rem;
  padding: 0.5rem 1rem;
  background-color: #212529;
  color: white;
  border: none;
  border-radius: 4px;
  cursor: pointer;
  width: 100%;
  text-align: center;
}

ul, ol {
  padding-left: 30px;
  margin-bottom: 1rem;
  list-style-position: outside;
  max-width: 100%;
  word-break: break-word;
  overflow-wrap: break-word;
}

li {
  max-width: 100%;
  word-break: break-word;
  overflow-wrap: break-word;
  margin-left: 0;
  display: list-item;
}

img {
  max-width: 100%;
  height: auto;
}
"

  const DashedSelection := "1px dashed #1890ff"
  const SolidSelection := "2px solid #1890ff"
  const SelectionBackground := "#1890ff"

  /** Every `x = x || value` of a list of defaults, in order. */
  function SetDefaults(s: Style, defaults: seq<Prop>): Style
    decreases |defaults|
  {
    if defaults == [] then s else SetDefaults(SetDefault(s, defaults[0].name, defaults[0].value), defaults[1..])
  }

  /** Deleting `outline` and `zIndex`, and `border` and `background` when they are the editor's selection styling. */
  function StripEditorStyles(s: Style): Style
  {
    var s1 := Remove(Remove(s, "outline"), "zIndex");
    var s2 := if Get(s1, "border") == Some(DashedSelection) || Get(s1, "border") == Some(SolidSelection) then Remove(s1, "border") else s1;
    if Get(s2, "background") == Some(SelectionBackground) then Remove(s2, "background") else s2
  }

  predicate IsContainer(kind: ElementType)
  {
    kind == Div || kind == Section
  }

  /** Minimum size for an empty container, then default padding for any container. */
  function ContainerDefaults(e: Element, s: Style): Style
  {
    var s1 := if IsContainer(e.kind) && |e.children| == 0 then SetDefaults(s, [Prop("minHeight", "20px"), Prop("minWidth", "20px")]) else s;
    if IsContainer(e.kind) then SetDefault(s1, "padding", "4px") else s1
  }

  function HeadingFontSize(kind: ElementType): string
    requires IsHeading(kind)
  {
    match kind
    case H1 => "2rem"
    case H2 => "1.75rem"
    case H3 => "1.5rem"
    case H4 => "1.25rem"
    case H5 => "1.1rem"
    case H6 => "1rem"
  }

  function HeadingMargin(kind: ElementType): string
  {
    match kind
    case H1 => "0 0 1rem 0"
    case H2 => "0 0 0.875rem 0"
    case H3 => "0 0 0.75rem 0"
    case _ => "0 0 0.5rem 0"
  }

  /** The defaults of the `switch (el.type)` block, in the order the source assigns them (buttons aside). */
  function TypeDefaultList(kind: ElementType): seq<Prop>
  {
    match kind
    case Ul => ListDefaults("disc")
    case Ol => ListDefaults("decimal")
    case Li => [Prop("maxWidth", "100%"), Prop("wordBreak", "break-word"), Prop("overflowWrap", "break-word"),
                Prop("marginLeft", "0"), Prop("display", "list-item")]
    case Img => [Prop("width", "150px"), Prop("height", "auto"), Prop("objectFit", "contain")]
    case P => [Prop("fontSize", "1rem"), Prop("margin", "0 0 1rem 0")]
    case A => [Prop("color", "#1890ff"), Prop("textDecoration", "none")]
    case Button => [Prop("color", "white"), Prop("border", "none"), Prop("borderRadius", "4px"),
                    Prop("cursor", "pointer"), Prop("width", "100%"), Prop("textAlign", "center")]
    case H1 | H2 | H3 | H4 | H5 | H6 =>
      [Prop("fontSize", HeadingFontSize(kind)), Prop("margin", HeadingMargin(kind)), Prop("fontWeight", "bold")]
    case Div | Span | Section => []
  }

  function ListDefaults(listStyleType: string): seq<Prop>
  {
    [Prop("listStylePosition", "outside"), Prop("paddingLeft", "30px"), Prop("maxWidth", "100%"),
     Prop("wordBreak", "break-word"), Prop("overflowWrap", "break-word"), Prop("listStyleType", listStyleType),
     Prop("margin", "0 0 1rem 0")]
  }

  /**
   * A button first gets its padding, and a background colour only when it
   * has neither `background` nor `backgroundColor`; the rest are plain defaults.
   */
  function ButtonStart(s: Style): Style
  {
    var s1 := SetDefault(s, "padding", "0.5rem 1rem");
    if !Truthy(Get(s1, "background")) && !Truthy(Get(s1, "backgroundColor")) then Put(s1, "backgroundColor", "#212529") else s1
  }

  function TypeDefaults(kind: ElementType, s: Style): Style
  {
    var s1 := if kind == Button then ButtonStart(s) else s;
    SetDefaults(s1, TypeDefaultList(kind))
  }

  /** A style with a `flexDirection` but no `display` is made a flex container. */
  function FlexDisplay(s: Style): Style
  {
    if Truthy(Get(s, "flexDirection")) && !Truthy(Get(s, "display")) then Put(s, "display", "flex") else s
  }

  /** The `cleanStyle` of an element, after every step of the source. */
  function CleanedStyle(e: Element): Style
  {
    FlexDisplay(TypeDefaults(e.kind, ContainerDefaults(e, StripEditorStyles(e.style))))
  }

  /**
   * The `cleanStyle` copy as the source edits it: deletions, then one
   * conditional default at a time, in the order of the source's statements.
   */
  method CleanStyle(e: Element) returns (s: Style)
    ensures s == CleanedStyle(e)
  {
    s := e.style;
    s := Remove(s, "outline");
    s := Remove(s, "zIndex");
    if Get(s, "border") == Some(DashedSelection) || Get(s, "border") == Some(SolidSelection) {
      s := Remove(s, "border");
    }
    if Get(s, "background") == Some(SelectionBackground) {
      s := Remove(s, "background");
    }
    ghost var stripped := s;
    if IsContainer(e.kind) && |e.children| == 0 {
      s := SetDefault(s, "minHeight", "20px");
      s := SetDefault(s, "minWidth", "20px");
    }
    if IsContainer(e.kind) {
      s := SetDefault(s, "padding", "4px");
    }
    assert s == ContainerDefaults(e, stripped);
    if e.kind == Button {
      s := ButtonStart(s);
    }
    ghost var started := s;
    var ds := TypeDefaultList(e.kind);
    for k := 0 to |ds|
      invariant SetDefaults(s, ds[k..]) == SetDefaults(started, ds)
    {
      assert ds[k..][1..] == ds[k + 1..];
      s := SetDefault(s, ds[k].name, ds[k].value);
    }
    if Truthy(Get(s, "flexDirection")) && !Truthy(Get(s, "display")) {
      s := Put(s, "display", "flex");
    }
  }

  /** The names the `switch (el.type)` block may assign for `kind`. */
  function TypeKeys(kind: ElementType): set<string>
  {
    match kind
    case Ul | Ol =>
      {"listStylePosition", "paddingLeft", "maxWidth", "wordBreak", "overflowWrap", "listStyleType", "margin"}
    case Li => {"maxWidth", "wordBreak", "overflowWrap", "marginLeft", "display"}
    case Img => {"width", "height", "objectFit"}
    case P => {"fontSize", "margin"}
    case A => {"color", "textDecoration"}
    case Button => {"padding", "backgroundColor", "color", "border", "borderRadius", "cursor", "width", "textAlign"}
    case H1 | H2 | H3 | H4 | H5 | H6 => {"fontSize", "margin", "fontWeight"}
    case Div | Section | Span => {}
  }

  /** `TypeKeys` names every property the type defaults assign. */
  lemma TypeKeysCover(kind: ElementType)
    ensures forall p | p in TypeDefaultList(kind) :: p.name in TypeKeys(kind)
  {
    var ds := TypeDefaultList(kind);
    forall p | p in ds ensures p.name in TypeKeys(kind) {
      var i :| 0 <= i < |ds| && ds[i] == p;
    }
  }

  /** The names any step after the stripping may assign. */
  function FilledKeys(kind: ElementType): set<string>
  {
    TypeKeys(kind) + {"minHeight", "minWidth", "padding", "display"}
  }

  /** The names the stripping may delete. */
  const EditorKeys: set<string> := {"outline", "zIndex", "border", "background"}

  lemma SetDefaultKeeps(s: Style, name: string, value: string, other: string)
    requires other != name
    ensures Get(SetDefault(s, name, value), other) == Get(s, other)
  {
    if !Truthy(Get(s, name)) {
      PutKeepsOthers(s, name, value, other);
    }
  }

  /** Assigning a list of defaults leaves every other property alone. */
  lemma {:induction false} SetDefaultsKeeps(s: Style, ds: seq<Prop>, name: string)
    requires forall p | p in ds :: p.name != name
    ensures Get(SetDefaults(s, ds), name) == Get(s, name)
    decreases |ds|
  {
    if ds != [] {
      SetDefaultKeeps(s, ds[0].name, ds[0].value, name);
      SetDefaultsKeeps(SetDefault(s, ds[0].name, ds[0].value), ds[1..], name);
    }
  }

  /** Each default of the list is applied exactly when the property was falsy. */
  lemma {:induction false} SetDefaultsGet(s: Style, ds: seq<Prop>, k: nat)
    requires k < |ds| && UniqueNames(ds)
    ensures Get(SetDefaults(s, ds), ds[k].name) == if Truthy(Get(s, ds[k].name)) then Get(s, ds[k].name) else Some(ds[k].value)
    decreases |ds|
  {
    var s1 := SetDefault(s, ds[0].name, ds[0].value);
    if k == 0 {
      SetDefaultsKeeps(s1, ds[1..], ds[0].name);
    } else {
      SetDefaultsGet(s1, ds[1..], k - 1);
      SetDefaultKeeps(s, ds[0].name, ds[0].value, ds[k].name);
    }
  }

  lemma {:induction false} SetDefaultsUnique(s: Style, ds: seq<Prop>)
    requires UniqueNames(s)
    ensures UniqueNames(SetDefaults(s, ds))
    decreases |ds|
  {
    if ds != [] {
      if !Truthy(Get(s, ds[0].name)) {
        PutUnique(s, ds[0].name, ds[0].value);
      }
      SetDefaultsUnique(SetDefault(s, ds[0].name, ds[0].value), ds[1..]);
    }
  }

  lemma TypeDefaultsKeeps(kind: ElementType, s: Style, name: string)
    requires name !in TypeKeys(kind)
    ensures Get(TypeDefaults(kind, s), name) == Get(s, name)
  {
    var s1 := if kind == Button then ButtonStart(s) else s;
    if kind == Button {
      ButtonStartKeeps(s, name);
    }
    TypeKeysCover(kind);
    SetDefaultsKeeps(s1, TypeDefaultList(kind), name);
  }

  lemma ContainerDefaultsKeeps(e: Element, s: Style, name: string)
    requires name !in {"minHeight", "minWidth", "padding"}
    ensures Get(ContainerDefaults(e, s), name) == Get(s, name)
  {
    if IsContainer(e.kind) && |e.children| == 0 {
      SetDefaultsKeeps(s, [Prop("minHeight", "20px"), Prop("minWidth", "20px")], name);
    }
    var s1 := if IsContainer(e.kind) && |e.children| == 0 then SetDefaults(s, [Prop("minHeight", "20px"), Prop("minWidth", "20px")]) else s;
    if IsContainer(e.kind) {
      SetDefaultKeeps(s1, "padding", "4px", name);
    }
  }

  lemma FlexDisplayKeeps(s: Style, name: string)
    requires name != "display"
    ensures Get(FlexDisplay(s), name) == Get(s, name)
  {
    if Truthy(Get(s, "flexDirection")) && !Truthy(Get(s, "display")) {
      PutKeepsOthers(s, "display", "flex", name);
    }
  }

  /** Every step after the stripping leaves a name it does not fill alone. */
  lemma AfterStripKeeps(e: Element, name: string)
    requires name !in FilledKeys(e.kind)
    ensures Get(CleanedStyle(e), name) == Get(StripEditorStyles(e.style), name)
  {
    var s0 := StripEditorStyles(e.style);
    var s1 := ContainerDefaults(e, s0);
    var s2 := TypeDefaults(e.kind, s1);
    ContainerDefaultsKeeps(e, s0, name);
    TypeDefaultsKeeps(e.kind, s1, name);
    FlexDisplayKeeps(s2, name);
  }

  lemma StripKeeps(s: Style, name: string)
    requires name !in EditorKeys
    ensures Get(StripEditorStyles(s), name) == Get(s, name)
  {
    RemoveKeepsOthers(s, "outline", name);
    var s1 := Remove(s, "outline");
    RemoveKeepsOthers(s1, "zIndex", name);
    var s2 := Remove(s1, "zIndex");
    RemoveKeepsOthers(s2, "border", name);
    var s3 := if Get(s2, "border") == Some(DashedSelection) || Get(s2, "border") == Some(SolidSelection) then Remove(s2, "border") else s2;
    RemoveKeepsOthers(s3, "background", name);
  }

  /** A property the cleaning neither strips nor fills is exported exactly as the element has it. */
  lemma CleanedKeepsOthers(e: Element, name: string)
    requires name !in EditorKeys && name !in FilledKeys(e.kind)
    ensures Get(CleanedStyle(e), name) == Get(e.style, name)
  {
    AfterStripKeeps(e, name);
    StripKeeps(e.style, name);
  }

  lemma StripDropsEditorOnly(s: Style)
    ensures Get(StripEditorStyles(s), "outline") == None
    ensures Get(StripEditorStyles(s), "zIndex") == None
  {
    var s1 := Remove(s, "outline");
    RemoveKeepsOthers(s1, "zIndex", "outline");
    var s2 := Remove(s1, "zIndex");
    var s3 := if Get(s2, "border") == Some(DashedSelection) || Get(s2, "border") == Some(SolidSelection) then Remove(s2, "border") else s2;
    RemoveKeepsOthers(s2, "border", "outline");
    RemoveKeepsOthers(s2, "border", "zIndex");
    RemoveKeepsOthers(s3, "background", "outline");
    RemoveKeepsOthers(s3, "background", "zIndex");
  }

  lemma EditorOnlyNotFilled(kind: ElementType)
    ensures "outline" !in FilledKeys(kind) && "zIndex" !in FilledKeys(kind)
  {
  }

  /** `outline` and `zIndex` are never exported. */
  lemma EditorOnlyDropped(e: Element)
    ensures Get(CleanedStyle(e), "outline") == None
    ensures Get(CleanedStyle(e), "zIndex") == None
  {
    StripDropsEditorOnly(e.style);
    EditorOnlyNotFilled(e.kind);
    AfterStripKeeps(e, "outline");
    AfterStripKeeps(e, "zIndex");
  }

  /** The `border` the stripping leaves: none when it was one of the two selection borders. */
  function StrippedBorder(s: Style): Option<string>
  {
    if Get(s, "border") == Some(DashedSelection) || Get(s, "border") == Some(SolidSelection) then None else Get(s, "border")
  }

  lemma StripBorderBackground(s: Style)
    ensures Get(StripEditorStyles(s), "border") == StrippedBorder(s)
    ensures Get(StripEditorStyles(s), "background") ==
      if Get(s, "background") == Some(SelectionBackground) then None else Get(s, "background")
  {
    var s1 := Remove(s, "outline");
    RemoveKeepsOthers(s, "outline", "border");
    RemoveKeepsOthers(s, "outline", "background");
    RemoveKeepsOthers(s1, "zIndex", "border");
    RemoveKeepsOthers(s1, "zIndex", "background");
    var s2 := Remove(s1, "zIndex");
    var s3 := if Get(s2, "border") == Some(DashedSelection) || Get(s2, "border") == Some(SolidSelection) then Remove(s2, "border") else s2;
    RemoveKeepsOthers(s2, "border", "background");
    RemoveKeepsOthers(s3, "background", "border");
  }

  lemma BorderBackgroundFilled(kind: ElementType)
    ensures "background" !in FilledKeys(kind)
    ensures ("border" in FilledKeys(kind)) <==> kind == Button
  {
    match kind {
      case Ul =>
      case Ol =>
      case Li =>
      case Img =>
      case P =>
      case A =>
      case Button =>
        assert TypeDefaultList(Button)[1].name == "border";
      case _ =>
    }
  }

  lemma ButtonDefaultsUnique()
    ensures UniqueNames(TypeDefaultList(Button))
  {
  }

  /** A non-button keeps whatever border the stripping left. */
  lemma SelectionBorderDropped(e: Element)
    requires e.kind != Button
    ensures Get(CleanedStyle(e), "border") == StrippedBorder(e.style)
  {
    StripBorderBackground(e.style);
    BorderBackgroundFilled(e.kind);
    AfterStripKeeps(e, "border");
  }

  /** A button keeps a non-selection border, and gets `none` when it has none left. */
  lemma ButtonBorder(e: Element)
    requires e.kind == Button
    ensures Get(CleanedStyle(e), "border") == if Truthy(StrippedBorder(e.style)) then StrippedBorder(e.style) else Some("none")
  {
    StripBorderBackground(e.style);
    var s0 := StripEditorStyles(e.style);
    var s1 := ContainerDefaults(e, s0);
    ContainerDefaultsKeeps(e, s0, "border");
    ButtonTypeBorder(s1);
    FlexDisplayKeeps(TypeDefaults(Button, s1), "border");
  }

  lemma ButtonTypeBorder(s: Style)
    ensures Get(TypeDefaults(Button, s), "border") == if Truthy(Get(s, "border")) then Get(s, "border") else Some("none")
  {
    ButtonStartKeeps(s, "border");
    ButtonDefaultsUnique();
    var ds := TypeDefaultList(Button);
    assert ds[1] == Prop("border", "none");
    SetDefaultsGet(ButtonStart(s), ds, 1);
  }

  lemma ButtonStartKeeps(s: Style, name: string)
    requires name != "padding" && name != "backgroundColor"
    ensures Get(ButtonStart(s), name) == Get(s, name)
  {
    SetDefaultKeeps(s, "padding", "0.5rem 1rem", name);
    PutKeepsOthers(SetDefault(s, "padding", "0.5rem 1rem"), "backgroundColor", "#212529", name);
  }

  /** Only the selection background is stripped; no step ever fills `background`. */
  lemma SelectionBackgroundDropped(e: Element)
    ensures Get(CleanedStyle(e), "background") ==
      if Get(e.style, "background") == Some(SelectionBackground) then None else Get(e.style, "background")
  {
    StripBorderBackground(e.style);
    BorderBackgroundFilled(e.kind);
    AfterStripKeeps(e, "background");
  }

  /** What `fontSize` and `margin` an element had before the type defaults, untouched by earlier steps. */
  lemma EarlyStepsKeep(e: Element, name: string)
    requires name in {"fontSize", "margin", "fontWeight"}
    ensures Get(ContainerDefaults(e, StripEditorStyles(e.style)), name) == Get(e.style, name)
  {
    StripKeeps(e.style, name);
    ContainerDefaultsKeeps(e, StripEditorStyles(e.style), name);
  }

  /** A paragraph without an explicit font size is exported with `1rem`. */
  lemma ParagraphFontSize(e: Element)
    requires e.kind == P
    ensures Get(CleanedStyle(e), "fontSize") ==
      if Truthy(Get(e.style, "fontSize")) then Get(e.style, "fontSize") else Some("1rem")
  {
    var s1 := ContainerDefaults(e, StripEditorStyles(e.style));
    EarlyStepsKeep(e, "fontSize");
    var ds := TypeDefaultList(P);
    assert UniqueNames(ds) && ds[0] == Prop("fontSize", "1rem");
    SetDefaultsGet(s1, ds, 0);
    FlexDisplayKeeps(TypeDefaults(e.kind, s1), "fontSize");
  }

  /** A heading gets its per-level font size and margin and a bold weight, unless it sets its own. */
  lemma HeadingDefaults(e: Element)
    requires IsHeading(e.kind)
    ensures Get(CleanedStyle(e), "fontSize") ==
      if Truthy(Get(e.style, "fontSize")) then Get(e.style, "fontSize") else Some(HeadingFontSize(e.kind))
    ensures Get(CleanedStyle(e), "margin") ==
      if Truthy(Get(e.style, "margin")) then Get(e.style, "margin") else Some(HeadingMargin(e.kind))
    ensures Get(CleanedStyle(e), "fontWeight") ==
      if Truthy(Get(e.style, "fontWeight")) then Get(e.style, "fontWeight") else Some("bold")
  {
    var s1 := ContainerDefaults(e, StripEditorStyles(e.style));
    var ds := TypeDefaultList(e.kind);
    assert ds == [Prop("fontSize", HeadingFontSize(e.kind)), Prop("margin", HeadingMargin(e.kind)), Prop("fontWeight", "bold")];
    assert UniqueNames(ds);
    var s2 := TypeDefaults(e.kind, s1);
    EarlyStepsKeep(e, "fontSize");
    EarlyStepsKeep(e, "margin");
    EarlyStepsKeep(e, "fontWeight");
    SetDefaultsGet(s1, ds, 0);
    SetDefaultsGet(s1, ds, 1);
    SetDefaultsGet(s1, ds, 2);
    FlexDisplayKeeps(s2, "fontSize");
    FlexDisplayKeeps(s2, "margin");
    FlexDisplayKeeps(s2, "fontWeight");
  }

  lemma EmptyContainerDefaults(e: Element, s: Style)
    requires IsContainer(e.kind) && |e.children| == 0
    ensures Truthy(Get(ContainerDefaults(e, s), "minHeight"))
    ensures Truthy(Get(ContainerDefaults(e, s), "minWidth"))
    ensures Truthy(Get(ContainerDefaults(e, s), "padding"))
  {
    var ds := [Prop("minHeight", "20px"), Prop("minWidth", "20px")];
    var s1 := SetDefaults(s, ds);
    SetDefaultsGet(s, ds, 0);
    SetDefaultsGet(s, ds, 1);
    SetDefaultKeeps(s1, "padding", "4px", "minHeight");
    SetDefaultKeeps(s1, "padding", "4px", "minWidth");
  }

  /** The `switch (el.type)` block assigns nothing for a container. */
  lemma ContainerCleaned(e: Element)
    requires IsContainer(e.kind)
    ensures CleanedStyle(e) == FlexDisplay(ContainerDefaults(e, StripEditorStyles(e.style)))
  {
    assert TypeDefaultList(e.kind) == [];
  }

  /** An empty `div` or `section` is exported with a minimum size and a padding. */
  lemma EmptyContainerSized(e: Element)
    requires IsContainer(e.kind) && |e.children| == 0
    ensures Truthy(Get(CleanedStyle(e), "minHeight"))
    ensures Truthy(Get(CleanedStyle(e), "minWidth"))
    ensures Truthy(Get(CleanedStyle(e), "padding"))
  {
    var s2 := ContainerDefaults(e, StripEditorStyles(e.style));
    EmptyContainerDefaults(e, StripEditorStyles(e.style));
    ContainerCleaned(e);
    FlexDisplayKeeps(s2, "minHeight");
    FlexDisplayKeeps(s2, "minWidth");
    FlexDisplayKeeps(s2, "padding");
  }

  /** Every exported style with a flex direction also has a display. */
  lemma FlexHasDisplay(e: Element)
    ensures Truthy(Get(CleanedStyle(e), "flexDirection")) ==> Truthy(Get(CleanedStyle(e), "display"))
  {
    var s := TypeDefaults(e.kind, ContainerDefaults(e, StripEditorStyles(e.style)));
    if Truthy(Get(s, "flexDirection")) && !Truthy(Get(s, "display")) {
      PutKeepsOthers(s, "display", "flex", "flexDirection");
    }
  }

  lemma StripUnique(s: Style)
    requires UniqueNames(s)
    ensures UniqueNames(StripEditorStyles(s))
  {
    RemoveUnique(s, "outline");
    var s1 := Remove(s, "outline");
    RemoveUnique(s1, "zIndex");
    var s2 := Remove(s1, "zIndex");
    RemoveUnique(s2, "border");
    var s3 := if Get(s2, "border") == Some(DashedSelection) || Get(s2, "border") == Some(SolidSelection) then Remove(s2, "border") else s2;
    RemoveUnique(s3, "background");
  }

  lemma SetDefaultUnique(s: Style, name: string, value: string)
    requires UniqueNames(s)
    ensures UniqueNames(SetDefault(s, name, value))
  {
    if !Truthy(Get(s, name)) {
      PutUnique(s, name, value);
    }
  }

  lemma ContainerDefaultsUnique(e: Element, s: Style)
    requires UniqueNames(s)
    ensures UniqueNames(ContainerDefaults(e, s))
  {
    var ds := [Prop("minHeight", "20px"), Prop("minWidth", "20px")];
    SetDefaultsUnique(s, ds);
    var s1 := if IsContainer(e.kind) && |e.children| == 0 then SetDefaults(s, ds) else s;
    SetDefaultUnique(s1, "padding", "4px");
  }

  lemma TypeDefaultsUnique(kind: ElementType, s: Style)
    requires UniqueNames(s)
    ensures UniqueNames(TypeDefaults(kind, s))
  {
    SetDefaultUnique(s, "padding", "0.5rem 1rem");
    PutUnique(SetDefault(s, "padding", "0.5rem 1rem"), "backgroundColor", "#212529");
    var s1 := if kind == Button then ButtonStart(s) else s;
    SetDefaultsUnique(s1, TypeDefaultList(kind));
  }

  /** The cleaning never duplicates a property. */
  lemma CleanedUnique(e: Element)
    requires UniqueNames(e.style)
    ensures UniqueNames(CleanedStyle(e))
  {
    StripUnique(e.style);
    var s1 := StripEditorStyles(e.style);
    ContainerDefaultsUnique(e, s1);
    var s2 := ContainerDefaults(e, s1);
    TypeDefaultsUnique(e.kind, s2);
    PutUnique(TypeDefaults(e.kind, s2), "display", "flex");
  }

  /** One `property: value;` line of a rule. */
  function Decl(p: Prop): string
  {
    KebabCase(p.name) + ": " + p.value + ";"
  }

  /** `Object.entries(cleanStyle).map(...)`: one declaration per property, in property order. */
  function Decls(s: Style): (r: seq<string>)
    ensures |r| == |s|
    ensures forall k | 0 <= k < |s| :: r[k] == Decl(s[k])
  {
    seq(|s|, k requires 0 <= k < |s| => Decl(s[k]))
  }

  const DeclSep := "\n  "

  function RuleOpen(id: Id): string
  {
    ".element-" + id + " {" + DeclSep
  }

  const RuleClose := "\n}"

  /** The rule of one element. */
  function Rule(e: Element): string
  {
    RuleOpen(e.id) + Join(Decls(CleanedStyle(e)), DeclSep) + RuleClose
  }

  /** `elements.map(...)`: one rule per element, in store order. */
  function Rules(es: seq<Element>): (r: seq<string>)
    ensures |r| == |es|
    ensures forall i | 0 <= i < |es| :: r[i] == Rule(es[i])
  {
    seq(|es|, i requires 0 <= i < |es| => Rule(es[i]))
  }

  const RuleSep := "\n\n"

  /** The exported stylesheet. */
  function GenerateCss(es: seq<Element>): string
  {
    BaseCss + RuleSep + Join(Rules(es), RuleSep)
  }

  /** Every declaration of the cleaned style stands in the element's rule. */
  lemma RuleHasDecl(e: Element, k: nat)
    requires k < |CleanedStyle(e)|
    ensures Within(Decl(CleanedStyle(e)[k]), Rule(e))
  {
    var ds := Decls(CleanedStyle(e));
    JoinHasPart(ds, DeclSep, k);
    WithinPrefix(ds[k], Join(ds, DeclSep), RuleOpen(e.id));
    WithinSuffix(ds[k], RuleOpen(e.id) + Join(ds, DeclSep), RuleClose);
  }

  /** A property the cleaned style has is exported with its value. */
  lemma RuleShowsProperty(e: Element, name: string, v: string)
    requires Get(CleanedStyle(e), name) == Some(v)
    ensures Within(KebabCase(name) + ": " + v + ";", Rule(e))
  {
    var k := GetAt(CleanedStyle(e), name, v);
    RuleHasDecl(e, k);
  }

  /** Every element's rule stands in the stylesheet, after the base styles. */
  lemma CssHasRule(es: seq<Element>, i: nat)
    requires i < |es|
    ensures BaseCss + RuleSep <= GenerateCss(es)
    ensures Within(Rule(es[i]), GenerateCss(es))
  {
    var rs := Rules(es);
    JoinHasPart(rs, RuleSep, i);
    WithinPrefix(rs[i], Join(rs, RuleSep), BaseCss + RuleSep);
  }

  /** No rule carries an `outline` or `zIndex` declaration. */
  lemma NoEditorDecls(e: Element)
    ensures forall p | p in CleanedStyle(e) :: p.name != "outline" && p.name != "zIndex"
  {
    EditorOnlyDropped(e);
    forall p | p in CleanedStyle(e) ensures p.name != "outline" && p.name != "zIndex" {
      var k :| 0 <= k < |CleanedStyle(e)| && CleanedStyle(e)[k] == p;
      assert Names(CleanedStyle(e))[k] == p.name;
    }
  }
}
