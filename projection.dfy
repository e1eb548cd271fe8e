/**
 * What `renderChildren` derives for each child on every render: whether its
 * submenu is displayed, the merged style and class-name maps and the effective
 * action handed to the submenu, and the wrapping list item's class, style,
 * key, tab index, ordinal and hover handler.
 */
module Projection {
  import opened Wrappers
  import opened Props
  import Decimal

  /** Stand-ins for the class names the CSS module generates. */
  const MODULE_ITEM_CLASS: string := "menu-bar-item-module-class"
  const MODULE_ACTIVE_ITEM_CLASS: string := "menu-bar-item-active-module-class"

  const KEY_PREFIX: string := "menu-bar-item-"

  /** The props the cloned submenu element receives. */
  datatype MenuProps = MenuProps(
    display: bool,
    menuStyles: MenuStyles,
    menuClassNames: MenuClassNames,
    action: Option<Action>)

  /**
   * What one child renders as. A list item's `hoverIndex` is the index its
   * `onMouseOver` handler passes to the mouse-over transition.
   */
  datatype Rendered =
    | EmptyFragment
    | TextFragment(text: string)
    | ListItem(
        className: string,
        style: CssProperties,
        tabIndex: int,
        ordinal: nat,
        key: string,
        hoverIndex: nat,
        labelText: string,
        menu: MenuProps)

  /** The rendered child shows its submenu. */
  predicate Displayed(r: Rendered) {
    r.ListItem? && r.menu.display
  }

  /** `{ ...m }` for an optional object. */
  function Spread<V>(m: Option<map<string, V>>): map<string, V> {
    m.GetOr(map[])
  }

  /** `s || ''` for an optional string. */
  function OrEmpty(s: Option<string>): string {
    s.GetOr("")
  }

  function BarMenuStyles(st: Option<MenubarStyles>): MenuStyles {
    if st.Some? then Spread(st.value.menu) else map[]
  }

  function BarMenuClassNames(cn: Option<MenubarClassNames>): MenuClassNames {
    if cn.Some? then Spread(cn.value.menu) else map[]
  }

  function ListitemStyle(st: Option<MenubarStyles>): CssProperties {
    if st.Some? then Spread(st.value.listitem) else map[]
  }

  function ActiveListitemStyle(st: Option<MenubarStyles>): CssProperties {
    if st.Some? then Spread(st.value.activeListitem) else map[]
  }

  function ListitemClass(cn: Option<MenubarClassNames>): string {
    if cn.Some? then OrEmpty(cn.value.listitem) else ""
  }

  function ActiveListitemClass(cn: Option<MenubarClassNames>): string {
    if cn.Some? then OrEmpty(cn.value.activeListitem) else ""
  }

  predicate Display(isOpen: bool, menuActive: int, index: nat) {
    isOpen && menuActive == index
  }

  /** A child's own callback when it declares a truthy one, else the bar's. */
  function EffectiveAction(own: ActionProp, bar: Option<Action>): Option<Action> {
    if own.Handler? then Some(own.handler) else bar
  }

  function MenuPropsFor(p: MenubarProps, menuActive: int, index: nat, d: MenuDescriptor): MenuProps {
    MenuProps(
      Display(p.isOpen, menuActive, index),
      BarMenuStyles(p.menubarStyles) + d.menuStyles,
      BarMenuClassNames(p.menubarClassNames) + d.menuClassNames,
      EffectiveAction(d.action, p.action))
  }

  /** The list item's class before the active variant is considered. */
  function ItemBaseClass(cn: Option<MenubarClassNames>): string {
    MODULE_ITEM_CLASS + " react-menu-bar-menu-bar-item " + ListitemClass(cn)
  }

  /** What the active variant appends to the list item's class. */
  function ItemActiveSuffix(cn: Option<MenubarClassNames>): string {
    MODULE_ACTIVE_ITEM_CLASS + " react-menu-bar-menu-bar-item-active " + ActiveListitemClass(cn)
  }

  function ItemClassName(cn: Option<MenubarClassNames>, active: bool): string {
    if active then ItemBaseClass(cn) + ItemActiveSuffix(cn) else ItemBaseClass(cn)
  }

  function ItemStyle(st: Option<MenubarStyles>, active: bool): CssProperties {
    if active then ListitemStyle(st) + ActiveListitemStyle(st) else ListitemStyle(st)
  }

  function ItemKey(index: nat): string {
    KEY_PREFIX + Decimal.Digits(index)
  }

  function RenderChild(p: MenubarProps, menuActive: int, child: Child, index: nat): Rendered {
    match child
    case Nothing => EmptyFragment
    case Primitive(t) => TextFragment(t)
    case Element(d) =>
      var active := menuActive == index;
      ListItem(
        ItemClassName(p.menubarClassNames, active),
        ItemStyle(p.menubarStyles, active),
        index + 1,
        index,
        ItemKey(index),
        index,
        d.labelText,
        MenuPropsFor(p, menuActive, index, d))
  }

  /** `renderChildren`: every child, in order, rendered at its own index. */
  function RenderAll(p: MenubarProps, menuActive: int): (rs: seq<Rendered>)
    ensures |rs| == |p.children|
  {
    seq(|p.children|, i requires 0 <= i < |p.children| => RenderChild(p, menuActive, p.children[i], i))
  }

  /** A child's submenu is displayed iff it is a menu element, the bar is open and it is the active index. */
  lemma DisplayedIff(p: MenubarProps, menuActive: int, i: nat)
    requires i < |p.children|
    ensures Displayed(RenderAll(p, menuActive)[i]) <==> p.children[i].Element? && p.isOpen && menuActive == i
  {
  }

  /** At most one submenu is displayed, and none while the bar is closed. */
  lemma AtMostOneDisplayed(p: MenubarProps, menuActive: int)
    ensures forall i, j :: 0 <= i < j < |p.children| ==>
      !(Displayed(RenderAll(p, menuActive)[i]) && Displayed(RenderAll(p, menuActive)[j]))
    ensures !p.isOpen ==> forall i :: 0 <= i < |p.children| ==> !Displayed(RenderAll(p, menuActive)[i])
  {
  }

  /** Falsy and non-element children render as fragments: no handler, no submenu. */
  lemma InertChildren(p: MenubarProps, menuActive: int, i: nat)
    requires i < |p.children|
    ensures RenderAll(p, menuActive)[i].ListItem? <==> p.children[i].Element?
    ensures p.children[i].Nothing? ==> RenderAll(p, menuActive)[i] == EmptyFragment
    ensures p.children[i].Primitive? ==> RenderAll(p, menuActive)[i] == TextFragment(p.children[i].text)
  {
  }

  /**
   * The submenu's style and class-name maps hold every key of the bar-level
   * `menu` map and of the child's own map; on a shared key the child's value wins.
   */
  lemma MenuMapsMerge(p: MenubarProps, menuActive: int, i: nat)
    requires i < |p.children| && p.children[i].Element?
    ensures var r := RenderAll(p, menuActive)[i];
      var d := p.children[i].menu;
      var bar := BarMenuStyles(p.menubarStyles);
      && r.menu.menuStyles.Keys == bar.Keys + d.menuStyles.Keys
      && (forall k :: k in d.menuStyles ==> r.menu.menuStyles[k] == d.menuStyles[k])
      && (forall k :: k in bar && k !in d.menuStyles ==> r.menu.menuStyles[k] == bar[k])
    ensures var r := RenderAll(p, menuActive)[i];
      var d := p.children[i].menu;
      var bar := BarMenuClassNames(p.menubarClassNames);
      && r.menu.menuClassNames.Keys == bar.Keys + d.menuClassNames.Keys
      && (forall k :: k in d.menuClassNames ==> r.menu.menuClassNames[k] == d.menuClassNames[k])
      && (forall k :: k in bar && k !in d.menuClassNames ==> r.menu.menuClassNames[k] == bar[k])
  {
  }

  /**
   * The submenu's action is the child's own callback when it declares a truthy
   * one; a child that declares none, or a falsy one, gets the bar-level action.
   */
  lemma ActionFallback(p: MenubarProps, menuActive: int, i: nat)
    requires i < |p.children| && p.children[i].Element?
    ensures var own := p.children[i].menu.action;
      && (own.Handler? ==> RenderAll(p, menuActive)[i].menu.action == Some(own.handler))
      && (!own.Handler? ==> RenderAll(p, menuActive)[i].menu.action == p.action)
  {
  }

  /**
   * The list item's style is the bar-level `listitem` with `activeListitem`
   * laid over it exactly when the child is the active index; its class gets
   * the active suffix exactly then. Neither depends on whether the bar is open.
   */
  lemma ItemLook(p: MenubarProps, menuActive: int, i: nat)
    requires i < |p.children| && p.children[i].Element?
    ensures var r := RenderAll(p, menuActive)[i];
      var base := ListitemStyle(p.menubarStyles);
      var over := ActiveListitemStyle(p.menubarStyles);
      && r.style.Keys == base.Keys + (if menuActive == i then over.Keys else {})
      && (forall k :: k in r.style ==>
            r.style[k] == if menuActive == i && k in over then over[k] else base[k])
    ensures var r := RenderAll(p, menuActive)[i];
      var base := ItemBaseClass(p.menubarClassNames);
      && r.className[..|base|] == base
      && (|r.className| > |base| <==> menuActive == i)
      && (menuActive == i ==> r.className[|base|..] == ItemActiveSuffix(p.menubarClassNames))
  {
  }

  /**
   * Each list item is keyed "menu-bar-item-<index>", tabbable at index + 1,
   * carries its index as ordinal and reports it on hover; no two list items
   * share a key.
   */
  lemma ItemIdentity(p: MenubarProps, menuActive: int, i: nat, j: nat)
    requires i < |p.children| && p.children[i].Element?
    requires j < |p.children| && p.children[j].Element?
    ensures var r := RenderAll(p, menuActive)[i];
      && r.key == KEY_PREFIX + Decimal.Digits(i)
      && r.tabIndex == i + 1 && r.ordinal == i && r.hoverIndex == i
      && r.labelText == p.children[i].menu.labelText
    ensures RenderAll(p, menuActive)[i].key == RenderAll(p, menuActive)[j].key <==> i == j
  {
    var ki, kj := ItemKey(i), ItemKey(j);
    if ki == kj {
      assert ki[|KEY_PREFIX|..] == Decimal.Digits(i);
      assert kj[|KEY_PREFIX|..] == Decimal.Digits(j);
      Decimal.DigitsInjective(i, j);
    }
  }

  /**
   * The shallow spread: a child's `listitem` entry replaces the bar's whole
   * entry (bar `{listitem: {color: red}}`, child `{listitem: {color: blue,
   * fontSize: 12}}` gives the child's entry).
   */
  lemma ChildEntryReplacesBarEntry(p: MenubarProps, menuActive: int, i: nat)
    requires i < |p.children| && p.children[i].Element?
    requires p.menubarStyles == Some(MenubarStyles(None, None, None, Some(map["listitem" := map["color" := "red"]])))
    requires p.children[i].menu.menuStyles == map["listitem" := map["color" := "blue", "fontSize" := "12"]]
    ensures RenderAll(p, menuActive)[i].menu.menuStyles == map["listitem" := map["color" := "blue", "fontSize" := "12"]]
  {
  }
}
