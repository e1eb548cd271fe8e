/**
 * The props a Menubar receives and the typed descriptor of each child menu.
 * An optional style or class-name field that is absent spreads as an empty
 * object; an absent class-name string contributes "" (`x || ''`).
 */
module Props {
  import opened Wrappers

  /** A CSS property bag: property name to value. */
  type CssProperties = map<string, string>

  /** Per-part styles handed to a submenu; keys such as "listitem". */
  type MenuStyles = map<string, CssProperties>

  /** Per-part class names handed to a submenu. */
  type MenuClassNames = map<string, string>

  /** The identity of an activation callback `(tag, checked, event) => void`. */
  datatype Action = Action(name: string)

  /**
   * A child's `action` prop: not declared, declared with a falsy value
   * (undefined, null, false, ...), or declared with a callback.
   */
  datatype ActionProp = Undeclared | Falsy | Handler(handler: Action)

  /** The props the menu bar reads off a child menu element. */
  datatype MenuDescriptor = MenuDescriptor(
    labelText: string,
    action: ActionProp,
    menuStyles: MenuStyles,
    menuClassNames: MenuClassNames)

  /** The printed form of a truthy string or number node: never empty. */
  type NodeText = s: string | |s| > 0 witness "x"

  /**
   * One entry of `children`: a falsy node (null, undefined, false, 0 or ""),
   * a truthy node that is not an element (a non-empty string or a non-zero
   * number, as printed), or a menu element.
   */
  datatype Child = Nothing | Primitive(text: NodeText) | Element(menu: MenuDescriptor)

  datatype MenubarStyles = MenubarStyles(
    unorderedlist: Option<CssProperties>,
    listitem: Option<CssProperties>,
    activeListitem: Option<CssProperties>,
    menu: Option<MenuStyles>)

  datatype MenubarClassNames = MenubarClassNames(
    unorderedlist: Option<string>,
    listitem: Option<string>,
    activeListitem: Option<string>,
    menu: Option<MenuClassNames>)

  /**
   * The Menubar's props. `hasOnSetOpen` says whether the `onSetOpen`
   * callback is present; `isOpen` belongs to the caller.
   */
  datatype MenubarProps = MenubarProps(
    children: seq<Child>,
    action: Option<Action>,
    hasOnSetOpen: bool,
    isOpen: bool,
    menubarStyles: Option<MenubarStyles>,
    menubarClassNames: Option<MenubarClassNames>)
}
