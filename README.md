# Menubar activation model

A Dafny model of the `Menubar` component of react-typescript-desktop-menu
(`src/menu/menu-bar.tsx`). The component draws a horizontal bar of menu labels.
It keeps one piece of state, `menuActive`: the index of the active menu, or -1
for none. Mouse-over, mouse-out, the Escape key, an outside click and the
`[isOpen]` effect change it; mouse-down only asks the parent to open the bar.
On every render it
projects the state onto its children. Each child menu is told whether to show
its submenu, which merged style and class-name maps to use, and which action
to call. Each child is wrapped in a list item with its own class, style, key,
tab index and ordinal.

Modules:

- `Props` (`props.dfy`): the props. Children are typed descriptors
  (`Nothing`, `Primitive`, `Element`). A child's `action` is `Undeclared`,
  `Falsy` or `Handler`.
- `Projection` (`projection.dfy`): the pure per-child render `RenderAll`,
  with lemmas about what each rendered child holds.
- `Controller` (`controller.dfy`): the state machine as pure transitions
  (`Step`, `Run`), with lemmas about single steps and about whole histories.
  `isOpen` belongs to the caller. The parent changes it by rendering the bar
  with new props (`Rerender`). The bar never writes `isOpen`: it only records
  `onSetOpen` calls in `requests`. Every `setMenuActive` call is recorded in
  `writes`, so a skipped write can be seen.
- `Component` (`component.dfy`): the class `Menubar`. Its fields are the
  props, `menuActive` and the two logs. Each handler is a method proved to
  perform exactly `Controller.Step`. `RenderChildren` builds the list items,
  reassigning the class and style step by step, and is proved equal to
  `Projection.RenderAll`.
- `Decimal` (`decimal.dfy`): formats `${index}` for list-item keys, with its
  parse round trip.
- `Wrappers` (`wrappers.dfy`): `Option`.

Behaviour of the code the model keeps:

- Mouse-over does not check `isOpen`. A closed bar can therefore have an
  active index, so "closed implies -1" is not an invariant. What holds is
  that no submenu is displayed while closed, and that the effect resets the
  index when the bar goes from open to closed.
- A child whose `action` is declared but falsy falls back to the bar-level
  action (`!child.props.action`).
- The list item's "active" class and style depend on `menuActive == index`,
  not on `display`.
- The list item's style and class come only from the bar-level
  `listitem`/`activeListitem`. There is no per-child override.
- The `menuStyles`/`menuClassNames` merge is a shallow spread. A child's
  entry replaces the bar's whole entry for that key.

## Model

| member | source | states |
|---|---|---|
| `Decimal.Digits` | src/menu/menu-bar.tsx:130 | the index prints as a non-empty string of decimal digits with no leading zero |
| `Decimal.ValueOfDigits` | src/menu/menu-bar.tsx:130 | reading the printed index back gives the index |
| `Decimal.DigitsInjective` | src/menu/menu-bar.tsx:130 | two indices print alike iff they are equal |
| `Projection.RenderAll` | src/menu/menu-bar.tsx:80-81 | one rendered entry per child, in order |
| `Projection.DisplayedIff` | src/menu/menu-bar.tsx:92-95 | a child displays its submenu iff it is a menu element, the bar is open and `menuActive` is its index |
| `Projection.AtMostOneDisplayed` | src/menu/menu-bar.tsx:92-95 | no two children display their submenus, and none does while the bar is closed |
| `Projection.InertChildren` | src/menu/menu-bar.tsx:84-88 | exactly the menu elements become list items; a falsy child becomes an empty fragment and a non-element a fragment holding it, with no hover handler |
| `Projection.MenuMapsMerge` | src/menu/menu-bar.tsx:96-97 | the submenu's style and class-name maps have every key of the bar's `menu` map and of the child's map; the child's value wins on shared keys and the bar's holds elsewhere |
| `Projection.ActionFallback` | src/menu/menu-bar.tsx:98-103 | the submenu's action is the child's truthy callback, or the bar-level action when the child declares none or a falsy one |
| `Projection.ItemLook` | src/menu/menu-bar.tsx:107-121 | the list-item style is `listitem` with `activeListitem` laid over it exactly when the child is active; the class starts with the base class and has the active suffix appended iff the child is active |
| `Projection.ItemIdentity` | src/menu/menu-bar.tsx:123-132 | a list item has key "menu-bar-item-" plus its index, tab index index + 1, ordinal and hover index equal to its index, and the child's label; keys of distinct list items differ |
| `Projection.ChildEntryReplacesBarEntry` | src/menu/menu-bar.tsx:96 | bar `{listitem: {color: red}}` and child `{listitem: {color: blue, fontSize: 12}}` give the child's entry |
| `Controller.MountState` | src/menu/menu-bar.tsx:21-40 | mounting starts at -1 with no open request, so the invariant holds; the first effect run writes -1 only when the bar is closed |
| `Controller.CloseFromAnyState` | src/menu/menu-bar.tsx:23-63 | from every state, Escape or an outside click sets the index to -1, writes it, requests `onSetOpen(false)` when the callback exists, and leaves the props alone |
| `Controller.OtherKeysInert` | src/menu/menu-bar.tsx:58-70 | any key other than Escape changes nothing |
| `Controller.MouseDownRequestsOpen` | src/menu/menu-bar.tsx:42-44 | mouse-down requests `onSetOpen(true)` and leaves the index and write log unchanged |
| `Controller.MouseOverActivates` | src/menu/menu-bar.tsx:46-50 | mouse-over on i makes i active, open or not; no write happens when i is already active |
| `Controller.MouseOutResetsOnlyWhenClosed` | src/menu/menu-bar.tsx:52-56 | mouse-out changes nothing while the bar is open and writes -1 while it is closed |
| `Controller.SyncIdempotent` | src/menu/menu-bar.tsx:36-40 | the effect leaves a closed bar at -1 and an open bar unchanged; a second run changes no index, prop or request |
| `Controller.ExternalCloseResyncs` | src/menu/menu-bar.tsx:36-40 | when the parent turns `isOpen` from true to false, the index becomes -1 without an open request and no submenu is displayed |
| `Controller.OpenActiveItemDisplayed` | src/menu/menu-bar.tsx:92-95 | in a valid state of an open bar with an active index, that item's submenu is displayed and no other is: exactly one submenu shows |
| `Controller.RerenderWithoutChangeKeepsActive` | src/menu/menu-bar.tsx:36-40 | a re-render with the same `isOpen` does not run the effect and only replaces the props |
| `Controller.StepKeepsValid` | src/menu/menu-bar.tsx:21-70 | every transition whose hover comes from a list item's handler (line 127), and whose re-render keeps a list item at the active index or closes the bar, keeps the index at -1 or the index of an element child |
| `Controller.RunKeepsValid` | src/menu/menu-bar.tsx:21-70 | the same bound holds over every history made of such events |
| `Controller.DroppedChildOrphansActive` | src/menu/menu-bar.tsx:36-40 | a re-render of an open bar that drops the active child leaves `menuActive` unchanged and pointing past the children |
| `Controller.RunSnoc` | src/menu/menu-bar.tsx:21-70 | running one more event after a history is one more transition |
| `Controller.EscapeClosesAfterAnyHistory` | src/menu/menu-bar.tsx:58-70 | after any history from mount, Escape leaves index -1, no displayed submenu, and (with the callback) a last request to close |
| `Controller.OnlyMouseDownRequestsOpen` | src/menu/menu-bar.tsx:23-44 | over a history without mouse-down the request log only grows, and every added request is a close |
| `Controller.ActiveWasHovered` | src/menu/menu-bar.tsx:21-56 | after a history the index is -1, the starting index, or an index that was hovered |
| `Component.Menubar.constructor` | src/menu/menu-bar.tsx:21-40 | a mounted bar is in the state `Controller.Mount` describes: index -1, no request |
| `Component.Menubar.SetMenuActive` | src/menu/menu-bar.tsx:21 | the index becomes v and v is appended to the write log; nothing else changes |
| `Component.Menubar.RequestOpen` | src/menu/menu-bar.tsx:25 | the request is logged only when `onSetOpen` is present; nothing else changes |
| `Component.Menubar.Close` | src/menu/menu-bar.tsx:23-26 | index -1 is written and a close is requested; props unchanged |
| `Component.Menubar.ClickOutside` | src/menu/menu-bar.tsx:30-34 | an outside click performs the close transition |
| `Component.Menubar.SyncWithOpen` | src/menu/menu-bar.tsx:36-40 | a closed bar ends at -1; an open bar is left as it was |
| `Component.Menubar.MouseDown` | src/menu/menu-bar.tsx:42-44 | requests opening, index and writes unchanged |
| `Component.Menubar.MouseOver` | src/menu/menu-bar.tsx:46-50 | index becomes i; the write happens only when i was not already active |
| `Component.Menubar.MouseOut` | src/menu/menu-bar.tsx:52-56 | nothing changes while open; -1 while closed |
| `Component.Menubar.KeyDown` | src/menu/menu-bar.tsx:58-70 | Escape closes; any other key leaves the state as it was |
| `Component.Menubar.Rerender` | src/menu/menu-bar.tsx:36-40 | new props are taken, the effect runs iff `isOpen` changed, and an open-to-closed change resets the index |
| `Component.Menubar.RenderChildren` | src/menu/menu-bar.tsx:80-138 | the items built step by step equal `Projection.RenderAll` of the current props and index |

## Definitions

The lemmas above are about these definitions; each follows the cited lines.

- `Controller.Step`: src/menu/menu-bar.tsx:36-70, one handler run per event, and a re-render that runs the `[isOpen]` effect when `isOpen` changed.
- `Controller.Close`: src/menu/menu-bar.tsx:23-26.
- `Controller.Sync`: src/menu/menu-bar.tsx:36-40.
- `Controller.Mount`: src/menu/menu-bar.tsx:21, 36-40.
- `Projection.RenderChild`: src/menu/menu-bar.tsx:84-136.
- `Projection.MenuPropsFor` and `Projection.EffectiveAction`: src/menu/menu-bar.tsx:94-103.
- `Projection.ItemClassName` and `Projection.ItemStyle`: src/menu/menu-bar.tsx:107-121.

## Left out

- JSX and React rendering, `React.cloneElement` and the internals of `React.Children.map` are not modelled. A cloned submenu is represented by the `MenuProps` it receives; a child's label is a string, not an arbitrary node.
- The `items` array (line 90) is written but never read, so it is not modelled.
- The `ul` container's class and style (lines 141-147) are not modelled. Its `onMouseDown` and `onMouseOut` are the `MouseDown` and `MouseOut` events.
- Registering and removing the document `keydown` listener (lines 72-78) is not modelled, and neither is `useCallback` memoisation. Both are framework lifecycle; the Escape key is the `KeyDown` event.
- `useOnClickOutside` is not part of this model. An outside click is the `ClickOutside` event, which calls `close`.
- The class names generated by `default-styles.module.css` are opaque constants.
- React's update batching is not modelled. Each handler is one atomic transition.
- CSS values are strings, and nested style objects are not merged: the source spreads only one level deep.
- Identity is by position. Reordering children while a menu is active is not treated specially, because the source does not either.
- `Controller.Valid` (the active index is -1 or the index of an element child) is promised only over histories whose re-renders keep the active child. When a re-render shrinks or reorders `children` while an index is active and the bar stays open, the bound fails, as `Controller.DroppedChildOrphansActive` shows. The methods of `Component.Menubar` promise `Valid()` afterwards only when it held before and the event was one of these.
