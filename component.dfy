/**
 * The Menubar component as an object: `menuActive` is its state, the props are
 * what its parent last rendered it with, and `openRequests` / `activeWrites`
 * record the calls it made to `onSetOpen` and `setMenuActive`. Every handler
 * is proved to perform exactly the transition `Controller.Step` describes.
 */
module Component {
  import opened Wrappers
  import opened Props
  import opened Projection
  import Controller

  class Menubar {
    var props: MenubarProps
    var menuActive: int
    var activeWrites: seq<int>
    var openRequests: seq<bool>

    function State(): Controller.Bar
      reads this
    {
      Controller.Bar(props, menuActive, activeWrites, openRequests)
    }

    ghost predicate Valid()
      reads this
    {
      Controller.Valid(State())
    }

    /** Mounting: `useState(-1)`, then the `[isOpen]` effect's first run. */
    constructor (p: MenubarProps)
      ensures Valid() && State() == Controller.Mount(p)
      ensures menuActive == -1 && openRequests == []
    {
      props := p;
      menuActive := -1;
      activeWrites := [];
      openRequests := [];
      new;
      SyncWithOpen();
    }

    method SetMenuActive(v: int)
      modifies this
      ensures State() == Controller.SetActive(old(State()), v)
      ensures menuActive == v && activeWrites == old(activeWrites) + [v]
      ensures props == old(props) && openRequests == old(openRequests)
    {
      menuActive := v;
      activeWrites := activeWrites + [v];
    }

    /** `onSetOpen && onSetOpen(open)`. */
    method RequestOpen(open: bool)
      modifies this
      ensures State() == Controller.RequestOpen(old(State()), open)
      ensures openRequests == old(openRequests) + (if props.hasOnSetOpen then [open] else [])
      ensures props == old(props) && menuActive == old(menuActive) && activeWrites == old(activeWrites)
    {
      if props.hasOnSetOpen {
        openRequests := openRequests + [open];
      }
    }

    /** `close`: no active index, and ask the parent to close the bar. */
    method Close()
      modifies this
      ensures old(Valid()) ==> Valid()
      ensures State() == Controller.Close(old(State()))
      ensures menuActive == -1 && activeWrites == old(activeWrites) + [-1]
      ensures openRequests == old(openRequests) + (if props.hasOnSetOpen then [false] else [])
      ensures props == old(props)
    {
      SetMenuActive(-1);
      RequestOpen(false);
    }

    /** The outside-click handler. */
    method ClickOutside()
      modifies this
      ensures old(Valid()) ==> Valid()
      ensures State() == Controller.Step(old(State()), Controller.ClickOutside)
      ensures menuActive == -1 && props == old(props)
      ensures openRequests == old(openRequests) + (if props.hasOnSetOpen then [false] else [])
    {
      Close();
    }

    /** The `[isOpen]` effect: a closed bar has no active index. */
    method SyncWithOpen()
      modifies this
      ensures old(Valid()) ==> Valid()
      ensures State() == Controller.Sync(old(State()))
      ensures !props.isOpen ==> menuActive == -1
      ensures props.isOpen ==> State() == old(State())
    {
      if !props.isOpen {
        SetMenuActive(-1);
      }
    }

    method MouseDown()
      modifies this
      ensures old(Valid()) ==> Valid()
      ensures State() == Controller.Step(old(State()), Controller.MouseDown)
      ensures menuActive == old(menuActive) && activeWrites == old(activeWrites)
      ensures openRequests == old(openRequests) + (if props.hasOnSetOpen then [true] else [])
    {
      RequestOpen(true);
    }

    method MouseOver(i: nat)
      modifies this
      ensures old(Valid()) && Controller.IsItemIndex(old(props), i) ==> Valid()
      ensures State() == Controller.Step(old(State()), Controller.MouseOver(i))
      ensures menuActive == i
      ensures activeWrites == if old(menuActive) == i then old(activeWrites) else old(activeWrites) + [i]
      ensures props == old(props) && openRequests == old(openRequests)
    {
      if i != menuActive {
        SetMenuActive(i);
      }
    }

    method MouseOut()
      modifies this
      ensures old(Valid()) ==> Valid()
      ensures State() == Controller.Step(old(State()), Controller.MouseOut)
      ensures old(props.isOpen) ==> State() == old(State())
      ensures !old(props.isOpen) ==> menuActive == -1
    {
      if !props.isOpen {
        SetMenuActive(-1);
      }
    }

    /** `handleKeyDown`: Escape closes, every other key is ignored. */
    method KeyDown(key: string)
      modifies this
      ensures old(Valid()) ==> Valid()
      ensures State() == Controller.Step(old(State()), Controller.KeyDown(key))
      ensures key == Controller.ESCAPE ==> menuActive == -1
      ensures key != Controller.ESCAPE ==> State() == old(State())
    {
      match key {
        case "Escape" =>
          Close();
        case _ =>
      }
    }

    /** The parent renders the bar with new props; the effect runs if `isOpen` changed. */
    method Rerender(p: MenubarProps)
      modifies this
      ensures old(Valid()) && Controller.Admissible(old(State()), Controller.Rerender(p)) ==> Valid()
      ensures State() == Controller.Step(old(State()), Controller.Rerender(p))
      ensures props == p && openRequests == old(openRequests)
      ensures old(props.isOpen) && !p.isOpen ==> menuActive == -1
    {
      var changed := p.isOpen != props.isOpen;
      props := p;
      if changed {
        SyncWithOpen();
      }
    }

    /** `renderChildren`: each child in order, the list item's class and style built up step by step. */
    method RenderChildren() returns (items: seq<Rendered>)
      ensures items == RenderAll(props, menuActive)
    {
      var children := props.children;
      items := [];
      for index := 0 to |children|
        invariant items == RenderAll(props, menuActive)[..index]
      {
        var item: Rendered;
        match children[index] {
          case Nothing =>
            item := EmptyFragment;
          case Primitive(t) =>
            item := TextFragment(t);
          case Element(d) =>
            var active := menuActive == index;
            var menu := MenuPropsFor(props, menuActive, index, d);
            var className := ItemBaseClass(props.menubarClassNames);
            var style := ListitemStyle(props.menubarStyles);
            if active {
              className := className + ItemActiveSuffix(props.menubarClassNames);
              style := style + ActiveListitemStyle(props.menubarStyles);
            }
            item := ListItem(className, style, index + 1, index, ItemKey(index), index, d.labelText, menu);
        }
        items := items + [item];
      }
    }
  }

  /**
   * Three menus A, B, C: mouse-down asks to open, the parent opens the bar,
   * hovering B shows only B's submenu, Escape asks to close and resets, the
   * parent closes the bar and nothing is shown.
   */
  method ThreeMenuWalkthrough(a: MenuDescriptor, b: MenuDescriptor, c: MenuDescriptor)
  {
    var closed := MenubarProps([Element(a), Element(b), Element(c)], None, true, false, None, None);
    var open := closed.(isOpen := true);
    var bar := new Menubar(closed);
    bar.MouseDown();
    assert bar.openRequests == [true];
    bar.Rerender(open);
    bar.MouseOver(1);
    var view := bar.RenderChildren();
    assert Displayed(view[1]) && !Displayed(view[0]) && !Displayed(view[2]);
    bar.KeyDown("Escape");
    assert bar.menuActive == -1 && bar.openRequests == [true, false];
    bar.Rerender(closed);
    view := bar.RenderChildren();
    assert !Displayed(view[0]) && !Displayed(view[1]) && !Displayed(view[2]);
  }

  /** Hovering the active index again makes no second state write. */
  method RepeatedHover(p: MenubarProps)
  {
    var bar := new Menubar(p);
    bar.MouseOver(0);
    var writes := bar.activeWrites;
    bar.MouseOver(0);
    assert bar.activeWrites == writes && bar.menuActive == 0;
  }
}
