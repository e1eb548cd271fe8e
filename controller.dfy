/**
 * The Menubar's activation state machine as pure transitions. `menuActive` is
 * the active index (-1: none); `writes` logs every `setMenuActive` call and
 * `requests` every `onSetOpen` call, oldest first. Each event is one atomic
 * handler run; `Rerender` is the parent rendering the bar with new props, after
 * which the `[isOpen]` effect runs if `isOpen` changed.
 */
module Controller {
  import opened Props
  import Projection

  const ESCAPE: string := "Escape"

  datatype Bar = Bar(props: MenubarProps, menuActive: int, writes: seq<int>, requests: seq<bool>)

  datatype Event =
    | MouseDown
    | MouseOver(index: nat)
    | MouseOut
    | KeyDown(key: string)
    | ClickOutside
    | Rerender(next: MenubarProps)

  /** `i` is the index of a child that renders as a list item. */
  predicate IsItemIndex(p: MenubarProps, i: int) {
    0 <= i < |p.children| && p.children[i].Element?
  }

  /** The active index is -1 or the index of a rendered list item. */
  predicate Valid(b: Bar) {
    b.menuActive == -1 || IsItemIndex(b.props, b.menuActive)
  }

  /**
   * The events the rendered bar can deliver while keeping its active item:
   * a hover comes from a list item's own handler, and a re-render either keeps
   * a list item at the active index or closes the bar (so the effect resets it).
   */
  predicate Admissible(b: Bar, e: Event) {
    match e
    case MouseOver(i) => IsItemIndex(b.props, i)
    case Rerender(p) => b.menuActive == -1 || IsItemIndex(p, b.menuActive) || (b.props.isOpen && !p.isOpen)
    case _ => true
  }

  predicate AdmissibleRun(b: Bar, es: seq<Event>)
    decreases |es|
  {
    es == [] || (Admissible(b, es[0]) && AdmissibleRun(Step(b, es[0]), es[1..]))
  }

  /** `setMenuActive(v)`. */
  function SetActive(b: Bar, v: int): Bar {
    b.(menuActive := v, writes := b.writes + [v])
  }

  /** `onSetOpen && onSetOpen(open)`. */
  function RequestOpen(b: Bar, open: bool): Bar {
    if b.props.hasOnSetOpen then b.(requests := b.requests + [open]) else b
  }

  function Close(b: Bar): Bar {
    RequestOpen(SetActive(b, -1), false)
  }

  /** The `[isOpen]` effect. */
  function Sync(b: Bar): Bar {
    if !b.props.isOpen then SetActive(b, -1) else b
  }

  /** The state right after mounting: `useState(-1)`, then the effect's first run. */
  function Mount(p: MenubarProps): Bar {
    Sync(Bar(p, -1, [], []))
  }

  function Step(b: Bar, e: Event): Bar {
    match e
    case MouseDown => RequestOpen(b, true)
    case MouseOver(i) => if i != b.menuActive then SetActive(b, i) else b
    case MouseOut => if !b.props.isOpen then SetActive(b, -1) else b
    case KeyDown(k) => if k == ESCAPE then Close(b) else b
    case ClickOutside => Close(b)
    case Rerender(p) =>
      var b' := b.(props := p);
      if p.isOpen != b.props.isOpen then Sync(b') else b'
  }

  function Run(b: Bar, es: seq<Event>): Bar
    decreases |es|
  {
    if es == [] then b else Run(Step(b, es[0]), es[1..])
  }

  /** What the bar renders in state `b`. */
  function View(b: Bar): seq<Projection.Rendered> {
    Projection.RenderAll(b.props, b.menuActive)
  }

  /** Mounting starts with no active index and no open request. */
  lemma MountState(p: MenubarProps)
    ensures Valid(Mount(p))
    ensures Mount(p).menuActive == -1 && Mount(p).props == p && Mount(p).requests == []
    ensures Mount(p).writes == if p.isOpen then [] else [-1]
  {
  }

  /**
   * Escape and an outside click both close: in one step, from any state, the
   * active index becomes -1 and `onSetOpen(false)` is requested; nothing else changes.
   */
  lemma CloseFromAnyState(b: Bar, e: Event)
    requires e == KeyDown(ESCAPE) || e == ClickOutside
    ensures Step(b, e).menuActive == -1
    ensures Step(b, e).writes == b.writes + [-1]
    ensures Step(b, e).requests == b.requests + (if b.props.hasOnSetOpen then [false] else [])
    ensures Step(b, e).props == b.props
  {
  }

  /** Every key other than Escape leaves the state as it is. */
  lemma OtherKeysInert(b: Bar, key: string)
    requires key != ESCAPE
    ensures Step(b, KeyDown(key)) == b
  {
  }

  /** Mouse-down requests `onSetOpen(true)` and touches nothing else. */
  lemma MouseDownRequestsOpen(b: Bar)
    ensures Step(b, MouseDown).menuActive == b.menuActive && Step(b, MouseDown).writes == b.writes
    ensures Step(b, MouseDown).requests == b.requests + (if b.props.hasOnSetOpen then [true] else [])
    ensures Step(b, MouseDown).props == b.props
  {
  }

  /**
   * Mouse-over on `i` makes `i` active whether or not the bar is open; when
   * `i` is already active no state write happens.
   */
  lemma MouseOverActivates(b: Bar, i: nat)
    ensures Step(b, MouseOver(i)).menuActive == i
    ensures Step(b, MouseOver(i)).writes == if b.menuActive == i then b.writes else b.writes + [i]
    ensures Step(b, MouseOver(i)).requests == b.requests && Step(b, MouseOver(i)).props == b.props
  {
  }

  /** Mouse-out resets the active index only while the bar is closed. */
  lemma MouseOutResetsOnlyWhenClosed(b: Bar)
    ensures b.props.isOpen ==> Step(b, MouseOut) == b
    ensures !b.props.isOpen ==> Step(b, MouseOut) == SetActive(b, -1)
  {
  }

  /** After the effect the active index is -1 whenever the bar is closed; running it again changes no index. */
  lemma SyncIdempotent(b: Bar)
    ensures !b.props.isOpen ==> Sync(b).menuActive == -1
    ensures b.props.isOpen ==> Sync(b) == b
    ensures Sync(Sync(b)).menuActive == Sync(b).menuActive
    ensures Sync(Sync(b)).props == Sync(b).props && Sync(Sync(b)).requests == Sync(b).requests
  {
  }

  /**
   * When the parent closes the bar, the active index is reset with no user
   * input, and no submenu is displayed.
   */
  lemma ExternalCloseResyncs(b: Bar, p: MenubarProps)
    requires b.props.isOpen && !p.isOpen
    ensures Step(b, Rerender(p)).menuActive == -1
    ensures Step(b, Rerender(p)).requests == b.requests
    ensures forall i :: 0 <= i < |p.children| ==> !Projection.Displayed(View(Step(b, Rerender(p)))[i])
  {
  }

  /**
   * A re-render that leaves `isOpen` as it was does not run the effect: a bar
   * that was hovered while closed keeps its active index.
   */
  lemma RerenderWithoutChangeKeepsActive(b: Bar, p: MenubarProps)
    requires p.isOpen == b.props.isOpen
    ensures Step(b, Rerender(p)) == b.(props := p)
  {
  }

  /**
   * While the bar is open with an active index, the active item's submenu is
   * displayed and no other: with `Projection.AtMostOneDisplayed`, exactly one.
   */
  lemma OpenActiveItemDisplayed(b: Bar)
    requires Valid(b) && b.props.isOpen && b.menuActive >= 0
    ensures b.menuActive < |View(b)| && Projection.Displayed(View(b)[b.menuActive])
    ensures forall i :: 0 <= i < |View(b)| && i != b.menuActive ==> !Projection.Displayed(View(b)[i])
  {
  }

  /** Every admissible transition keeps the active index at -1 or a list item's index. */
  lemma StepKeepsValid(b: Bar, e: Event)
    requires Valid(b) && Admissible(b, e)
    ensures Valid(Step(b, e))
  {
  }

  /** The same over every admissible history. */
  lemma {:induction false} RunKeepsValid(b: Bar, es: seq<Event>)
    requires Valid(b) && AdmissibleRun(b, es)
    ensures Valid(Run(b, es))
    decreases |es|
  {
    if es != [] {
      StepKeepsValid(b, es[0]);
      RunKeepsValid(Step(b, es[0]), es[1..]);
    }
  }

  /**
   * Positional identity: a re-render of an open bar that drops the active
   * child leaves `menuActive` pointing past the children.
   */
  lemma DroppedChildOrphansActive(b: Bar, p: MenubarProps)
    requires b.props.isOpen && p.isOpen && b.menuActive >= 0 && |p.children| == 0
    ensures Step(b, Rerender(p)).menuActive == b.menuActive
    ensures !Valid(Step(b, Rerender(p)))
  {
  }

  /** Running a history and then one more event is one more step. */
  lemma {:induction false} RunSnoc(b: Bar, es: seq<Event>, e: Event)
    ensures Run(b, es + [e]) == Step(Run(b, es), e)
    decreases |es|
  {
    if es == [] {
      assert [] + [e] == [e];
    } else {
      assert (es + [e])[0] == es[0];
      assert (es + [e])[1..] == es[1..] + [e];
      RunSnoc(Step(b, es[0]), es[1..], e);
    }
  }

  /**
   * Closing is reachable from every reachable state: after any history,
   * Escape leaves no active index, no displayed submenu and (when the callback
   * is present) a final request to close.
   */
  lemma EscapeClosesAfterAnyHistory(p: MenubarProps, es: seq<Event>)
    ensures var b := Run(Mount(p), es + [KeyDown(ESCAPE)]);
      && b.menuActive == -1
      && (b.props.hasOnSetOpen ==> |b.requests| > 0 && !b.requests[|b.requests| - 1])
      && (forall i :: 0 <= i < |b.props.children| ==> !Projection.Displayed(View(b)[i]))
  {
    var before := Run(Mount(p), es);
    RunSnoc(Mount(p), es, KeyDown(ESCAPE));
    CloseFromAnyState(before, KeyDown(ESCAPE));
    var b := Step(before, KeyDown(ESCAPE));
    forall i | 0 <= i < |b.props.children|
      ensures !Projection.Displayed(View(b)[i])
    {
      Projection.DisplayedIff(b.props, b.menuActive, i);
    }
  }

  /**
   * Only mouse-down asks to open: over a history without mouse-down the
   * request log only grows, and every request added to it is a close.
   */
  lemma {:induction false} OnlyMouseDownRequestsOpen(b: Bar, es: seq<Event>)
    requires forall k :: 0 <= k < |es| ==> !es[k].MouseDown?
    ensures b.requests <= Run(b, es).requests
    ensures forall k :: |b.requests| <= k < |Run(b, es).requests| ==> !Run(b, es).requests[k]
    decreases |es|
  {
    if es != [] {
      var next := Step(b, es[0]);
      assert b.requests <= next.requests;
      assert forall k :: |b.requests| <= k < |next.requests| ==> !next.requests[k];
      OnlyMouseDownRequestsOpen(next, es[1..]);
    }
  }

  /** The active index after a history is -1, the starting one, or one that was hovered. */
  lemma {:induction false} ActiveWasHovered(b: Bar, es: seq<Event>)
    ensures var m := Run(b, es).menuActive;
      m == -1 || m == b.menuActive || exists k :: 0 <= k < |es| && es[k].MouseOver? && es[k].index == m
    decreases |es|
  {
    if es != [] {
      var next := Step(b, es[0]);
      ActiveWasHovered(next, es[1..]);
      var m := Run(b, es).menuActive;
      assert Run(b, es) == Run(next, es[1..]);
      if m != -1 && m != b.menuActive {
        if m == next.menuActive {
          assert es[0].MouseOver? && es[0].index == m;
        } else {
          var k :| 0 <= k < |es[1..]| && es[1..][k].MouseOver? && es[1..][k].index == m;
          assert es[k + 1] == es[1..][k];
        }
      }
    }
  }
}
