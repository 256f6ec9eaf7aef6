/**
 * The context menu of `src/components/ContextMenu.tsx`: where it is placed
 * for the current window width, and which callbacks each click runs.
 */
module ContextMenu {
  import opened Wrappers
  import opened Pages

  /** Below this window width the menu uses the mobile layout. */
  const MobileBreakpoint: int := 640
  /** The inset from the right edge on mobile, in pixels. */
  const MobileRightInset: int := 20

  /** A CSS length as the menu style uses it: `auto` or a pixel count. */
  datatype CssLength = Auto | Px(px: int)

  datatype MenuPosition = MenuPosition(left: CssLength, right: CssLength, top: CssLength)

  predicate IsMobile(windowWidth: int) {
    windowWidth < MobileBreakpoint
  }

  /**
   * `menuPosition`: the menu follows the cursor horizontally on wide
   * windows and pins to the right edge on narrow ones; it always sits at
   * the cursor's height.
   */
  function PositionFor(x: int, y: int, windowWidth: int): (pos: MenuPosition)
    ensures pos.top == Px(y)
    ensures pos.left == Auto <==> IsMobile(windowWidth)
    ensures pos.right == Px(MobileRightInset) <==> IsMobile(windowWidth)
    ensures !IsMobile(windowWidth) ==> pos.left == Px(x) && pos.right == Auto
  {
    var isMobile := IsMobile(windowWidth);
    MenuPosition(
      if isMobile then Auto else Px(x),
      if isMobile then Px(MobileRightInset) else Auto,
      Px(y))
  }

  /** On mobile the cursor's x does not matter; the vertical anchor never depends on the width. */
  lemma MobileIgnoresCursorX(x1: int, x2: int, y: int, w1: int, w2: int)
    ensures IsMobile(w1) ==> PositionFor(x1, y, w1) == PositionFor(x2, y, w1)
    ensures IsMobile(w1) == IsMobile(w2) ==> PositionFor(x1, y, w1) == PositionFor(x1, y, w2)
    ensures PositionFor(x1, y, w1).top == PositionFor(x2, y, w2).top
  {
  }

  /** The entries of the menu, in display order. */
  datatype MenuItem = SetAsFirstPage | Rename | Copy | Duplicate | Delete

  /** A click on the menu: on one of its entries, or on the capture layer behind it. */
  datatype Click = Backdrop | Entry(item: MenuItem)

  /** A callback of the menu's props, with its argument. */
  datatype Callback = OnRename(page: Page) | OnDuplicate(page: Page) | OnDelete(page: Page) | OnClose

  /** The entries that hand the menu's page to a page handler. */
  predicate HasPageHandler(item: MenuItem) {
    item == Rename || item == Duplicate || item == Delete
  }

  /**
   * The callbacks a click runs, in order. Every click closes the menu, last
   * and once; the three page entries first call their own handler with the
   * menu's page; "Set as first page", "Copy" and the capture layer only close.
   */
  function Callbacks(click: Click, page: Page): (calls: seq<Callback>)
    ensures |calls| >= 1 && calls[|calls| - 1] == OnClose
    ensures OnClose !in calls[..|calls| - 1]
    ensures |calls| == 2 <==> click.Entry? && HasPageHandler(click.item)
    ensures |calls| == 2 ==> calls[0].page == page
    ensures |calls| == 2 ==> (calls[0].OnRename? <==> click.item == Rename)
    ensures |calls| == 2 ==> (calls[0].OnDuplicate? <==> click.item == Duplicate)
    ensures |calls| == 2 ==> (calls[0].OnDelete? <==> click.item == Delete)
    ensures |calls| <= 2
  {
    match click
    case Backdrop => [OnClose]
    case Entry(SetAsFirstPage) => [OnClose]
    case Entry(Rename) => [OnRename(page), OnClose]
    case Entry(Copy) => [OnClose]
    case Entry(Duplicate) => [OnDuplicate(page), OnClose]
    case Entry(Delete) => [OnDelete(page), OnClose]
  }

  /**
   * An open menu. The window width is state: it starts at the window's inner
   * width (0 when there is no window) and follows resize events.
   */
  class Menu {
    const x: int
    const y: int
    const page: Page
    var windowWidth: int

    constructor (x: int, y: int, page: Page, innerWidth: Option<int>)
      ensures this.x == x && this.y == y && this.page == page
      ensures windowWidth == (if innerWidth.Some? then innerWidth.value else 0)
    {
      this.x := x;
      this.y := y;
      this.page := page;
      windowWidth := if innerWidth.Some? then innerWidth.value else 0;
    }

    /** The resize listener. */
    method Resize(innerWidth: int)
      modifies this
      ensures windowWidth == innerWidth
    {
      windowWidth := innerWidth;
    }

    function Position(): (pos: MenuPosition)
      reads this
      ensures pos.top == Px(y)
      ensures IsMobile(windowWidth) ==> pos.left == Auto && pos.right == Px(MobileRightInset)
      ensures !IsMobile(windowWidth) ==> pos.left == Px(x) && pos.right == Auto
    {
      PositionFor(x, y, windowWidth)
    }
  }
}
