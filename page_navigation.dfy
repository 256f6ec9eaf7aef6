/**
 * The tab bar component of `src/components/PageNavigation.tsx`: the page
 * list, the drag state and the open context menu are the fields of a
 * `TabBar`; every event handler is a method that reassigns them. The
 * host-owned active page id comes in as a parameter, and the two host
 * callbacks come out as results: `update` is the snapshot handed to
 * `onPageUpdate` (None when it is not called) and `select` the id handed to
 * `onPageSelect` (None when it is not called).
 */
module PageNavigation {
  import opened Wrappers
  import opened RenderIcon
  import opened Pages
  import ContextMenu

  /** Where the blue drop indicator is drawn for a slot, if at all. */
  datatype IndicatorSide = NoIndicator | BeforeSlot | AfterSlot

  /**
   * The tab icon as the component draws it inline: three independent
   * conditional SVGs, one per known icon id, stroked in the accent colour
   * for the active page. At most one of them is ever drawn, and it is the
   * one `renderIcon` would return.
   */
  function TabIcons(icon: string, isActive: bool): (icons: seq<Icon>)
    ensures |icons| <= 1
    ensures icons == if Render(icon, isActive).Some? then [Render(icon, isActive).value] else []
  {
    var stroke := if isActive then ActiveStroke else InactiveStroke;
    (if icon == CircleInfoIcon then [Icon(CircleInfo, stroke)] else [])
    + (if icon == FileTextIcon then [Icon(FileText, stroke)] else [])
    + (if icon == CircleCheckIcon then [Icon(CircleCheck, stroke)] else [])
  }

  /**
   * The component's own copy of the context menu anchors it at the cursor
   * (`left` and `top` only), which is where the responsive menu puts it on
   * a wide window.
   */
  function InlineMenuPosition(x: int, y: int): (pos: ContextMenu.MenuPosition)
    ensures forall w :: !ContextMenu.IsMobile(w) ==> pos == ContextMenu.PositionFor(x, y, w)
  {
    ContextMenu.MenuPosition(ContextMenu.Px(x), ContextMenu.Auto, ContextMenu.Px(y))
  }

  /**
   * The page the open menu is for: `pages.find(p => p.id === pageId)`, the
   * first page of the list carrying the id.
   */
  function MenuTarget(pages: seq<Page>, pageId: string): (page: Page)
    requires pageId in Ids(pages)
    ensures page in pages && page.id == pageId
    ensures exists i :: 0 <= i < |pages| && pages[i] == page && forall j :: 0 <= j < i ==> pages[j].id != pageId
  {
    var i := FindIndex(pages, pageId);
    assert 0 <= i < |pages| && pages[i] == pages[i];
    pages[i]
  }

  class TabBar {
    var pages: seq<Page>
    var draggedItem: Option<int>
    var dragOverItem: Option<int>
    var contextMenu: Option<MenuAnchor>

    /** Mounting: the four starter pages, no drag, no menu. */
    constructor ()
      ensures pages == InitialPages
      ensures draggedItem == None && dragOverItem == None && contextMenu == None
    {
      pages := InitialPages;
      draggedItem := None;
      dragOverItem := None;
      contextMenu := None;
    }

    method DragStart(position: int)
      modifies this`draggedItem
      ensures draggedItem == Some(position)
    {
      draggedItem := Some(position);
    }

    method DragOver(position: int)
      modifies this`dragOverItem
      ensures dragOverItem == Some(position)
    {
      dragOverItem := Some(position);
    }

    /** Hovering the trailing "end of list" slot targets the index one past the last page. */
    method DragOverTrailingSlot()
      modifies this`dragOverItem
      ensures dragOverItem == Some(|pages|)
    {
      dragOverItem := Some(|pages|);
    }

    /**
     * A drop on a tab. With a missing or equal index pair it returns at once,
     * leaving the list AND the indices as they were; otherwise it performs
     * the splice move, reports the new list and clears both indices.
     */
    method Drop() returns (update: Option<seq<Page>>)
      requires Commits(draggedItem, dragOverItem) ==> DesignatesPage(pages, draggedItem)
      modifies this`pages, this`draggedItem, this`dragOverItem
      ensures if Commits(old(draggedItem), old(dragOverItem)) then
          && pages == Move(old(pages), old(draggedItem.value), old(dragOverItem.value))
          && update == Some(pages)
          && draggedItem == None && dragOverItem == None
        else
          && pages == old(pages) && update == None
          && draggedItem == old(draggedItem) && dragOverItem == old(dragOverItem)
      ensures multiset(pages) == multiset(old(pages))
      ensures UniqueIds(old(pages)) ==> UniqueIds(pages)
    {
      update := None;
      if draggedItem.None? || dragOverItem.None? {
        return;
      }
      if draggedItem.value == dragOverItem.value {
        return;
      }
      if UniqueIds(pages) { MoveKeepsUnique(pages, draggedItem.value, dragOverItem.value); }
      pages := Move(pages, draggedItem.value, dragOverItem.value);
      update := Some(pages);
      draggedItem := None;
      dragOverItem := None;
    }

    /**
     * The end of a drag gesture: the same move as a drop when both indices
     * are set and differ, and in every case both indices are cleared.
     */
    method DragEnd() returns (update: Option<seq<Page>>)
      requires Commits(draggedItem, dragOverItem) ==> DesignatesPage(pages, draggedItem)
      modifies this`pages, this`draggedItem, this`dragOverItem
      ensures draggedItem == None && dragOverItem == None
      ensures if Commits(old(draggedItem), old(dragOverItem)) then
          && pages == Move(old(pages), old(draggedItem.value), old(dragOverItem.value))
          && update == Some(pages)
        else
          pages == old(pages) && update == None
      ensures multiset(pages) == multiset(old(pages))
      ensures UniqueIds(old(pages)) ==> UniqueIds(pages)
    {
      update := None;
      if Commits(draggedItem, dragOverItem) {
        if UniqueIds(pages) { MoveKeepsUnique(pages, draggedItem.value, dragOverItem.value); }
        pages := Move(pages, draggedItem.value, dragOverItem.value);
        update := Some(pages);
      }
      draggedItem := None;
      dragOverItem := None;
    }

    /**
     * A drop on the trailing slot: with a dragged page it sends that page to
     * the end (the insert index is the length before removal, clamped to the
     * end of the shortened list) and clears both indices; without one it
     * does nothing. It does not look at `dragOverItem`.
     */
    method DropOnTrailingSlot() returns (update: Option<seq<Page>>)
      requires DesignatesPage(pages, draggedItem)
      modifies this`pages, this`draggedItem, this`dragOverItem
      ensures if old(draggedItem).Some? then
          && pages == Move(old(pages), old(draggedItem.value), |old(pages)|)
          && pages == RemoveAt(old(pages), old(draggedItem.value))
                      + [old(pages)[SpliceStart(|old(pages)|, old(draggedItem.value))]]
          && update == Some(pages)
          && draggedItem == None && dragOverItem == None
        else
          && pages == old(pages) && update == None
          && draggedItem == old(draggedItem) && dragOverItem == old(dragOverItem)
      ensures UniqueIds(old(pages)) ==> UniqueIds(pages)
    {
      update := None;
      if draggedItem.Some? {
        MoveToEnd(pages, draggedItem.value, |pages|);
        if UniqueIds(pages) { MoveKeepsUnique(pages, draggedItem.value, |pages|); }
        pages := Move(pages, draggedItem.value, |pages|);
        update := Some(pages);
        draggedItem := None;
        dragOverItem := None;
      }
    }

    method OpenContextMenu(x: int, y: int, pageId: string)
      modifies this`contextMenu
      ensures contextMenu == Some(MenuAnchor(x, y, pageId))
    {
      contextMenu := Some(MenuAnchor(x, y, pageId));
    }

    method CloseContextMenu()
      modifies this`contextMenu
      ensures contextMenu == None
    {
      contextMenu := None;
    }

    /** Rename only logs its request; no state changes. */
    method Rename(page: Page)
      ensures unchanged(this)
    {
    }

    /** Splice a copy of `page` in behind it (at the front if it is not in the list). */
    method Duplicate(page: Page, newId: string) returns (update: Option<seq<Page>>)
      modifies this`pages
      ensures pages == DuplicateAfter(old(pages), page, newId)
      ensures update == Some(pages)
      ensures |pages| == |old(pages)| + 1
      ensures UniqueIds(old(pages)) && newId !in Ids(old(pages)) ==> UniqueIds(pages)
    {
      if UniqueIds(pages) && newId !in Ids(pages) {
        InsertAtKeepsUnique(pages, FindIndex(pages, page.id) + 1, CopyOf(page, newId));
      }
      pages := DuplicateAfter(pages, page, newId);
      update := Some(pages);
    }

    /**
     * Delete, rejected on a list of at most one page. Otherwise the pages
     * with that id are filtered out and, when the active page was deleted,
     * the first (or, if that is the deleted one, the second) page of the old
     * list is selected.
     */
    method Delete(page: Page, activePageId: string) returns (update: Option<seq<Page>>, select: Option<string>)
      modifies this`pages
      ensures |old(pages)| <= 1 ==> pages == old(pages) && update == None && select == None
      ensures |old(pages)| > 1 ==>
        && pages == WithoutId(old(pages), page.id)
        && update == Some(pages)
        && select == (if activePageId == page.id then Some(Reselect(old(pages), page.id)) else None)
      ensures UniqueIds(old(pages)) ==> UniqueIds(pages)
      ensures UniqueIds(old(pages)) && |old(pages)| >= 1 ==> |pages| >= 1
      ensures UniqueIds(old(pages)) && select.Some? ==> select.value != page.id && select.value in Ids(pages)
    {
      update, select := None, None;
      if |pages| <= 1 {
        return;
      }
      var old_pages := pages;
      if UniqueIds(pages) {
        WithoutIdKeepsUnique(pages, page.id);
        DeleteShortensByOne(pages, page.id);
      }
      pages := WithoutId(pages, page.id);
      update := Some(pages);
      if activePageId == page.id {
        select := Some(Reselect(old_pages, page.id));
      }
    }

    /** Splice a "New Page" in at `index + 1` and select it. */
    method AddPage(index: int, newId: string) returns (update: Option<seq<Page>>, select: Option<string>)
      modifies this`pages
      ensures pages == AddPageAfter(old(pages), index, newId)
      ensures update == Some(pages) && select == Some(newId)
      ensures NewPage(newId) in pages && |pages| == |old(pages)| + 1
      ensures UniqueIds(old(pages)) && newId !in Ids(old(pages)) ==> UniqueIds(pages)
    {
      if UniqueIds(pages) && newId !in Ids(pages) {
        InsertAtKeepsUnique(pages, index + 1, NewPage(newId));
      }
      pages := AddPageAfter(pages, index, newId);
      update := Some(pages);
      select := Some(newId);
    }

    /** The "Add Page" button adds after the last page: the new page is appended. */
    method AddPageButton(newId: string) returns (update: Option<seq<Page>>, select: Option<string>)
      modifies this`pages
      ensures pages == old(pages) + [NewPage(newId)]
      ensures update == Some(pages) && select == Some(newId)
    {
      AddPageButtonAppends(pages, newId);
      update, select := AddPage(|pages| - 1, newId);
    }

    /**
     * A click on the open menu (the component's own copy of it): the menu's
     * page is looked up by id, the entry's handler runs with it, then the
     * menu closes.
     */
    method ChooseMenuItem(click: ContextMenu.Click, newId: string, activePageId: string)
      returns (update: Option<seq<Page>>, select: Option<string>)
      requires contextMenu.Some? && contextMenu.value.pageId in Ids(pages)
      modifies this`pages, this`contextMenu
      ensures contextMenu == None
      ensures click == ContextMenu.Entry(ContextMenu.Duplicate) ==>
        && pages == DuplicateAfter(old(pages), MenuTarget(old(pages), old(contextMenu.value.pageId)), newId)
        && update == Some(pages) && select == None
      ensures click == ContextMenu.Entry(ContextMenu.Delete) && |old(pages)| > 1 ==>
        && pages == WithoutId(old(pages), old(contextMenu.value.pageId))
        && update == Some(pages)
        && select == (if activePageId == old(contextMenu.value.pageId)
                      then Some(Reselect(old(pages), activePageId)) else None)
      ensures !(click.Entry? && click.item in {ContextMenu.Duplicate, ContextMenu.Delete}) ==>
        pages == old(pages) && update == None && select == None
      ensures click == ContextMenu.Entry(ContextMenu.Delete) && |old(pages)| <= 1 ==>
        pages == old(pages) && update == None && select == None
    {
      var target := MenuTarget(pages, contextMenu.value.pageId);
      update, select := None, None;
      match click {
        case Entry(Rename) =>
          Rename(target);
        case Entry(Duplicate) =>
          update := Duplicate(target, newId);
        case Entry(Delete) =>
          update, select := Delete(target, activePageId);
        case _ =>
      }
      CloseContextMenu();
    }

    /**
     * The drop indicator of a slot (a tab index, or the trailing slot at
     * `|pages|`). A tab shows it when it is hovered and is not the dragged
     * tab, after the tab when the hovered index is greater than the dragged
     * one (a missing dragged index compares as 0) and before it otherwise;
     * the trailing slot shows it, before the button, whenever it is hovered.
     */
    function Indicator(slot: int): (side: IndicatorSide)
      requires 0 <= slot <= |pages|
      reads this
      ensures slot < |pages| ==> (side != NoIndicator <==> dragOverItem == Some(slot) && draggedItem != Some(slot))
      ensures slot < |pages| && draggedItem.Some? && side != NoIndicator ==> (side == AfterSlot <==> slot > draggedItem.value)
      ensures slot < |pages| && draggedItem.None? && side != NoIndicator ==> (side == AfterSlot <==> slot > 0)
      ensures slot == |pages| ==> (side != NoIndicator <==> dragOverItem == Some(|pages|)) && side != AfterSlot
    {
      if slot == |pages| then
        (if dragOverItem == Some(|pages|) then BeforeSlot else NoIndicator)
      else if dragOverItem == Some(slot) && draggedItem != Some(slot) then
        (if slot > (if draggedItem.Some? then draggedItem.value else 0) then AfterSlot else BeforeSlot)
      else NoIndicator
    }

    /** At most one slot shows the drop indicator, and it is the hovered one. */
    lemma IndicatorOnlyOnHoveredSlot(s1: int, s2: int)
      requires 0 <= s1 <= |pages| && 0 <= s2 <= |pages|
      ensures Indicator(s1) != NoIndicator && Indicator(s2) != NoIndicator ==> s1 == s2 && dragOverItem == Some(s1)
    {
    }
  }

  /**
   * A drop that committed, followed by the drag end of the same gesture,
   * moves the page once: the drag end finds both indices cleared.
   */
  method DropThenDragEnd(bar: TabBar)
    requires Commits(bar.draggedItem, bar.dragOverItem) && DesignatesPage(bar.pages, bar.draggedItem)
    modifies bar
    ensures bar.pages == Move(old(bar.pages), old(bar.draggedItem.value), old(bar.dragOverItem.value))
    ensures bar.draggedItem == None && bar.dragOverItem == None
  {
    var first := bar.Drop();
    var second := bar.DragEnd();
    assert second == None;
  }

  /** The same for a drop on the trailing slot followed by the drag end. */
  method TrailingDropThenDragEnd(bar: TabBar)
    requires bar.draggedItem.Some? && DesignatesPage(bar.pages, bar.draggedItem)
    modifies bar
    ensures bar.pages == Move(old(bar.pages), old(bar.draggedItem.value), |old(bar.pages)|)
    ensures bar.draggedItem == None && bar.dragOverItem == None
  {
    var first := bar.DropOnTrailingSlot();
    var second := bar.DragEnd();
    assert second == None;
  }
}
