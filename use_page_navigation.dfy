/**
 * The hook of `src/hooks/usePageNavigation.ts`: the same page-list state
 * machine as the tab bar, refactored out of the view. Its state starts from
 * the caller's `initialPages`; it has no trailing-slot drop and no drop
 * indicator. As in the component, the active page id is a parameter and the
 * two host callbacks are results (`update` for `onPageUpdate`, `select` for
 * `onPageSelect`, None when not called).
 */
module UsePageNavigation {
  import opened Wrappers
  import opened Pages

  class Navigation {
    var pages: seq<Page>
    var draggedItem: Option<int>
    var dragOverItem: Option<int>
    var contextMenu: Option<MenuAnchor>

    /** The list state starts as the caller's pages; no drag, no menu. */
    constructor (initialPages: seq<Page>)
      ensures pages == initialPages
      ensures draggedItem == None && dragOverItem == None && contextMenu == None
    {
      pages := initialPages;
      draggedItem := None;
      dragOverItem := None;
      contextMenu := None;
    }

    method DragStart(position: int)
      modifies this`draggedItem
      ensures draggedItem == Some(position)
    {
      draggedItem := Some(position);
    }

    method DragOver(position: int)
      modifies this`dragOverItem
      ensures dragOverItem == Some(position)
    {
      dragOverItem := Some(position);
    }

    /**
     * A drop: no change at all (indices included) on a missing or equal
     * index pair; otherwise the splice move, a report and cleared indices.
     */
    method Drop() returns (update: Option<seq<Page>>)
      requires Commits(draggedItem, dragOverItem) ==> DesignatesPage(pages, draggedItem)
      modifies this`pages, this`draggedItem, this`dragOverItem
      ensures if Commits(old(draggedItem), old(dragOverItem)) then
          && pages == Move(old(pages), old(draggedItem.value), old(dragOverItem.value))
          && update == Some(pages)
          && draggedItem == None && dragOverItem == None
        else
          && pages == old(pages) && update == None
          && draggedItem == old(draggedItem) && dragOverItem == old(dragOverItem)
      ensures multiset(pages) == multiset(old(pages))
      ensures UniqueIds(old(pages)) ==> UniqueIds(pages)
    {
      update := None;
      if draggedItem.None? || dragOverItem.None? {
        return;
      }
      if draggedItem.value == dragOverItem.value {
        return;
      }
      if UniqueIds(pages) { MoveKeepsUnique(pages, draggedItem.value, dragOverItem.value); }
      pages := Move(pages, draggedItem.value, dragOverItem.value);
      update := Some(pages);
      draggedItem := None;
      dragOverItem := None;
    }

    /** The drag end: the same move only when it commits; the indices are always cleared. */
    method DragEnd() returns (update: Option<seq<Page>>)
      requires Commits(draggedItem, dragOverItem) ==> DesignatesPage(pages, draggedItem)
      modifies this`pages, this`draggedItem, this`dragOverItem
      ensures draggedItem == None && dragOverItem == None
      ensures if Commits(old(draggedItem), old(dragOverItem)) then
          && pages == Move(old(pages), old(draggedItem.value), old(dragOverItem.value))
          && update == Some(pages)
        else
          pages == old(pages) && update == None
      ensures multiset(pages) == multiset(old(pages))
      ensures UniqueIds(old(pages)) ==> UniqueIds(pages)
    {
      update := None;
      if Commits(draggedItem, dragOverItem) {
        if UniqueIds(pages) { MoveKeepsUnique(pages, draggedItem.value, dragOverItem.value); }
        pages := Move(pages, draggedItem.value, dragOverItem.value);
        update := Some(pages);
      }
      draggedItem := None;
      dragOverItem := None;
    }

    /** Opening replaces any menu already open. */
    method OpenContextMenu(x: int, y: int, pageId: string)
      modifies this`contextMenu
      ensures contextMenu == Some(MenuAnchor(x, y, pageId))
    {
      contextMenu := Some(MenuAnchor(x, y, pageId));
    }

    method CloseContextMenu()
      modifies this`contextMenu
      ensures contextMenu == None
    {
      contextMenu := None;
    }

    /** Rename only logs its request: pages, drag state and menu stay as they are. */
    method Rename(page: Page)
      ensures unchanged(this)
    {
    }

    /** A copy of `page` right behind it; exactly one page more. */
    method Duplicate(page: Page, newId: string) returns (update: Option<seq<Page>>)
      modifies this`pages
      ensures pages == DuplicateAfter(old(pages), page, newId)
      ensures update == Some(pages)
      ensures |pages| == |old(pages)| + 1
      ensures page in old(pages) && UniqueIds(old(pages)) ==>
        pages[FindIndex(old(pages), page.id) + 1] == CopyOf(page, newId)
      ensures UniqueIds(old(pages)) && newId !in Ids(old(pages)) ==> UniqueIds(pages)
    {
      if UniqueIds(pages) && newId !in Ids(pages) {
        InsertAtKeepsUnique(pages, FindIndex(pages, page.id) + 1, CopyOf(page, newId));
      }
      if page in pages && UniqueIds(pages) {
        ghost var i :| 0 <= i < |pages| && pages[i] == page;
        DuplicatePlacement(pages, i, newId);
        FindIndexUnique(pages, i);
      }
      pages := DuplicateAfter(pages, page, newId);
      update := Some(pages);
    }

    /**
     * Delete: rejected on at most one page; otherwise the filter, and a new
     * selection when the active page was the deleted one.
     */
    method Delete(page: Page, activePageId: string) returns (update: Option<seq<Page>>, select: Option<string>)
      modifies this`pages
      ensures |old(pages)| <= 1 ==> pages == old(pages) && update == None && select == None
      ensures |old(pages)| > 1 ==>
        && pages == WithoutId(old(pages), page.id)
        && update == Some(pages)
        && select == (if activePageId == page.id then Some(Reselect(old(pages), page.id)) else None)
      ensures |old(pages)| > 1 && UniqueIds(old(pages)) && page.id in Ids(old(pages)) ==>
        |pages| == |old(pages)| - 1
      ensures UniqueIds(old(pages)) ==> UniqueIds(pages)
      ensures UniqueIds(old(pages)) && select.Some? ==> select.value != page.id && select.value in Ids(pages)
    {
      update, select := None, None;
      if |pages| <= 1 {
        return;
      }
      var old_pages := pages;
      if UniqueIds(pages) {
        WithoutIdKeepsUnique(pages, page.id);
        DeleteShortensByOne(pages, page.id);
      }
      pages := WithoutId(pages, page.id);
      update := Some(pages);
      if activePageId == page.id {
        select := Some(Reselect(old_pages, page.id));
      }
    }

    /** A "New Page" at `index + 1`, selected at once. */
    method AddPage(index: int, newId: string) returns (update: Option<seq<Page>>, select: Option<string>)
      modifies this`pages
      ensures pages == AddPageAfter(old(pages), index, newId)
      ensures update == Some(pages) && select == Some(newId)
      ensures |pages| == |old(pages)| + 1 && NewPage(newId) in pages
      ensures UniqueIds(old(pages)) && newId !in Ids(old(pages)) ==> UniqueIds(pages)
    {
      if UniqueIds(pages) && newId !in Ids(pages) {
        InsertAtKeepsUnique(pages, index + 1, NewPage(newId));
      }
      pages := AddPageAfter(pages, index, newId);
      update := Some(pages);
      select := Some(newId);
    }
  }
}
