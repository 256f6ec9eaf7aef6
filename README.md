# Tab-bar page navigation, modelled in Dafny

This project models the page-list state machine behind a horizontal tab bar.
The tab bar shows an ordered list of pages (id, title, icon). The user can
reorder the pages by drag and drop, and can add, duplicate, rename and delete
them through a right-click context menu. The hosting page owns the active
page id and keeps a map from page id to title for its heading.

Modules, one per source file, plus two shared modules:

- `Pages` (`pages.dfy`) holds the `Page` record and the list operations that
  both copies of the state machine perform on a copy of `pages`. These are
  JavaScript `splice` (one removal, one insertion, with negative and
  past-the-end start indices normalised as JavaScript does), `filter` and
  `findIndex`. It also holds the lemmas about them.
- `PageNavigation` (`page_navigation.dfy`) models the component
  `src/components/PageNavigation.tsx`. It is a `TabBar` class whose fields are
  `pages`, `draggedItem`, `dragOverItem` and `contextMenu`, and whose methods
  are the event handlers. It also covers the inline tab icons, the drop
  indicator and the component's own copy of the context menu.
- `UsePageNavigation` (`use_page_navigation.dfy`) models the hook
  `src/hooks/usePageNavigation.ts`, which is the same state machine started
  from caller-supplied pages.
- `ContextMenu` (`context_menu.dfy`) models the responsive menu: its position
  for a window width, and the callbacks each click runs.
- `RenderIcon` (`render_icon.dfy`) models the icon resolver.
- `Home` (`home.dfy`) models the host page: the title-map merge and the
  heading fallback.
- `Wrappers` (`wrappers.dfy`) holds `Option`, which stands for JavaScript's
  `null`.

The host-owned active page id is an input parameter of the handlers. The two
host callbacks are results:

- `update` is the snapshot passed to `onPageUpdate`, or `None` when it is not called. The model takes the host to supply `onPageUpdate`, as `Home` does.
- `select` is the id passed to `onPageSelect`, or `None` when it is not called.

Fresh page ids (`Date.now().toString()` in the source) are a parameter. Every
operation that adds a page promises unique ids on the condition that the id
is not already in the list.

Behaviour of the code worth knowing:

- A drop whose two indices are missing or equal returns at once. It does not
  clear them; only the drag end does.
- A drop on the trailing slot moves the dragged page to the end without
  looking at `dragOverItem`.
- Deleting an id that no page has still reports a snapshot, which is the
  unchanged list.
- Duplicating a page that is not in the list puts the copy at the front,
  because `findIndex` returns -1 and the insertion index is 0.
- The heading falls back to "Unknown Page" also when the title is the empty
  string, because the source uses `||`.
- With no dragged index, the drop indicator compares the hovered index
  against 0, because `null` compares as 0.

## Model

| member | source | states |
|---|---|---|
| `Pages.SpliceStart` | src/components/PageNavigation.tsx:185-186 | the index `splice` acts on: in-range starts unchanged, starts past the end clamp to the length, negative starts count from the end and stop at 0 |
| `Pages.InsertAt` | src/components/PageNavigation.tsx:186 | inserting one element: length grows by one, the element sits at the normalised start, the elements before stay and the ones after shift right, same multiset plus the element |
| `Pages.RemoveAt` | src/components/PageNavigation.tsx:185 | removing the designated element: length shrinks by one, elements before stay, elements after shift left, the multiset loses exactly that element |
| `Pages.Move` | src/components/PageNavigation.tsx:184-186 | the reorder is a permutation of the same length, and the moved page lands at the target index of the shortened list |
| `Pages.MoveShifts` | src/components/PageNavigation.tsx:184-186 | the move as a rotation: pages outside the source–target range keep their places, the moved page is at the target, and the pages in between shift one step toward the source |
| `Pages.MoveToSameSlot` | src/components/PageNavigation.tsx:181-182 | moving a page to its own index gives the list back, which agrees with the guard that skips equal indices |
| `Pages.MoveExample` | src/components/PageNavigation.tsx:184-188 | `[A,B,C,D]` moved 0 → 2 is `[B,C,A,D]` |
| `Pages.MoveToEnd` | src/components/PageNavigation.tsx:433-438 | a target at or past the last index puts the dragged page last, and the others keep their relative order |
| `Pages.RemoveAtKeepsUnique` | src/components/PageNavigation.tsx:185 | removing a page keeps ids unique, and the removed page's id is no longer present |
| `Pages.InsertAtKeepsUnique` | src/components/PageNavigation.tsx:186 | inserting a page with a new id keeps ids unique |
| `Pages.MoveKeepsUnique` | src/components/PageNavigation.tsx:184-186 | a reorder keeps ids unique |
| `Pages.FindIndex` | src/components/PageNavigation.tsx:225 | `findIndex` gives the first index with that id, or -1 exactly when the id is absent |
| `Pages.FindIndexUnique` | src/components/PageNavigation.tsx:225 | with unique ids, the index found for page i's id is i |
| `Pages.DuplicateAfter` | src/components/PageNavigation.tsx:224-233 | one more page; a page that is not found gets its copy at the front |
| `Pages.DuplicatePlacement` | src/components/PageNavigation.tsx:224-235 | duplicating page i inserts exactly its copy at i+1 and changes nothing else; the copy's title is the original title plus " (Copy)" and its icon is the original icon; with a new id, the ids stay unique and the copy's id differs from the original's |
| `Pages.AddPageAfter` | src/components/PageNavigation.tsx:252-260 | adding gives one more page, and the new "New Page" is in the list |
| `Pages.AddPagePlacement` | src/components/PageNavigation.tsx:252-260 | the new page sits at index+1 with everything else in place; a new id keeps ids unique |
| `Pages.AddPageButtonAppends` | src/components/PageNavigation.tsx:448 | adding after the last index appends the new page |
| `Pages.StarterAddExample` | src/components/PageNavigation.tsx:252-260 | adding after index 1 of the four starter pages gives five pages, with the new page at index 2 and the first two unchanged |
| `Pages.WithoutId` | src/components/PageNavigation.tsx:241 | `filter` keeps exactly the pages with another id, never lengthens the list, and leaves the id absent |
| `Pages.WithoutIdSubmultiset` | src/components/PageNavigation.tsx:241 | `filter` only drops pages: every page with another id keeps all of its occurrences, and pages with the id keep none |
| `Pages.WithoutAbsentId` | src/components/PageNavigation.tsx:241 | filtering out an id no page has changes nothing |
| `Pages.WithoutUniqueId` | src/components/PageNavigation.tsx:241 | with unique ids, filtering out page i's id removes exactly page i |
| `Pages.WithoutIdKeepsUnique` | src/components/PageNavigation.tsx:241 | filtering keeps ids unique |
| `Pages.Reselect` | src/components/PageNavigation.tsx:245-248 | the replacement selection is the old first page whenever that page survives, and otherwise the second; unless both leading pages carry the deleted id it is the first page the filter keeps; with unique ids it is never the deleted id and it is still in the filtered list |
| `Pages.ReselectExample` | src/components/PageNavigation.tsx:245-248 | in `[A, B, C]`, deleting the active A selects B and deleting the active B or C selects A |
| `Pages.DeleteShortensByOne` | src/components/PageNavigation.tsx:239-241 | on two or more uniquely identified pages, deleting a present id removes exactly one page, deleting an absent id removes none, and the list never becomes empty |
| `Pages.DeleteNeedsUniqueIds` | src/components/PageNavigation.tsx:241-247 | if the first two pages share an id, deleting it empties a two-page list and selects the deleted id again; uniqueness is what the delete rule rests on |
| `PageNavigation.TabIcons` | src/components/PageNavigation.tsx:304-375 | the three inline conditional icons draw at most one glyph, and it is the one `renderIcon` gives for the same id and active flag |
| `PageNavigation.InlineMenuPosition` | src/components/PageNavigation.tsx:35-38 | the component's own menu is anchored at the cursor, which is the wide-window position of the responsive menu |
| `PageNavigation.MenuTarget` | src/components/PageNavigation.tsx:483 | the menu's page is the first page of the list with the menu's id |
| `PageNavigation.TabBar.constructor` | src/components/PageNavigation.tsx:145-159 | the tab bar starts with the four starter pages, no drag indices and no menu |
| `PageNavigation.TabBar.DragStart` | src/components/PageNavigation.tsx:168-170 | drag start records the dragged index |
| `PageNavigation.TabBar.DragOver` | src/components/PageNavigation.tsx:172-175 | drag over records the hovered index |
| `PageNavigation.TabBar.DragOverTrailingSlot` | src/components/PageNavigation.tsx:426-429 | hovering the trailing slot records the index one past the last page |
| `PageNavigation.TabBar.Drop` | src/components/PageNavigation.tsx:177-192 | a missing or equal index pair changes nothing, indices included; otherwise the list becomes the splice move, is reported, and both indices are cleared; in every case the list is a permutation of the old one and ids stay unique |
| `PageNavigation.TabBar.DragEnd` | src/components/PageNavigation.tsx:194-209 | the same move only when both indices are set and differ; both indices are always cleared |
| `PageNavigation.TabBar.DropOnTrailingSlot` | src/components/PageNavigation.tsx:430-444 | with a dragged page, that page goes last, the rest keep their order, and the indices are cleared; without one, nothing changes |
| `PageNavigation.TabBar.OpenContextMenu` | src/components/PageNavigation.tsx:211-214 | the menu becomes `{x, y, pageId}`, replacing any open one |
| `PageNavigation.TabBar.CloseContextMenu` | src/components/PageNavigation.tsx:216-218 | the menu is closed |
| `PageNavigation.TabBar.Rename` | src/components/PageNavigation.tsx:220-222 | rename changes no state |
| `PageNavigation.TabBar.Duplicate` | src/components/PageNavigation.tsx:224-236 | the list becomes the duplicate splice and is reported; one page more; a new id keeps ids unique |
| `PageNavigation.TabBar.Delete` | src/components/PageNavigation.tsx:238-250 | at most one page: nothing happens; otherwise the filter is applied and reported, and a deleted active page is replaced by the re-selection rule; with unique ids the list stays non-empty and the new selection is a remaining page other than the deleted one |
| `PageNavigation.TabBar.AddPage` | src/components/PageNavigation.tsx:252-265 | a "New Page" is inserted at index+1, reported and selected |
| `PageNavigation.TabBar.AddPageButton` | src/components/PageNavigation.tsx:446-449 | the "Add Page" button appends the new page and selects it |
| `PageNavigation.TabBar.ChooseMenuItem` | src/components/PageNavigation.tsx:479-488 | a menu click runs Duplicate or Delete on the menu's page (Rename, "Set as first page", "Copy" and the outside layer change no page) and always closes the menu |
| `PageNavigation.TabBar.Indicator` | src/components/PageNavigation.tsx:409-420 | a tab shows the indicator exactly when it is hovered and is not the dragged tab; the indicator goes after the tab when the hovered index is greater than the dragged one (0 when there is none); the trailing slot shows it before the button whenever it is hovered |
| `PageNavigation.TabBar.IndicatorOnlyOnHoveredSlot` | src/components/PageNavigation.tsx:409-420 | at most one slot, tab or trailing, shows the drop indicator, and it is the hovered slot |
| `PageNavigation.DropThenDragEnd` | src/components/PageNavigation.tsx:177-209 | a committing drop followed by the gesture's drag end moves the page once and leaves the indices cleared |
| `PageNavigation.TrailingDropThenDragEnd` | src/components/PageNavigation.tsx:430-444 | a trailing-slot drop followed by the drag end moves the page to the end once |
| `UsePageNavigation.Navigation.constructor` | src/hooks/usePageNavigation.ts:10-17 | the list starts as the caller's `initialPages`, with no drag indices and no menu |
| `UsePageNavigation.Navigation.DragStart` | src/hooks/usePageNavigation.ts:35-40 | drag start records the dragged index |
| `UsePageNavigation.Navigation.DragOver` | src/hooks/usePageNavigation.ts:42-45 | drag over records the hovered index |
| `UsePageNavigation.Navigation.Drop` | src/hooks/usePageNavigation.ts:47-65 | no change on a missing or equal index pair; otherwise the splice move, a report, and cleared indices; always a permutation that keeps ids unique |
| `UsePageNavigation.Navigation.DragEnd` | src/hooks/usePageNavigation.ts:67-85 | the move only when both indices are set and differ; the indices are always cleared |
| `UsePageNavigation.Navigation.OpenContextMenu` | src/hooks/usePageNavigation.ts:87-97 | the menu becomes `{x, y, pageId}`, replacing any open one |
| `UsePageNavigation.Navigation.CloseContextMenu` | src/hooks/usePageNavigation.ts:99-101 | the menu is closed |
| `UsePageNavigation.Navigation.Rename` | src/hooks/usePageNavigation.ts:103-106 | rename leaves pages, drag state and menu unchanged and selects nothing |
| `UsePageNavigation.Navigation.Duplicate` | src/hooks/usePageNavigation.ts:108-123 | exactly one page more, with the copy at the original's index plus one; a new id keeps ids unique |
| `UsePageNavigation.Navigation.Delete` | src/hooks/usePageNavigation.ts:125-140 | rejected on at most one page; otherwise the filter is applied; when the id is present and ids are unique the list shrinks by exactly one; with unique ids any re-selection picks a remaining id other than the deleted one |
| `UsePageNavigation.Navigation.AddPage` | src/hooks/usePageNavigation.ts:142-158 | one page more, inserted at index+1, reported, and its id is selected |
| `ContextMenu.PositionFor` | src/components/ContextMenu.tsx:47-54 | `top` is always `y`; `left` is `auto` and `right` is 20px exactly when the width is below 640; otherwise `left` is `x` and `right` is `auto` |
| `ContextMenu.MobileIgnoresCursorX` | src/components/ContextMenu.tsx:50-54 | on mobile the position does not depend on the cursor's x; only which side of the breakpoint the width is on matters; `top` never depends on the width |
| `ContextMenu.Callbacks` | src/components/ContextMenu.tsx:58-163 | every click ends by calling `onClose` exactly once; Rename, Duplicate and Delete first call their own handler with the menu's page; "Set as first page", "Copy" and the outside layer call only `onClose` |
| `ContextMenu.Menu.constructor` | src/components/ContextMenu.tsx:32-34 | the window width starts at the window's inner width, or 0 without a window |
| `ContextMenu.Menu.Resize` | src/components/ContextMenu.tsx:37-44 | a resize sets the tracked width |
| `ContextMenu.Menu.Position` | src/components/ContextMenu.tsx:50-54 | on the current tracked width: top is always `y`; below 640 the menu hugs the right edge 20px in; otherwise its left edge is the cursor's x |
| `RenderIcon.StrokeColor` | src/utils/renderIcon.tsx:5 | the stroke is `#F59D0E` exactly when active and `#8C93A1` exactly when not |
| `RenderIcon.Render` | src/utils/renderIcon.tsx:4-63 | a glyph is returned exactly for the three known ids, each with its own glyph and the active-dependent stroke; any other id gives null |
| `RenderIcon.GlyphsDistinct` | src/utils/renderIcon.tsx:7-59 | distinct known ids give distinct glyphs |
| `RenderIcon.ColourIndependentOfIcon` | src/utils/renderIcon.tsx:5-59 | all known icons share the stroke for a given flag, the glyph ignores the flag, and the stroke changes exactly when the flag does |
| `Home.Merged` | src/app/page.tsx:22-25 | the merged map's keys are the old keys plus the snapshot's ids |
| `Home.MergedKeepsOthers` | src/app/page.tsx:22 | a key that no page of the snapshot has keeps its old title |
| `Home.MergedLastWins` | src/app/page.tsx:23-25 | an id maps to the title of the last page that has it |
| `Home.MergedUnique` | src/app/page.tsx:23-25 | with unique ids, every page's id maps to that page's title |
| `Home.MergeTitles` | src/app/page.tsx:22-26 | the copy-then-`forEach` loop computes the merge and loses no key |
| `Home.HeadingFor` | src/app/page.tsx:38 | the heading is the active id's title when present and non-empty, and "Unknown Page" otherwise; it is never empty |
| `Home.HeadingAfterUpdate` | src/app/page.tsx:38 | after merging a snapshot with unique ids, the heading for any of its pages with a non-empty title is that title |
| `Home.MountKeepsInitialTitles` | src/app/page.tsx:8-13 | the mount-time snapshot of the four starter pages leaves the starter title map unchanged |
| `Home.HomePage.constructor` | src/app/page.tsx:7-13 | the host starts with active id "1" and the four starter titles |
| `Home.HomePage.SelectPage` | src/app/page.tsx:19 | selecting a tab sets the active id to the given id |
| `Home.HomePage.PageUpdate` | src/app/page.tsx:20-27 | the title map becomes the merge of the snapshot, and its keys grow by the snapshot's ids |
| `Home.HomePage.Heading` | src/app/page.tsx:38 | the heading is the active page's stored title when it has a non-empty one, and "Unknown Page" otherwise |

## Left out

- Markup, styling, SVG path data and pixel layout are presentation only. Glyphs are enum tags and colours are string constants.
- Portals and `document.body` are not modelled, and neither are the React effects, `useCallback` and state batching. Each handler is one atomic step on the current state.
- The mount-time `onPageUpdate` call is modelled only through its effect on the host (`Home.MountKeepsInitialTitles`).
- The window width is an input: the constructor's inner width and `Resize`. The resize listener's registration is not modelled.
- Cursor coordinates are integers. The source's coordinates are JavaScript numbers, which may be fractional.
- `Date.now().toString()` is not modelled. The fresh id is a parameter. Two pages added within the same millisecond would get the same id, and the clock is not modelled.
- `console.log` in rename is I/O.
- `onPageUpdate` is an optional prop of both the component and the hook. Without it, `notifyPageUpdate` calls nothing. The model takes the host to supply it, as `Home` does, so every `update == Some(...)` clause of `TabBar` and `Navigation` describes the call a supplying host receives.
- The drop handlers require the dragged index, when a move is committed, to designate a page. If it did not, JavaScript would splice `undefined` into the list. The view only ever passes the indices of rendered tabs.
- Icon and page ids are plain strings. JavaScript object keys such as `"constructor"` read inherited values from the title map, and the model does not capture that.
- `src/constants/pageNavigation.ts` is constant data. Its pages are `Pages.InitialPages` and its colours are the stroke constants. Its other colours are styling.
- `src/app/layout.tsx` and `next.config.js` are framework configuration and are not part of this model.
