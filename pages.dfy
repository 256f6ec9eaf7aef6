/**
 * The page list behind the tab bar: the `Page` record and the list
 * operations the handlers perform on a copy of `pages` -- JavaScript's
 * `Array.prototype.splice` (remove one element, insert one element),
 * `filter` and `findIndex` -- stated on sequences, with their properties.
 * Both `src/components/PageNavigation.tsx` and `src/hooks/usePageNavigation.ts`
 * use exactly these operations.
 */
module Pages {
  import opened Wrappers
  import opened RenderIcon

  /** A tab: an opaque id, a display title and an icon id. */
  datatype Page = Page(id: string, title: string, icon: string)

  /** The open context menu: cursor coordinates and the page it is for. */
  datatype MenuAnchor = MenuAnchor(x: int, y: int, pageId: string)

  const NewPageTitle: string := "New Page"
  const CopySuffix: string := " (Copy)"

  /** The four-page starter set the component starts from. */
  const InitialPages: seq<Page> := [
    Page("1", "Info", CircleInfoIcon),
    Page("2", "Details", FileTextIcon),
    Page("3", "Other", FileTextIcon),
    Page("4", "Ending", CircleCheckIcon)
  ]

  function Ids(pages: seq<Page>): set<string> {
    set p | p in pages :: p.id
  }

  /** No two pages share an id (the list's convention, not checked by the code). */
  predicate UniqueIds(pages: seq<Page>) {
    forall i, j :: 0 <= i < j < |pages| ==> pages[i].id != pages[j].id
  }

  // ---------------------------------------------------------------------
  // Array.prototype.splice, one element at a time

  /**
   * The index `splice(start, ...)` acts on in an array of length `len`:
   * a negative start counts from the end (and stops at 0), a start past
   * the end stands for the end.
   */
  function SpliceStart(len: nat, start: int): (k: nat)
    ensures k <= len
    ensures 0 <= start <= len ==> k == start
    ensures start >= len ==> k == len
    ensures start < 0 && 0 <= len + start ==> k == len + start
    ensures len + start < 0 ==> k == 0
  {
    if len + start < 0 then 0
    else if start < 0 then len + start
    else if start > len then len
    else start
  }

  /** `a.splice(start, 0, x)` on a copy of `s`: `x` lands at the normalised start. */
  function InsertAt(s: seq<Page>, start: int, x: Page): (r: seq<Page>)
    ensures |r| == |s| + 1
    ensures r[SpliceStart(|s|, start)] == x
    ensures forall i :: 0 <= i < SpliceStart(|s|, start) ==> r[i] == s[i]
    ensures forall i :: SpliceStart(|s|, start) < i < |r| ==> r[i] == s[i - 1]
    ensures multiset(r) == multiset(s) + multiset{x}
  {
    var k := SpliceStart(|s|, start);
    assert s == s[..k] + s[k..];
    s[..k] + [x] + s[k..]
  }

  /**
   * `a.splice(start, 1)` on a copy of `s`, when the normalised start designates
   * an element (otherwise JavaScript removes nothing and yields `undefined`).
   */
  function RemoveAt(s: seq<Page>, start: int): (r: seq<Page>)
    requires SpliceStart(|s|, start) < |s|
    ensures |r| == |s| - 1
    ensures forall i :: 0 <= i < SpliceStart(|s|, start) ==> r[i] == s[i]
    ensures forall i :: SpliceStart(|s|, start) <= i < |r| ==> r[i] == s[i + 1]
    ensures multiset(r) + multiset{s[SpliceStart(|s|, start)]} == multiset(s)
  {
    var k := SpliceStart(|s|, start);
    assert s == s[..k] + [s[k]] + s[k + 1..];
    s[..k] + s[k + 1..]
  }

  /**
   * The drag-and-drop reorder: take the page at `from` out, then put it back
   * at `to`, an index into the SHORTENED list (so `to` past its end appends).
   */
  function Move(pages: seq<Page>, from: int, to: int): (r: seq<Page>)
    requires SpliceStart(|pages|, from) < |pages|
    ensures |r| == |pages|
    ensures multiset(r) == multiset(pages)
    ensures r[SpliceStart(|pages| - 1, to)] == pages[SpliceStart(|pages|, from)]
  {
    InsertAt(RemoveAt(pages, from), to, pages[SpliceStart(|pages|, from)])
  }

  /**
   * Move as a rotation: with `f` the source and `t` the target slot, the pages
   * outside the range between them stay put, the moved page sits at `t`, and
   * the pages in between shift by one towards the source.
   */
  lemma {:induction false} MoveShifts(pages: seq<Page>, from: int, to: int)
    requires SpliceStart(|pages|, from) < |pages|
    ensures var f, t, r := SpliceStart(|pages|, from), SpliceStart(|pages| - 1, to), Move(pages, from, to);
      && r[t] == pages[f]
      && (forall i :: 0 <= i < |pages| && i < f && i < t ==> r[i] == pages[i])
      && (forall i :: 0 <= i < |pages| && i > f && i > t ==> r[i] == pages[i])
      && (forall i :: f <= i < t ==> r[i] == pages[i + 1])
      && (forall i :: t < i <= f ==> r[i] == pages[i - 1])
  {
    var f, t := SpliceStart(|pages|, from), SpliceStart(|pages| - 1, to);
    var rest := RemoveAt(pages, from);
    var r := Move(pages, from, to);
    assert r == InsertAt(rest, to, pages[f]);
    assert SpliceStart(|rest|, to) == t;
    forall i | 0 <= i < |pages| && i < f && i < t ensures r[i] == pages[i] {
      assert r[i] == rest[i];
    }
    forall i | 0 <= i < |pages| && i > f && i > t ensures r[i] == pages[i] {
      assert r[i] == rest[i - 1];
    }
    forall i | f <= i < t ensures r[i] == pages[i + 1] {
      assert r[i] == rest[i];
    }
    forall i | t < i <= f ensures r[i] == pages[i - 1] {
      assert r[i] == rest[i - 1];
    }
  }

  /** Putting a page back where it was taken from gives the list back. */
  lemma MoveToSameSlot(pages: seq<Page>, i: nat)
    requires i < |pages|
    ensures Move(pages, i, i) == pages
  {
    MoveShifts(pages, i, i);
  }

  /** `[A, B, C, D]` with the drag 0 -> 2 becomes `[B, C, A, D]`. */
  lemma MoveExample(a: Page, b: Page, c: Page, d: Page)
    ensures Move([a, b, c, d], 0, 2) == [b, c, a, d]
  {
    var s := [a, b, c, d];
    assert s[..0] + s[1..] == [b, c, d];
    var rest := [b, c, d];
    assert rest[..2] + [a] + rest[2..] == [b, c, a, d];
  }

  /**
   * A target index at or past the length (the trailing slot passes the
   * length of the list before the removal) sends the page to the last
   * position; every other page keeps its relative order.
   */
  lemma MoveToEnd(pages: seq<Page>, from: int, to: int)
    requires SpliceStart(|pages|, from) < |pages|
    requires to >= |pages| - 1
    ensures Move(pages, from, to) == RemoveAt(pages, from) + [pages[SpliceStart(|pages|, from)]]
  {
    var rest := RemoveAt(pages, from);
    assert SpliceStart(|rest|, to) == |rest|;
  }

  /** Removing one page leaves the others' ids unique and without the removed id. */
  lemma RemoveAtKeepsUnique(s: seq<Page>, start: int)
    requires SpliceStart(|s|, start) < |s|
    requires UniqueIds(s)
    ensures UniqueIds(RemoveAt(s, start))
    ensures s[SpliceStart(|s|, start)].id !in Ids(RemoveAt(s, start))
  {
    var k := SpliceStart(|s|, start);
    var r := RemoveAt(s, start);
    forall i, j | 0 <= i < j < |r| ensures r[i].id != r[j].id {
      var i' := if i < k then i else i + 1;
      var j' := if j < k then j else j + 1;
      assert r[i] == s[i'] && r[j] == s[j'];
    }
    forall i | 0 <= i < |r| ensures r[i].id != s[k].id {
      var i' := if i < k then i else i + 1;
      assert r[i] == s[i'];
    }
  }

  /** Inserting a page whose id is new keeps the ids unique. */
  lemma InsertAtKeepsUnique(s: seq<Page>, start: int, x: Page)
    requires UniqueIds(s)
    requires x.id !in Ids(s)
    ensures UniqueIds(InsertAt(s, start, x))
  {
    var k := SpliceStart(|s|, start);
    var r := InsertAt(s, start, x);
    forall i, j | 0 <= i < j < |r| ensures r[i].id != r[j].id {
      if i == k {
        assert r[j] == s[j - 1] && s[j - 1] in s;
      } else if j == k {
        assert r[i] == s[i] && s[i] in s;
      } else {
        var i' := if i < k then i else i - 1;
        var j' := if j < k then j else j - 1;
        assert r[i] == s[i'] && r[j] == s[j'];
      }
    }
  }

  /** A reorder keeps the ids unique. */
  lemma MoveKeepsUnique(pages: seq<Page>, from: int, to: int)
    requires SpliceStart(|pages|, from) < |pages|
    requires UniqueIds(pages)
    ensures UniqueIds(Move(pages, from, to))
  {
    RemoveAtKeepsUnique(pages, from);
    InsertAtKeepsUnique(RemoveAt(pages, from), to, pages[SpliceStart(|pages|, from)]);
  }

  // ---------------------------------------------------------------------
  // The drag state

  /** A drop or drag end commits a move only when both indices are set and differ. */
  predicate Commits(dragged: Option<int>, over: Option<int>) {
    dragged.Some? && over.Some? && dragged.value != over.value
  }

  /** The dragged index, if any, designates a page that `splice(dragged, 1)` removes. */
  predicate DesignatesPage(pages: seq<Page>, dragged: Option<int>) {
    dragged.Some? ==> SpliceStart(|pages|, dragged.value) < |pages|
  }

  // ---------------------------------------------------------------------
  // findIndex / find

  /** `pages.findIndex(p => p.id === id)`: the first match, or -1. */
  function FindIndex(pages: seq<Page>, id: string): (i: int)
    ensures -1 <= i < |pages|
    ensures i == -1 <==> id !in Ids(pages)
    ensures 0 <= i ==> pages[i].id == id
    ensures forall j :: 0 <= j < i ==> pages[j].id != id
  {
    if pages == [] then -1
    else if pages[0].id == id then 0
    else
      var k := FindIndex(pages[1..], id);
      assert Ids(pages) == {pages[0].id} + Ids(pages[1..]) by {
        assert pages == [pages[0]] + pages[1..];
      }
      if k == -1 then -1 else k + 1
  }

  /** With unique ids, the index found is THE index of that id. */
  lemma FindIndexUnique(pages: seq<Page>, i: nat)
    requires UniqueIds(pages)
    requires i < |pages|
    ensures FindIndex(pages, pages[i].id) == i
  {
    assert pages[i] in pages;
  }

  // ---------------------------------------------------------------------
  // Duplicate, add, delete

  /** The copy `handleDuplicate` builds: suffixed title, same icon, new id. */
  function CopyOf(page: Page, newId: string): Page {
    Page(newId, page.title + CopySuffix, page.icon)
  }

  /** The page `handleAddPage` builds. */
  function NewPage(newId: string): Page {
    Page(newId, NewPageTitle, FileTextIcon)
  }

  /**
   * `handleDuplicate`: the copy is spliced in at `findIndex + 1`, which is
   * the front of the list when the page is not found.
   */
  function DuplicateAfter(pages: seq<Page>, page: Page, newId: string): (r: seq<Page>)
    ensures |r| == |pages| + 1
    ensures page.id !in Ids(pages) ==> r == [CopyOf(page, newId)] + pages
  {
    var i := FindIndex(pages, page.id);
    assert i == -1 ==> pages[0..] == pages;
    InsertAt(pages, i + 1, CopyOf(page, newId))
  }

  /**
   * Duplicating the page at index `i` puts exactly one new page, its copy,
   * directly after it, and leaves everything else where it was; a new id
   * keeps the ids unique.
   */
  lemma DuplicatePlacement(pages: seq<Page>, i: nat, newId: string)
    requires UniqueIds(pages)
    requires i < |pages|
    ensures var r := DuplicateAfter(pages, pages[i], newId);
      && r == pages[..i + 1] + [CopyOf(pages[i], newId)] + pages[i + 1..]
      && r[i + 1].title == pages[i].title + " (Copy)"
      && r[i + 1].icon == pages[i].icon
      && (newId !in Ids(pages) ==> UniqueIds(r) && r[i + 1].id != pages[i].id)
  {
    FindIndexUnique(pages, i);
    var r := DuplicateAfter(pages, pages[i], newId);
    assert r == InsertAt(pages, i + 1, CopyOf(pages[i], newId));
    assert r == pages[..i + 1] + [CopyOf(pages[i], newId)] + pages[i + 1..];
    if newId !in Ids(pages) {
      InsertAtKeepsUnique(pages, i + 1, CopyOf(pages[i], newId));
      assert pages[i] in pages;
    }
  }

  /** `handleAddPage(index)`: a "New Page" spliced in at `index + 1`. */
  function AddPageAfter(pages: seq<Page>, index: int, newId: string): (r: seq<Page>)
    ensures |r| == |pages| + 1
    ensures NewPage(newId) in r
  {
    InsertAt(pages, index + 1, NewPage(newId))
  }

  /**
   * Adding after a page index puts the new page right behind it, and a new
   * id keeps the ids unique.
   */
  lemma AddPagePlacement(pages: seq<Page>, index: int, newId: string)
    requires -1 <= index < |pages|
    ensures AddPageAfter(pages, index, newId) == pages[..index + 1] + [NewPage(newId)] + pages[index + 1..]
    ensures UniqueIds(pages) && newId !in Ids(pages) ==> UniqueIds(AddPageAfter(pages, index, newId))
  {
    if UniqueIds(pages) && newId !in Ids(pages) {
      InsertAtKeepsUnique(pages, index + 1, NewPage(newId));
    }
  }

  /** The "Add Page" button passes the last index, so the new page is appended. */
  lemma AddPageButtonAppends(pages: seq<Page>, newId: string)
    ensures AddPageAfter(pages, |pages| - 1, newId) == pages + [NewPage(newId)]
  {
    AddPagePlacement(pages, |pages| - 1, newId);
    assert pages[..|pages|] == pages;
  }

  /** Adding after the second of the four starter pages gives five pages, the new one third. */
  lemma StarterAddExample(newId: string)
    ensures |AddPageAfter(InitialPages, 1, newId)| == 5
    ensures AddPageAfter(InitialPages, 1, newId)[2] == NewPage(newId)
    ensures AddPageAfter(InitialPages, 1, newId)[..2] == InitialPages[..2]
  {
    AddPagePlacement(InitialPages, 1, newId);
  }

  /** `pages.filter(p => p.id !== id)`. */
  function WithoutId(pages: seq<Page>, id: string): (r: seq<Page>)
    ensures |r| <= |pages|
    ensures forall p :: p in r <==> p in pages && p.id != id
    ensures id !in Ids(r)
  {
    if pages == [] then []
    else if pages[0].id == id then WithoutId(pages[1..], id)
    else [pages[0]] + WithoutId(pages[1..], id)
  }

  /**
   * The filter only drops pages: each surviving page occurs in the result
   * no more often than in the list, and every page with another id keeps
   * all of its occurrences.
   */
  lemma {:induction false} WithoutIdSubmultiset(pages: seq<Page>, id: string)
    ensures multiset(WithoutId(pages, id)) <= multiset(pages)
    ensures forall p: Page :: p.id != id ==> multiset(WithoutId(pages, id))[p] == multiset(pages)[p]
    ensures forall p: Page :: p.id == id ==> multiset(WithoutId(pages, id))[p] == 0
  {
    if pages != [] {
      var tail := pages[1..];
      WithoutIdSubmultiset(tail, id);
      assert pages == [pages[0]] + tail;
      assert multiset(pages) == multiset{pages[0]} + multiset(tail);
      if pages[0].id == id {
        assert WithoutId(pages, id) == WithoutId(tail, id);
      } else {
        assert WithoutId(pages, id) == [pages[0]] + WithoutId(tail, id);
        assert multiset(WithoutId(pages, id)) == multiset{pages[0]} + multiset(WithoutId(tail, id));
      }
    }
  }

  /** Filtering out an id no page has changes nothing. */
  lemma {:induction false} WithoutAbsentId(pages: seq<Page>, id: string)
    requires id !in Ids(pages)
    ensures WithoutId(pages, id) == pages
  {
    if pages != [] {
      assert pages[0] in pages;
      assert Ids(pages[1..]) <= Ids(pages) by {
        forall q | q in pages[1..] ensures q in pages { }
      }
      WithoutAbsentId(pages[1..], id);
    }
  }

  /** The pages after the first of a uniquely identified list are uniquely identified. */
  lemma UniqueTail(pages: seq<Page>)
    requires UniqueIds(pages)
    requires pages != []
    ensures UniqueIds(pages[1..])
  {
    var tail := pages[1..];
    forall a, b | 0 <= a < b < |tail| ensures tail[a].id != tail[b].id {
      assert tail[a] == pages[a + 1] && tail[b] == pages[b + 1];
    }
  }

  /** With unique ids, filtering out the first page's id removes just that page. */
  lemma WithoutFirstId(pages: seq<Page>)
    requires UniqueIds(pages)
    requires pages != []
    ensures WithoutId(pages, pages[0].id) == pages[1..]
  {
    var id := pages[0].id;
    var tail := pages[1..];
    assert id !in Ids(tail) by {
      forall j | 0 <= j < |tail| ensures tail[j].id != id {
        assert tail[j] == pages[j + 1];
      }
    }
    WithoutAbsentId(tail, id);
  }

  /** Removing index `i - 1` of the tail and putting the head back removes index `i`. */
  lemma RemoveAfterHead(pages: seq<Page>, i: nat)
    requires 0 < i < |pages|
    ensures [pages[0]] + (pages[1..][..i - 1] + pages[1..][i..]) == pages[..i] + pages[i + 1..]
  {
    assert pages[1..][..i - 1] == pages[1..i];
    assert pages[1..][i..] == pages[i + 1..];
    assert pages[..i] == [pages[0]] + pages[1..i];
  }

  /** With unique ids, filtering out the id of page `i` removes exactly that page. */
  lemma {:induction false} WithoutUniqueId(pages: seq<Page>, i: nat)
    requires UniqueIds(pages)
    requires i < |pages|
    ensures WithoutId(pages, pages[i].id) == pages[..i] + pages[i + 1..]
  {
    var id := pages[i].id;
    var tail := pages[1..];
    if i == 0 {
      WithoutFirstId(pages);
      assert pages[..0] + pages[1..] == tail;
    } else {
      UniqueTail(pages);
      assert tail[i - 1] == pages[i];
      WithoutUniqueId(tail, i - 1);
      assert pages[0].id != id;
      assert WithoutId(pages, id) == [pages[0]] + WithoutId(tail, id);
      RemoveAfterHead(pages, i);
    }
  }

  /** Filtering keeps ids unique. */
  lemma {:induction false} WithoutIdKeepsUnique(pages: seq<Page>, id: string)
    requires UniqueIds(pages)
    ensures UniqueIds(WithoutId(pages, id))
  {
    if id in Ids(pages) {
      var p :| p in pages && p.id == id;
      var i :| 0 <= i < |pages| && pages[i] == p;
      WithoutUniqueId(pages, i);
      RemoveAtKeepsUnique(pages, i);
      assert RemoveAt(pages, i) == pages[..i] + pages[i + 1..];
    } else {
      WithoutAbsentId(pages, id);
    }
  }

  /**
   * The page `handleDelete` selects when the active page is deleted: the
   * first page, or the second when the first is the deleted one. Unless
   * both leading pages carry the deleted id, that is the first page the
   * filter keeps; with unique ids it is never the deleted id.
   */
  function Reselect(pages: seq<Page>, deletedId: string): (r: string)
    requires |pages| >= 2
    ensures r == pages[0].id || r == pages[1].id
    ensures pages[0].id != deletedId ==> r == pages[0].id
    ensures pages[0].id != deletedId || pages[1].id != deletedId ==>
      |WithoutId(pages, deletedId)| >= 1 && r == WithoutId(pages, deletedId)[0].id
    ensures UniqueIds(pages) ==> r != deletedId && r in Ids(WithoutId(pages, deletedId))
  {
    var r := if pages[0].id == deletedId then pages[1].id else pages[0].id;
    assert UniqueIds(pages) ==> r != deletedId;
    if pages[0].id == deletedId && pages[1].id != deletedId then
      assert WithoutId(pages, deletedId) == WithoutId(pages[1..], deletedId);
      assert pages[1..][0] == pages[1];
      assert WithoutId(pages[1..], deletedId) == [pages[1]] + WithoutId(pages[2..], deletedId) by {
        assert pages[1..][1..] == pages[2..];
      }
      r
    else r
  }

  /**
   * In `[A, B, C]`, deleting the active A selects B, the first remaining
   * page, and deleting the active B or C selects A.
   */
  lemma ReselectExample(a: Page, b: Page, c: Page)
    requires UniqueIds([a, b, c])
    ensures Reselect([a, b, c], a.id) == b.id
    ensures Reselect([a, b, c], b.id) == a.id
    ensures Reselect([a, b, c], c.id) == a.id
  {
    assert [a, b, c][0] == a && [a, b, c][1] == b;
  }

  /**
   * Deleting from a list of at least two uniquely identified pages shortens
   * it by one when the id is present (and by nothing otherwise), so the list
   * never becomes empty.
   */
  lemma DeleteShortensByOne(pages: seq<Page>, id: string)
    requires UniqueIds(pages)
    requires |pages| >= 2
    ensures id in Ids(pages) ==> |WithoutId(pages, id)| == |pages| - 1
    ensures id !in Ids(pages) ==> WithoutId(pages, id) == pages
    ensures |WithoutId(pages, id)| >= 1
  {
    if id in Ids(pages) {
      var p :| p in pages && p.id == id;
      var i :| 0 <= i < |pages| && pages[i] == p;
      WithoutUniqueId(pages, i);
    } else {
      WithoutAbsentId(pages, id);
    }
  }

  /** Duplicate ids break the delete rule: both leading pages vanish and the deleted id is selected. */
  lemma DeleteNeedsUniqueIds(a: Page, b: Page)
    requires a.id == b.id
    ensures WithoutId([a, b], a.id) == []
    ensures Reselect([a, b], a.id) == a.id
  {
    assert WithoutId([b], a.id) == WithoutId([b][1..], a.id);
  }
}
