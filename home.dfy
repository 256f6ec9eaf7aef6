/**
 * The host page of `src/app/page.tsx`: it owns the active page id and a
 * map from page id to title, which it refreshes from every page-list
 * snapshot the tab bar reports, and shows the active page's title as the
 * heading.
 */
module Home {
  import opened Pages

  /** The titles the host knows before the tab bar reports anything. */
  const InitialTitles: map<string, string> := map["1" := "Info", "2" := "Details", "3" := "Other", "4" := "Ending"]

  const UnknownPageHeading: string := "Unknown Page"

  /**
   * The title map after a snapshot: each page in turn writes its title
   * under its id, on top of the old map (so a later page with the same id
   * wins).
   */
  function Merged(titles: map<string, string>, pages: seq<Page>): (r: map<string, string>)
    ensures r.Keys == titles.Keys + Ids(pages)
    decreases |pages|
  {
    if pages == [] then titles
    else
      assert Ids(pages) == {pages[0].id} + Ids(pages[1..]) by {
        assert pages == [pages[0]] + pages[1..];
      }
      Merged(titles[pages[0].id := pages[0].title], pages[1..])
  }

  /** An id that no page of the snapshot has keeps its old title. */
  lemma {:induction false} MergedKeepsOthers(titles: map<string, string>, pages: seq<Page>, k: string)
    requires k in titles && k !in Ids(pages)
    ensures Merged(titles, pages)[k] == titles[k]
    decreases |pages|
  {
    if pages != [] {
      assert pages[0] in pages;
      assert Ids(pages[1..]) <= Ids(pages) by {
        forall q | q in pages[1..] ensures q in pages { }
      }
      MergedKeepsOthers(titles[pages[0].id := pages[0].title], pages[1..], k);
    }
  }

  /** The last page with a given id decides that id's title. */
  lemma {:induction false} MergedLastWins(titles: map<string, string>, pages: seq<Page>, i: nat)
    requires i < |pages|
    requires forall j :: i < j < |pages| ==> pages[j].id != pages[i].id
    ensures Merged(titles, pages)[pages[i].id] == pages[i].title
    decreases |pages|
  {
    var next := titles[pages[0].id := pages[0].title];
    if i == 0 {
      assert pages[0].id !in Ids(pages[1..]) by {
        forall j | 0 <= j < |pages[1..]| ensures pages[1..][j].id != pages[0].id {
          assert pages[1..][j] == pages[j + 1];
        }
      }
      MergedKeepsOthers(next, pages[1..], pages[0].id);
    } else {
      forall j | i - 1 < j < |pages[1..]| ensures pages[1..][j].id != pages[1..][i - 1].id {
        assert pages[1..][j] == pages[j + 1];
      }
      MergedLastWins(next, pages[1..], i - 1);
    }
  }

  /** With unique ids, every page's id maps to that page's title. */
  lemma MergedUnique(titles: map<string, string>, pages: seq<Page>, i: nat)
    requires UniqueIds(pages) && i < |pages|
    ensures Merged(titles, pages)[pages[i].id] == pages[i].title
  {
    MergedLastWins(titles, pages, i);
  }

  /**
   * The `onPageUpdate` handler's loop: copy the map, then write each page's
   * title under its id.
   */
  method MergeTitles(titles: map<string, string>, pages: seq<Page>) returns (newTitles: map<string, string>)
    ensures newTitles == Merged(titles, pages)
    ensures titles.Keys <= newTitles.Keys
  {
    newTitles := titles;
    var n := 0;
    while n < |pages|
      invariant 0 <= n <= |pages|
      invariant Merged(newTitles, pages[n..]) == Merged(titles, pages)
    {
      assert pages[n..][1..] == pages[n + 1..];
      newTitles := newTitles[pages[n].id := pages[n].title];
      n := n + 1;
    }
    assert pages[n..] == [];
  }

  /**
   * The heading: the active page's title, or "Unknown Page" when the map has
   * no such key or the title is empty (the source's `||` treats "" as
   * missing).
   */
  function HeadingFor(titles: map<string, string>, activePageId: string): (h: string)
    ensures activePageId in titles && titles[activePageId] != "" ==> h == titles[activePageId]
    ensures !(activePageId in titles && titles[activePageId] != "") ==> h == UnknownPageHeading
    ensures h != ""
  {
    if activePageId in titles && titles[activePageId] != "" then titles[activePageId]
    else UnknownPageHeading
  }

  /**
   * Once a snapshot with unique ids has been merged, selecting any of its
   * pages with a non-empty title shows exactly that title.
   */
  lemma HeadingAfterUpdate(titles: map<string, string>, pages: seq<Page>, i: nat)
    requires UniqueIds(pages) && i < |pages| && pages[i].title != ""
    ensures HeadingFor(Merged(titles, pages), pages[i].id) == pages[i].title
  {
    MergedUnique(titles, pages, i);
  }

  /** The mount-time snapshot of the starter pages leaves the starter titles as they were. */
  lemma MountKeepsInitialTitles()
    ensures Merged(InitialTitles, InitialPages) == InitialTitles
  {
    var t := InitialTitles;
    var p := InitialPages;
    assert t[p[0].id := p[0].title] == t;
    assert t[p[1].id := p[1].title] == t;
    assert t[p[2].id := p[2].title] == t;
    assert t[p[3].id := p[3].title] == t;
    assert p[1..][1..][1..][1..] == [];
    assert Merged(t, p[1..][1..][1..]) == Merged(t, p[1..][1..][1..][1..]);
    assert Merged(t, p[1..][1..]) == Merged(t, p[1..][1..][1..]);
    assert Merged(t, p[1..]) == Merged(t, p[1..][1..]);
  }

  class HomePage {
    var activePageId: string
    var pageTitles: map<string, string>

    constructor ()
      ensures activePageId == "1"
      ensures pageTitles == InitialTitles
    {
      activePageId := "1";
      pageTitles := InitialTitles;
    }

    /** `onPageSelect` is the state setter: the given id becomes active. */
    method SelectPage(pageId: string)
      modifies this`activePageId
      ensures activePageId == pageId
    {
      activePageId := pageId;
    }

    /** `onPageUpdate`: merge the snapshot into the title map; no title is lost. */
    method PageUpdate(pages: seq<Page>)
      modifies this`pageTitles
      ensures pageTitles == Merged(old(pageTitles), pages)
      ensures pageTitles.Keys == old(pageTitles).Keys + Ids(pages)
    {
      pageTitles := MergeTitles(pageTitles, pages);
    }

    function Heading(): (h: string)
      reads this
      ensures activePageId in pageTitles && pageTitles[activePageId] != "" ==> h == pageTitles[activePageId]
      ensures !(activePageId in pageTitles && pageTitles[activePageId] != "") ==> h == UnknownPageHeading
    {
      HeadingFor(pageTitles, activePageId)
    }
  }
}
