/** The view controller: the handlers that change `filterState`, the render
    step that derives the visible page from it, and the invariant `Valid`
    (positive page size, page at least 1). Every render keeps it, every
    admissible action keeps it whether or not a render came in between, and the
    render after any sequence of actions shows a page within the page count. */
module Controller {
  import opened Strings
  import opened Records
  import opened Sorting
  import opened Filtering
  import opened Paging

  /** A checkbox of the tag panel changed: the tag is selected exactly when the
      box is now checked. The list is not re-rendered and the page is kept. */
  function ToggleTag(st: FilterState, tag: string, checked: bool): (r: FilterState)
    ensures tag in r.selectedTags <==> checked
    ensures forall t :: t != tag ==> (t in r.selectedTags <==> t in st.selectedTags)
    ensures r.(selectedTags := st.selectedTags) == st
  {
    st.(selectedTags := if checked then st.selectedTags + {tag} else st.selectedTags - {tag})
  }

  /** "Select all": every tag that has a checkbox (`shown`) becomes selected. */
  function SelectAllTags(st: FilterState, shown: seq<string>): (r: FilterState)
    ensures forall t :: t in r.selectedTags <==> t in st.selectedTags || t in shown
    ensures r.(selectedTags := st.selectedTags) == st
  {
    st.(selectedTags := st.selectedTags + set t | t in shown)
  }

  /** "Clear all": every tag that has a checkbox is deselected; a selected tag
      without a checkbox stays selected. */
  function ClearAllTags(st: FilterState, shown: seq<string>): (r: FilterState)
    ensures forall t :: t in r.selectedTags <==> t in st.selectedTags && t !in shown
    ensures r.(selectedTags := st.selectedTags) == st
  {
    st.(selectedTags := st.selectedTags - set t | t in shown)
  }

  /** Checking a box and unchecking it again restores the selection, as does
      "clear all" after "select all" when no shown tag was selected before. */
  lemma TagSelectionUndo(st: FilterState, tag: string, shown: seq<string>)
    ensures tag !in st.selectedTags ==> ToggleTag(ToggleTag(st, tag, true), tag, false) == st
    ensures tag in st.selectedTags ==> ToggleTag(ToggleTag(st, tag, false), tag, true) == st
    ensures (forall t :: t in shown ==> t !in st.selectedTags) ==>
      ClearAllTags(SelectAllTags(st, shown), shown) == st
  {
    if forall t :: t in shown ==> t !in st.selectedTags {
      var r := ClearAllTags(SelectAllTags(st, shown), shown);
      assert r.selectedTags == st.selectedTags;
    }
  }

  /** The sort selector changed: the new key applies from page 1. */
  function ChangeSort(st: FilterState, sortBy: string): (r: FilterState)
    ensures r.sortBy == sortBy && r.currentPage == 1
    ensures r.(sortBy := st.sortBy, currentPage := st.currentPage) == st
  {
    st.(sortBy := sortBy, currentPage := 1)
  }

  /** The page-size selector changed: the new size applies from page 1. */
  function ChangePageSize(st: FilterState, itemsPerPage: int): (r: FilterState)
    requires itemsPerPage > 0
    ensures r.itemsPerPage == itemsPerPage && r.currentPage == 1
    ensures r.(itemsPerPage := st.itemsPerPage, currentPage := st.currentPage) == st
  {
    st.(itemsPerPage := itemsPerPage, currentPage := 1)
  }

  /** The "apply" button, a (debounced) search edit, and a session change all
      restart from page 1 and leave every other field alone. */
  function RestartPaging(st: FilterState): (r: FilterState)
    ensures r.currentPage == 1
    ensures r.(currentPage := st.currentPage) == st
  {
    st.(currentPage := 1)
  }

  /** `resetAllFilters`: back to the initial filters, keeping the page size. */
  function ResetAllFilters(st: FilterState): (r: FilterState)
    ensures r.selectedTags == {} && r.searchTerm == "" && r.selectedSession == ""
    ensures SortOrderOf(r.sortBy) == Newest
    ensures r.currentPage == 1
    ensures r.itemsPerPage == st.itemsPerPage
    ensures r == InitialState().(itemsPerPage := st.itemsPerPage)
  {
    st.(selectedTags := {}, searchTerm := "", selectedSession := "", sortBy := "newest", currentPage := 1)
  }

  /** `changePage(page)`, called from a pagination button. */
  function ChangePage(st: FilterState, page: int): (r: FilterState)
    ensures r.currentPage == page
    ensures r.(currentPage := st.currentPage) == st
  {
    st.(currentPage := page)
  }

  /** What one render puts on the page. */
  datatype View = View(filteredCount: nat, totalPages: nat, items: seq<Record>, controls: PageControls)

  datatype Rendered = Rendered(state: FilterState, view: View)

  /** The value of an input box, or "" when the box is missing. */
  function BoxValue(box: Option<string>): string
  {
    match box
    case None => ""
    case Some(v) => v
  }

  /** The first step of a render: the search box (lower-cased) and the session
      box are copied into the state. */
  function ReadBoxes(st: FilterState, searchBox: Option<string>, sessionBox: Option<string>): (r: FilterState)
    ensures Lower(r.searchTerm) == r.searchTerm
    ensures searchBox.None? ==> r.searchTerm == ""
    ensures sessionBox.None? ==> r.selectedSession == ""
    ensures r.(searchTerm := st.searchTerm, selectedSession := st.selectedSession) == st
  {
    LowerIdempotent(BoxValue(searchBox));
    st.(searchTerm := Lower(BoxValue(searchBox)), selectedSession := BoxValue(sessionBox))
  }

  /** `renderProcessesWithFilters`: read the search and session boxes into the
      state, filter and sort, count the pages, clamp the current page, and cut
      out the page to show. */
  function Render(st: FilterState, processes: seq<Record>,
                  searchBox: Option<string>, sessionBox: Option<string>): (out: Rendered)
    requires st.itemsPerPage > 0
    ensures out.state.searchTerm == Lower(BoxValue(searchBox))
    ensures out.state.selectedSession == BoxValue(sessionBox)
    ensures out.state.(searchTerm := st.searchTerm, selectedSession := st.selectedSession,
                       currentPage := st.currentPage) == st
    ensures var filtered := ApplyFilters(ReadBoxes(st, searchBox, sessionBox), processes);
      && out.view.filteredCount == |filtered|
      && out.view.totalPages == TotalPages(|filtered|, st.itemsPerPage)
      && out.view.items == PageSlice(filtered, out.state.currentPage, st.itemsPerPage)
      && out.view.controls == RenderPagination(out.state.currentPage, out.view.totalPages)
    ensures out.state.currentPage == ClampPage(st.currentPage, out.view.totalPages)
    ensures st.currentPage >= 0 ==> 1 <= out.state.currentPage <= Max(1, out.view.totalPages)
    ensures 1 <= st.currentPage <= out.view.totalPages ==> out.state.currentPage == st.currentPage
    ensures |out.view.items| <= st.itemsPerPage
    ensures forall p :: p in out.view.items ==> p in processes && Matches(out.state, p)
    ensures out.view.controls.NoControls? <==> out.view.totalPages <= 1
  {
    var read := ReadBoxes(st, searchBox, sessionBox);
    var filtered := ApplyFilters(read, processes);
    var total := TotalPages(|filtered|, st.itemsPerPage);
    var page := ClampPage(read.currentPage, total);
    var shown := PageSlice(filtered, page, st.itemsPerPage);
    ShownPage(filtered, st.itemsPerPage, read.currentPage);
    Rendered(read.(currentPage := page), View(|filtered|, total, shown, RenderPagination(page, total)))
  }

  /** The page shown is one block of the partition of the filtered list into
      pages (see `PagesPartition`); with no match it is empty. */
  lemma {:induction false} RenderShowsOnePage(st: FilterState, processes: seq<Record>,
                                            searchBox: Option<string>, sessionBox: Option<string>)
    requires st.itemsPerPage > 0 && st.currentPage >= 0
    ensures var out := Render(st, processes, searchBox, sessionBox);
      OnePageOf(out.view.items, ApplyFilters(ReadBoxes(st, searchBox, sessionBox), processes),
                st.itemsPerPage, out.state.currentPage, out.view.totalPages)
  {
    var filtered := ApplyFilters(ReadBoxes(st, searchBox, sessionBox), processes);
    var out := Render(st, processes, searchBox, sessionBox);
    ShownPageIs(filtered, st.itemsPerPage, st.currentPage, out.view.totalPages, out.state.currentPage, out.view.items);
  }

  /** The invariant of `filterState` between events. */
  predicate Valid(st: FilterState)
  {
    st.itemsPerPage > 0 && st.currentPage >= 1
  }

  /** What the handlers act on: `filterState` and the contents of the search and
      session boxes (`None` when the page has no such box). */
  datatype Screen = Screen(filters: FilterState, searchBox: Option<string>, sessionBox: Option<string>)

  /** Render the screen; the boxes are read into the filters. */
  function RenderScreen(sc: Screen, processes: seq<Record>): Rendered
    requires sc.filters.itemsPerPage > 0
  {
    Render(sc.filters, processes, sc.searchBox, sc.sessionBox)
  }

  /** A user action. Typing in the search box and choosing a session change the
      box; their handlers then restart paging. */
  datatype Event =
    | TagToggled(tag: string, checked: bool)
    | SelectAllClicked(shown: seq<string>)
    | ClearAllClicked(shown: seq<string>)
    | SortChanged(sortBy: string)
    | PageSizeChanged(size: int)
    | ApplyClicked
    | SearchTyped(text: string)
    | SessionChanged(session: string)
    | ResetClicked
    | PageClicked(page: int)

  /** Whether the screen offers `e`: a page button must be enabled, the
      page-size selector only offers positive sizes, and a box that is missing
      cannot be edited (its handler is never attached). */
  predicate Offered(e: Event, sc: Screen, controls: PageControls)
    ensures controls.NoControls? && Offered(e, sc, controls) ==> !e.PageClicked?
    ensures (!e.PageClicked? && !e.PageSizeChanged? && !e.SearchTyped? && !e.SessionChanged?)
              ==> Offered(e, sc, controls)
  {
    && (e.PageSizeChanged? ==> e.size > 0)
    && (e.PageClicked? ==> e.page in Targets(controls))
    && (e.SearchTyped? ==> sc.searchBox.Some?)
    && (e.SessionChanged? ==> sc.sessionBox.Some?)
  }

  /** A box that exists is set to `v`; a missing box stays missing. */
  function SetBox(box: Option<string>, v: string): (r: Option<string>)
    ensures r.Some? <==> box.Some?
    ensures r.Some? ==> r.value == v
  {
    if box.Some? then Some(v) else None
  }

  /** The state change of one action. The reset also empties both boxes. */
  function Step(sc: Screen, e: Event): (r: Screen)
    requires e.PageSizeChanged? ==> e.size > 0
    ensures (|| e.SortChanged? || e.PageSizeChanged? || e.ApplyClicked? || e.SearchTyped?
             || e.SessionChanged? || e.ResetClicked?) ==> r.filters.currentPage == 1
    ensures (e.TagToggled? || e.SelectAllClicked? || e.ClearAllClicked?) ==>
              r.filters.(selectedTags := sc.filters.selectedTags) == sc.filters
    ensures !e.PageSizeChanged? ==> r.filters.itemsPerPage == sc.filters.itemsPerPage
    ensures r.searchBox.Some? == sc.searchBox.Some? && r.sessionBox.Some? == sc.sessionBox.Some?
    ensures e.SearchTyped? && sc.searchBox.Some? ==> r.searchBox == Some(e.text)
    ensures e.SessionChanged? && sc.sessionBox.Some? ==> r.sessionBox == Some(e.session)
    ensures e.ResetClicked? ==> BoxValue(r.searchBox) == "" && BoxValue(r.sessionBox) == ""
    ensures !e.SearchTyped? && !e.ResetClicked? ==> r.searchBox == sc.searchBox
    ensures !e.SessionChanged? && !e.ResetClicked? ==> r.sessionBox == sc.sessionBox
  {
    var st := sc.filters;
    match e
    case TagToggled(tag, checked) => sc.(filters := ToggleTag(st, tag, checked))
    case SelectAllClicked(shown) => sc.(filters := SelectAllTags(st, shown))
    case ClearAllClicked(shown) => sc.(filters := ClearAllTags(st, shown))
    case SortChanged(sortBy) => sc.(filters := ChangeSort(st, sortBy))
    case PageSizeChanged(size) => sc.(filters := ChangePageSize(st, size))
    case ApplyClicked => sc.(filters := RestartPaging(st))
    case SearchTyped(text) => Screen(RestartPaging(st), SetBox(sc.searchBox, text), sc.sessionBox)
    case SessionChanged(session) => Screen(RestartPaging(st), sc.searchBox, SetBox(sc.sessionBox, session))
    case ResetClicked => Screen(ResetAllFilters(st), SetBox(sc.searchBox, ""), SetBox(sc.sessionBox, ""))
    case PageClicked(page) => sc.(filters := ChangePage(st, page))
  }

  /** Render, take any action the screen offers, render again: the state stays
      valid and the current page lies within the page count. */
  lemma StepKeepsValid(sc: Screen, processes: seq<Record>, e: Event)
    requires Valid(sc.filters)
    ensures var shown := RenderScreen(sc, processes);
      var after := sc.(filters := shown.state);
      && Valid(shown.state)
      && (Offered(e, after, shown.view.controls) ==>
            && Valid(Step(after, e).filters)
            && var next := RenderScreen(Step(after, e), processes);
            && Valid(next.state)
            && next.state.currentPage <= Max(1, next.view.totalPages))
  {
    var shown := RenderScreen(sc, processes);
    var after := sc.(filters := shown.state);
    if Offered(e, after, shown.view.controls) && shown.view.totalPages >= 2 {
      TargetsInRange(shown.state.currentPage, shown.view.totalPages);
    }
  }

  /** What any handler can be fired with, whether or not the bar it came
      from is stale: a positive page size and a page button's target, which is
      at least 1 on any bar (`TargetsInRange`). */
  predicate Admissible(e: Event)
  {
    && (e.PageSizeChanged? ==> e.size > 0)
    && (e.PageClicked? ==> e.page >= 1)
  }

  /** One admissible action keeps the state valid, with no render needed. This
      covers clicks on a bar that tag clicks, which do not re-render, made stale. */
  lemma ActionKeepsValid(sc: Screen, e: Event)
    requires Valid(sc.filters) && Admissible(e)
    ensures Valid(Step(sc, e).filters)
  {
  }

  /** A sequence of actions, with no render in between. */
  function Run(sc: Screen, es: seq<Event>): (r: Screen)
    requires forall i :: 0 <= i < |es| ==> Admissible(es[i])
    ensures r.searchBox.Some? == sc.searchBox.Some? && r.sessionBox.Some? == sc.sessionBox.Some?
    decreases |es|
  {
    if |es| == 0 then sc
    else
      assert Admissible(es[0]);
      assert forall i :: 0 <= i < |es| - 1 ==> es[1..][i] == es[i + 1];
      Run(Step(sc, es[0]), es[1..])
  }

  /** After any sequence of admissible actions the state is still valid, and the
      render that follows shows a page within the page count. */
  lemma {:induction false} RunKeepsValid(sc: Screen, es: seq<Event>, processes: seq<Record>)
    requires Valid(sc.filters)
    requires forall i :: 0 <= i < |es| ==> Admissible(es[i])
    ensures Valid(Run(sc, es).filters)
    ensures var out := RenderScreen(Run(sc, es), processes);
      Valid(out.state) && out.state.currentPage <= Max(1, out.view.totalPages)
    decreases |es|
  {
    if |es| > 0 {
      assert Admissible(es[0]);
      ActionKeepsValid(sc, es[0]);
      assert forall i :: 0 <= i < |es| - 1 ==> es[1..][i] == es[i + 1];
      RunKeepsValid(Step(sc, es[0]), es[1..], processes);
    }
  }

  /** An edit of the search or session box reaches the next render: the new
      text (the search lower-cased) becomes the filter, from page 1. */
  lemma EditsReachRender(sc: Screen, processes: seq<Record>, text: string)
    requires Valid(sc.filters)
    ensures sc.searchBox.Some? ==>
      var out := RenderScreen(Step(sc, SearchTyped(text)), processes);
      out.state.searchTerm == Lower(text) && out.state.currentPage == 1
    ensures sc.sessionBox.Some? ==>
      var out := RenderScreen(Step(sc, SessionChanged(text)), processes);
      out.state.selectedSession == text && out.state.currentPage == 1
  {
  }

  /** A reset (which also empties both boxes) followed by its render lists
      every process, newest first, from page 1. */
  lemma ResetShowsEverything(sc: Screen, processes: seq<Record>)
    requires sc.filters.itemsPerPage > 0
    ensures var reset := Step(sc, ResetClicked);
      var out := RenderScreen(reset, processes);
      && out.view.filteredCount == |processes|
      && out.state.currentPage == 1
      && multiset(ApplyFilters(out.state, processes)) == multiset(processes)
      && forall i, j :: 0 <= i < j < |ApplyFilters(out.state, processes)| ==>
           ApplyFilters(out.state, processes)[i].createdAt >= ApplyFilters(out.state, processes)[j].createdAt
  {
    var reset := Step(sc, ResetClicked);
    assert BoxValue(reset.searchBox) == "" && BoxValue(reset.sessionBox) == "";
    assert Lower("") == "";
    var read := ReadBoxes(reset.filters, reset.searchBox, reset.sessionBox);
    assert NoFilterActive(read);
    var out := RenderScreen(reset, processes);
    assert out.state == read.(currentPage := out.state.currentPage);
    assert NoFilterActive(out.state);
    ApplyFiltersIgnoresPaging(read, out.state, processes);
    var filtered := ApplyFilters(out.state, processes);
    assert |filtered| == |multiset(filtered)| == |multiset(processes)| == |processes|;
    ApplyFiltersOrder(out.state, processes);
  }
}
