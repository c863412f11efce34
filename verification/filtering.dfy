/** The filter state and `applyFilters`: three optional filters applied one
    after the other, then the sort chosen by `sortBy`. */
module Filtering {
  import opened Strings
  import opened Records
  import opened Seqs
  import opened Sorting

  /** `filterState`. The search term and the session are copied from the page's
      input boxes on every render; an empty string means "not filtering". */
  datatype FilterState = FilterState(
    selectedTags: set<string>,
    sortBy: string,
    itemsPerPage: int,
    currentPage: int,
    searchTerm: string,
    selectedSession: string)

  /** The state the page starts with: no filter, newest first, 20 per page,
      page 1. */
  function InitialState(): (st: FilterState)
    ensures NoFilterActive(st)
    ensures SortOrderOf(st.sortBy) == Newest
    ensures st.itemsPerPage == 20 && st.currentPage == 1
  {
    FilterState({}, "newest", 20, 1, "", "")
  }

  /** Some tag of `p`, lower-cased, contains `term`. */
  predicate SomeTagContains(p: Record, term: string)
  {
    exists i :: 0 <= i < |TagsOf(p)| && Contains(Lower(TagsOf(p)[i]), term)
  }

  /** The search filter: the (lower-case) term occurs in the lower-cased title,
      the lower-cased description or some lower-cased tag. */
  predicate SearchHit(term: string, p: Record)
    ensures term == [] ==> SearchHit(term, p)
    ensures (|TagsOf(p)| == 0 && !Contains(Lower(p.title), term) && !Contains(Lower(p.description), term))
              ==> !SearchHit(term, p)
  {
    || Contains(Lower(p.title), term)
    || Contains(Lower(p.description), term)
    || SomeTagContains(p, term)
  }

  /** The tag filter: `p` has tags, and every selected tag among them. */
  predicate HasEveryTag(selected: set<string>, p: Record)
    ensures p.tags.None? ==> !HasEveryTag(selected, p)
    ensures HasEveryTag(selected, p) ==> selected <= set t | t in TagsOf(p)
  {
    |TagsOf(p)| > 0 && forall t :: t in selected ==> t in TagsOf(p)
  }

  /** What it takes for a record to survive all active filters, as a single
      condition. */
  predicate Matches(st: FilterState, p: Record)
    ensures NoFilterActive(st) ==> Matches(st, p)
  {
    && (st.selectedSession != "" ==> p.sessionId == st.selectedSession)
    && (st.searchTerm != "" ==> SearchHit(Lower(st.searchTerm), p))
    && (st.selectedTags != {} ==> HasEveryTag(st.selectedTags, p))
  }

  /** No filter is active. */
  predicate NoFilterActive(st: FilterState)
  {
    st.selectedSession == "" && st.searchTerm == "" && st.selectedTags == {}
  }

  /** The three filters in the order `applyFilters` runs them. */
  function FilterPasses(st: FilterState, processes: seq<Record>): (r: seq<Record>)
    ensures NoFilterActive(st) ==> r == processes
  {
    var bySession :=
      if st.selectedSession != "" then Filter(processes, (p: Record) => p.sessionId == st.selectedSession)
      else processes;
    var bySearch :=
      if st.searchTerm != "" then Filter(bySession, (p: Record) => SearchHit(Lower(st.searchTerm), p))
      else bySession;
    if st.selectedTags != {} then Filter(bySearch, (p: Record) => HasEveryTag(st.selectedTags, p))
    else bySearch
  }

  /** `applyFilters(processes)`. */
  function ApplyFilters(st: FilterState, processes: seq<Record>): (r: seq<Record>)
    ensures multiset(r) <= multiset(processes)
    ensures forall p :: p in r <==> p in processes && Matches(st, p)
    ensures forall p :: Matches(st, p) ==> multiset(r)[p] == multiset(processes)[p]
    ensures NoFilterActive(st) ==> multiset(r) == multiset(processes)
    ensures Ordered(SortOrderOf(st.sortBy), r)
  {
    FilterPassesCounts(st, processes);
    Sort(SortOrderOf(st.sortBy), FilterPasses(st, processes))
  }

  /** Each pass keeps every copy of a matching record and drops every other one. */
  lemma FilterPassesCounts(st: FilterState, processes: seq<Record>)
    ensures forall p :: Matches(st, p) ==> multiset(FilterPasses(st, processes))[p] == multiset(processes)[p]
    ensures forall p :: !Matches(st, p) ==> multiset(FilterPasses(st, processes))[p] == 0
  {
    var keep := (p: Record) => Matches(st, p);
    FilterPassesIsOneFilter(st, processes, keep);
    FilterCounts(processes, keep);
  }

  /** The three passes in sequence are one filter by `Matches`. */
  lemma {:induction false} FilterPassesIsOneFilter(st: FilterState, processes: seq<Record>, keep: Record -> bool)
    requires forall p :: keep(p) <==> Matches(st, p)
    ensures FilterPasses(st, processes) == Filter(processes, keep)
  {
    var session := (p: Record) => p.sessionId == st.selectedSession;
    var search := (p: Record) => SearchHit(Lower(st.searchTerm), p);
    var tags := (p: Record) => HasEveryTag(st.selectedTags, p);
    var sessionOn := (p: Record) => st.selectedSession != "" ==> p.sessionId == st.selectedSession;
    var searchOn := (p: Record) => st.searchTerm != "" ==> SearchHit(Lower(st.searchTerm), p);
    var tagsOn := (p: Record) => st.selectedTags != {} ==> HasEveryTag(st.selectedTags, p);
    var sessionAndSearch := (p: Record) => sessionOn(p) && searchOn(p);
    // each pass, active or not, is a filter by its "on" predicate
    var bySession := if st.selectedSession != "" then Filter(processes, session) else processes;
    GuardedFilter(processes, st.selectedSession != "", session, sessionOn);
    var bySearch := if st.searchTerm != "" then Filter(bySession, search) else bySession;
    GuardedFilter(bySession, st.searchTerm != "", search, searchOn);
    var byTags := if st.selectedTags != {} then Filter(bySearch, tags) else bySearch;
    GuardedFilter(bySearch, st.selectedTags != {}, tags, tagsOn);
    FilterFilter(processes, sessionOn, searchOn, sessionAndSearch);
    FilterFilter(processes, sessionAndSearch, tagsOn, keep);
    assert FilterPasses(st, processes) == byTags;
  }

  /** `applyFilters` is one filter by `Matches`, followed by the sort. */
  lemma ApplyFiltersIsOneFilter(st: FilterState, processes: seq<Record>, keep: Record -> bool)
    requires forall p :: keep(p) <==> Matches(st, p)
    ensures ApplyFilters(st, processes) == Sort(SortOrderOf(st.sortBy), Filter(processes, keep))
  {
    FilterPassesIsOneFilter(st, processes, keep);
  }

  /** The result depends only on the filter and sort fields, not on the
      paging fields. */
  lemma ApplyFiltersIgnoresPaging(st: FilterState, st': FilterState, processes: seq<Record>)
    requires st.selectedTags == st'.selectedTags && st.sortBy == st'.sortBy
    requires st.searchTerm == st'.searchTerm && st.selectedSession == st'.selectedSession
    ensures ApplyFilters(st, processes) == ApplyFilters(st', processes)
  {
    var bySession := if st.selectedSession != "" then Filter(processes, (p: Record) => p.sessionId == st.selectedSession) else processes;
    var bySession' := if st'.selectedSession != "" then Filter(processes, (p: Record) => p.sessionId == st'.selectedSession) else processes;
    FilterExtensional(processes, (p: Record) => p.sessionId == st.selectedSession, (p: Record) => p.sessionId == st'.selectedSession);
    assert bySession == bySession';
    var bySearch := if st.searchTerm != "" then Filter(bySession, (p: Record) => SearchHit(Lower(st.searchTerm), p)) else bySession;
    var bySearch' := if st'.searchTerm != "" then Filter(bySession', (p: Record) => SearchHit(Lower(st'.searchTerm), p)) else bySession';
    FilterExtensional(bySession, (p: Record) => SearchHit(Lower(st.searchTerm), p), (p: Record) => SearchHit(Lower(st'.searchTerm), p));
    assert bySearch == bySearch';
    FilterExtensional(bySearch, (p: Record) => HasEveryTag(st.selectedTags, p), (p: Record) => HasEveryTag(st'.selectedTags, p));
    assert FilterPasses(st, processes) == FilterPasses(st', processes);
  }

  /** With an unknown `sortBy` the comparator answers 0 and the records come
      out in input order. */
  lemma UnknownSortKeepsOrder(st: FilterState, processes: seq<Record>, keep: Record -> bool)
    requires forall p :: keep(p) <==> Matches(st, p)
    requires SortOrderOf(st.sortBy) == Unsorted
    ensures ApplyFilters(st, processes) == Filter(processes, keep)
  {
    ApplyFiltersIsOneFilter(st, processes, keep);
    UnsortedKeepsOrder(Filter(processes, keep));
  }

  /** What the sort guarantees about the output, for each `sortBy`. */
  lemma ApplyFiltersOrder(st: FilterState, processes: seq<Record>)
    ensures var r := ApplyFilters(st, processes);
      && (st.sortBy == "newest" ==> forall i, j :: 0 <= i < j < |r| ==> r[i].createdAt >= r[j].createdAt)
      && (st.sortBy == "oldest" ==> forall i, j :: 0 <= i < j < |r| ==> r[i].createdAt <= r[j].createdAt)
      && (st.sortBy == "az" ==> forall i, j :: 0 <= i < j < |r| ==> !LexLess(r[j].title, r[i].title))
      && (st.sortBy == "za" ==> forall i, j :: 0 <= i < j < |r| ==> !LexLess(r[i].title, r[j].title))
  {
    OrderedMeaning(SortOrderOf(st.sortBy), ApplyFilters(st, processes));
  }

  /** Ties on the sort key keep the order they had in the input. */
  lemma ApplyFiltersStable(st: FilterState, processes: seq<Record>, keep: Record -> bool,
                           z: Record, tied: Record -> bool)
    requires forall p :: keep(p) <==> Matches(st, p)
    requires forall e :: tied(e) <==> Compare(SortOrderOf(st.sortBy), e, z) == 0
    ensures Filter(ApplyFilters(st, processes), tied) == Filter(Filter(processes, keep), tied)
  {
    ApplyFiltersIsOneFilter(st, processes, keep);
    SortStable(SortOrderOf(st.sortBy), Filter(processes, keep), z, tied);
  }
}
