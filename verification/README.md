# Filtered, sorted, paginated process list — a Dafny model

This project models the client-side view logic of a small web page that lists
"process" records. The page keeps one mutable `filterState` (selected tags,
sort key, page size, current page, search term, selected session). Every render
runs `applyFilters` over the records:

- an optional session-equality filter;
- an optional case-insensitive substring search over the title, description and tags;
- an optional AND filter over the selected tags;
- a stable sort by one of `newest`, `oldest`, `az` or `za`. Any other key keeps input order.

The render then computes the page count, clamps the current page, cuts out that
page, and builds the pagination bar. That bar holds a window of at most five
page buttons, with first/last shortcuts and ellipses. `getAllUniqueTags` lists
the tags in use, sorted and without repeats. The handlers of the filter
controls update the state, and most of them restart at page 1.

Modules, one file each:

- `Strings` (strings.dfy): ASCII lower-casing, `includes` as `Contains`, and the lexicographic order `LexLess`.
- `Records` (records.dfy): the `Record` datatype. Its `tags` field is optional.
- `Seqs` (seqs.dfy): `Filter` (the model of `Array.prototype.filter`) and `Flatten`.
- `Sorting` (sorting.dfy): the comparator, and the stable sort as an insertion sort.
- `Tags` (tags.dfy): `getAllUniqueTags`.
- `Filtering` (filtering.dfy): `FilterState` and `applyFilters`.
- `Paging` (paging.dfy): the page count, page clamping, JavaScript `slice`, pages, and the pagination bar.
- `Controller` (controller.dfy): the handlers, the render step, and the invariant across user actions.
- `Scenarios` (scenarios.dfy): concrete cases.

Records are passed in as a parameter. The handlers act on a `Screen`, which
holds `filterState` and the contents of the search and session boxes. Each box
is an `Option<string>`, where `None` stands for a box the page does not have.

## Model

| member | source | states |
|---|---|---|
| Strings.Lower | script.js:79 | `toLowerCase` keeps the length and maps each character to its lower-case form: `A`-`Z` become `a`-`z`, and every other character is kept. No character of the result is upper-case |
| Strings.LowerIdempotent | script.js:79 | Lower-casing the term again inside the filter changes nothing, because the box value was already lower-cased on read (used by `Controller.ReadBoxes`) |
| Strings.Contains | script.js:81-83 | `includes` scans the start positions from the left. A needle at the start, including the empty needle, is found, and a needle that is found is no longer than the text |
| Strings.ContainsIffOccurs | script.js:81-83 | The scanning `includes` holds iff the needle occurs at some index of the text |
| Strings.CompareStrings | script.js:105-107 | The title comparator is negative, zero or positive exactly when the first title is less than, equal to or greater than the second |
| Seqs.Filter | script.js:74 | `filter` keeps exactly the elements that pass, in order, and never lengthens the list |
| Seqs.FilterCounts | script.js:80-84 | A filter keeps every copy of a passing element and no copy of a failing one, so its result is a sub-multiset of its input |
| Seqs.FilterFilter | script.js:72-95 | Two filters in sequence equal one filter by their conjunction |
| Sorting.SortOrderOf | script.js:99-110 | A `sortBy` value other than the four known keys falls into the comparator's default branch |
| Sorting.Compare | script.js:98-111 | `newest` (b-a) is negative iff `a` is later, and `oldest` (a-b) iff `a` is earlier. `az` is negative iff `a`'s title comes first, and `za` iff `b`'s does. Each is zero exactly on equal dates or titles, and any other key gives 0 |
| Sorting.CompareAntisymmetric | script.js:100-107 | Each comparator flips sign when its arguments are swapped |
| Sorting.CompareTransitive | script.js:100-107 | "Sorts no later than" is transitive for every key |
| Sorting.Insert | script.js:98-111 | One insertion step of the stable sort adds exactly one copy of the element, and the element either goes first or the old head stays first |
| Sorting.InsertOrdered | script.js:98-111 | Inserting into a list that is in comparator order keeps it in comparator order |
| Sorting.Sort | script.js:98-111 | The sort returns a permutation of its input, and neighbours are in comparator order |
| Sorting.OrderedPairwise | script.js:98-111 | Neighbour order implies comparator order between any two positions |
| Sorting.OrderedMeaning | script.js:100-107 | For an ordered list: `newest` means non-increasing dates and `oldest` non-decreasing dates; `az` means non-decreasing titles and `za` non-increasing titles |
| Sorting.SortStable | script.js:98-111 | Records tied on the sort key keep their input order |
| Sorting.UnsortedKeepsOrder | script.js:108-109 | With the default comparator, which always returns 0, the stable sort returns its input unchanged |
| Tags.IncreasingPairwise | script.js:26 | A strictly increasing list is ordered between any two positions, so it has no repeated tag |
| Tags.IncreasingUnique | script.js:26 | Two sorted lists without repeats that hold the same tags are equal, so a tag set has exactly one sorted listing |
| Tags.AddTag | script.js:22 | Adding a tag to the sorted listing of the set adds exactly that tag and keeps the listing sorted without repeats |
| Tags.AddTags | script.js:21-23 | Adding one process's tags adds exactly those tags and keeps the listing sorted without repeats |
| Tags.UniqueTags | script.js:17-27 | The result is strictly increasing, and a string is in it iff it is a tag of some process |
| Tags.UniqueTagsOfTagged | script.js:20-24 | The result depends only on which processes with tags are present, not on their order or on processes without tags |
| Tags.UntaggedContributeNothing | script.js:21 | Dropping every process without tags leaves the listing unchanged |
| Filtering.InitialState | script.js:7-14 | The page starts with no tag, search or session filter, the `newest` order, 20 records per page and page 1 |
| Filtering.SearchHit | script.js:80-84 | The search keeps a record whose lower-cased title, description or some tag contains the term. An empty term matches everything. A record without tags needs the term in its title or description |
| Filtering.HasEveryTag | script.js:89-94 | The tag filter rejects a record without tags. A record that passes carries every selected tag |
| Filtering.Matches | script.js:72-95 | The conjunction of the active filters: the session filter if a session is set, the search if a term is set, the tag filter if tags are selected. With no filter active every record matches |
| Filtering.FilterPasses | script.js:72-95 | The three passes run in source order, each only when its filter is active. With no filter active the list comes back unchanged |
| Filtering.ApplyFilters | script.js:69-114 | The output is a sub-multiset of the input. A record is in it iff it is in the input and meets every active filter, and every copy of such a record is kept. With no active filter the output is a permutation of the input. The output is sorted by the chosen key |
| Filtering.FilterPassesCounts | script.js:72-95 | The three filter passes keep every copy of a record that meets all active filters and drop every other record |
| Filtering.FilterPassesIsOneFilter | script.js:72-95 | The session, search and tag passes in sequence equal one filter by the conjunction of the active conditions; an inactive filter keeps everything |
| Filtering.ApplyFiltersIsOneFilter | script.js:72-111 | The three passes in sequence equal one filter by the conjunction of the active conditions, followed by the sort |
| Filtering.ApplyFiltersIgnoresPaging | script.js:69-114 | The result depends only on the tag, search, session and sort fields of the state |
| Filtering.UnknownSortKeepsOrder | script.js:108-111 | With an unknown `sortBy` the output is the filtered records in input order |
| Filtering.ApplyFiltersOrder | script.js:98-111 | `newest` output has non-increasing dates and `oldest` output non-decreasing dates. `az` output has non-decreasing titles and `za` output non-increasing titles |
| Filtering.ApplyFiltersStable | script.js:98-111 | Among the filtered records, those tied on the sort key keep their input order |
| Paging.TotalPages | script.js:130 | The page count is the least count whose pages hold all matches, and it is 0 only for no matches |
| Paging.ClampPage | script.js:131 | A non-negative page lands in `[1, max(1,total)]`. A page already in range is kept, and one past the end becomes the last page. A negative page passes through |
| Paging.ClampPageZero | script.js:131 | Page 0 becomes page 1 for every page count, including 0 pages, through the fallback to 1 |
| Paging.SliceIndex | script.js:135 | A `slice` index is clamped to the list length, and an in-range index is kept |
| Paging.SliceIsSegment | script.js:135 | `slice(start, end)`, modelled by `Slice`, is the contiguous segment between the two clamped indices and is empty when they cross |
| Paging.SliceWithin | script.js:135 | A slice holds only elements of the list, and never more than `end - start` of them |
| Paging.SliceFrom | script.js:133-135 | `slice(start, start+count)` from a non-negative start is the contiguous segment at `start` of length `min(count, n-start)`, or empty past the end |
| Paging.PageSlice | script.js:133-135 | For page ≥ 1, the page is the contiguous segment at `(page-1)*itemsPerPage` of length `min(itemsPerPage, n-start)`, or empty when that is negative |
| Paging.PageOfPages | script.js:133-135 | An in-range page is the corresponding block of the page list |
| Paging.FirstPagesFlatten | script.js:133-135 | Pages 1..k concatenated are the first `min(k*itemsPerPage, n)` items |
| Paging.PagesPartition | script.js:130-135 | Pages 1..totalPages concatenated give back the filtered list. Every page holds 1 to itemsPerPage items, and only the last may be short |
| Paging.ShownPageIs | script.js:130-135 | The items cut out for the clamped page are that page of the partition of the list into pages, or empty when there are no pages (`OnePageOf`) |
| Paging.ShownPage | script.js:130-135 | The shown page is the clamped block of the partition (empty when nothing matches), holds at most itemsPerPage items, and takes them all from the list |
| Paging.Window | script.js:248-254 | For a page in range: `1 ≤ start ≤ current ≤ end ≤ total` and `end-start+1 = min(5,total)` |
| Paging.RenderPagination | script.js:235-238 | No pagination bar is rendered exactly when there is at most one page |
| Paging.PaginationShape | script.js:243-275 | The buttons form a consecutive run of `min(5,total)` pages around the current one. The first shortcut shows iff start > 1, the leading ellipsis iff start > 2, the last shortcut iff end < total, and the trailing ellipsis iff end < total-1. Prev is disabled iff on page 1, next iff on the last page |
| Paging.PaginationCoversEnds | script.js:256-272 | Page 1 and the last page each get exactly one button. An ellipsis appears exactly where pages are skipped. The current page has a button |
| Paging.TargetsInRange | script.js:243-277 | Every enabled button leads to a page in `[1,total]` |
| Controller.ToggleTag | script.js:52-57 | After a checkbox change the tag is selected iff the box is checked. Other tags and all other fields are unchanged |
| Controller.SelectAllTags | script.js:363-370 | "Select all" adds every shown tag to the selection and changes nothing else |
| Controller.ClearAllTags | script.js:374-381 | "Clear all" removes every shown tag. Selected tags without a checkbox stay, and nothing else changes |
| Controller.TagSelectionUndo | script.js:52-57 | Checking then unchecking a box restores the selection, and so does "clear all" after "select all" over unselected tags |
| Controller.ChangeSort | script.js:387-391 | A new sort key restarts at page 1 and changes nothing else |
| Controller.ChangePageSize | script.js:397-401 | A new page size restarts at page 1 and changes nothing else |
| Controller.RestartPaging | script.js:407-410 | The apply button resets the page to 1 and changes nothing else. The search handler (script.js:421-424) and the session handler (script.js:428-431) have the same effect |
| Controller.ResetAllFilters | script.js:322-327 | Reset clears tags, search and session, sets `newest` and page 1, and keeps itemsPerPage |
| Controller.ChangePage | script.js:283-286 | `changePage` sets the current page and nothing else |
| Controller.ReadBoxes | script.js:122-123 | A render first reads the boxes into the state. The stored search term is lower-case. A missing box reads as "", and every other field is kept |
| Controller.Render | script.js:117-145 | The search box is lower-cased into the state and the session box copied. The page is clamped into range and kept when already in range. At most itemsPerPage records are shown, each an input record that meets every filter. The bar is hidden iff there is at most one page |
| Controller.RenderShowsOnePage | script.js:130-135 | The records shown are the current page's block of the partition of the filtered list into pages, and the page count is the number of blocks |
| Controller.Offered | script.js:243-275 | What the screen lets the user do. A page click needs an enabled button of the bar, so a page without a bar offers no page click. A search or session edit needs its box: the handlers at script.js:420 and script.js:427 are attached only when the element exists. The tag, sort, apply and reset controls are always offered |
| Controller.SetBox | script.js:329-330 | The reset writes a box only when the page has it: a present box takes the value, and a missing box stays missing |
| Controller.Step | script.js:322-431 | Sort, page size, apply, search, session and reset put the page back to 1. Tag clicks change only the selection. Only the page-size handler changes the page size. Typing and choosing a session set their box. Reset empties both boxes. No event adds or removes a box |
| Controller.StepKeepsValid | script.js:130-131 | Start from a valid state, render, and take any action the screen offers, with whatever is in the boxes. The state stays valid, and the next render's page lies in `[1, max(1,totalPages)]` |
| Controller.ActionKeepsValid | script.js:283-286 | Any one action with a positive page size or a page target of at least 1 keeps the state valid without a render in between. This covers a click on a bar made stale by the tag handlers (script.js:363-381), which do not re-render |
| Controller.RunKeepsValid | script.js:130-131 | After any sequence of such actions, with no render in between, the state is still valid, and the render that follows puts the page in `[1, max(1,totalPages)]` |
| Controller.ResetShowsEverything | script.js:322-338 | After a reset, which also empties both boxes, the filtered list is every process, newest first, and the view starts at page 1 |
| Controller.EditsReachRender | script.js:122-123 | After typing in the search box the next render filters by the lower-cased new text, from page 1. The same holds for choosing a session (script.js:420-431) |
| Scenarios.FortyFiveItems | script.js:130-131 | 45 matches at 20 per page give 3 pages, and page 5 clamps to 3 |
| Scenarios.TenPagesOnFirst | script.js:248-272 | 10 pages, on page 1: buttons 1-5, then an ellipsis and a shortcut to page 10 |
| Scenarios.TagsListed | script.js:17-27 | Tags `["b","a"]` and `["a","c"]` are listed as `["a","b","c"]` |
| Scenarios.UrgentSelected | script.js:88-95 | With `urgent` selected, `["urgent","billing"]` passes and `["billing"]` fails |
| Scenarios.WrongSessionExcluded | script.js:72-95 | The right tags in the wrong session fail the filters |
| Scenarios.TiesKeepInputOrder | script.js:98-103 | Two records with the same date come out in input order under both `newest` and `oldest` |

## Notes on the code's behaviour

- `newest` and `oldest` are not exact reversals of each other, and neither are `az` and `za`. `Array.prototype.sort` is stable, so records with equal keys keep their input order under both keys of a pair (`Scenarios.TiesKeepInputOrder`, `Sorting.SortStable`).
- A record without a `description` makes the search filter throw at script.js:82. This happens only when a search term is set and the title does not contain it, since the `||` at script.js:81-82 stops at the title. The model gives every record a description.
- `Math.ceil` gives 0 pages when nothing matches. Only the current page falls back to 1, through `|| 1` (`Paging.TotalPages`, `Paging.ClampPage`).
- `currentPage` is clamped only when the view renders. Sort, page size, apply, search, session and reset set it to 1. A page button sets it to its target. The tag handlers leave it. `Controller.StepKeepsValid` shows it stays ≥ 1 over a render and an offered action, and the next render puts it in `[1, max(1,totalPages)]`. `Controller.ActionKeepsValid` and `Controller.RunKeepsValid` show the same with no render between actions.

## Left out

- DOM construction and markup are not modelled: `renderTagsFilter`, `renderProcessCards`, the HTML strings, `innerHTML` and `classList`. They only assemble text. The tag panel's checkboxes enter the model as the `shown` list of the select-all and clear-all handlers.
- `updateFilterStats` and `updateActiveFiltersDisplay` produce display text only. `updateActiveFiltersDisplay` is not defined in script.js.
- Event wiring, the panel toggle and the 300 ms search debounce are timer and event-loop behaviour. The model keeps only each handler's effect on the state.
- The wrapping of `renderProcesses`, `init`, `addProcess` and `deleteProcess` is left out: it calls functions defined elsewhere. The same goes for `AppData`, `getSessionById`, `copyProcess`, `editProcess` and `deleteProcess`. The records are a parameter.
- The early returns for missing page elements are not modelled: the list container (script.js:119), the tag container (script.js:32) and the `#pagination` element (script.js:233). The model assumes all three exist, so its checkboxes and pagination bar can offer more events than a page without them. Missing search or session boxes are modelled, as `None`.
- The page size comes from `parseInt`, which can yield NaN. The model requires a positive page size instead (`Controller.ChangePageSize`).
- Dates are plain integers. Parsing `createdAt` and a NaN comparator result from an invalid date are not modelled.
- `localeCompare` is modelled as lexicographic order on code points, and the default string `sort` of the tag list uses the same order. The engine compares UTF-16 code units, which differ from code-point order only between characters above U+FFFF and those in U+E000–U+FFFF.
- `toLowerCase` is modelled on ASCII letters only. Unicode case mapping is not modelled.
- Tags that are present but are not an array are not modelled. `getAllUniqueTags` skips them through `Array.isArray`, while the filters would treat them differently. Here tags are either absent or a list of strings.
- Controller.Render: for a negative current page, which no offered action produces, the page shown is bounded but not characterised beyond that.
