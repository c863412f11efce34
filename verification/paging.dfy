/** Pagination of the filtered list: the page count, the clamping of the
    current page, the slice shown, and the row of page buttons. */
module Paging {
  import opened Seqs

  function Min(a: int, b: int): int { if a <= b then a else b }
  function Max(a: int, b: int): int { if a <= b then b else a }

  /** `Math.ceil(n / itemsPerPage)`: the fewest pages of `itemsPerPage` that hold `n` items. */
  function TotalPages(n: nat, itemsPerPage: int): (total: nat)
    requires itemsPerPage > 0
    ensures total * itemsPerPage >= n
    ensures (total - 1) * itemsPerPage < n
    ensures total == 0 <==> n == 0
  {
    var q := (n + itemsPerPage - 1) / itemsPerPage;
    var rem := (n + itemsPerPage - 1) % itemsPerPage;
    assert n + itemsPerPage - 1 == q * itemsPerPage + rem;
    assert (q - 1) * itemsPerPage == q * itemsPerPage - itemsPerPage;
    q
  }

  /** `Math.min(currentPage, totalPages) || 1`: a minimum of 0 (an empty list)
      becomes page 1; a negative page is passed through unchanged. */
  function ClampPage(current: int, total: nat): (page: int)
    ensures current >= 0 ==> 1 <= page <= Max(1, total)
    ensures 1 <= current <= total ==> page == current
    ensures current > total ==> page == Max(1, total)
    ensures current < 0 ==> page == current
  {
    var m := Min(current, total);
    if m == 0 then 1 else m
  }

  /** A current page of 0 becomes page 1 whatever the page count: `Math.min`
      gives 0 and `|| 1` replaces it. */
  lemma ClampPageZero(total: nat)
    ensures ClampPage(0, total) == 1
  {
  }

  /** How `Array.prototype.slice` reads an index: negative counts from the end,
      and the result is clamped to `[0, len]`. */
  function SliceIndex(i: int, len: nat): (k: nat)
    ensures k <= len
    ensures 0 <= i <= len ==> k == i
    ensures i > len ==> k == len
  {
    if i < 0 then Max(len + i, 0) else Min(i, len)
  }

  /** `s.slice(start, end)`. */
  function Slice<T>(s: seq<T>, start: int, end: int): seq<T>
  {
    var a, b := SliceIndex(start, |s|), SliceIndex(end, |s|);
    if a < b then s[a..b] else []
  }

  /** A slice is the contiguous segment between the two clamped indices, empty
      when they cross. */
  lemma SliceIsSegment<T>(s: seq<T>, start: int, end: int)
    ensures |Slice(s, start, end)| == Max(0, SliceIndex(end, |s|) - SliceIndex(start, |s|))
    ensures forall i :: 0 <= i < |Slice(s, start, end)| ==>
      Slice(s, start, end)[i] == s[SliceIndex(start, |s|) + i]
  {
  }

  /** A slice holds only elements of `s`, and never more than `end - start`. */
  lemma SliceWithin<T>(s: seq<T>, start: int, end: int)
    ensures forall i :: 0 <= i < |Slice(s, start, end)| ==> Slice(s, start, end)[i] in s
    ensures start <= end ==> |Slice(s, start, end)| <= end - start
  {
    var a, b := SliceIndex(start, |s|), SliceIndex(end, |s|);
    if a < b {
      forall i | 0 <= i < b - a
        ensures s[a..b][i] in s
      {
        assert s[a..b][i] == s[a + i];
      }
    }
  }

  /** `s.slice(start, start + count)` for a start and count that are not negative. */
  function SliceFrom<T>(s: seq<T>, start: int, count: int): (r: seq<T>)
    ensures start >= 0 && count >= 0 ==>
      && |r| == (if start < |s| then Min(count, |s| - start) else 0)
      && forall i :: 0 <= i < |r| ==> r[i] == s[start + i]
  {
    Slice(s, start, start + count)
  }

  /** The records shown on page `page`: `slice(start, start + itemsPerPage)`
      with `start = (page - 1) * itemsPerPage`. */
  function PageSlice<T>(s: seq<T>, page: int, itemsPerPage: int): (r: seq<T>)
    ensures page >= 1 && itemsPerPage > 0 ==>
      var start := (page - 1) * itemsPerPage;
      && |r| == (if start < |s| then Min(itemsPerPage, |s| - start) else 0)
      && forall i :: 0 <= i < |r| ==> r[i] == s[start + i]
  {
    var start := (page - 1) * itemsPerPage;
    assert page >= 1 && itemsPerPage > 0 ==> start >= 0 by {
      if page >= 1 && itemsPerPage > 0 {
        MulMonotone(0, page - 1, itemsPerPage);
      }
    }
    SliceFrom(s, start, itemsPerPage)
  }

  /** Pages 1 to `count`. */
  function FirstPages<T>(s: seq<T>, itemsPerPage: int, count: nat): seq<seq<T>>
  {
    seq(count, i => PageSlice(s, i + 1, itemsPerPage))
  }

  /** Every page of `s`, in order. */
  function Pages<T>(s: seq<T>, itemsPerPage: int): seq<seq<T>>
    requires itemsPerPage > 0
  {
    FirstPages(s, itemsPerPage, TotalPages(|s|, itemsPerPage))
  }

  /** Page `page` of `Pages` is the slice `renderProcessesWithFilters` cuts out. */
  lemma PageOfPages<T>(s: seq<T>, itemsPerPage: int, page: int)
    requires itemsPerPage > 0
    ensures 1 <= page <= TotalPages(|s|, itemsPerPage) ==>
      Pages(s, itemsPerPage)[page - 1] == PageSlice(s, page, itemsPerPage)
  {
  }

  lemma MulMonotone(a: int, b: int, c: int)
    requires 0 <= a <= b && c >= 0
    ensures a * c <= b * c
  {
    assert b * c - a * c == (b - a) * c;
  }

  /** Appending the slice that starts at `start` extends the prefix. */
  lemma AppendSlice<T>(s: seq<T>, start: int, count: int)
    requires 0 <= start && 0 <= count
    ensures s[..Min(start, |s|)] + SliceFrom(s, start, count) == s[..Min(start + count, |s|)]
  {
    if start < |s| {
      assert SliceFrom(s, start, count) == s[start..Min(start + count, |s|)];
    }
  }

  /** The first `k` pages, concatenated, are the first `offset = k * itemsPerPage`
      items (or all of them). */
  lemma {:induction false} FirstPagesFlatten<T>(s: seq<T>, itemsPerPage: int, k: nat, offset: int)
    requires itemsPerPage > 0 && offset == k * itemsPerPage
    ensures Flatten(FirstPages(s, itemsPerPage, k)) == s[..Min(offset, |s|)]
  {
    if k > 0 {
      var front := FirstPages(s, itemsPerPage, k - 1);
      var pages := FirstPages(s, itemsPerPage, k);
      assert pages[..k - 1] == front;
      var start := offset - itemsPerPage;
      assert start == (k - 1) * itemsPerPage;
      MulMonotone(0, k - 1, itemsPerPage);
      FirstPagesFlatten(s, itemsPerPage, k - 1, start);
      assert pages[k - 1] == SliceFrom(s, start, itemsPerPage);
      AppendSlice(s, start, itemsPerPage);
      assert Flatten(pages) == Flatten(front) + pages[k - 1];
    }
  }

  /** The pages partition the list: concatenated they give it back, each holds
      between 1 and `itemsPerPage` items, and only the last may be short. */
  lemma PagesPartition<T>(s: seq<T>, itemsPerPage: int)
    requires itemsPerPage > 0
    ensures Flatten(Pages(s, itemsPerPage)) == s
    ensures forall i :: 0 <= i < |Pages(s, itemsPerPage)| ==> 0 < |Pages(s, itemsPerPage)[i]| <= itemsPerPage
    ensures forall i :: 0 <= i < |Pages(s, itemsPerPage)| - 1 ==> |Pages(s, itemsPerPage)[i]| == itemsPerPage
  {
    var total := TotalPages(|s|, itemsPerPage);
    FirstPagesFlatten(s, itemsPerPage, total, total * itemsPerPage);
    assert s[..Min(total * itemsPerPage, |s|)] == s;
    forall i | 0 <= i < total
      ensures 0 < |Pages(s, itemsPerPage)[i]| <= itemsPerPage
      ensures i < total - 1 ==> |Pages(s, itemsPerPage)[i]| == itemsPerPage
    {
      MulMonotone(i, total - 1, itemsPerPage);
      if i < total - 1 {
        MulMonotone(i + 1, total - 1, itemsPerPage);
        assert (i + 1) * itemsPerPage == i * itemsPerPage + itemsPerPage;
      }
    }
  }

  /** The page `renderProcessesWithFilters` shows: the clamped page of the
      list, never more than `itemsPerPage` elements, all taken from the list. */
  lemma ShownPage<T>(s: seq<T>, itemsPerPage: int, current: int)
    requires itemsPerPage > 0
    ensures var total := TotalPages(|s|, itemsPerPage);
      var page := ClampPage(current, total);
      var shown := PageSlice(s, page, itemsPerPage);
      && total == |Pages(s, itemsPerPage)|
      && (total >= 1 && current >= 0 ==> shown == Pages(s, itemsPerPage)[page - 1])
      && (total == 0 ==> shown == [])
      && |shown| <= itemsPerPage
      && forall i :: 0 <= i < |shown| ==> shown[i] in s
  {
    var total := TotalPages(|s|, itemsPerPage);
    var page := ClampPage(current, total);
    var start := (page - 1) * itemsPerPage;
    SliceWithin(s, start, start + itemsPerPage);
    PageOfPages(s, itemsPerPage, page);
  }

  /** `items` is page `page` of the partition of `s` into `total` pages of
      `itemsPerPage`, or empty when there are no pages. */
  ghost predicate OnePageOf<T>(items: seq<T>, s: seq<T>, itemsPerPage: int, page: int, total: int)
    requires itemsPerPage > 0
  {
    && total == |Pages(s, itemsPerPage)|
    && (total >= 1 ==> 1 <= page <= total && items == Pages(s, itemsPerPage)[page - 1])
    && (total == 0 ==> items == [])
  }

  /** `ShownPage` for a page count, page and items already computed. */
  lemma ShownPageIs<T>(s: seq<T>, itemsPerPage: int, current: int, total: nat, page: int, items: seq<T>)
    requires itemsPerPage > 0 && current >= 0
    requires total == TotalPages(|s|, itemsPerPage)
    requires page == ClampPage(current, total)
    requires items == PageSlice(s, page, itemsPerPage)
    ensures OnePageOf(items, s, itemsPerPage, page, total)
  {
    ShownPage(s, itemsPerPage, current);
  }

  /** At most this many numbered page buttons are shown. */
  const MaxVisible := 5

  /** The numbered buttons run from `first` to `last`. */
  datatype PageWindow = PageWindow(first: int, last: int)

  /** The window centred on the current page, pulled left when it would run
      past the last page. */
  function Window(current: int, total: int): (w: PageWindow)
    ensures 1 <= current <= total ==>
      && 1 <= w.first <= current <= w.last <= total
      && w.last - w.first + 1 == Min(MaxVisible, total)
  {
    var start := Max(1, current - MaxVisible / 2);
    var end := Min(total, start + MaxVisible - 1);
    if end - start + 1 < MaxVisible then PageWindow(Max(1, end - MaxVisible + 1), end)
    else PageWindow(start, end)
  }

  /** The pagination bar: nothing for a single page, otherwise prev, an
      optional shortcut to page 1 and ellipsis, the numbered buttons, an
      optional ellipsis and shortcut to the last page, and next. */
  datatype PageControls =
    | NoControls
    | Controls(
        current: int,
        total: int,
        prevDisabled: bool,
        firstShortcut: bool,
        leadingEllipsis: bool,
        pages: seq<int>,
        trailingEllipsis: bool,
        lastShortcut: bool,
        nextDisabled: bool)

  /** `renderPagination(totalPages)` with the (clamped) current page. */
  function RenderPagination(current: int, total: int): (c: PageControls)
    ensures c.NoControls? <==> total <= 1
    ensures c.Controls? ==> c.current == current && c.total == total
  {
    if total <= 1 then NoControls
    else
      var w := Window(current, total);
      Controls(
        current, total,
        current == 1,
        w.first > 1,
        w.first > 2,
        seq(w.last - w.first + 1, i => w.first + i),
        w.last < total - 1,
        w.last < total,
        current == total)
  }

  /** The pages the enabled buttons lead to. */
  function Targets(c: PageControls): set<int>
  {
    match c
    case NoControls => {}
    case Controls(current, total, prevDisabled, firstShortcut, _, pages, _, lastShortcut, nextDisabled) =>
      (if prevDisabled then {} else {current - 1})
      + (if firstShortcut then {1} else {})
      + (set p | p in pages)
      + (if lastShortcut then {total} else {})
      + (if nextDisabled then {} else {current + 1})
  }

  /** The shape of the bar for a page in range. */
  lemma PaginationShape(current: int, total: int)
    requires 2 <= total && 1 <= current <= total
    ensures var c := RenderPagination(current, total);
      && c.Controls?
      && |c.pages| == Min(MaxVisible, total)
      && (forall i :: 0 < i < |c.pages| ==> c.pages[i] == c.pages[i - 1] + 1)
      && 1 <= c.pages[0] <= current <= c.pages[|c.pages| - 1] <= total
      && (c.firstShortcut <==> c.pages[0] > 1)
      && (c.leadingEllipsis <==> c.pages[0] > 2)
      && (c.lastShortcut <==> c.pages[|c.pages| - 1] < total)
      && (c.trailingEllipsis <==> c.pages[|c.pages| - 1] < total - 1)
      && (c.prevDisabled <==> current == 1)
      && (c.nextDisabled <==> current == total)
  {
  }

  /** Each of page 1 and the last page gets exactly one button, a shortcut or
      a numbered one, and an ellipsis appears exactly where pages are skipped. */
  lemma PaginationCoversEnds(current: int, total: int)
    requires 2 <= total && 1 <= current <= total
    ensures var c := RenderPagination(current, total);
      && c.Controls?
      && current in c.pages
      && (c.firstShortcut <==> 1 !in c.pages)
      && (c.lastShortcut <==> total !in c.pages)
      && (c.leadingEllipsis <==> c.firstShortcut && 2 !in c.pages)
      && (c.trailingEllipsis <==> c.lastShortcut && total - 1 !in c.pages)
  {
    var c := RenderPagination(current, total);
    var w := Window(current, total);
    assert forall i :: 0 <= i < |c.pages| ==> c.pages[i] == w.first + i;
    assert c.pages[current - w.first] == current;
    if w.first == 1 {
      assert c.pages[0] == 1;
    }
    if w.first <= 2 && 2 <= w.last {
      assert c.pages[2 - w.first] == 2;
    }
    if w.last == total {
      assert c.pages[total - w.first] == total;
    }
    if w.first <= total - 1 <= w.last {
      assert c.pages[total - 1 - w.first] == total - 1;
    }
  }

  /** Every enabled button leads to an existing page, so clicking one never
      leaves the valid range. */
  lemma TargetsInRange(current: int, total: int)
    requires 1 <= current <= total
    ensures forall p :: p in Targets(RenderPagination(current, total)) ==> 1 <= p <= total
  {
    if total >= 2 {
      var c := RenderPagination(current, total);
      var w := Window(current, total);
      assert forall i :: 0 <= i < |c.pages| ==> c.pages[i] == w.first + i;
    }
  }
}
