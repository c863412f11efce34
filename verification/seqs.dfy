/** Sequence helpers: `Array.prototype.filter` and concatenation of a list of lists. */
module Seqs {

  /** `s.filter(keep)`: the elements satisfying `keep`, in their original order. */
  function Filter<T(!new)>(s: seq<T>, keep: T -> bool): (r: seq<T>)
    ensures |r| <= |s|
    ensures forall x :: x in r <==> x in s && keep(x)
    decreases |s|
  {
    if |s| == 0 then []
    else
      assert s == [s[0]] + s[1..];
      (if keep(s[0]) then [s[0]] else []) + Filter(s[1..], keep)
  }

  /** Filtering keeps every copy of an element that passes and none of one that
      does not: the result is a sub-multiset of the input. */
  lemma {:induction false} FilterCounts<T(!new)>(s: seq<T>, keep: T -> bool)
    ensures multiset(Filter(s, keep)) <= multiset(s)
    ensures forall x :: keep(x) ==> multiset(Filter(s, keep))[x] == multiset(s)[x]
    ensures forall x :: !keep(x) ==> multiset(Filter(s, keep))[x] == 0
    decreases |s|
  {
    if |s| > 0 {
      FilterCounts(s[1..], keep);
      assert s == [s[0]] + s[1..];
    }
  }

  /** A one-element list keeps its element exactly when it passes. */
  lemma FilterSingleton<T(!new)>(x: T, keep: T -> bool)
    ensures Filter([x], keep) == if keep(x) then [x] else []
  {
    assert [x][1..] == [];
  }

  /** One step of the filter: the head is kept exactly when it passes. */
  lemma FilterCons<T(!new)>(h: T, t: seq<T>, keep: T -> bool)
    ensures Filter([h] + t, keep) == (if keep(h) then [h] else []) + Filter(t, keep)
  {
    assert ([h] + t)[0] == h;
    assert ([h] + t)[1..] == t;
  }

  /** Filtering distributes over concatenation. */
  lemma {:induction false} FilterAppend<T(!new)>(a: seq<T>, b: seq<T>, keep: T -> bool)
    ensures Filter(a + b, keep) == Filter(a, keep) + Filter(b, keep)
    decreases |a|
  {
    if |a| == 0 {
      assert a + b == b;
    } else {
      var head := if keep(a[0]) then [a[0]] else [];
      assert (a + b)[0] == a[0];
      assert (a + b)[1..] == a[1..] + b;
      assert Filter(a + b, keep) == head + Filter(a[1..] + b, keep);
      assert Filter(a, keep) == head + Filter(a[1..], keep);
      FilterAppend(a[1..], b, keep);
      assert head + (Filter(a[1..], keep) + Filter(b, keep)) == (head + Filter(a[1..], keep)) + Filter(b, keep);
    }
  }

  /** Two neighbours that are not both kept can trade places under a filter. */
  lemma FilterSwap<T(!new)>(x: T, y: T, t: seq<T>, keep: T -> bool)
    requires !(keep(x) && keep(y))
    ensures Filter([y] + ([x] + t), keep) == Filter([x] + ([y] + t), keep)
  {
    var hx := if keep(x) then [x] else [];
    var hy := if keep(y) then [y] else [];
    var ft := Filter(t, keep);
    FilterCons(x, t, keep);
    FilterCons(y, [x] + t, keep);
    FilterCons(y, t, keep);
    FilterCons(x, [y] + t, keep);
    if keep(x) {
      assert hy + (hx + ft) == hx + ft == hx + (hy + ft);
    } else {
      assert hy + (hx + ft) == hy + ft == hx + (hy + ft);
    }
  }

  /** Two filters in a row are one filter by the conjunction. */
  lemma {:induction false} FilterFilter<T(!new)>(s: seq<T>, first: T -> bool, second: T -> bool, both: T -> bool)
    requires forall x :: both(x) <==> first(x) && second(x)
    ensures Filter(Filter(s, first), second) == Filter(s, both)
    decreases |s|
  {
    if |s| > 0 {
      FilterFilter(s[1..], first, second, both);
      var head := if first(s[0]) then [s[0]] else [];
      FilterAppend(head, Filter(s[1..], first), second);
    }
  }

  /** A filter that runs only when `active` holds is a filter by "not active,
      or passes". */
  lemma GuardedFilter<T(!new)>(s: seq<T>, active: bool, keep: T -> bool, on: T -> bool)
    requires forall x :: on(x) <==> (active ==> keep(x))
    ensures (if active then Filter(s, keep) else s) == Filter(s, on)
  {
    if active {
      FilterFilter(s, keep, keep, on);
      FilterKeepsAll(Filter(s, keep), keep);
    } else {
      FilterKeepsAll(s, on);
    }
  }

  /** Filters that agree on every element give the same result. */
  lemma {:induction false} FilterExtensional<T(!new)>(s: seq<T>, keep: T -> bool, keep': T -> bool)
    requires forall x :: keep(x) == keep'(x)
    ensures Filter(s, keep) == Filter(s, keep')
    decreases |s|
  {
    if |s| > 0 {
      FilterExtensional(s[1..], keep, keep');
    }
  }

  /** A filter every element passes changes nothing. */
  lemma {:induction false} FilterKeepsAll<T(!new)>(s: seq<T>, keep: T -> bool)
    requires forall x :: x in s ==> keep(x)
    ensures Filter(s, keep) == s
    decreases |s|
  {
    if |s| > 0 {
      FilterKeepsAll(s[1..], keep);
    }
  }

  /** The concatenation of a list of lists, in order. */
  function Flatten<T>(ss: seq<seq<T>>): seq<T>
    decreases |ss|
  {
    if |ss| == 0 then [] else Flatten(ss[..|ss| - 1]) + ss[|ss| - 1]
  }
}
