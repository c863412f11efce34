/** The ordering step of the filter engine: `Array.prototype.sort` with the
    comparator chosen by `sortBy`. The sort is stable, which is modelled by an
    insertion sort that places an element before the first one it does not sort
    after. */
module Sorting {
  import opened Strings
  import opened Records
  import opened Seqs

  datatype SortOrder = Newest | Oldest | TitleAsc | TitleDesc | Unsorted

  /** The `switch (filterState.sortBy)` of the comparator; any other value is
      the `default` branch. */
  function SortOrderOf(sortBy: string): (o: SortOrder)
    ensures o == Unsorted <==> sortBy !in ["newest", "oldest", "az", "za"]
  {
    if sortBy == "newest" then Newest
    else if sortBy == "oldest" then Oldest
    else if sortBy == "az" then TitleAsc
    else if sortBy == "za" then TitleDesc
    else Unsorted
  }

  /** The comparator: negative when `a` belongs before `b`, zero on a tie. */
  function Compare(order: SortOrder, a: Record, b: Record): (r: int)
    ensures order == Newest ==> (r < 0 <==> a.createdAt > b.createdAt) && (r == 0 <==> a.createdAt == b.createdAt)
    ensures order == Oldest ==> (r < 0 <==> a.createdAt < b.createdAt) && (r == 0 <==> a.createdAt == b.createdAt)
    ensures order == TitleAsc ==> (r < 0 <==> LexLess(a.title, b.title)) && (r == 0 <==> a.title == b.title)
    ensures order == TitleDesc ==> (r < 0 <==> LexLess(b.title, a.title)) && (r == 0 <==> a.title == b.title)
    ensures order == Unsorted ==> r == 0
  {
    match order
    case Newest => b.createdAt - a.createdAt
    case Oldest => a.createdAt - b.createdAt
    case TitleAsc => CompareStrings(a.title, b.title)
    case TitleDesc => CompareStrings(b.title, a.title)
    case Unsorted => 0
  }

  /** Every comparator is consistent: swapping the arguments flips the sign. */
  lemma CompareAntisymmetric(order: SortOrder, a: Record, b: Record)
    ensures Compare(order, a, b) == -Compare(order, b, a)
  {
    if order.TitleAsc? || order.TitleDesc? {
      var x, y := a.title, b.title;
      if LexLess(x, y) {
        LexLessAsymmetric(x, y);
      } else if x != y {
        LexLessTotal(x, y);
      }
    }
  }

  /** "Sorts no later than" is transitive. */
  lemma CompareTransitive(order: SortOrder, a: Record, b: Record, c: Record)
    requires Compare(order, a, b) <= 0 && Compare(order, b, c) <= 0
    ensures Compare(order, a, c) <= 0
  {
    match order
    case TitleAsc =>
      if a.title != b.title && b.title != c.title {
        LexLessTransitive(a.title, b.title, c.title);
      }
    case TitleDesc =>
      if a.title != b.title && b.title != c.title {
        LexLessTransitive(c.title, b.title, a.title);
      }
    case _ =>
  }

  /** Two records tied with a third are tied with each other. */
  lemma CompareTiesAgree(order: SortOrder, a: Record, b: Record, c: Record)
    requires Compare(order, a, c) == 0 && Compare(order, b, c) == 0
    ensures Compare(order, a, b) == 0
  {
  }

  /** Neighbours are in comparator order. */
  predicate Ordered(order: SortOrder, s: seq<Record>)
  {
    forall i :: 0 < i < |s| ==> Compare(order, s[i - 1], s[i]) <= 0
  }

  /** Place `x`, which came before every element of `s` in the input, in front
      of the first element it does not sort after. */
  function Insert(order: SortOrder, x: Record, s: seq<Record>): (r: seq<Record>)
    ensures multiset(r) == multiset(s) + multiset{x}
    ensures r[0] == x || (|s| > 0 && r[0] == s[0])
    decreases |s|
  {
    if |s| == 0 then [x]
    else if Compare(order, x, s[0]) <= 0 then [x] + s
    else
      assert s == [s[0]] + s[1..];
      [s[0]] + Insert(order, x, s[1..])
  }

  /** Inserting into an ordered list gives an ordered list. */
  lemma {:induction false} InsertOrdered(order: SortOrder, x: Record, s: seq<Record>)
    requires Ordered(order, s)
    ensures Ordered(order, Insert(order, x, s))
    decreases |s|
  {
    if |s| > 0 && Compare(order, x, s[0]) > 0 {
      var rest := Insert(order, x, s[1..]);
      assert Ordered(order, s[1..]);
      InsertOrdered(order, x, s[1..]);
      CompareAntisymmetric(order, x, s[0]);
      assert Compare(order, s[0], rest[0]) <= 0 by {
        if rest[0] != x {
          assert rest[0] == s[1];
        }
      }
      var r := [s[0]] + rest;
      assert Insert(order, x, s) == r;
      forall i | 0 < i < |r|
        ensures Compare(order, r[i - 1], r[i]) <= 0
      {
        if i > 1 {
          assert r[i - 1] == rest[i - 2] && r[i] == rest[i - 1];
        }
      }
    }
  }

  /** The stable sort of `s` by `order`. */
  function Sort(order: SortOrder, s: seq<Record>): (r: seq<Record>)
    ensures multiset(r) == multiset(s)
    ensures |r| == |s|
    ensures Ordered(order, r)
    decreases |s|
  {
    if |s| == 0 then []
    else
      assert s == [s[0]] + s[1..];
      InsertOrdered(order, s[0], Sort(order, s[1..]));
      Insert(order, s[0], Sort(order, s[1..]))
  }

  /** Neighbour order gives order between any two positions. */
  lemma {:induction false} OrderedPairwise(order: SortOrder, s: seq<Record>)
    requires Ordered(order, s)
    ensures forall i, j :: 0 <= i < j < |s| ==> Compare(order, s[i], s[j]) <= 0
    decreases |s|
  {
    if |s| > 1 {
      var front := s[..|s| - 1];
      assert Ordered(order, front);
      OrderedPairwise(order, front);
      forall i | 0 <= i < |s| - 1
        ensures Compare(order, s[i], s[|s| - 1]) <= 0
      {
        if i < |s| - 2 {
          assert front[i] == s[i] && front[|s| - 2] == s[|s| - 2];
          CompareTransitive(order, s[i], s[|s| - 2], s[|s| - 1]);
        }
      }
    }
  }

  /** What an ordered sequence means for each sort key. */
  lemma OrderedMeaning(order: SortOrder, s: seq<Record>)
    requires Ordered(order, s)
    ensures order == Newest ==> forall i, j :: 0 <= i < j < |s| ==> s[i].createdAt >= s[j].createdAt
    ensures order == Oldest ==> forall i, j :: 0 <= i < j < |s| ==> s[i].createdAt <= s[j].createdAt
    ensures order == TitleAsc ==> forall i, j :: 0 <= i < j < |s| ==> !LexLess(s[j].title, s[i].title)
    ensures order == TitleDesc ==> forall i, j :: 0 <= i < j < |s| ==> !LexLess(s[i].title, s[j].title)
  {
    OrderedPairwise(order, s);
  }

  /** Inserting keeps the relative order of the records tied with `z`: `x`
      still comes before all of them. */
  lemma {:induction false} InsertStable(order: SortOrder, x: Record, s: seq<Record>, z: Record, tied: Record -> bool)
    requires forall e :: tied(e) <==> Compare(order, e, z) == 0
    ensures Filter(Insert(order, x, s), tied) == Filter([x] + s, tied)
    decreases |s|
  {
    if |s| > 0 && Compare(order, x, s[0]) > 0 {
      var y, t := s[0], s[1..];
      assert s == [y] + t;
      assert Insert(order, x, s) == [y] + Insert(order, x, t);
      if tied(x) && tied(y) {
        CompareTiesAgree(order, x, y, z);
        assert false;
      } else {
        InsertStable(order, x, t, z, tied);
        FilterAppend([y], Insert(order, x, t), tied);
        FilterAppend([y], [x] + t, tied);
        FilterSwap(x, y, t, tied);
      }
    }
  }

  /** The sort is stable: the records tied with any `z` keep their input order. */
  lemma {:induction false} SortStable(order: SortOrder, s: seq<Record>, z: Record, tied: Record -> bool)
    requires forall e :: tied(e) <==> Compare(order, e, z) == 0
    ensures Filter(Sort(order, s), tied) == Filter(s, tied)
    decreases |s|
  {
    if |s| > 0 {
      SortStable(order, s[1..], z, tied);
      InsertStable(order, s[0], Sort(order, s[1..]), z, tied);
      FilterAppend([s[0]], Sort(order, s[1..]), tied);
      FilterAppend([s[0]], s[1..], tied);
      assert s == [s[0]] + s[1..];
    }
  }

  /** With an unknown key the comparator always answers 0 and the stable sort
      returns its input unchanged. */
  lemma {:induction false} UnsortedKeepsOrder(s: seq<Record>)
    ensures Sort(Unsorted, s) == s
    decreases |s|
  {
    if |s| > 0 {
      UnsortedKeepsOrder(s[1..]);
      assert Sort(Unsorted, s) == Insert(Unsorted, s[0], s[1..]);
      assert Compare(Unsorted, s[0], s[0]) == 0;
      assert s == [s[0]] + s[1..];
    }
  }
}
