/** Concrete cases of the filter view's behaviour, each proved about the model. */
module Scenarios {
  import opened Strings
  import opened Records
  import opened Sorting
  import opened Tags
  import opened Filtering
  import opened Paging

  function Proc(id: string, tags: Option<seq<string>>, session: string, createdAt: int): Record
  {
    Record(id, "t" + id, "d" + id, tags, session, createdAt, "#fff")
  }

  /** 45 matches at 20 per page make 3 pages, and page 5 is clamped to 3. */
  lemma FortyFiveItems()
    ensures TotalPages(45, 20) == 3
    ensures ClampPage(5, TotalPages(45, 20)) == 3
  {
  }

  /** Ten pages, on page 1: buttons 1 to 5, no leading shortcut or ellipsis,
      then an ellipsis and a shortcut to page 10. */
  lemma TenPagesOnFirst()
    ensures RenderPagination(1, 10) == Controls(1, 10, true, false, false, [1, 2, 3, 4, 5], true, true, false)
  {
    assert Window(1, 10) == PageWindow(1, 5);
    assert seq(5, i => 1 + i) == [1, 2, 3, 4, 5];
  }

  /** Tags ["b","a"] and ["a","c"] are listed as ["a","b","c"]. */
  lemma TagsListed()
    ensures UniqueTags([Proc("1", Some(["b", "a"]), "s", 0), Proc("2", Some(["a", "c"]), "s", 0)]) == ["a", "b", "c"]
  {
    var ps := [Proc("1", Some(["b", "a"]), "s", 0), Proc("2", Some(["a", "c"]), "s", 0)];
    var r := UniqueTags(ps);
    assert TagsOf(ps[0]) == ["b", "a"] && TagsOf(ps[1]) == ["a", "c"];
    assert LexLess("a", "b") && LexLess("b", "c");
    forall t
      ensures t in r <==> t in ["a", "b", "c"]
    {
      if t in r {
        var p :| p in ps && t in TagsOf(p);
      }
      if t == "a" || t == "b" {
        assert t in TagsOf(ps[0]);
      }
      if t == "c" {
        assert t in TagsOf(ps[1]);
      }
    }
    IncreasingUnique(r, ["a", "b", "c"]);
  }

  /** With "urgent" selected, ["urgent","billing"] passes and ["billing"] does not. */
  lemma UrgentSelected()
    ensures var st := InitialState().(selectedTags := {"urgent"});
      && Matches(st, Proc("1", Some(["urgent", "billing"]), "s", 0))
      && !Matches(st, Proc("2", Some(["billing"]), "s", 0))
  {
    var st := InitialState().(selectedTags := {"urgent"});
    assert "urgent" in TagsOf(Proc("1", Some(["urgent", "billing"]), "s", 0));
    assert "urgent" !in TagsOf(Proc("2", Some(["billing"]), "s", 0));
  }

  /** The filters combine with AND: the right tags in the wrong session fail. */
  lemma WrongSessionExcluded()
    ensures var st := InitialState().(selectedTags := {"urgent"}, selectedSession := "s1");
      !Matches(st, Proc("1", Some(["urgent"]), "s2", 0))
  {
  }

  /** `newest` and `oldest` are not reverses of each other on ties: the stable
      sort keeps two records with the same date in input order both ways. */
  lemma TiesKeepInputOrder()
    ensures var a := Proc("1", None, "s", 7);
      var b := Proc("2", None, "s", 7);
      && Sort(Newest, [a, b]) == [a, b]
      && Sort(Oldest, [a, b]) == [a, b]
  {
    var a := Proc("1", None, "s", 7);
    var b := Proc("2", None, "s", 7);
    assert [a, b][1..] == [b];
    assert [b][1..] == [];
  }
}
