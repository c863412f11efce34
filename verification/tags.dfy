/** `getAllUniqueTags`: every tag used by some process, once each, in the
    order of the default string `sort`. */
module Tags {
  import opened Strings
  import opened Records
  import opened Seqs

  /** Sorted with no repeats. */
  predicate StrictlyIncreasing(s: seq<string>)
  {
    forall i :: 0 < i < |s| ==> LexLess(s[i - 1], s[i])
  }

  /** Neighbour order gives order between any two positions, hence no repeats. */
  lemma {:induction false} IncreasingPairwise(s: seq<string>)
    requires StrictlyIncreasing(s)
    ensures forall i, j :: 0 <= i < j < |s| ==> LexLess(s[i], s[j])
    ensures forall i, j :: 0 <= i < |s| && 0 <= j < |s| && i != j ==> s[i] != s[j]
    decreases |s|
  {
    if |s| > 1 {
      var front := s[..|s| - 1];
      IncreasingPairwise(front);
      forall i | 0 <= i < |s| - 1
        ensures LexLess(s[i], s[|s| - 1])
      {
        if i < |s| - 2 {
          assert front[i] == s[i] && front[|s| - 2] == s[|s| - 2];
          LexLessTransitive(s[i], s[|s| - 2], s[|s| - 1]);
        }
      }
    }
    forall i, j | 0 <= i < |s| && 0 <= j < |s| && i != j
      ensures s[i] != s[j]
    {
      if i < j {
        LexLessIrreflexive(s[i]);
      } else {
        LexLessIrreflexive(s[j]);
      }
    }
  }

  /** A sorted list without repeats is determined by its elements: a set has
      exactly one sorted listing. */
  lemma {:induction false} IncreasingUnique(a: seq<string>, b: seq<string>)
    requires StrictlyIncreasing(a) && StrictlyIncreasing(b)
    requires forall t :: t in a <==> t in b
    ensures a == b
    decreases |a|
  {
    if |b| > 0 {
      assert b[0] in a;
    }
    if |a| > 0 {
      assert a[0] in b;
      assert b[0] in a;
      IncreasingPairwise(a);
      IncreasingPairwise(b);
      if a[0] != b[0] {
        // a[0] sits after b[0] in b and b[0] after a[0] in a
        LexLessAsymmetric(a[0], b[0]);
        assert false;
      } else {
        var ta, tb := a[1..], b[1..];
        forall t
          ensures t in ta <==> t in tb
        {
          if t in ta {
            assert t in a && t != a[0];
          }
          if t in tb {
            assert t in b && t != b[0];
          }
        }
        IncreasingUnique(ta, tb);
        assert a == [a[0]] + ta && b == [b[0]] + tb;
      }
    }
  }

  /** `tagsSet.add(t)` on the sorted listing of the set. */
  function AddTag(t: string, s: seq<string>): (r: seq<string>)
    requires StrictlyIncreasing(s)
    ensures StrictlyIncreasing(r)
    ensures forall u :: u in r <==> u in s || u == t
    ensures |r| > 0 && (r[0] == t || (|s| > 0 && r[0] == s[0]))
    decreases |s|
  {
    if |s| == 0 then [t]
    else if t == s[0] then s
    else if LexLess(t, s[0]) then [t] + s
    else
      LexLessTotal(t, s[0]);
      assert s == [s[0]] + s[1..];
      [s[0]] + AddTag(t, s[1..])
  }

  /** Adds every tag of one process, in its order. */
  function AddTags(ts: seq<string>, s: seq<string>): (r: seq<string>)
    requires StrictlyIncreasing(s)
    ensures StrictlyIncreasing(r)
    ensures forall u :: u in r <==> u in s || u in ts
    decreases |ts|
  {
    if |ts| == 0 then s
    else
      assert ts == [ts[0]] + ts[1..];
      AddTags(ts[1..], AddTag(ts[0], s))
  }

  /** `getAllUniqueTags(processes)`: a process without a tag list adds nothing. */
  function UniqueTags(processes: seq<Record>): (r: seq<string>)
    ensures StrictlyIncreasing(r)
    ensures forall t :: t in r <==> exists p :: p in processes && t in TagsOf(p)
    decreases |processes|
  {
    if |processes| == 0 then []
    else
      var last := processes[|processes| - 1];
      var front := processes[..|processes| - 1];
      assert processes == front + [last];
      AddTags(TagsOf(last), UniqueTags(front))
  }

  /** Processes without tags contribute nothing, and the order of the processes
      does not matter: the result depends only on which tags occur. */
  lemma UniqueTagsOfTagged(processes: seq<Record>, others: seq<Record>)
    requires forall p :: p in others ==> p in processes
    requires forall p :: p in processes && |TagsOf(p)| > 0 ==> p in others
    ensures UniqueTags(others) == UniqueTags(processes)
  {
    var a, b := UniqueTags(others), UniqueTags(processes);
    forall t
      ensures t in a <==> t in b
    {
      if t in b {
        var p :| p in processes && t in TagsOf(p);
        assert p in others;
      }
    }
    IncreasingUnique(a, b);
  }

  /** The records with no tags can be dropped without changing the listing. */
  lemma UntaggedContributeNothing(processes: seq<Record>)
    ensures UniqueTags(Filter(processes, p => |TagsOf(p)| > 0)) == UniqueTags(processes)
  {
    UniqueTagsOfTagged(processes, Filter(processes, p => |TagsOf(p)| > 0));
  }
}
