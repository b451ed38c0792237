/** The report's counts: how many matches the filtered report shows
    against how many the results page listed.

    A student name may in principle equal another field of a match (a
    match number, a percentage), and `name in match` then selects the
    match through that field; these lemmas assume names that do not.
 */
module Counts {
  import opened Sorting
  import opened Matches
  import opened Networks
  import opened Ranking
  import opened Entries

  function Elems(s: seq<nat>): set<nat> {
    set i | i in s
  }

  /** The positions `0 .. n-1`. */
  function Range(n: nat): (r: set<nat>)
    ensures forall i: int :: i in r <==> 0 <= i < n
    ensures |r| == n
  {
    if n == 0 then {} else
      var prev := Range(n - 1);
      assert n - 1 !in prev;
      prev + {n - 1}
  }

  /** Every position that occurs in some group. */
  function Members(groups: seq<seq<nat>>): set<nat> {
    if |groups| == 0 then {} else Elems(groups[0]) + Members(groups[1..])
  }

  lemma {:induction false} MembersHas(groups: seq<seq<nat>>, i: nat)
    ensures i in Members(groups) <==> exists k :: 0 <= k < |groups| && i in groups[k]
  {
    if |groups| > 0 {
      MembersHas(groups[1..], i);
      if exists k :: 0 <= k < |groups[1..]| && i in groups[1..][k] {
        var k :| 0 <= k < |groups[1..]| && i in groups[1..][k];
        assert i in groups[k + 1];
      }
      if exists k :: 0 <= k < |groups| && i in groups[k] {
        var k :| 0 <= k < |groups| && i in groups[k];
        if k > 0 {
          assert i in groups[1..][k - 1];
        }
      }
    }
  }

  lemma {:induction false} DistinctSize(s: seq<nat>)
    requires Distinct(s)
    ensures |Elems(s)| == |s|
  {
    if |s| > 0 {
      DistinctSize(s[1..]);
      assert Elems(s) == {s[0]} + Elems(s[1..]);
      forall j | 0 <= j < |s[1..]| ensures s[1..][j] != s[0] {
        assert s[1..][j] == s[j + 1];
      }
      assert s[0] !in Elems(s[1..]);
    }
  }

  /** Disjoint repetition-free groups hold as many entries as members. */
  lemma {:induction false} DisjointSize(groups: seq<seq<nat>>)
    requires forall k :: 0 <= k < |groups| ==> Distinct(groups[k])
    requires forall k, l, i :: 0 <= k < l < |groups| && i in groups[k] ==> i !in groups[l]
    ensures TotalSize(groups) == |Members(groups)|
  {
    if |groups| > 0 {
      DisjointSize(groups[1..]);
      DistinctSize(groups[0]);
      forall i | i in groups[0] ensures i !in Members(groups[1..]) {
        MembersHas(groups[1..], i);
      }
      var a, b := Elems(groups[0]), Members(groups[1..]);
      assert a !! b;
      assert |a + b| == |a| + |b|;
      assert forall k, l, i :: 0 <= k < l < |groups[1..]| && i in groups[1..][k] ==> i !in groups[1..][l];
    }
  }

  /** With clean names, a student name a match mentions is one of the
      match's two students. */
  lemma MentionedStudent(ms: seq<Match>, i: nat, s: string)
    requires CleanNames(ms) && i < |ms|
    requires s in Students(ms) && ms[i].Mentions(s)
    ensures s == ms[i].student1 || s == ms[i].student2
  {
    var j :| 0 <= j < |ms| && (s == ms[j].student1 || s == ms[j].student2);
    assert ms[i].Fields()[0] != s && ms[i].Fields()[1] != s && ms[i].Fields()[3] != s
      && ms[i].Fields()[5] != s && ms[i].Fields()[6] != s;
  }

  /** A network holding one student of a match holds both. */
  lemma NetworkHoldsMatch(ms: seq<Match>, n: set<string>, i: nat, s: string)
    requires n in AllNetworks(BuildGraph(ms)) && i < |ms|
    requires s in n && (s == ms[i].student1 || s == ms[i].student2)
    ensures ms[i].student1 in n && ms[i].student2 in n
  {
    var g := BuildGraph(ms);
    GraphSymmetric(ms);
    var root :| root in g && n == Reachable(g, root);
    MatchWithinNetwork(ms, i);
    SameNetwork(g, ms[i].student1, ms[i].student2);
    SameNetwork(g, root, s);
  }

  /** With clean names a network selects a match only when both of its
      students belong to the network. */
  lemma SelectedThroughStudents(ms: seq<Match>, n: set<string>, threshold: int, i: nat)
    requires WellFormed(ms) && CleanNames(ms)
    requires n in AllNetworks(BuildGraph(ms))
    requires i in Selected(ms, n, threshold)
    ensures ms[i].student1 in n && ms[i].student2 in n
  {
    var s :| s in n && ms[i].Mentions(s);
    NetworksCoverStudents(ms, n);
    MentionedStudent(ms, i, s);
    NetworkHoldsMatch(ms, n, i, s);
  }

  /** With clean names no match is shown in two groups. */
  lemma GroupsDisjoint(ms: seq<Match>, p: Policy, order: seq<set<string>>, groups: seq<seq<nat>>)
    requires WellFormed(ms) && CleanNames(ms)
    requires IsRanking(ms, p, order, groups)
    ensures forall k, l, i :: 0 <= k < l < |groups| && i in groups[k] ==> i !in groups[l]
  {
    forall k, l, i | 0 <= k < l < |groups| && i in groups[k] ensures i !in groups[l] {
      if i in groups[l] {
        assert GoodGroup(ms, p.threshold, (order[k], groups[k]));
        assert GoodGroup(ms, p.threshold, (order[l], groups[l]));
        assert order[k] in order && order[l] in order;
        SelectedThroughStudents(ms, order[k], p.threshold, i);
        SelectedThroughStudents(ms, order[l], p.threshold, i);
        NetworksDisjoint(ms, order[k], order[l]);
      }
    }
  }

  /** The groups of a ranking are repetition-free and hold positions of
      the table. */
  lemma RankingGroups(ms: seq<Match>, p: Policy, order: seq<set<string>>, groups: seq<seq<nat>>)
    requires WellFormed(ms)
    requires IsRanking(ms, p, order, groups)
    ensures forall k :: 0 <= k < |groups| ==> Distinct(groups[k])
    ensures Members(groups) <= Range(|ms|)
  {
    assert forall k :: 0 <= k < |groups| ==> GoodGroup(ms, p.threshold, (order[k], groups[k]));
    forall i | i in Members(groups) ensures i < |ms| {
      MembersHas(groups, i);
      var k :| 0 <= k < |groups| && i in groups[k];
      assert GoodGroup(ms, p.threshold, (order[k], groups[k]));
    }
  }

  /** With clean names the filtered report never shows more matches than
      the page listed, so the filtered count is never negative. */
  lemma ShownAtMostListed(ms: seq<Match>, p: Policy, order: seq<set<string>>, groups: seq<seq<nat>>)
    requires WellFormed(ms) && CleanNames(ms)
    requires IsRanking(ms, p, order, groups)
    ensures TotalSize(groups) <= |ms|
  {
    GroupsDisjoint(ms, p, order, groups);
    RankingGroups(ms, p, order, groups);
    DisjointSize(groups);
    SubsetSize(Members(groups), Range(|ms|));
  }

  /** With the current-quarter test off, no partners and a threshold every
      percentage reaches, every match is in some group. */
  lemma EveryMatchShown(ms: seq<Match>, p: Policy, order: seq<set<string>>, groups: seq<seq<nat>>, i: nat)
    requires WellFormed(ms)
    requires p.deactivated && p.partners == {} && p.threshold <= 0
    requires IsRanking(ms, p, order, groups)
    requires i < |ms|
    ensures i in Members(groups)
  {
    var g := BuildGraph(ms);
    var s := ms[i].student1;
    assert s in Students(ms);
    StudentHasNetwork(ms, s);
    var n := Reachable(g, s);
    assert ms[i].Mentions(s);
    assert i in Selected(ms, n, p.threshold);
    assert n in KeptNetworks(ms, p);
    assert n in order;
    var k :| 0 <= k < |order| && order[k] == n;
    assert GoodGroup(ms, p.threshold, (order[k], groups[k]));
    MembersHas(groups, i);
  }

  /** When nothing can be filtered out — the current-quarter test is off,
      there are no partners and every percentage reaches the threshold —
      the report shows every match exactly once. */
  lemma NothingFiltered(ms: seq<Match>, p: Policy, order: seq<set<string>>, groups: seq<seq<nat>>)
    requires WellFormed(ms) && CleanNames(ms)
    requires p.deactivated && p.partners == {} && p.threshold <= 0
    requires IsRanking(ms, p, order, groups)
    ensures Members(groups) == Range(|ms|)
    ensures TotalSize(groups) == |ms|
  {
    forall i: nat | i < |ms| ensures i in Members(groups) {
      EveryMatchShown(ms, p, order, groups, i);
    }
    RankingGroups(ms, p, order, groups);
    GroupsDisjoint(ms, p, order, groups);
    DisjointSize(groups);
  }
}
