/** The filtering step of `MossUCI.filter_report`: which networks survive,
    which matches each surviving network shows, and in what order.

    A group is the sequence of positions (in the scraped table) of the
    matches a network shows; the match number of position `i` is `i`
    written in decimal.
 */
module Ranking {
  import opened Text
  import opened Sorting
  import opened Matches
  import opened Networks

  /** What decides which networks and matches are kept: whether the
      current-quarter test is switched off, the current-quarter students,
      the partner pairs, and the percentage threshold. */
  datatype Policy = Policy(
    deactivated: bool,
    current: set<string>,
    partners: set<set<string>>,
    threshold: int)

  /** A network is kept when it has a current-quarter student (or that test
      is switched off) and it is not exactly a pair of partners. */
  predicate Survives(n: set<string>, p: Policy) {
    && (p.deactivated || exists s :: s in n && s in p.current)
    && n !in p.partners
  }

  /** Partner pairs hold at most two students, so a network of three or
      more that passes the current-quarter test survives even when it
      contains a pair of partners. */
  lemma LargerNetworkSurvives(n: set<string>, p: Policy, a: string, b: string, c: string)
    requires forall q :: q in p.partners ==> |q| <= 2
    requires a in n && b in n && c in n && a != b && b != c && a != c
    requires p.deactivated || a in p.current
    ensures Survives(n, p)
  {
    assert {a, b, c} <= n;
    assert |{a, b, c}| == 3;
    SubsetSize({a, b, c}, n);
  }

  function KeptNetworks(ms: seq<Match>, p: Policy): set<set<string>> {
    set n | n in AllNetworks(BuildGraph(ms)) && Survives(n, p)
  }

  /** A match passes the threshold when either percentage reaches it. */
  predicate Passes(m: Match, threshold: int)
    requires IsDigits(m.perc1) && |m.perc1| <= 2
    requires IsDigits(m.perc2) && |m.perc2| <= 2
  {
    Percent(m.perc1) >= threshold || Percent(m.perc2) >= threshold
  }

  /** The positions a network shows: matches one of whose seven fields is
      a member of the network, and which pass the threshold. */
  function Selected(ms: seq<Match>, n: set<string>, threshold: int): set<nat>
    requires WellFormed(ms)
  {
    set i: nat | i < |ms| && (exists s :: s in n && ms[i].Mentions(s)) && Passes(ms[i], threshold)
  }

  /** The order within a group: more lines first. */
  function LinesDesc(ms: seq<Match>): (nat, nat) -> bool {
    (i: nat, j: nat) => LinesAt(ms, j) <= LinesAt(ms, i)
  }

  lemma LinesDescTotal(ms: seq<Match>)
    ensures TotalPreorder(LinesDesc(ms))
  {
  }

  /** Python's `max(group, key=lines)`: a position with the most lines,
      the first such one. */
  function MaxByLines(ms: seq<Match>, g: seq<nat>): (r: nat)
    requires |g| > 0
    ensures r in g
    ensures forall k :: 0 <= k < |g| ==> LinesAt(ms, g[k]) <= LinesAt(ms, r)
    ensures exists k :: 0 <= k < |g| && g[k] == r && forall j :: 0 <= j < k ==> LinesAt(ms, g[j]) < LinesAt(ms, r)
  {
    if |g| == 1 then g[0]
    else
      var prefix := g[..|g| - 1];
      var m := MaxByLines(ms, prefix);
      var last := g[|g| - 1];
      assert forall j :: 0 <= j < |prefix| ==> g[j] == prefix[j];
      if LinesAt(ms, last) > LinesAt(ms, m) then
        last
      else
        var k :| 0 <= k < |prefix| && prefix[k] == m
          && forall j :: 0 <= j < k ==> LinesAt(ms, prefix[j]) < LinesAt(ms, m);
        assert g[k] == m;
        m
  }

  /** In a group sorted by decreasing lines, `max` picks the first entry. */
  lemma SortedMaxIsFirst(ms: seq<Match>, g: seq<nat>)
    requires |g| > 0 && SortedBy(g, LinesDesc(ms))
    ensures MaxByLines(ms, g) == g[0]
  {
    var r := MaxByLines(ms, g);
    var k :| 0 <= k < |g| && g[k] == r && forall j :: 0 <= j < k ==> LinesAt(ms, g[j]) < LinesAt(ms, r);
  }

  /** The text groups are ordered by: the match number of the group's
      entry with the most lines. */
  function GroupKey(ms: seq<Match>, g: seq<nat>): string {
    if |g| == 0 then ""
    else
      var i := MaxByLines(ms, g);
      if i < |ms| then ms[i].num else ""
  }

  /** A network together with the group it shows. */
  type Group = (set<string>, seq<nat>)

  function ByKey(ms: seq<Match>): (Group, Group) -> bool {
    (a: Group, b: Group) => StrLeq(GroupKey(ms, a.1), GroupKey(ms, b.1))
  }

  lemma ByKeyTotal(ms: seq<Match>)
    ensures TotalPreorder(ByKey(ms))
  {
    StrLeqTotalOrder();
  }

  /** A group shows exactly the selected positions of its network, each
      once, with more lines first. */
  ghost predicate GoodGroup(ms: seq<Match>, threshold: int, x: Group)
    requires WellFormed(ms)
  {
    && Distinct(x.1)
    && (forall i :: i in x.1 <==> i in Selected(ms, x.0, threshold))
    && SortedBy(x.1, LinesDesc(ms))
  }

  /** What the filtering step promises: one group per kept network that
      selects at least one match, no network twice, each group showing
      exactly its network's selected matches by decreasing lines, and the
      groups ordered by the text of their top match number. */
  ghost predicate IsRanking(ms: seq<Match>, p: Policy, order: seq<set<string>>, groups: seq<seq<nat>>)
    requires WellFormed(ms)
  {
    && |order| == |groups|
    && Distinct(order)
    && (forall n :: n in order <==> n in KeptNetworks(ms, p) && Selected(ms, n, p.threshold) != {})
    && (forall k :: 0 <= k < |groups| ==> GoodGroup(ms, p.threshold, (order[k], groups[k])))
    && (forall k, l :: 0 <= k < l < |groups| ==> StrLeq(GroupKey(ms, groups[k]), GroupKey(ms, groups[l])))
  }

  // ------------------------------------------------------------ computing it

  /** The kept networks, computed by a breadth-first search from every
      student. */
  method SurvivingNetworks(g: Graph, p: Policy) returns (nets: set<set<string>>)
    ensures forall n :: n in nets <==> n in AllNetworks(g) && Survives(n, p)
  {
    var students := SetToSeq(g.Keys);
    nets := {};
    for k := 0 to |students|
      invariant KeptAmong(g, p, students, k, nets)
    {
      var n := Bfs(g, students[k]);
      ReachSetUnique(g, students[k], n, Reachable(g, students[k]));
      KeptAmongStep(g, p, students, k, nets, n);
      if Survives(n, p) {
        nets := nets + {n};
      }
    }
    NetworksFromAll(g, students);
  }

  /** `nets` holds the kept networks of the first `k` students. */
  ghost predicate KeptAmong(g: Graph, p: Policy, students: seq<string>, k: nat, nets: set<set<string>>)
    requires k <= |students|
  {
    forall n :: n in nets <==> (exists j :: 0 <= j < k && n == Reachable(g, students[j])) && Survives(n, p)
  }

  lemma KeptAmongStep(g: Graph, p: Policy, students: seq<string>, k: nat, nets: set<set<string>>, n: set<string>)
    requires k < |students| && KeptAmong(g, p, students, k, nets)
    requires n == Reachable(g, students[k])
    ensures KeptAmong(g, p, students, k + 1, if Survives(n, p) then nets + {n} else nets)
  {
    var nets' := if Survives(n, p) then nets + {n} else nets;
    forall m ensures m in nets' <==> (exists j :: 0 <= j < k + 1 && m == Reachable(g, students[j])) && Survives(m, p) {
      if m == n {
        assert 0 <= k < k + 1 && m == Reachable(g, students[k]);
      }
      if (exists j :: 0 <= j < k + 1 && m == Reachable(g, students[j])) && m != n {
        var j :| 0 <= j < k + 1 && m == Reachable(g, students[j]);
        assert j < k;
      }
    }
  }

  /** Searching from every student finds every network. */
  lemma NetworksFromAll(g: Graph, students: seq<string>)
    requires forall s :: s in students <==> s in g
    ensures forall n :: n in AllNetworks(g) <==> exists j :: 0 <= j < |students| && n == Reachable(g, students[j])
  {
    forall n | n in AllNetworks(g) ensures exists j :: 0 <= j < |students| && n == Reachable(g, students[j]) {
      var s :| s in g && n == Reachable(g, s);
      var j :| 0 <= j < |students| && students[j] == s;
    }
  }

  ghost predicate DistinctFirsts(s: seq<Group>) {
    forall i, j :: 0 <= i < j < |s| ==> s[i].0 != s[j].0
  }

  /** `[net for net in groups if net != []]` */
  function NonEmpty(gs: seq<Group>): (r: seq<Group>)
    ensures forall x :: x in r <==> x in gs && x.1 != []
  {
    if |gs| == 0 then []
    else
      assert forall x :: x in gs <==> x == gs[0] || x in gs[1..];
      if gs[0].1 == [] then NonEmpty(gs[1..]) else [gs[0]] + NonEmpty(gs[1..])
  }

  /** Dropping empty groups keeps the networks distinct. */
  lemma {:induction false} NonEmptyKeepsFirsts(gs: seq<Group>)
    requires DistinctFirsts(gs)
    ensures DistinctFirsts(NonEmpty(gs))
  {
    if |gs| > 0 {
      var rest := NonEmpty(gs[1..]);
      NonEmptyKeepsFirsts(gs[1..]);
      forall j | 0 <= j < |rest| ensures rest[j].0 != gs[0].0 {
        var m :| 0 <= m < |gs[1..]| && gs[1..][m] == rest[j];
        assert gs[m + 1] == rest[j];
      }
    }
  }

  /** A permutation keeps the networks of a list distinct. */
  lemma PermutationKeepsFirsts(s: seq<Group>, r: seq<Group>)
    requires multiset(r) == multiset(s) && DistinctFirsts(s)
    ensures DistinctFirsts(r)
    ensures forall x :: x in r <==> x in s
  {
    assert Distinct(s);
    PermutationKeepsElements(s, r);
    forall i, j | 0 <= i < j < |r| ensures r[i].0 != r[j].0 {
      assert r[i] in r && r[j] in r;
      var a :| 0 <= a < |s| && s[a] == r[i];
      var b :| 0 <= b < |s| && s[b] == r[j];
      assert a != b;
    }
  }

  /** The groups of a list of networks, in the list's order. */
  method GroupsOf(ms: seq<Match>, threshold: int, netSeq: seq<set<string>>) returns (byNet: seq<Group>)
    requires WellFormed(ms)
    ensures |byNet| == |netSeq|
    ensures forall j :: 0 <= j < |byNet| ==> byNet[j].0 == netSeq[j] && GoodGroup(ms, threshold, byNet[j])
  {
    byNet := [];
    for k := 0 to |netSeq|
      invariant |byNet| == k
      invariant forall j :: 0 <= j < k ==> byNet[j].0 == netSeq[j] && GoodGroup(ms, threshold, byNet[j])
    {
      var sel := SetToSeq(Selected(ms, netSeq[k], threshold));
      LinesDescTotal(ms);
      ExtendGroups(ms, threshold, netSeq, byNet, sel);
      byNet := byNet + [(netSeq[k], Sort(sel, LinesDesc(ms)))];
    }
  }

  /** One more network's sorted selection keeps every group good. */
  lemma ExtendGroups(ms: seq<Match>, threshold: int, netSeq: seq<set<string>>, byNet: seq<Group>, sel: seq<nat>)
    requires WellFormed(ms) && |byNet| < |netSeq|
    requires forall j :: 0 <= j < |byNet| ==> byNet[j].0 == netSeq[j] && GoodGroup(ms, threshold, byNet[j])
    requires Distinct(sel) && forall x :: x in sel <==> x in Selected(ms, netSeq[|byNet|], threshold)
    requires TotalPreorder(LinesDesc(ms))
    ensures var next := byNet + [(netSeq[|byNet|], Sort(sel, LinesDesc(ms)))];
      forall j :: 0 <= j < |next| ==> next[j].0 == netSeq[j] && GoodGroup(ms, threshold, next[j])
  {
    var next := byNet + [(netSeq[|byNet|], Sort(sel, LinesDesc(ms)))];
    SortedSelectionGood(ms, threshold, netSeq[|byNet|], sel);
    forall j | 0 <= j < |next| ensures next[j].0 == netSeq[j] && GoodGroup(ms, threshold, next[j]) {
      if j < |byNet| {
        assert next[j] == byNet[j];
      }
    }
  }

  /** Sorting a duplicate-free listing of a network's selection gives a
      good group. */
  lemma SortedSelectionGood(ms: seq<Match>, threshold: int, net: set<string>, sel: seq<nat>)
    requires WellFormed(ms) && Distinct(sel) && TotalPreorder(LinesDesc(ms))
    requires forall x :: x in sel <==> x in Selected(ms, net, threshold)
    ensures GoodGroup(ms, threshold, (net, Sort(sel, LinesDesc(ms))))
  {
    PermutationKeepsElements(sel, Sort(sel, LinesDesc(ms)));
  }

  /** The filtering step: the kept networks that select a match, each with
      its group, ordered by group key. */
  method RankNetworks(ms: seq<Match>, p: Policy) returns (order: seq<set<string>>, groups: seq<seq<nat>>)
    requires WellFormed(ms)
    ensures IsRanking(ms, p, order, groups)
  {
    var nets := SurvivingNetworks(BuildGraph(ms), p);
    var netSeq := SetToSeq(nets);
    var byNet := GroupsOf(ms, p.threshold, netSeq);
    assert DistinctFirsts(byNet) by {
      forall i, j | 0 <= i < j < |byNet| ensures byNet[i].0 != byNet[j].0 {
        assert netSeq[i] != netSeq[j];
      }
    }
    var kept := NonEmpty(byNet);
    NonEmptyKeepsFirsts(byNet);
    ByKeyTotal(ms);
    var ranked := Sort(kept, ByKey(ms));
    PermutationKeepsFirsts(kept, ranked);
    RankedIsRanking(ms, p, nets, netSeq, byNet, ranked);
    order := Firsts(ranked);
    groups := Seconds(ranked);
  }

  function Firsts(s: seq<Group>): (r: seq<set<string>>)
    ensures |r| == |s| && forall k :: 0 <= k < |s| ==> r[k] == s[k].0
  {
    seq(|s|, k requires 0 <= k < |s| => s[k].0)
  }

  function Seconds(s: seq<Group>): (r: seq<seq<nat>>)
    ensures |r| == |s| && forall k :: 0 <= k < |s| ==> r[k] == s[k].1
  {
    seq(|s|, k requires 0 <= k < |s| => s[k].1)
  }

  lemma RankedIsRanking(ms: seq<Match>, p: Policy, nets: set<set<string>>, netSeq: seq<set<string>>,
                        byNet: seq<Group>, ranked: seq<Group>)
    requires WellFormed(ms)
    requires forall n :: n in nets <==> n in AllNetworks(BuildGraph(ms)) && Survives(n, p)
    requires forall n :: n in netSeq <==> n in nets
    requires |byNet| == |netSeq|
    requires forall j :: 0 <= j < |byNet| ==> byNet[j].0 == netSeq[j] && GoodGroup(ms, p.threshold, byNet[j])
    requires forall x :: x in ranked <==> x in byNet && x.1 != []
    requires DistinctFirsts(ranked) && SortedBy(ranked, ByKey(ms))
    ensures IsRanking(ms, p, Firsts(ranked), Seconds(ranked))
  {
    var order, groups := Firsts(ranked), Seconds(ranked);
    RankedAreGood(ms, p, nets, netSeq, byNet, ranked);
    forall k | 0 <= k < |groups| ensures GoodGroup(ms, p.threshold, (order[k], groups[k])) {
      assert ranked[k] in ranked;
      assert ranked[k] == (order[k], groups[k]);
    }
    forall k, l | 0 <= k < l < |groups| ensures StrLeq(GroupKey(ms, groups[k]), GroupKey(ms, groups[l])) {
      assert ByKey(ms)(ranked[k], ranked[l]);
    }
    forall n ensures n in order <==> n in KeptNetworks(ms, p) && Selected(ms, n, p.threshold) != {} {
      if n in order {
        var k :| 0 <= k < |order| && order[k] == n;
        assert ranked[k] in ranked;
      } else if n in KeptNetworks(ms, p) && Selected(ms, n, p.threshold) != {} {
        var x := RankedHas(ms, p, nets, netSeq, byNet, ranked, n);
      }
    }
  }

  lemma RankedAreGood(ms: seq<Match>, p: Policy, nets: set<set<string>>, netSeq: seq<set<string>>,
                      byNet: seq<Group>, ranked: seq<Group>)
    requires WellFormed(ms)
    requires forall n :: n in nets <==> n in AllNetworks(BuildGraph(ms)) && Survives(n, p)
    requires forall n :: n in netSeq <==> n in nets
    requires |byNet| == |netSeq|
    requires forall j :: 0 <= j < |byNet| ==> byNet[j].0 == netSeq[j] && GoodGroup(ms, p.threshold, byNet[j])
    requires forall x :: x in ranked <==> x in byNet && x.1 != []
    ensures forall x :: x in ranked ==>
      GoodGroup(ms, p.threshold, x) && x.0 in KeptNetworks(ms, p) && Selected(ms, x.0, p.threshold) != {}
  {
    forall x | x in ranked
      ensures GoodGroup(ms, p.threshold, x) && x.0 in KeptNetworks(ms, p) && Selected(ms, x.0, p.threshold) != {}
    {
      var j :| 0 <= j < |byNet| && byNet[j] == x;
      assert x.0 in netSeq;
      assert x.1[0] in Selected(ms, x.0, p.threshold);
    }
  }

  lemma RankedHas(ms: seq<Match>, p: Policy, nets: set<set<string>>, netSeq: seq<set<string>>,
                  byNet: seq<Group>, ranked: seq<Group>, n: set<string>) returns (x: Group)
    requires WellFormed(ms)
    requires forall n :: n in nets <==> n in AllNetworks(BuildGraph(ms)) && Survives(n, p)
    requires forall n :: n in netSeq <==> n in nets
    requires |byNet| == |netSeq|
    requires forall j :: 0 <= j < |byNet| ==> byNet[j].0 == netSeq[j] && GoodGroup(ms, p.threshold, byNet[j])
    requires forall x :: x in ranked <==> x in byNet && x.1 != []
    requires n in KeptNetworks(ms, p) && Selected(ms, n, p.threshold) != {}
    ensures x in ranked && x.0 == n
  {
    assert n in nets;
    var j :| 0 <= j < |netSeq| && netSeq[j] == n;
    x := byNet[j];
    var i :| i in Selected(ms, n, p.threshold);
    assert i in x.1;
  }
}
