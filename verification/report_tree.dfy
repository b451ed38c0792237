/** The submission tab's report tree: one node per network group of the
    entry list, each holding one row per match.
 */
module ReportTree {
  import opened Outcomes
  import opened Text
  import opened Entries

  /** A row of the tree: the first student as the row text, then the second
      student, the partner mark and the line count as column values. */
  datatype TreeRow = TreeRow(text: string, student2: string, partnered: string, lines: string)

  /** A top-level node of the tree and the rows under it. */
  datatype Node = Node(title: string, rows: seq<TreeRow>)

  function Display(e: Entry): TreeRow {
    TreeRow(e.student1, e.student2, e.partnered, e.lines)
  }

  function DisplayAll(es: seq<Entry>): (r: seq<TreeRow>)
    ensures |r| == |es|
    ensures forall k :: 0 <= k < |r| ==> r[k] == Display(es[k])
  {
    if |es| == 0 then [] else [Display(es[0])] + DisplayAll(es[1..])
  }

  /** The label of the `n`-th network node, counting from 1. */
  function Label(n: nat): string {
    "Network " + Decimal(n)
  }

  /** The list the tree is built from: the one passed in, or else the
      entries of the last report, or else nothing. */
  function SearchList(passed: Option<seq<Slot>>, stored: Option<seq<Slot>>): seq<Slot> {
    match passed
    case Some(slots) => slots
    case None => if stored.Some? then stored.value else []
  }

  /** `update_tree`: the previous tree is cleared, so the result depends
      only on the list; one node per group of the list, labelled
      `Network 1`, `Network 2`, ... in order, and no node at all for an
      empty list. */
  function UpdateTree(passed: Option<seq<Slot>>, stored: Option<seq<Slot>>): (r: seq<Node>)
    ensures |r| == 0 <==> |SearchList(passed, stored)| == 0
    ensures |r| == |Segments(SearchList(passed, stored))|
    ensures forall k :: 0 <= k < |r| ==>
      r[k] == Node(Label(k + 1), DisplayAll(Segments(SearchList(passed, stored))[k]))
  {
    var groups := Segments(SearchList(passed, stored));
    seq(|groups|, k requires 0 <= k < |groups| => Node(Label(k + 1), DisplayAll(groups[k])))
  }

  /** The tree built from a report's entry list shows exactly the report's
      groups: one node per group, in order, each with that group's rows in
      order — including an empty node for an empty group. */
  lemma TreeShowsGroups(groups: seq<seq<Entry>>, stored: Option<seq<Slot>>)
    ensures |UpdateTree(Some(Flatten(groups)), stored)| == |groups|
    ensures forall k :: 0 <= k < |groups| ==>
      UpdateTree(Some(Flatten(groups)), stored)[k] == Node(Label(k + 1), DisplayAll(groups[k]))
  {
    SegmentsOfFlatten(groups);
  }

  /** Labels of different nodes differ. */
  lemma LabelsDistinct(m: nat, n: nat)
    requires m != n
    ensures Label(m) != Label(n)
  {
    assert Label(m)[|"Network "|..] == Decimal(m);
    assert Label(n)[|"Network "|..] == Decimal(n);
  }
}
