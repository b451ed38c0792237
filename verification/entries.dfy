/** The report's entry list: the rows of every network group, each group
    closed by a `None` sentinel, and the splitting of such a list back into
    groups that the submission tab performs.
 */
module Entries {

  /** One report row: the fields of a kept match, the page it links to,
      and the partner mark, `"Y"` or empty. */
  datatype Entry = Entry(
    student1: string,
    student2: string,
    perc1: string,
    perc2: string,
    lines: string,
    url: string,
    partnered: string)

  /** An element of the entry list: an entry, or the `None` that closes a
      group. */
  datatype Slot = Row(entry: Entry) | Sentinel

  function Rows(es: seq<Entry>): (r: seq<Slot>)
    ensures |r| == |es|
    ensures forall k :: 0 <= k < |r| ==> r[k] == Row(es[k])
  {
    if |es| == 0 then [] else [Row(es[0])] + Rows(es[1..])
  }

  /** The number of entries over all groups. */
  function TotalSize<T>(groups: seq<seq<T>>): nat {
    if |groups| == 0 then 0 else |groups[0]| + TotalSize(groups[1..])
  }

  /** The number of sentinels in an entry list. */
  function SentinelCount(slots: seq<Slot>): nat {
    if |slots| == 0 then 0 else (if slots[0].Sentinel? then 1 else 0) + SentinelCount(slots[1..])
  }

  /** The entry list: each group's entries in order, each group followed by
      one sentinel, the last group included. */
  function Flatten(groups: seq<seq<Entry>>): (r: seq<Slot>)
    ensures |r| == TotalSize(groups) + |groups|
    ensures SentinelCount(r) == |groups|
    ensures |groups| > 0 ==> r[|r| - 1] == Sentinel
  {
    if |groups| == 0 then []
    else
      var tail := [Sentinel] + Flatten(groups[1..]);
      assert tail[1..] == Flatten(groups[1..]);
      RowsHaveNoSentinel(groups[0]);
      SentinelCountAppend(Rows(groups[0]), tail);
      Rows(groups[0]) + tail
  }

  lemma {:induction false} RowsHaveNoSentinel(es: seq<Entry>)
    ensures SentinelCount(Rows(es)) == 0
  {
    if |es| > 0 {
      RowsHaveNoSentinel(es[1..]);
    }
  }

  lemma {:induction false} SentinelCountAppend(a: seq<Slot>, b: seq<Slot>)
    ensures SentinelCount(a + b) == SentinelCount(a) + SentinelCount(b)
  {
    if |a| == 0 {
      assert a + b == b;
    } else {
      assert (a + b)[1..] == a[1..] + b;
      SentinelCountAppend(a[1..], b);
    }
  }

  // ---------------------------------------------------------------- splitting

  /** Appends `es` to the last group. */
  function ExtendLast(acc: seq<seq<Entry>>, es: seq<Entry>): (r: seq<seq<Entry>>)
    requires |acc| >= 1
    ensures |r| == |acc|
  {
    acc[..|acc| - 1] + [acc[|acc| - 1] + es]
  }

  /** The loop of `update_tree` over the remaining slots: `acc` holds the
      groups opened so far, the last one being the current group. A
      sentinel opens a new group unless it is the final element; an entry
      joins the current group. */
  function Scan(slots: seq<Slot>, acc: seq<seq<Entry>>): (r: seq<seq<Entry>>)
    requires |acc| >= 1
    ensures |r| >= 1
    decreases |slots|
  {
    if |slots| == 0 then acc
    else match slots[0]
      case Sentinel => if |slots| == 1 then acc else Scan(slots[1..], acc + [[]])
      case Row(e) => Scan(slots[1..], ExtendLast(acc, [e]))
  }

  /** The groups `update_tree` shows for an entry list: none for an empty
      list; otherwise a first group, and one more for every sentinel that
      is not the final element. */
  function Segments(slots: seq<Slot>): (r: seq<seq<Entry>>)
    ensures |slots| == 0 ==> r == []
    ensures |slots| > 0 ==>
      |r| == 1 + SentinelCount(slots) - (if slots[|slots| - 1].Sentinel? then 1 else 0)
  {
    if |slots| == 0 then [] else ScanCount(slots, [[]]); Scan(slots, [[]])
  }

  lemma {:induction false} ScanCount(slots: seq<Slot>, acc: seq<seq<Entry>>)
    requires |acc| >= 1 && |slots| > 0
    ensures |Scan(slots, acc)|
      == |acc| + SentinelCount(slots) - (if slots[|slots| - 1].Sentinel? then 1 else 0)
    decreases |slots|
  {
    if |slots| > 1 {
      assert slots[1..][|slots[1..]| - 1] == slots[|slots| - 1];
      match slots[0]
      case Sentinel => ScanCount(slots[1..], acc + [[]]);
      case Row(e) => ScanCount(slots[1..], ExtendLast(acc, [e]));
    }
  }

  /** Scanning a run of entries appends them to the current group. */
  lemma {:induction false} ScanRows(es: seq<Entry>, rest: seq<Slot>, acc: seq<seq<Entry>>)
    requires |acc| >= 1
    ensures Scan(Rows(es) + rest, acc) == Scan(rest, ExtendLast(acc, es))
    decreases |es|
  {
    if |es| == 0 {
      assert Rows(es) + rest == rest;
      assert acc[|acc| - 1] + es == acc[|acc| - 1];
      assert acc[..|acc| - 1] + [acc[|acc| - 1]] == acc;
    } else {
      var slots := Rows(es) + rest;
      assert slots[0] == Row(es[0]);
      assert slots[1..] == Rows(es[1..]) + rest;
      assert Scan(slots, acc) == Scan(slots[1..], ExtendLast(acc, [es[0]]));
      ScanRows(es[1..], rest, ExtendLast(acc, [es[0]]));
      ExtendLastTwice(acc, [es[0]], es[1..]);
      assert [es[0]] + es[1..] == es;
    }
  }

  /** Extending the last group twice extends it by both runs. */
  lemma ExtendLastTwice(acc: seq<seq<Entry>>, a: seq<Entry>, b: seq<Entry>)
    requires |acc| >= 1
    ensures ExtendLast(ExtendLast(acc, a), b) == ExtendLast(acc, a + b)
  {
    var init, last := acc[..|acc| - 1], acc[|acc| - 1];
    var once := ExtendLast(acc, a);
    assert once[..|once| - 1] == init;
    assert once[|once| - 1] == last + a;
    assert last + a + b == last + (a + b);
  }

  lemma FlattenCons(groups: seq<seq<Entry>>)
    requires |groups| >= 1
    ensures Flatten(groups) == Rows(groups[0]) + ([Sentinel] + Flatten(groups[1..]))
  {
  }

  lemma ExtendEmptyLast(done: seq<seq<Entry>>, es: seq<Entry>)
    ensures ExtendLast(done + [[]], es) == done + [es]
  {
    assert (done + [[]])[..|done|] == done;
    assert (done + [[]])[|done|] + es == es;
  }

  lemma ScanSentinelLast(acc: seq<seq<Entry>>)
    requires |acc| >= 1
    ensures Scan([Sentinel], acc) == acc
  {
  }

  lemma ScanSentinel(rest: seq<Slot>, acc: seq<seq<Entry>>)
    requires |acc| >= 1 && rest != []
    ensures Scan([Sentinel] + rest, acc) == Scan(rest, acc + [[]])
  {
    assert ([Sentinel] + rest)[1..] == rest;
  }

  lemma {:induction false} ScanFlatten(groups: seq<seq<Entry>>, done: seq<seq<Entry>>)
    requires |groups| >= 1
    ensures Scan(Flatten(groups), done + [[]]) == done + groups
    decreases |groups|
  {
    var rest := Flatten(groups[1..]);
    var next := done + [groups[0]];
    assert Scan(Flatten(groups), done + [[]]) == Scan([Sentinel] + rest, next) by {
      FlattenCons(groups);
      ScanRows(groups[0], [Sentinel] + rest, done + [[]]);
      ExtendEmptyLast(done, groups[0]);
    }
    if |groups| == 1 {
      assert rest == [] by {
        assert groups[1..] == [];
      }
      ScanSentinelLast(next);
      assert next == done + groups;
    } else {
      ScanSentinel(rest, next);
      ScanFlatten(groups[1..], next);
      assert next + groups[1..] == done + groups;
    }
  }

  /** Splitting the entry list gives back exactly the groups it was built
      from, in order and with their entries in order. */
  lemma SegmentsOfFlatten(groups: seq<seq<Entry>>)
    ensures Segments(Flatten(groups)) == groups
  {
    if |groups| > 0 {
      var none: seq<seq<Entry>> := [];
      ScanFlatten(groups, none);
      assert none + [[]] == [[]];
      assert none + groups == groups;
    }
  }

  /** A final sentinel after an entry changes nothing in the split. */
  lemma {:induction false} ScanFinalSentinel(slots: seq<Slot>, acc: seq<seq<Entry>>)
    requires |acc| >= 1 && |slots| > 0 && slots[|slots| - 1].Row?
    ensures Scan(slots + [Sentinel], acc) == Scan(slots, acc)
    decreases |slots|
  {
    var s := slots + [Sentinel];
    assert s[1..] == slots[1..] + [Sentinel];
    if |slots| == 1 {
      assert s[1..] == [Sentinel];
    } else {
      assert slots[1..][|slots[1..]| - 1] == slots[|slots| - 1];
      match slots[0]
      case Sentinel => ScanFinalSentinel(slots[1..], acc + [[]]);
      case Row(e) => ScanFinalSentinel(slots[1..], ExtendLast(acc, [e]));
    }
  }

  /** The entries before the first sentinel, and the rest after it. */
  function FirstGroup(slots: seq<Slot>): (r: (seq<Entry>, seq<Slot>))
    requires SentinelCount(slots) > 0
    ensures slots == Rows(r.0) + [Sentinel] + r.1
    ensures SentinelCount(r.1) == SentinelCount(slots) - 1
  {
    match slots[0]
    case Sentinel =>
      var none: seq<Entry> := [];
      assert slots == Rows(none) + [Sentinel] + slots[1..];
      (none, slots[1..])
    case Row(e) =>
      var r := FirstGroup(slots[1..]);
      assert Rows([e] + r.0) == [Row(e)] + Rows(r.0);
      assert slots == [slots[0]] + slots[1..];
      ([e] + r.0, r.1)
  }

  /** Every entry list that is empty or ends with a sentinel is the
      flattening of some groups. */
  lemma {:induction false} FlattenOnto(slots: seq<Slot>) returns (groups: seq<seq<Entry>>)
    requires |slots| == 0 || slots[|slots| - 1] == Sentinel
    ensures Flatten(groups) == slots
    decreases SentinelCount(slots)
  {
    if |slots| == 0 {
      groups := [];
    } else {
      assert SentinelCount(slots) > 0 by {
        assert slots == slots[..|slots| - 1] + [Sentinel];
        SentinelCountAppend(slots[..|slots| - 1], [Sentinel]);
      }
      var (first, rest) := FirstGroup(slots);
      if |rest| > 0 {
        assert rest[|rest| - 1] == slots[|slots| - 1];
      }
      var tail := FlattenOnto(rest);
      groups := [first] + tail;
      assert groups[1..] == tail;
    }
  }

  /** Flattening the split list restores it, adding one sentinel at the end
      when the list ended with an entry: the split loses nothing else. */
  lemma FlattenOfSegments(slots: seq<Slot>)
    ensures Flatten(Segments(slots)) ==
      slots + (if |slots| > 0 && slots[|slots| - 1].Row? then [Sentinel] else [])
  {
    var closed := slots + (if |slots| > 0 && slots[|slots| - 1].Row? then [Sentinel] else []);
    if |slots| > 0 && slots[|slots| - 1].Row? {
      ScanFinalSentinel(slots, [[]]);
      assert Segments(closed) == Segments(slots);
    } else {
      assert closed == slots;
    }
    var groups := FlattenOnto(closed);
    SegmentsOfFlatten(groups);
  }
}
