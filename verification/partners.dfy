/** `partner_formatter` of `scripts/partner_converter.py`: reads a class
    roster exported as comma-separated values and returns the partner pairs
    of one assignment as a set of unordered pairs.

    The file is given as its lines (each possibly still ending in its line
    break). Column 1 holds the student's UCInetID; column `n + 4` holds the
    partner's address for assignment `n`.
 */
module Partners {
  import opened Outcomes
  import opened Text

  /** The roster's header line, skipped wherever it occurs. */
  const Header: string :=
    "\"StudentID\",\"UCInetID\",\"Last Name\",\"First Name\",\"Lab\",\"1\",\"2\",\"3\",\"4\",\"5\",\"6\",\"7\",\"8\",\"9\",\"10\""

  /** Python's `xs[i]`: negative positions count from the end; a position
      outside the list raises IndexError. */
  function PyIndex<T>(xs: seq<T>, i: int): Option<T> {
    if 0 <= i < |xs| then Some(xs[i])
    else if -|xs| <= i < 0 then Some(xs[|xs| + i])
    else None
  }

  /** `s.strip('"')`. */
  function Unquote(s: string): string {
    Trim(s, IsQuote)
  }

  /** The pair one non-header line contributes: the unquoted column 1 and
      the unquoted part of column `column` before its first `@`. */
  function PairOf(line: string, column: int): (r: Result<set<string>>)
    ensures r.Err? <==> |SplitOn(line, ',')| < 2 || PyIndex(SplitOn(line, ','), column).None?
    ensures r.Err? ==> r.error == IndexError
    ensures r.Ok? ==> 1 <= |r.value| <= 2
  {
    PairOfFields(SplitOn(line, ','), column)
  }

  /** The pair of a line already split at its commas. */
  function PairOfFields(parts: seq<string>, column: int): (r: Result<set<string>>)
    ensures r.Err? <==> |parts| < 2 || PyIndex(parts, column).None?
    ensures r.Err? ==> r.error == IndexError
    ensures r.Ok? ==> 1 <= |r.value| <= 2
  {
    if |parts| < 2 then Err(IndexError)
    else match PyIndex(parts, column)
      case None => Err(IndexError)
      case Some(field) =>
        var id, partner := Unquote(parts[1]), Before(Unquote(field), '@');
        PairSize(id, partner);
        Ok({id, partner})
  }

  /** A pair display holds one or two members. */
  lemma PairSize(a: string, b: string)
    ensures 1 <= |{a, b}| <= 2
  {
    if a == b {
      assert {a, b} == {a};
    }
  }

  /** A UCInetID with no quote at either end and an address cut before
      its `@`; neither holds a comma. */
  predicate WellShaped(a: string, b: string) {
    && ',' !in a && ',' !in b && '@' !in b
    && (|a| == 0 || (a[0] != '"' && a[|a| - 1] != '"'))
    && (|b| == 0 || b[0] != '"')
  }

  /** Every pair a line gives is well shaped. */
  lemma PairShape(line: string, column: int)
    requires PairOf(line, column).Ok?
    ensures exists a, b :: PairOf(line, column).value == {a, b} && WellShaped(a, b)
  {
    FieldsShape(SplitOn(line, ','), column);
  }

  lemma FieldsShape(parts: seq<string>, column: int)
    requires forall k :: 0 <= k < |parts| ==> ',' !in parts[k]
    requires PairOfFields(parts, column).Ok?
    ensures exists a, b :: PairOfFields(parts, column).value == {a, b} && WellShaped(a, b)
  {
    var field := PyIndex(parts, column).value;
    assert field in parts;
    var a, b := Unquote(parts[1]), Before(Unquote(field), '@');
    IdShape(parts[1]);
    AddressShape(field);
    assert WellShaped(a, b);
  }

  lemma IdShape(f: string)
    requires ',' !in f
    ensures var a := Unquote(f); ',' !in a && (|a| == 0 || (a[0] != '"' && a[|a| - 1] != '"'))
  {
    TrimHasNo(f, ',');
    UnquoteEnds(f);
  }

  lemma AddressShape(f: string)
    requires ',' !in f
    ensures var b := Before(Unquote(f), '@'); ',' !in b && '@' !in b && (|b| == 0 || b[0] != '"')
  {
    var u := Unquote(f);
    var b := Before(u, '@');
    TrimHasNo(f, ',');
    UnquoteEnds(f);
    assert b == u[..|b|];
    forall i | 0 <= i < |b| ensures b[i] != ',' {
      assert b[i] == u[i];
    }
  }

  lemma TrimHasNo(s: string, c: char)
    requires c !in s
    ensures c !in Unquote(s)
  {
    var t := TrimEnd(s, IsQuote);
    assert c !in t;
  }

  /** `strip('"')` leaves no quote at either end. */
  lemma UnquoteEnds(s: string)
    ensures var u := Unquote(s); |u| == 0 || (u[0] != '"' && u[|u| - 1] != '"')
  {
    var t := TrimEnd(s, IsQuote);
    var u := TrimStart(t, IsQuote);
    if |u| > 0 {
      assert u[|u| - 1] == t[|t| - 1];
    }
  }

  /** What one line of the file gives: nothing for the header line, its
      pair otherwise, IndexError when it is too short. The loop below is
      stated for any header; `PartnerFormatter` passes the roster's. */
  function LineResult(raw: string, column: int, header: string): (r: Result<Option<set<string>>>)
    ensures r.Ok? && r.value.None? <==> RStrip(raw) == header
    ensures r.Ok? && r.value.Some? <==> RStrip(raw) != header && PairOf(RStrip(raw), column).Ok?
    ensures r.Ok? && r.value.Some? ==> PairOf(RStrip(raw), column) == Ok(r.value.value)
    ensures r.Err? ==> r.error == IndexError
  {
    var line := RStrip(raw);
    if line == header then Ok(None)
    else match PairOf(line, column)
      case Err(e) => Err(e)
      case Ok(p) => Ok(Some(p))
  }

  /** What one line contributes: nothing, a pair, or an error. */
  type LineReader = string -> Result<Option<set<string>>>

  /** Every line is read without error. */
  predicate AllRead(lines: seq<string>, read: LineReader) {
    forall l :: l in lines ==> read(l).Ok?
  }

  /** The pairs the lines give, read as a set. */
  function PairsRead(lines: seq<string>, read: LineReader): set<set<string>> {
    set l | l in lines && read(l).Ok? && read(l).value.Some? :: read(l).value.value
  }

  lemma PairsCons(lines: seq<string>, read: LineReader)
    requires |lines| > 0
    ensures var h := read(lines[0]);
      PairsRead(lines, read) == (if h.Ok? && h.value.Some? then {h.value.value} else {}) + PairsRead(lines[1..], read)
  {
    assert forall l :: l in lines <==> l == lines[0] || l in lines[1..];
  }

  lemma AllReadCons(lines: seq<string>, read: LineReader)
    requires |lines| > 0
    ensures AllRead(lines, read) <==> read(lines[0]).Ok? && AllRead(lines[1..], read)
  {
    assert forall l :: l in lines <==> l == lines[0] || l in lines[1..];
  }

  /** The line-by-line loop, from the pairs gathered so far; the first
      line that raises ends it. */
  function Collect(lines: seq<string>, read: LineReader, acc: set<set<string>>): Result<set<set<string>>>
    decreases |lines|
  {
    if |lines| == 0 then Ok(acc)
    else match read(lines[0])
      case Err(e) => Err(e)
      case Ok(None) => Collect(lines[1..], read, acc)
      case Ok(Some(p)) => Collect(lines[1..], read, acc + {p})
  }

  /** The loop raises when some line raises, and otherwise adds exactly the
      pairs of the lines. */
  lemma {:induction false} CollectGathers(lines: seq<string>, read: LineReader, acc: set<set<string>>)
    ensures AllRead(lines, read) ==> Collect(lines, read, acc) == Ok(acc + PairsRead(lines, read))
    ensures !AllRead(lines, read) ==> Collect(lines, read, acc).Err?
    ensures !AllRead(lines, read) ==> exists l :: l in lines && read(l).Err? && Collect(lines, read, acc) == Err(read(l).error)
    decreases |lines|
  {
    if |lines| > 0 {
      var rest := lines[1..];
      AllReadCons(lines, read);
      PairsCons(lines, read);
      match read(lines[0])
      case Err(e) =>
        assert lines[0] in lines;
      case Ok(None) =>
        assert Collect(lines, read, acc) == Collect(rest, read, acc);
        assert PairsRead(lines, read) == PairsRead(rest, read);
        CollectGathers(rest, read, acc);
        if !AllRead(lines, read) {
          var l :| l in rest && read(l).Err? && Collect(rest, read, acc) == Err(read(l).error);
          assert l in lines;
        }
      case Ok(Some(p)) =>
        assert Collect(lines, read, acc) == Collect(rest, read, acc + {p});
        CollectGathers(rest, read, acc + {p});
        assert acc + {p} + PairsRead(rest, read) == acc + ({p} + PairsRead(rest, read));
        if !AllRead(lines, read) {
          var l :| l in rest && read(l).Err? && Collect(rest, read, acc + {p}) == Err(read(l).error);
          assert l in lines;
        }
    } else {
      assert PairsRead(lines, read) == {};
      assert acc + PairsRead(lines, read) == acc;
      assert Collect(lines, read, acc) == Ok(acc);
    }
  }

  /** The roster reader for one column and header line. */
  function Reader(column: int, header: string): LineReader {
    l => LineResult(l, column, header)
  }

  /** Every line is the header or gives a pair. */
  predicate AllParse(lines: seq<string>, column: int, header: string) {
    AllRead(lines, Reader(column, header))
  }

  /** The pairs of the roster: one per line other than the header. */
  function Pairs(lines: seq<string>, column: int, header: string): set<set<string>> {
    PairsRead(lines, Reader(column, header))
  }

  /** `partner_formatter(path, assignment_number)`: `int()` of the
      assignment number first (ValueError), then one pair per line other
      than the header, any short line raising IndexError. */
  function PartnerFormatter(assignmentNumber: string, lines: seq<string>): (r: Result<set<set<string>>>)
    ensures PyInt(assignmentNumber).None? ==> r == Err(ValueError)
    ensures PyInt(assignmentNumber).Some? ==>
      var column := PyInt(assignmentNumber).value + 4;
      && (r.Ok? <==> AllParse(lines, column, Header))
      && (r.Ok? ==> r.value == Pairs(lines, column, Header))
      && (r.Err? ==> r.error == IndexError)
  {
    FormatWith(assignmentNumber, lines, Header)
  }

  /** The formatter for a roster with the given header line. */
  function FormatWith(assignmentNumber: string, lines: seq<string>, header: string): (r: Result<set<set<string>>>)
    ensures PyInt(assignmentNumber).None? ==> r == Err(ValueError)
    ensures PyInt(assignmentNumber).Some? ==>
      var column := PyInt(assignmentNumber).value + 4;
      && (r.Ok? <==> AllParse(lines, column, header))
      && (r.Ok? ==> r.value == Pairs(lines, column, header))
      && (r.Err? ==> r.error == IndexError)
  {
    if PyInt(assignmentNumber).None? then Err(ValueError)
    else FormatColumn(PyInt(assignmentNumber).value + 4, lines, header)
  }

  /** The roster read with the assignment in column `column`. */
  function FormatColumn(column: int, lines: seq<string>, header: string): (r: Result<set<set<string>>>)
    ensures r.Ok? <==> AllParse(lines, column, header)
    ensures r.Ok? ==> r.value == Pairs(lines, column, header)
    ensures r.Err? ==> r.error == IndexError
  {
    CollectGathers(lines, Reader(column, header), {});
    ReadErrors(lines, column, header, {});
    Collect(lines, Reader(column, header), {})
  }

  /** A roster line raises only IndexError. */
  lemma ReadErrors(lines: seq<string>, column: int, header: string, acc: set<set<string>>)
    ensures !AllParse(lines, column, header) ==> Collect(lines, Reader(column, header), acc) == Err(IndexError)
  {
    var read := Reader(column, header);
    CollectGathers(lines, read, acc);
    if !AllRead(lines, read) {
      var l :| l in lines && read(l).Err? && Collect(lines, read, acc) == Err(read(l).error);
      assert read(l) == LineResult(l, column, header);
    }
  }

  /** Each pair holds one or two students. */
  lemma PairSizes(assignmentNumber: string, lines: seq<string>, p: set<string>)
    requires PartnerFormatter(assignmentNumber, lines).Ok?
    requires p in PartnerFormatter(assignmentNumber, lines).value
    ensures 1 <= |p| <= 2
  {
    var column := PyInt(assignmentNumber).value + 4;
    var l :| l in lines && LineResult(l, column, Header).Ok? && LineResult(l, column, Header).value.Some?
      && p == LineResult(l, column, Header).value.value;
  }

  /** The order of the roster's lines, and repeated lines, do not matter. */
  lemma OrderIrrelevant(assignmentNumber: string, lines: seq<string>, other: seq<string>)
    requires forall l :: l in lines <==> l in other
    ensures PartnerFormatter(assignmentNumber, lines) == PartnerFormatter(assignmentNumber, other)
  {
    if PyInt(assignmentNumber).Some? {
      var column := PyInt(assignmentNumber).value + 4;
      assert AllParse(lines, column, Header) <==> AllParse(other, column, Header);
      assert Pairs(lines, column, Header) == Pairs(other, column, Header);
    }
  }

  /** The pair of a row written from its fields. */
  lemma RowPair(fields: seq<string>, column: nat)
    requires 2 <= |fields| && column < |fields|
    requires forall k :: 0 <= k < |fields| ==> ',' !in fields[k]
    ensures PairOf(Join(fields, ','), column) == Ok({Unquote(fields[1]), Before(Unquote(fields[column]), '@')})
  {
    SplitJoin(fields, ',');
  }

  /** A row free of trailing space that is not the header gives its pair. */
  lemma ReadRow(fields: seq<string>, column: nat)
    requires 2 <= |fields| && column < |fields|
    requires forall k :: 0 <= k < |fields| ==> ',' !in fields[k]
    requires var line := Join(fields, ','); RStrip(line) == line && line != Header
    ensures Reader(column, Header)(Join(fields, ','))
      == Ok(Some({Unquote(fields[1]), Before(Unquote(fields[column]), '@')}))
  {
    var line := Join(fields, ',');
    var pair := {Unquote(fields[1]), Before(Unquote(fields[column]), '@')};
    assert PairOf(RStrip(line), column) == Ok(pair) by {
      RowPair(fields, column);
    }
    assert LineResult(line, column, Header) == Ok(Some(pair));
    assert Reader(column, Header)(line) == LineResult(line, column, Header);
  }

  /** A line the reader turns into a pair contributes that pair. */
  lemma PairsHas(lines: seq<string>, read: LineReader, line: string, pair: set<string>)
    requires line in lines && read(line) == Ok(Some(pair))
    ensures pair in PairsRead(lines, read)
  {
  }

  /** A set returned for an assignment number `int()` reads as `n` is
      what the reader for column `n + 4` collects. */
  lemma FormatterColumn(assignmentNumber: string, column: int, lines: seq<string>)
    requires PyInt(assignmentNumber).Some? && column == PyInt(assignmentNumber).value + 4
    ensures PartnerFormatter(assignmentNumber, lines).Ok? ==>
      PartnerFormatter(assignmentNumber, lines).value == Pairs(lines, column, Header)
  {
  }

  /** A row free of trailing space that is not the header contributes its
      pair to any roster holding it. */
  lemma RowInPairs(fields: seq<string>, column: nat, lines: seq<string>)
    requires 2 <= |fields| && column < |fields|
    requires forall k :: 0 <= k < |fields| ==> ',' !in fields[k]
    requires var line := Join(fields, ','); RStrip(line) == line && line != Header && line in lines
    ensures {Unquote(fields[1]), Before(Unquote(fields[column]), '@')} in Pairs(lines, column, Header)
  {
    var line := Join(fields, ',');
    var pair := {Unquote(fields[1]), Before(Unquote(fields[column]), '@')};
    assert Reader(column, Header)(line) == Ok(Some(pair)) by {
      ReadRow(fields, column);
    }
    PairsHas(lines, Reader(column, Header), line, pair);
  }

  /** Reading back a roster row: for fields free of commas, joined by
      commas with no trailing space and not forming the header, any roster
      holding the row yields column 1 unquoted, paired with the unquoted
      column of the assignment cut at its `@`; that column is the
      assignment number plus 4. */
  lemma RowGivesPair(fields: seq<string>, assignmentNumber: string, column: nat, lines: seq<string>)
    requires PyInt(assignmentNumber).Some? && column == PyInt(assignmentNumber).value + 4
    requires 2 <= |fields| && column < |fields|
    requires forall k :: 0 <= k < |fields| ==> ',' !in fields[k]
    requires var line := Join(fields, ','); RStrip(line) == line && line != Header && line in lines
    ensures PartnerFormatter(assignmentNumber, lines).Ok? ==>
      {Unquote(fields[1]), Before(Unquote(fields[column]), '@')} in PartnerFormatter(assignmentNumber, lines).value
  {
    var pair := {Unquote(fields[1]), Before(Unquote(fields[column]), '@')};
    assert pair in Pairs(lines, column, Header) by {
      RowInPairs(fields, column, lines);
    }
    var r := PartnerFormatter(assignmentNumber, lines);
    if r.Ok? {
      assert r.value == Pairs(lines, column, Header) by {
        FormatterColumn(assignmentNumber, column, lines);
      }
    }
  }
}
