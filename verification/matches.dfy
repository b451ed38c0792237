/** The scraped match records that the filtering engine works on.

    Every field is kept as the text the scraping pattern of
    `MossUCI.filter_report` captured, because the engine compares student
    names against all seven captured fields and orders networks by the
    match-number text.
 */
module Matches {
  import opened Text

  /** One row of the results table: result-page URL, match number, the two
      students with their percentages, and the number of lines matched. */
  datatype Match = Match(
    url: string,
    num: string,
    student1: string,
    perc1: string,
    student2: string,
    perc2: string,
    lines: string)
  {
    /** The captured fields in tuple order. */
    function Fields(): seq<string> {
      [url, num, student1, perc1, student2, perc2, lines]
    }

    /** Python's `name in match` on the captured tuple: equal to any of the
        seven fields, not only to a student field. */
    predicate Mentions(name: string) {
      name in Fields()
    }

    /** Whether the two student fields are `a` and `b`, in either order. */
    predicate Links(a: string, b: string) {
      (student1 == a && student2 == b) || (student1 == b && student2 == a)
    }
  }

  /** The row at position `i` as the scraper sees it: the percentages have
      one or two digits, the line count is a digit string and the names
      are non-empty and lower-cased, as the pattern and the lower-casing
      ensure; and the number is `i` written in decimal. The pattern accepts
      any digit string as the number; that rows are numbered by position
      is the results server's convention, on which the lookups
      `matches[int(match_number)]` rely. */
  predicate WellFormedAt(m: Match, i: nat) {
    && m.num == Decimal(i)
    && IsDigits(m.perc1) && |m.perc1| <= 2
    && IsDigits(m.perc2) && |m.perc2| <= 2
    && IsDigits(m.lines)
    && |m.student1| > 0 && IsLowerCase(m.student1)
    && |m.student2| > 0 && IsLowerCase(m.student2)
  }

  predicate WellFormed(ms: seq<Match>) {
    forall i :: 0 <= i < |ms| ==> WellFormedAt(ms[i], i)
  }

  /** `int(perc)` of a captured percentage: always below 100. */
  function Percent(p: string): (v: nat)
    requires IsDigits(p) && |p| <= 2
    ensures v < 100
  {
    var q := p[..|p| - 1];
    assert DigitsValue(q) < 10 by {
      if |q| == 1 {
        assert q[..0] == [];
      }
    }
    DigitsValue(p)
  }

  /** `match_line_lookup.get(i, 0)`: the line count of match `i`, and 0
      for a number that names no match. */
  function LinesAt(ms: seq<Match>, i: nat): nat {
    if i < |ms| && AllDigits(ms[i].lines) then DigitsValue(ms[i].lines) else 0
  }

  /** Every student name that occurs in a student field. */
  function Students(ms: seq<Match>): set<string> {
    (set i | 0 <= i < |ms| :: ms[i].student1) + (set i | 0 <= i < |ms| :: ms[i].student2)
  }

  /** No student name equals a non-student field of any match, so that
      `name in match` holds only through a student field. */
  predicate CleanNames(ms: seq<Match>) {
    forall i, j :: 0 <= i < |ms| && 0 <= j < |ms| ==>
      && ms[j].url !in {ms[i].student1, ms[i].student2}
      && ms[j].num !in {ms[i].student1, ms[i].student2}
      && ms[j].perc1 !in {ms[i].student1, ms[i].student2}
      && ms[j].perc2 !in {ms[i].student1, ms[i].student2}
      && ms[j].lines !in {ms[i].student1, ms[i].student2}
  }
}
