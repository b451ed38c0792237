/** The Python string operations the modelled code relies on.

    Character classes follow Python's `str` methods restricted to ASCII
    (`isdigit`, `\d`, `\w`), except whitespace, which is Python's full
    `str.isspace` list.
 */
module Text {
  import opened Outcomes

  // ---------------------------------------------------------------- classes

  predicate IsDigitChar(c: char) {
    '0' <= c <= '9'
  }

  /** `\w` of a regular expression: letters, digits and underscore. */
  predicate IsWordChar(c: char) {
    'a' <= c <= 'z' || 'A' <= c <= 'Z' || IsDigitChar(c) || c == '_'
  }

  /** `str.isspace()` for one character. */
  predicate IsPySpace(c: char) {
    || '\t' <= c <= '\r'
    || '\U{1C}' <= c <= '\U{1F}'
    || c == ' '
    || c == '\U{85}'
    || c == '\U{A0}'
    || c == '\U{1680}'
    || '\U{2000}' <= c <= '\U{200A}'
    || c == '\U{2028}'
    || c == '\U{2029}'
    || c == '\U{202F}'
    || c == '\U{205F}'
    || c == '\U{3000}'
  }

  predicate IsUpperChar(c: char) {
    'A' <= c <= 'Z'
  }

  /** No character is changed by `str.lower()` (on ASCII). */
  predicate IsLowerCase(s: string) {
    forall i :: 0 <= i < |s| ==> !IsUpperChar(s[i])
  }

  predicate AllDigits(s: string) {
    forall i :: 0 <= i < |s| ==> IsDigitChar(s[i])
  }

  /** `str.isdigit()`: at least one character, and every character a digit. */
  predicate IsDigits(s: string) {
    |s| > 0 && AllDigits(s)
  }

  // ---------------------------------------------------------------- numbers

  /** The value of a string of decimal digits, leading zeros allowed. */
  function DigitsValue(s: string): nat
    requires AllDigits(s)
  {
    if |s| == 0 then 0
    else DigitsValue(s[..|s| - 1]) * 10 + (s[|s| - 1] as int - '0' as int)
  }

  function DigitChar(d: nat): (c: char)
    requires d < 10
    ensures IsDigitChar(c) && c as int - '0' as int == d
  {
    ('0' as int + d) as char
  }

  /** `str(n)` for a non-negative integer: the canonical decimal numeral. */
  function Decimal(n: nat): (r: string)
    ensures IsDigits(r)
    ensures DigitsValue(r) == n
    ensures (r[0] == '0') == (n == 0)
  {
    if n < 10 then [DigitChar(n)]
    else
      var r := Decimal(n / 10) + [DigitChar(n % 10)];
      assert r[..|r| - 1] == Decimal(n / 10);
      r
  }

  /** Removes the underscores of an integer literal. */
  function DropUnderscores(s: string): (r: string)
    ensures (forall i :: 0 <= i < |s| ==> IsDigitChar(s[i]) || s[i] == '_') ==> AllDigits(r)
    ensures AllDigits(s) ==> r == s
  {
    if |s| == 0 then ""
    else if s[0] == '_' then DropUnderscores(s[1..])
    else [s[0]] + DropUnderscores(s[1..])
  }

  /** The body of a base-10 literal that `int()` accepts: digits, with single
      underscores allowed between two digits. */
  predicate IsIntLiteral(s: string) {
    && |s| > 0
    && IsDigitChar(s[0])
    && forall i :: 0 <= i < |s| ==> LiteralCharOk(s, i)
  }

  predicate LiteralCharOk(s: string, i: nat)
    requires i < |s|
  {
    IsDigitChar(s[i]) || (s[i] == '_' && i + 1 < |s| && IsDigitChar(s[i + 1]))
  }

  /** `int(s)` for a `str` and the default base: `None` where Python raises
      ValueError. Surrounding whitespace and one sign are accepted. */
  function PyInt(s: string): Option<int> {
    var t := Trim(s, IsPySpace);
    if |t| > 0 && (t[0] == '+' || t[0] == '-') then
      var body := t[1..];
      if IsIntLiteral(body) then
        var v: int := LiteralValue(body);
        Some(if t[0] == '-' then -v else v)
      else None
    else if IsIntLiteral(t) then Some(LiteralValue(t))
    else None
  }

  function LiteralValue(s: string): nat
    requires IsIntLiteral(s)
  {
    assert forall i :: 0 <= i < |s| ==> IsDigitChar(s[i]) || s[i] == '_' by {
      forall i | 0 <= i < |s| ensures IsDigitChar(s[i]) || s[i] == '_' {
        assert LiteralCharOk(s, i);
      }
    }
    DigitsValue(DropUnderscores(s))
  }

  /** `int()` of a digit string is its decimal value. */
  lemma PyIntOfDigits(s: string)
    requires IsDigits(s)
    ensures PyInt(s) == Some(DigitsValue(s))
  {
    TrimKeeps(s, IsPySpace);
    assert IsIntLiteral(s);
  }

  // ---------------------------------------------------------------- stripping

  /** Drops the trailing characters satisfying `drop`. */
  function TrimEnd(s: string, drop: char -> bool): (r: string)
    ensures r <= s
    ensures |r| == 0 || !drop(r[|r| - 1])
    ensures forall i :: |r| <= i < |s| ==> drop(s[i])
  {
    if |s| > 0 && drop(s[|s| - 1]) then TrimEnd(s[..|s| - 1], drop) else s
  }

  /** Drops the leading characters satisfying `drop`. */
  function TrimStart(s: string, drop: char -> bool): (r: string)
    ensures |r| <= |s| && r == s[|s| - |r|..]
    ensures |r| == 0 || !drop(r[0])
    ensures forall i :: 0 <= i < |s| - |r| ==> drop(s[i])
  {
    if |s| > 0 && drop(s[0]) then
      var r := TrimStart(s[1..], drop);
      assert forall i :: 1 <= i < |s| - |r| ==> s[i] == s[1..][i - 1];
      r
    else s
  }

  /** `str.strip(chars)`: both ends. */
  function Trim(s: string, drop: char -> bool): string {
    TrimStart(TrimEnd(s, drop), drop)
  }

  /** A string with no droppable character at either end is unchanged. */
  lemma {:induction false} TrimKeeps(s: string, drop: char -> bool)
    requires |s| == 0 || (!drop(s[0]) && !drop(s[|s| - 1]))
    ensures Trim(s, drop) == s
  {
  }

  /** `str.rstrip()`. */
  function RStrip(s: string): string {
    TrimEnd(s, IsPySpace)
  }

  predicate IsQuote(c: char) {
    c == '"'
  }

  // ---------------------------------------------------------------- splitting

  /** `str.split(sep)` for a one-character separator. */
  function SplitOn(s: string, sep: char): (r: seq<string>)
    ensures |r| >= 1
    ensures forall k :: 0 <= k < |r| ==> sep !in r[k]
    ensures Join(r, sep) == s
  {
    if |s| == 0 then [""]
    else
      var rest := SplitOn(s[1..], sep);
      if s[0] == sep then [""] + rest
      else
        var r := [[s[0]] + rest[0]] + rest[1..];
        assert r[1..] == rest[1..];
        r
  }

  /** `sep.join(parts)`. */
  function Join(parts: seq<string>, sep: char): string
    requires |parts| >= 1
  {
    if |parts| == 1 then parts[0] else parts[0] + [sep] + Join(parts[1..], sep)
  }

  /** Splitting a joined list of separator-free pieces gives the pieces back. */
  lemma {:induction false} SplitJoin(parts: seq<string>, sep: char)
    requires |parts| >= 1
    requires forall k :: 0 <= k < |parts| ==> sep !in parts[k]
    ensures SplitOn(Join(parts, sep), sep) == parts
  {
    if |parts| == 1 {
      NoSeparatorSplit(parts[0], sep);
    } else {
      SplitJoin(parts[1..], sep);
      SplitPrefix(parts[0], Join(parts[1..], sep), sep);
      assert [parts[0]] + parts[1..] == parts;
    }
  }

  lemma {:induction false} NoSeparatorSplit(s: string, sep: char)
    requires sep !in s
    ensures SplitOn(s, sep) == [s]
  {
    if |s| > 0 {
      assert sep !in s[1..];
      NoSeparatorSplit(s[1..], sep);
      assert [s[0]] + s[1..] == s;
    }
  }

  lemma {:induction false} SplitPrefix(a: string, b: string, sep: char)
    requires sep !in a
    ensures SplitOn(a + [sep] + b, sep) == [a] + SplitOn(b, sep)
  {
    if |a| == 0 {
      assert a + [sep] + b == [sep] + b;
      assert ([sep] + b)[1..] == b;
    } else {
      assert (a + [sep] + b)[1..] == a[1..] + [sep] + b;
      assert sep !in a[1..];
      SplitPrefix(a[1..], b, sep);
      assert [a[0]] + a[1..] == a;
    }
  }

  /** The last piece of a join is a suffix of it. */
  lemma {:induction false} JoinEndsWithLast(parts: seq<string>, sep: char)
    requires |parts| >= 1
    ensures var j := Join(parts, sep); var l := parts[|parts| - 1];
      |l| <= |j| && j[|j| - |l|..] == l && (|parts| > 1 ==> |l| < |j| && j[|j| - |l| - 1] == sep)
  {
    if |parts| > 1 {
      JoinEndsWithLast(parts[1..], sep);
    }
  }

  /** The text before the first `sep`: `s.split(sep)[0]`. */
  function Before(s: string, sep: char): (r: string)
    ensures r <= s && sep !in r
    ensures |r| < |s| ==> s[|r|] == sep
  {
    var parts := SplitOn(s, sep);
    JoinStartsWithFirst(parts, sep);
    parts[0]
  }

  lemma {:induction false} JoinStartsWithFirst(parts: seq<string>, sep: char)
    requires |parts| >= 1
    ensures var j := Join(parts, sep);
      parts[0] <= j && (|parts[0]| < |j| ==> j[|parts[0]|] == sep)
  {
  }

  /** The text after the last `sep`: `s.split(sep)[-1]`. */
  function AfterLast(s: string, sep: char): (r: string)
    ensures sep !in r
    ensures |r| <= |s| && s[|s| - |r|..] == r
    ensures |r| < |s| ==> s[|s| - |r| - 1] == sep
  {
    var parts := SplitOn(s, sep);
    JoinEndsWithLast(parts, sep);
    parts[|parts| - 1]
  }

  // ---------------------------------------------------------------- ordering

  /** Python's `<` on `str`: lexicographic by code point, and a proper
      prefix is smaller than the string it starts. */
  predicate StrLess(a: string, b: string)
    decreases |a|
  {
    if |b| == 0 then false
    else if |a| == 0 then true
    else if a[0] != b[0] then a[0] < b[0]
    else StrLess(a[1..], b[1..])
  }

  /** `not (b < a)`, the comparison a stable sort uses. */
  predicate StrLeq(a: string, b: string) {
    !StrLess(b, a)
  }

  lemma {:induction false} StrLessTrichotomy(a: string, b: string)
    ensures StrLess(a, b) || a == b || StrLess(b, a)
    ensures !(StrLess(a, b) && StrLess(b, a))
    decreases |a|
  {
    if |a| > 0 && |b| > 0 && a[0] == b[0] {
      StrLessTrichotomy(a[1..], b[1..]);
      if a[1..] == b[1..] {
        assert a == [a[0]] + a[1..] && b == [b[0]] + b[1..];
      }
    }
  }

  lemma {:induction false} StrLessIrreflexive(a: string)
    ensures !StrLess(a, a)
    decreases |a|
  {
    if |a| > 0 {
      StrLessIrreflexive(a[1..]);
    }
  }

  lemma {:induction false} StrLessTransitive(a: string, b: string, c: string)
    requires StrLess(a, b) && StrLess(b, c)
    ensures StrLess(a, c)
    decreases |a|
  {
    if |a| > 0 && a[0] == b[0] && b[0] == c[0] {
      StrLessTransitive(a[1..], b[1..], c[1..]);
    }
  }

  /** `StrLeq` is a total preorder (in fact a total order). */
  lemma StrLeqTotalOrder()
    ensures forall a, b :: StrLeq(a, b) || StrLeq(b, a)
    ensures forall a, b, c :: StrLeq(a, b) && StrLeq(b, c) ==> StrLeq(a, c)
  {
    forall a, b ensures StrLeq(a, b) || StrLeq(b, a) {
      StrLessTrichotomy(a, b);
    }
    forall a, b, c | StrLeq(a, b) && StrLeq(b, c) ensures StrLeq(a, c) {
      StrLessTrichotomy(a, b);
      StrLessTrichotomy(b, c);
      StrLessTrichotomy(a, c);
      if StrLess(c, a) {
        if StrLess(a, b) {
          StrLessTransitive(c, a, b);
        } else {
          StrLessIrreflexive(a);
        }
      }
    }
  }

  // ---------------------------------------------------------------- replacing

  predicate OccursAt(s: string, p: string, i: nat) {
    i + |p| <= |s| && s[i..i + |p|] == p
  }

  /** `s.replace(p, '')`: deletes the occurrences of `p` found scanning left
      to right, without overlap. */
  function RemoveAll(s: string, p: string): (r: string)
    requires |p| > 0
    ensures |r| <= |s|
    decreases |s|
  {
    if |s| < |p| then s
    else if s[..|p|] == p then RemoveAll(s[|p|..], p)
    else [s[0]] + RemoveAll(s[1..], p)
  }

  /** A string in which `p` does not occur is left as it is. */
  lemma {:induction false} RemoveAllAbsent(s: string, p: string)
    requires |p| > 0
    requires forall i :: 0 <= i <= |s| - |p| ==> !OccursAt(s, p, i)
    ensures RemoveAll(s, p) == s
    decreases |s|
  {
    if |s| >= |p| {
      assert !OccursAt(s, p, 0);
      assert s[..|p|] == s[0..0 + |p|];
      forall i | 0 <= i <= |s[1..]| - |p| ensures !OccursAt(s[1..], p, i) {
        assert !OccursAt(s, p, i + 1);
        assert s[1..][i..i + |p|] == s[i + 1..i + 1 + |p|];
      }
      RemoveAllAbsent(s[1..], p);
      assert [s[0]] + s[1..] == s;
    }
  }
}
