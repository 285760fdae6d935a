/**
  The string operations create_dir_dict relies on: `str.strip()`,
  `str.split('\t', 1)` and `int()` on a decimal field, together with the
  decimal rendering of a size used for the "<n> B" text.
 */
module Text {
  import opened Wrappers

  /** The ASCII characters Python's `str.isspace` accepts (and `strip` removes). */
  predicate IsSpace(c: char)
  {
    c == ' ' || c == '\t' || c == '\n' || c == '\r' || c == '\U{B}' || c == '\U{C}'
    || ('\U{1C}' <= c <= '\U{1F}')
  }

  /** How many white-space characters s starts with. */
  function LeadingSpaces(s: string): (k: nat)
    ensures k <= |s|
    ensures forall j :: 0 <= j < k ==> IsSpace(s[j])
    ensures k < |s| ==> !IsSpace(s[k])
  {
    if s == [] || !IsSpace(s[0]) then 0 else 1 + LeadingSpaces(s[1..])
  }

  /** How many white-space characters s ends with. */
  function TrailingSpaces(s: string): (k: nat)
    ensures k <= |s|
    ensures forall j :: |s| - k <= j < |s| ==> IsSpace(s[j])
    ensures k < |s| ==> !IsSpace(s[|s| - 1 - k])
  {
    if s == [] || !IsSpace(s[|s| - 1]) then 0 else 1 + TrailingSpaces(s[..|s| - 1])
  }

  /** r is the slice of s starting at i, and everything around it in s is
      white space. */
  predicate TrimmedAt(s: string, r: string, i: nat)
  {
    && i + |r| <= |s|
    && r == s[i..i + |r|]
    && (forall j :: 0 <= j < i ==> IsSpace(s[j]))
    && (forall j :: i + |r| <= j < |s| ==> IsSpace(s[j]))
  }

  /** `s.strip()`: s with white space removed from both ends. What it
      removes is white space only, and what it keeps neither starts nor
      ends with white space. */
  function Strip(s: string): (r: string)
    ensures TrimmedAt(s, r, LeadingSpaces(s))
    ensures r == [] || (!IsSpace(r[0]) && !IsSpace(r[|r| - 1]))
  {
    var i, j := LeadingSpaces(s), |s| - TrailingSpaces(s);
    if i < j then s[i..j] else []
  }

  /** `line.split('\t', 1)`: the text before the first tab and everything
      after it, or None when the line holds no tab (Python then yields a
      single piece, and unpacking it into two names raises ValueError). */
  function SplitAtFirstTab(line: string): (r: Option<(string, string)>)
    ensures r.None? <==> '\t' !in line
    ensures r.Some? ==> line == r.value.0 + "\t" + r.value.1 && '\t' !in r.value.0
  {
    if line == [] then None
    else if line[0] == '\t' then Some(([], line[1..]))
    else match SplitAtFirstTab(line[1..])
      case None => None
      case Some((before, after)) => Some(([line[0]] + before, after))
  }

  /** Splitting a joined line gives its two halves back, whatever tabs the
      second half holds. */
  lemma {:induction false} SplitAtFirstTabOfJoin(before: string, after: string)
    requires '\t' !in before
    ensures SplitAtFirstTab(before + "\t" + after) == Some((before, after))
  {
    var line := before + "\t" + after;
    if before != [] {
      assert line[0] == before[0] != '\t';
      assert line[1..] == before[1..] + "\t" + after;
      SplitAtFirstTabOfJoin(before[1..], after);
      assert before == [before[0]] + before[1..];
    } else {
      assert line == "\t" + after;
    }
  }

  predicate IsDigit(c: char)
  {
    '0' <= c <= '9'
  }

  predicate AllDigits(s: string)
  {
    forall i :: 0 <= i < |s| ==> IsDigit(s[i])
  }

  function DigitValue(c: char): nat
    requires IsDigit(c)
  {
    (c as int) - ('0' as int)
  }

  function DigitChar(d: nat): (c: char)
    requires d < 10
    ensures IsDigit(c) && DigitValue(c) == d
  {
    ('0' as int + d) as char
  }

  /** The number a string of decimal digits denotes. */
  function DecimalValue(s: string): nat
    requires AllDigits(s)
  {
    if s == [] then 0 else DecimalValue(s[..|s| - 1]) * 10 + DigitValue(s[|s| - 1])
  }

  /** `int(field)` for a size field: surrounding white space is ignored and
      the rest must be a non-empty run of decimal digits. */
  function ParseNat(field: string): (r: Option<nat>)
    ensures r.Some? <==> Strip(field) != [] && AllDigits(Strip(field))
  {
    var digits := Strip(field);
    if digits != [] && AllDigits(digits) then Some(DecimalValue(digits)) else None
  }

  /** `str(n)`: the decimal digits of n, without leading zeros. */
  function NatToString(n: nat): (r: string)
    ensures r != [] && AllDigits(r)
    ensures r[0] == '0' ==> n == 0
  {
    if n < 10 then [DigitChar(n)] else NatToString(n / 10) + [DigitChar(n % 10)]
  }

  lemma {:induction false} DecimalValueOfNatToString(n: nat)
    ensures DecimalValue(NatToString(n)) == n
  {
    if n >= 10 {
      var s := NatToString(n);
      assert s[..|s| - 1] == NatToString(n / 10);
      DecimalValueOfNatToString(n / 10);
    }
  }

  /** strip leaves alone a string whose ends are not white space. */
  lemma StripOfTrimmed(s: string)
    requires s == [] || (!IsSpace(s[0]) && !IsSpace(s[|s| - 1]))
    ensures Strip(s) == s
  {
    assert s != [] ==> s[0..|s|] == s;
  }

  /** `int(str(n)) == n`: the rendered size parses back to itself. */
  lemma ParseNatToString(n: nat)
    ensures ParseNat(NatToString(n)) == Some(n)
  {
    var s := NatToString(n);
    assert IsDigit(s[0]) && IsDigit(s[|s| - 1]);
    StripOfTrimmed(s);
    DecimalValueOfNatToString(n);
  }
}
