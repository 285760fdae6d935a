/**
  The report part of main: the total of all sizes, then for each directory
  in dictionary order its share of the total as a percentage, its bar and
  its size text. The lines are collected instead of printed.
 */
module Report {
  import opened Wrappers
  import opened Text
  import opened BarGraph
  import opened DirDict
  import opened SizeFormat

  /** A size as shown: `f"{size} B"`, or what human_readable_size formats. */
  datatype SizeText = Plain(text: string) | Human(scaled: Scaled)

  /** One printed line: percentage, bar, size and path. */
  datatype ReportLine = ReportLine(percent: real, bar: string, size: SizeText, path: string)

  /** `sum(dir_dict.values())`. */
  function TotalSize(d: seq<Entry>): (total: nat)
    ensures forall i :: 0 <= i < |d| ==> d[i].size <= total
  {
    if d == [] then 0 else TotalSize(d[..|d| - 1]) + d[|d| - 1].size
  }

  /** The size text for either mode. */
  function SizeTextOf(n: nat, humanReadable: bool): SizeText
  {
    if humanReadable then Human(HumanReadable(n)) else Plain(NatToString(n) + " B")
  }

  /** `(size / total_size) * 100`. */
  function Percent(size: nat, total: nat): real
    requires total > 0
  {
    size as real / total as real * 100.0
  }

  /** A share of a positive total is a percentage in [0, 100], so the bar
      never raises, whatever its width. */
  lemma PercentInRange(size: nat, total: nat, barLength: int)
    requires 0 < total && size <= total
    ensures 0.0 <= Percent(size, total) <= 100.0
    ensures PercentToGraph(Percent(size, total), barLength).Success?
  {
    var q := size as real / total as real;
    assert q * total as real == size as real;
  }

  /** The line printed for entry e. */
  function LineFor(e: Entry, total: nat, barLength: int, humanReadable: bool): ReportLine
    requires 0 < total && e.size <= total
  {
    var percent := Percent(e.size, total);
    PercentInRange(e.size, total, barLength);
    ReportLine(percent, PercentToGraph(percent, barLength).value, SizeTextOf(e.size, humanReadable), e.path)
  }

  /** Each line's percentage is in [0, 100], and its bar is as wide as asked. */
  lemma LineForBounds(e: Entry, total: nat, barLength: int, humanReadable: bool)
    requires 0 < total && e.size <= total
    ensures 0.0 <= LineFor(e, total, barLength, humanReadable).percent <= 100.0
    ensures barLength >= 0 ==> |LineFor(e, total, barLength, humanReadable).bar| == barLength
  {
    PercentInRange(e.size, total, barLength);
    if barLength >= 0 {
      GraphShape(Percent(e.size, total), barLength);
    }
  }

  function SumPercents(lines: seq<ReportLine>): real
  {
    if lines == [] then 0.0 else SumPercents(lines[..|lines| - 1]) + lines[|lines| - 1].percent
  }

  lemma AddShares(a: nat, b: nat, total: nat)
    requires total > 0
    ensures Percent(a, total) + Percent(b, total) == Percent(a + b, total)
  {
    var t := total as real;
    assert (a as real / t) * t == a as real;
    assert (b as real / t) * t == b as real;
    assert ((a + b) as real / t) * t == (a + b) as real;
    assert (a as real / t + b as real / t) * t == (a + b) as real;
  }

  /** The percentages of the lines add up to the entries' share of the total. */
  lemma {:induction false} SumPercentsOfShares(lines: seq<ReportLine>, d: seq<Entry>, total: nat)
    requires total > 0 && |lines| == |d|
    requires forall i :: 0 <= i < |d| ==> lines[i].percent == Percent(d[i].size, total)
    ensures SumPercents(lines) == Percent(TotalSize(d), total)
  {
    if d != [] {
      var n := |d| - 1;
      SumPercentsOfShares(lines[..n], d[..n], total);
      AddShares(TotalSize(d[..n]), d[n].size, total);
    }
  }

  lemma PercentOfWhole(total: nat)
    requires total > 0
    ensures Percent(total, total) == 100.0
  {
    var t := total as real;
    assert (t / t) * t == 1.0 * t;
  }

  /** Lines built entry by entry with LineFor have percentages in [0, 100]
      that add up to 100, and bars as wide as asked. */
  lemma ReportLinesFacts(lines: seq<ReportLine>, d: seq<Entry>, total: nat, barLength: int, humanReadable: bool)
    requires total == TotalSize(d) > 0 && |lines| == |d|
    requires forall i :: 0 <= i < |d| ==> lines[i] == LineFor(d[i], total, barLength, humanReadable)
    ensures forall i :: 0 <= i < |lines| ==> 0.0 <= lines[i].percent <= 100.0
    ensures barLength >= 0 ==> forall i :: 0 <= i < |lines| ==> |lines[i].bar| == barLength
    ensures SumPercents(lines) == 100.0
  {
    forall i | 0 <= i < |lines|
      ensures 0.0 <= lines[i].percent <= 100.0
      ensures barLength >= 0 ==> |lines[i].bar| == barLength
    {
      LineForBounds(d[i], total, barLength, humanReadable);
    }
    SumPercentsOfShares(lines, d, total);
    PercentOfWhole(total);
  }

  /** The report for a dictionary with a positive total: the total's text,
      and one line per entry in dictionary order, whose percentages lie in
      [0, 100] and add up to 100. */
  method BuildReport(dict: seq<Entry>, barLength: int, humanReadable: bool)
    returns (totalText: SizeText, lines: seq<ReportLine>)
    requires TotalSize(dict) > 0
    ensures totalText == SizeTextOf(TotalSize(dict), humanReadable)
    ensures |lines| == |dict|
    ensures forall i :: 0 <= i < |dict| ==>
      lines[i] == LineFor(dict[i], TotalSize(dict), barLength, humanReadable)
    ensures forall i :: 0 <= i < |lines| ==> 0.0 <= lines[i].percent <= 100.0
    ensures barLength >= 0 ==> forall i :: 0 <= i < |lines| ==> |lines[i].bar| == barLength
    ensures SumPercents(lines) == 100.0
  {
    var totalSize := TotalSize(dict);
    if humanReadable {
      var scaled := HumanReadableSize(totalSize);
      totalText := Human(scaled);
    } else {
      totalText := Plain(NatToString(totalSize) + " B");
    }
    lines := [];
    for i := 0 to |dict|
      invariant |lines| == i
      invariant forall j :: 0 <= j < i ==> lines[j] == LineFor(dict[j], totalSize, barLength, humanReadable)
    {
      var size := dict[i].size;
      var percent := (size as real / totalSize as real) * 100.0;
      PercentInRange(size, totalSize, barLength);
      var barGraph := PercentToGraph(percent, barLength);
      var sizeStr: SizeText;
      if humanReadable {
        var scaled := HumanReadableSize(size);
        sizeStr := Human(scaled);
      } else {
        sizeStr := Plain(NatToString(size) + " B");
      }
      assert ReportLine(percent, barGraph.value, sizeStr, dict[i].path)
        == LineFor(dict[i], totalSize, barLength, humanReadable);
      lines := lines + [ReportLine(percent, barGraph.value, sizeStr, dict[i].path)];
    }
    ReportLinesFacts(lines, dict, totalSize, barLength, humanReadable);
  }

  /** In plain mode the size text is the decimal size followed by " B", and
      the number reads back as the size. */
  lemma PlainSizeText(n: nat)
    ensures SizeTextOf(n, false).Plain?
    ensures var t := SizeTextOf(n, false).text;
      |t| >= 3 && t[|t| - 2..] == " B" && ParseNat(t[..|t| - 2]) == Some(n)
  {
    var digits := NatToString(n);
    var t := digits + " B";
    assert t[..|t| - 2] == digits;
    ParseNatToString(n);
  }

  /** Two directories of 30 and 70 bytes: 30% and 70%, in that order. */
  lemma ReportExample()
    ensures var d := [Entry("/a", 30), Entry("/b", 70)];
      && TotalSize(d) == 100
      && LineFor(d[0], 100, 10, false).percent == 30.0
      && LineFor(d[1], 100, 10, false).percent == 70.0
      && LineFor(d[0], 100, 10, false).bar == "===       "
      && LineFor(d[1], 100, 10, false).bar == "=======   "
  {
    var d := [Entry("/a", 30), Entry("/b", 70)];
    assert d[..1] == [d[0]];
    assert Percent(30, 100) == 30.0 && Percent(70, 100) == 70.0;
    GraphThreeAndSeven();
  }
}
