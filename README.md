# duim: disk-usage report with bar charts, in Dafny

`duim.py` reads the output of `du -d 1` (one `<size><TAB><path>` line per
subdirectory) and prints a report. Each directory gets its share of the
total as a percentage, a bar of `=` characters and its size, either raw
(`"<n> B"`) or scaled to B, K, M, G or T. This project models the four
pieces between the subprocess call and the printing, and proves what they
promise:

- `percent_to_graph` in module `BarGraph`. Python's `round` is modelled
  separately in `Rounding` as round-half-to-even on exact reals.
- `create_dir_dict` in module `DirDict`. The string primitives it uses are in
  `Text`: `str.split('\t', 1)`, `str.strip()`, `int()` on a size field, and
  the `str(n)` rendering.
- `human_readable_size` in module `SizeFormat`.
- The report computation of `main` in module `Report`: the total, then each
  entry's percentage, bar and size text, in dictionary order.

`Wrappers` holds the `Option` and `Result` types. A Python exception
becomes a `Failure` or `None` result.

The dictionary is an insertion-ordered sequence of `Entry(path, size)`.
`DirDict.Put` is `dir_dict[k] = v`: a new key goes to the end, and an
existing key keeps its place and takes the new value. Sizes are `nat`.
Percentages and scaled sizes are exact `real`s.

The two loops the source writes, in `create_dir_dict` and
`human_readable_size`, are methods. So is the report loop of `main`. Each
is proved equal to a function (`DirDictOf`, `HumanReadable`, `LineFor`),
and the lemmas state what those functions mean against independent
reference definitions:

- `LastSize` is the size on the last record for a path;
- `FirstIndex` and `InFirstSeenOrder` give the first-seen key order;
- `UnitIndexBand` gives the band `[1024^k, 1024^(k+1))` that selects the unit;
- `SumPercents` sums the percentages.

## Model

| member | source | states |
|---|---|---|
| Rounding.RoundHalfEven | duim.py:46 | `round(x)` is an integer within one half of x, and on a tie it is the even neighbour |
| Rounding.RoundHalfEvenUnique | duim.py:46 | those two conditions determine `round(x)` uniquely |
| Rounding.RoundHalfEvenOfInt | duim.py:46 | rounding an integer gives it back |
| Rounding.RoundHalfEvenMonotone | duim.py:46 | `x <= y` implies `round(x) <= round(y)` |
| Rounding.RoundHalfEvenWithin | duim.py:46 | a value between two integers rounds to a value between them |
| Rounding.RoundHalfEvenTies | duim.py:46 | 2.5 rounds to 2, 3.5 to 4 and 0.5 to 0 |
| BarGraph.Repeat | duim.py:47 | `c * n` has n copies of c, and is empty when n <= 0 |
| BarGraph.PercentToGraph | duim.py:44-47 | fails (ValueError) exactly when `percent < 0` or `percent > 100`; both 0 and 100 are accepted |
| BarGraph.FilledChars | duim.py:46 | definition of `round((percent / 100) * total_chars)`; its meaning is stated by BarGraph.FilledWithin, BarGraph.FilledMonotone and BarGraph.GraphShape |
| BarGraph.ScaledWithin | duim.py:46 | a fraction in [0, 1] of the width lies between 0 and the width |
| BarGraph.OccurrencesOfBar | duim.py:47 | a bar of k `=` followed by spaces holds exactly k `=` |
| BarGraph.FilledWithin | duim.py:46 | for a percentage in [0, 100] and width w >= 0, `0 <= round(percent/100*w) <= w` |
| BarGraph.FilledWithinNegative | duim.py:46 | with a negative width w the filled count lies in [w, 0] |
| BarGraph.FilledMonotone | duim.py:46 | a larger percentage never fills fewer characters |
| BarGraph.GraphShape | duim.py:44-47 | for a percentage in [0, 100] and width w >= 0, the bar succeeds and has length w; it is k `=` then only spaces, with `k = round(percent/100*w)` and `0 <= k <= w` |
| BarGraph.GraphNegativeWidth | duim.py:46-47 | a negative width gives the empty bar |
| BarGraph.GraphEmptyAtZero | duim.py:46-47 | 0% is w spaces |
| BarGraph.GraphFullAtHundred | duim.py:46-47 | 100% is w `=` |
| BarGraph.GraphExamples | duim.py:42-47 | `percent_to_graph(50, 10) == '=====     '`; the ties 25% and 35% of ten round to 2 and 4 |
| BarGraph.GraphThreeAndSeven | duim.py:46-47 | 30% and 70% of ten give 3 and 7 `=` |
| BarGraph.GraphMonotone | duim.py:46 | for a fixed width the number of `=` never decreases as the percentage grows |
| Text.LeadingSpaces | duim.py:58 | the count of leading white space, which stops at the first other character |
| Text.TrailingSpaces | duim.py:58 | the count of trailing white space, which stops at the last other character |
| Text.Strip | duim.py:58 | `strip()` returns a slice of its input surrounded only by white space, and the slice neither starts nor ends with white space |
| Text.StripOfTrimmed | duim.py:58 | strip leaves a string without white-space ends unchanged |
| Text.SplitAtFirstTab | duim.py:57 | `split('\t', 1)` yields two pieces exactly when the line has a tab; the line is then first + TAB + rest, and first has no tab |
| Text.SplitAtFirstTabOfJoin | duim.py:57 | splitting `before + TAB + after`, where before has no tab, gives back both halves whatever tabs `after` holds |
| Text.DigitChar | duim.py:107 | a digit below ten is rendered as the digit character of that value |
| Text.ParseNat | duim.py:58 | `int(size)` succeeds exactly when the stripped field is a non-empty run of decimal digits |
| Text.DecimalValue | duim.py:58 | definition of the number a digit string denotes, the value `int()` computes; its meaning is stated by Text.DecimalValueOfNatToString and Text.ParseNatToString |
| Text.NatToString | duim.py:107 | `str(n)` is a non-empty digit string with no leading zero unless n is 0 |
| Text.DecimalValueOfNatToString | duim.py:107 | the digits of `str(n)` denote n |
| Text.ParseNatToString | duim.py:58 | `int(str(n)) == n` |
| DirDict.Paths | duim.py:55-59 | the keys of the dictionary, in order |
| DirDict.PathsOfSnoc | duim.py:56-58 | appending an entry appends its path to the keys |
| DirDict.PutLookup | duim.py:58 | after `dir_dict[k] = v`, k maps to v and every other key is unchanged |
| DirDict.PutPaths | duim.py:58 | `dir_dict[k] = v` keeps the key order and appends k only when it is new |
| DirDict.PutUnique | duim.py:58 | `dir_dict[k] = v` keeps the keys distinct |
| DirDict.Put | duim.py:58 | definition of `dir_dict[k] = v` on the ordered dictionary; its meaning is stated by DirDict.PutLookup, DirDict.PutPaths and DirDict.PutUnique |
| DirDict.ParsedLines | duim.py:56-58 | one outcome per line, and the outcome at index i is that of line i parsed as line i (proved from the recursive definition) |
| DirDict.ParseLine | duim.py:57-58 | definition of one iteration: split at the first tab, `int()` of the size, stripped path; its meaning is stated by DirDict.ParseDuLine and DirDict.LineWithoutTabFails |
| DirDict.Collect | duim.py:56-58 | a loop that stops at the first failure succeeds exactly when every step does, with every step's value in order |
| DirDict.CollectFirstError | duim.py:56-58 | on failure, the error is that of the first failing step, and all steps before it succeeded |
| DirDict.CollectStep | duim.py:56-58 | one more step extends the values on success, or ends the loop with that step's error |
| DirDict.CollectFailurePersists | duim.py:56-58 | once a prefix of the loop fails, the whole loop fails with the same error |
| DirDict.ParseRecords | duim.py:56-58 | definition of every line parsed in order up to the first failure; its meaning is stated by DirDict.Collect and DirDict.CollectFirstError |
| DirDict.FromRecords | duim.py:55-58 | definition of inserting the records one after another; its meaning is stated by DirDict.FromRecordsUnique, DirDict.FromRecordsLookup, DirDict.FromRecordsMembers and DirDict.FromRecordsOrder |
| DirDict.DirDictOf | duim.py:50-59 | definition of `create_dir_dict(du_list)` as a function; its meaning is stated by DirDict.DirDictOfContent |
| DirDict.LastSize | duim.py:58 | reference definition: the size on the last record for a path; used by DirDict.FromRecordsLookup and DirDict.DirDictOfContent |
| DirDict.InFirstSeenOrder | duim.py:55-59 | reference definition: keys listed by the index of their first occurrence; used by DirDict.FromRecordsOrder and DirDict.DirDictOfContent |
| DirDict.DuOutput | duim.py:57-58 | the utility's output has one `<size><TAB><path>` line per record, in order |
| DirDict.ParseDuLine | duim.py:57-58 | parsing `<size><TAB><path>` gives back the record, when the path has no surrounding white space |
| DirDict.FromRecordsSnoc | duim.py:56-58 | storing one more record is one more `dir_dict[k] = v` |
| DirDict.FirstIndex | duim.py:55-59 | the index of the first occurrence of a path, or the length when the path is absent |
| DirDict.FirstIndexAppend | duim.py:56-58 | a later record does not move the first occurrence of a path already seen |
| DirDict.FromRecordsUnique | duim.py:55-59 | the dictionary holds each path once |
| DirDict.FromRecordsLookup | duim.py:58 | each path maps to the size on its last record |
| DirDict.FromRecordsMembers | duim.py:55-59 | the keys are exactly the records' paths |
| DirDict.FirstSeenOrderStep | duim.py:58 | one more insertion keeps the keys in first-seen order |
| DirDict.FromRecordsOrder | duim.py:55-59 | the keys are in the order their paths first appear |
| DirDict.DirDictOfContent | duim.py:55-59 | `create_dir_dict` fails exactly when some line fails, with the first failing line's error; on success its keys are the distinct stripped paths in first-seen order, and each maps to its last size |
| DirDict.LineWithoutTabFails | duim.py:57 | a line without a tab, after lines that all parse, makes the whole call fail with that line's NoTab error |
| DirDict.DirDictOfEmpty | duim.py:55-59 | an empty input gives an empty dictionary |
| DirDict.DirDictOfDuLines | duim.py:55-59 | well-formed utility output parses to the dictionary its records build |
| DirDict.TwoLinesText | duim.py:57-58 | two records render as `"4096\t/home"` and `"8192\t/var"` |
| DirDict.TwoLinesRecords | duim.py:58 | inserting /home then /var keeps both, in that order |
| DirDict.DirDictOfTwoLines | duim.py:55-59 | the lines `4096\t/home` and `8192\t/var` give /home: 4096 then /var: 8192 |
| DirDict.RepeatedPathText | duim.py:57-58 | three records render as `"1\t/a"`, `"2\t/b"` and `"3\t/a"` |
| DirDict.RepeatedPathRecords | duim.py:58 | inserting /a, /b, /a keeps /a first with the later size |
| DirDict.DirDictOfRepeatedPath | duim.py:55-59 | lines for /a, /b and /a again give /a: 3 then /b: 2 (a repeated path keeps its place and takes the last size) |
| DirDict.CreateDirDict | duim.py:50-59 | the loop returns what `DirDictOf` specifies, which includes stopping at the first bad line with its error |
| SizeFormat.Pow1024 | duim.py:69 | every power of 1024 is at least 1 |
| SizeFormat.UnitIndexFrom | duim.py:66-69 | the first unit index from a start point at which n is below the next power of 1024, or 5 if there is none |
| SizeFormat.UnitIndex | duim.py:66-69 | definition of the number of divisions the loop performs; its meaning is stated by SizeFormat.UnitIndexBand |
| SizeFormat.Pow1024Monotone | duim.py:69 | powers of 1024 grow with the exponent |
| SizeFormat.UnitIndexBand | duim.py:66-70 | the unit index is k < 5 exactly when n lies in `[1024^k, 1024^(k+1))` (from 0 when k is 0), and it is 5 exactly when `n >= 1024^5` |
| SizeFormat.HumanReadable | duim.py:66-70 | definition of what human_readable_size formats; its meaning is stated by SizeFormat.HumanReadableBelowPebibyte, SizeFormat.HumanReadableAbovePebibyte and SizeFormat.HumanReadableExamples |
| SizeFormat.DivTwice | duim.py:69 | dividing by p and then by 1024 is dividing by `1024 * p` |
| SizeFormat.ScaledBelow1024 | duim.py:67 | `n / p < 1024` exactly when `n < 1024 * p` |
| SizeFormat.ScaledRange | duim.py:67-69 | `n / p` times p is n, it is never negative, it is below 1024 exactly when `n < 1024 * p`, and it is at least 1 once `p <= n` |
| SizeFormat.HumanReadableBelowPebibyte | duim.py:66-68 | below 1024^5 the label is `[B,K,M,G,T][k]` and `value * 1024^k == n`; value is in [0, 1024), and in [1, 1024) once a division happened |
| SizeFormat.HumanReadableAbovePebibyte | duim.py:69-70 | from 1024^5 up the result is `n / 1024^5` labelled T, which is 1024 times smaller than n in tebibytes |
| SizeFormat.HumanReadableExamples | duim.py:66-68 | 0 gives 0.0 B, 1023 gives 1023.0 B, 1024 gives 1.0 K, 1536 gives 1.5 K, and 1024^4 gives 1.0 T |
| SizeFormat.HumanReadableSize | duim.py:62-70 | the loop of divisions by 1024 with an early return returns `HumanReadable(n)` |
| Report.TotalSize | duim.py:103 | `sum(dir_dict.values())` is at least every single size |
| Report.SizeTextOf | duim.py:104-107 | definition of the size text in either mode; its meaning is stated by Report.PlainSizeText |
| Report.Percent | duim.py:112 | definition of `(size / total_size) * 100`; its meaning is stated by Report.PercentInRange, Report.AddShares and Report.PercentOfWhole |
| Report.PercentInRange | duim.py:112-113 | a share of a positive total is a percentage in [0, 100], so `percent_to_graph` does not raise for any bar length |
| Report.LineFor | duim.py:112-114 | definition of one report line; its meaning is stated by Report.LineForBounds and Report.ReportLinesFacts |
| Report.LineForBounds | duim.py:112-113 | each line's percentage is in [0, 100], and its bar is as wide as asked for a non-negative length |
| Report.AddShares | duim.py:112 | the percentages of two sizes add up to the percentage of their sum |
| Report.SumPercents | duim.py:111-112 | reference definition: the sum of the lines' percentages; used by Report.SumPercentsOfShares and Report.BuildReport |
| Report.SumPercentsOfShares | duim.py:111-112 | the lines' percentages add up to the percentage of the total of their sizes |
| Report.PercentOfWhole | duim.py:112 | the whole total is 100% |
| Report.ReportLinesFacts | duim.py:111-113 | lines built entry by entry have percentages in [0, 100] that sum to 100, with bars of the requested width |
| Report.BuildReport | duim.py:103-115 | for a positive total: the total's text, then one line per entry in dictionary order with percent, bar, size text and path; the percentages are in [0, 100] and sum to 100 |
| Report.PlainSizeText | duim.py:107 | in plain mode the size text is the decimal size followed by `" B"`, and the number reads back as the size |
| Report.ReportExample | duim.py:103-113 | sizes 30 and 70 give a total of 100, 30% and 70%, and the bars `===       ` and `=======   ` |

## Left out

- `call_du_sub` (duim.py:18-36) is not modelled. It runs `du` as a
  subprocess and reports errors by printing, which is I/O. Its output, a
  list of lines, is the input of `CreateDirDict`.
- `parse_command_args` (duim.py:73-82) is not modelled. It is a wrapper over
  `argparse`; the bar length and the human-readable switch become
  parameters of `BuildReport`.
- The `print` calls and the format specifiers `:.1f`, `5.1f` and `:10`
  (duim.py:68, 70, 110, 115) are not modelled. The size is returned as a
  `Scaled(value, unit)` pair, and the report as `ReportLine` values.
- Floating point is not modelled. The model uses exact reals, so it misses
  the rounding error of `percent / 100 * total_chars` and of repeated
  `/= 1024`.
- Text.ParseNat: accepts only an optionally white-space-padded run of ASCII
  decimal digits. Python's `int()` also takes a sign, underscores between
  digits and non-ASCII digits.
- Text.Strip: removes only ASCII white space. Python's `str.strip()` also
  removes Unicode white space such as U+0085 and U+00A0.
- Report.BuildReport: requires a positive total. When every size is 0,
  `main` raises ZeroDivisionError at duim.py:112; that case is not modelled.
- The empty-input check at duim.py:97-99 prints a message and returns, which
  is I/O.
- From 1024^5 bytes up, the code divides five times and labels the result
  T. So it shows a value in units of 1024^5 as if it were tebibytes; reading
  T as a cap would mean dividing only four times. The model follows the
  code, and `HumanReadableAbovePebibyte` states the result as written.
