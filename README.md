# Financial metrics extraction, modelled in Dafny

`extract_financial_metrics.py` reads a profit-and-loss report that has been
turned into plain text. From it, it extracts five metrics: income, cost of
goods sold, expenses, other expenses and net income. Labels may be in
English or Spanish. It then derives total expenses and the net margin.

The extraction works in three stages:

1. A first pass takes income and net income from two regular expressions.
   These run case-insensitively over the text, with every whitespace run
   collapsed to one blank.
2. Any metric still missing is looked for line by line. A line whose
   stripped, lower-cased text starts with one of the metric's keywords
   triggers `scan_for_number` on the lines below it. The scan reads at most
   ten lines and collects every token that holds a digit and parses. It
   returns the candidate of largest magnitude, and the earliest such
   candidate on ties. The first label whose scan finds a value decides the
   metric; later labels never overwrite it.
3. The result dictionary is built from the metrics. Income and net income
   are reported whenever they were found. Each cost is reported only when it
   is non-zero, and so is total expenses, the sum of the costs. The margin,
   net income as a percentage of income, is reported when income is non-zero
   and net income was found.

`parse_amount` turns one textual amount into a number. It first strips the
text. It then decides between the European convention (period for
thousands, comma for decimals) and the US one. Only after that decision does
it drop the currency glyphs `$ € ¥ £`, and it ends with Python's `float()`.

The project has five modules, one per file:

- `Text` (`text.dfy`) holds Python's string primitives as the program uses
  them: `strip`, `lower`, `splitlines`, `re.split(r"\s+")` and
  `re.sub(r"\s+", " ")`. It also defines `Option`, Python's `None`, in a
  small module `Wrappers`.
- `Amount` (`amount.dfy`) holds `parse_amount` and the decimal `float()`
  conversion. Its reading of each convention is proved against grouped
  digit values.
- `Scan` (`scan.dfy`) holds `scan_for_number`. Its two loops are proved
  against a specification function, `Locate`, and the promises of the scan
  are proved about that function.
- `Pattern` (`pattern.dfy`) holds the two regular-expression searches.
  Each is a leftmost search over label alternatives tried in order, with a
  greedy tail.
- `Metrics` (`metrics.dfy`) holds `extract_metrics_from_text`. Its loops are
  methods proved against the functions `RegexPass`, `ScanLines` and
  `Emitted`. The first-label-wins reading of the line scan is proved as a
  reference definition, `FirstHit`.

Amounts are exact reals. The metrics dictionary, whose five keys start as
`None`, is a map from `Metric` to `real` in which a missing key means
`None`.

## Model

| member | source | states |
|---|---|---|
| `Amount.ParseAmount` | extract_financial_metrics.py:59-83 | A successful conversion implies the text held a decimal digit; failed conversions are `None`, never an error. |
| `Amount.EuropeanReading` | extract_financial_metrics.py:69-74 | Text made of an optional minus, period-grouped digits with at least one group, a comma and decimals matches the European test. It reads as the grouped value plus the fraction, with the sign applied. |
| `Amount.USReading` | extract_financial_metrics.py:75-77 | Text made of an optional minus, comma-grouped digits and an optional point with decimals is not European. It reads as the grouped value plus the fraction, with the sign applied. |
| `Amount.CommaReading` | extract_financial_metrics.py:69-81 | Any text made of an optional minus, then digits and commas starting with a digit, then an optional point with decimals, is not European, wherever its commas stand. It reads as the value of its digits with every comma deleted, plus the fraction, with the sign applied. |
| `Amount.GroupedReading` | extract_financial_metrics.py:74-77 | Removing the separators from grouped digits leaves a non-empty digit string whose value is the group-by-group value. |
| `Amount.EuropeanExamples` | extract_financial_metrics.py:70-74 | `"1.234,56"` gives 1234.56 and `"-1.234,56"` gives -1234.56. |
| `Amount.USExamples` | extract_financial_metrics.py:71-77 | `"846,432.15"` gives 846432.15 and `"-1,200"` gives -1200. |
| `Amount.PlainExample` | extract_financial_metrics.py:75-81 | `"150000.00"`, with no grouping at all, gives 150000. |
| `Amount.IrregularCommasExample` | extract_financial_metrics.py:75-81 | `"1,2,3"` gives 123: commas are deleted wherever they stand. |
| `Amount.GlyphBeforeEuropeanExample` | extract_financial_metrics.py:66-81 | `"€1.234,56"` gives 1.23456. The glyph defeats the European test, and it is removed only after the US reading has been chosen. |
| `Amount.TwoPointsExample` | extract_financial_metrics.py:72-83 | `"1.234.567"` gives `None`: it is not European, and two points do not convert. |
| `Amount.WordExample` | extract_financial_metrics.py:80-83 | `"abc"` gives `None`. |
| `Amount.DigitlessNone` | extract_financial_metrics.py:66-83 | Any text without a decimal digit gives `None`. |
| `Amount.CurrencyRemoved` | extract_financial_metrics.py:78-79 | Removing the glyphs `$ € ¥ £` leaves none of them, so removing them again changes nothing. |
| `Amount.ReadDecimal` | extract_financial_metrics.py:81 | `float()` reads an optional minus, digits and an optional point with decimals as their decimal value, with the sign applied. |
| `Amount.ParseFloatDigits` | extract_financial_metrics.py:81 | `float()` reads back every integer written in decimal. |
| `Amount.ParseFloatNeedsDigit` | extract_financial_metrics.py:80-83 | `float()` succeeds only on text that holds a digit. |
| `Scan.ScanForNumber` | extract_financial_metrics.py:139-164 | The scan returns `Locate(lines, start)`: the first largest-magnitude candidate of the window, or `None`. |
| `Scan.ScanWith` | extract_financial_metrics.py:147-164 | The loop over the window's lines returns the pick among everything the window's lines yield, for any token reader. |
| `Scan.AppendTokenValues` | extract_financial_metrics.py:155-160 | The loop over a line's tokens appends, in order, exactly the values the reader accepts. |
| `Scan.WindowEnd` | extract_financial_metrics.py:148 | The window ends at `min(len(lines), start + 10)`. |
| `Scan.ArgMaxAbs` | extract_financial_metrics.py:163-164 | The index found has the largest magnitude, and every earlier element has a strictly smaller one, so the first of equal magnitudes wins. |
| `Scan.Pick` | extract_financial_metrics.py:161-164 | `None` exactly when there is no candidate; otherwise a candidate whose magnitude no candidate exceeds. |
| `Scan.FoundNone` | extract_financial_metrics.py:147-164 | For any reader, the scan is `None` exactly when no line of the window yields a candidate. |
| `Scan.FoundSome` | extract_financial_metrics.py:147-164 | A value the scan returns is a candidate on a window line. Every candidate has at most its magnitude, and it occurs before any other candidate of that magnitude. |
| `Scan.LocateNone` | extract_financial_metrics.py:147-164 | For the program's reader, `scan_for_number` is `None` exactly when no window line has a token with a digit that parses. |
| `Scan.LocateSome` | extract_financial_metrics.py:147-164 | For the program's reader, a value found comes from a window line and has the largest magnitude there. |
| `Scan.BelowLabel` | extract_financial_metrics.py:148-173 | A value found below a label on line `i` is on one of the lines `i+1 .. i+10`, so never eleven lines down. |
| `Scan.CollectMember` | extract_financial_metrics.py:156-160 | A value is collected from a line's tokens exactly when the reader accepts one of those tokens with that value. |
| `Scan.GatherMember` | extract_financial_metrics.py:148-160 | A value is gathered from a range of lines exactly when one of those lines yields it. |
| `Scan.LineValuesMember` | extract_financial_metrics.py:149-160 | A line yields a value exactly when it is not blank and one of its whitespace-separated tokens, glyphs removed, reads as that value. |
| `Scan.MaxAbsExample` | extract_financial_metrics.py:161-164 | Among 100, -500 and 42 the scan keeps -500. |
| `Scan.TieExample` | extract_financial_metrics.py:163-164 | Between 500 and -500 the earlier one, 500, stays. |
| `Scan.EmptyExample` | extract_financial_metrics.py:161-162 | No candidate gives `None`. |
| `Pattern.GroupStart` | extract_financial_metrics.py:106-107 | `\s*\$?` consumes only whitespace and at most one final `$`. It is maximal: it stops short of a blank or a `$` only right after the `$` it took. |
| `Pattern.Capture` | extract_financial_metrics.py:106-107 | A captured group has the shape `[-]?[0-9][0-9.,]*`, is the text right after `\s*\$?`, and is maximal: the next character is outside `[0-9.,]`. |
| `Pattern.CaptureComplete` | extract_financial_metrics.py:106-107 | Conversely, whenever some reading of `\s*\$?` from a position ends at a digit, or at a `-` followed by a digit, the greedy reading ends there too and the tail is captured. With `Pattern.Capture`, the tail matches exactly when such a reading exists. |
| `Pattern.CaptureExamples` | extract_financial_metrics.py:106-107 | The group after `" $-1,200 x"` is `"-1,200"`; a blank between `$` and the digits leaves nothing to capture. |
| `Pattern.LabelCaseExample` | extract_financial_metrics.py:107-120 | `NET INCOME 5` matches the net income pattern under `re.IGNORECASE`, capturing `5`. |
| `Pattern.FirstOfFirst` | extract_financial_metrics.py:106-107 | The alternation succeeds exactly when some label succeeds, and it gives the result of the first label that does. |
| `Pattern.MatchAtLabel` | extract_financial_metrics.py:106-107 | A match at a position is a label occurring there, case aside, followed by its capture; no earlier label matches there. |
| `Pattern.SearchNone` | extract_financial_metrics.py:120 | `re.search` fails exactly when the pattern matches at no position. |
| `Pattern.SearchLeftmost` | extract_financial_metrics.py:120 | The group found is that of a match with no match further left. |
| `Pattern.SearchCapture` | extract_financial_metrics.py:120-122 | The group found is the capture right after an occurrence of one of the labels. |
| `Pattern.RegexValueSource` | extract_financial_metrics.py:119-125 | A value from the first pass is `parse_amount` of an amount-shaped group found right after a label. |
| `Pattern.RegexValueNone` | extract_financial_metrics.py:119-125 | With no match anywhere, the first pass gives nothing. |
| `Metrics.Index` | extract_financial_metrics.py:110-116 | Each metric has exactly one place in the dictionary's order. |
| `Metrics.ApplyPatterns` | extract_financial_metrics.py:118-125 | The loop over the two patterns yields `RegexPass` of the flattened text. |
| `Metrics.ApplyPattern` | extract_financial_metrics.py:119-125 | A pattern's value, when there is one, is stored under its metric; otherwise nothing changes. |
| `Metrics.PatternsValues` | extract_financial_metrics.py:105-125 | For any way of reading a pattern, the first pass sets income and net income to their patterns' values and leaves the three costs unset. |
| `Metrics.RegexPassValues` | extract_financial_metrics.py:105-128 | After the first pass, income and net income hold their pattern values and the costs are unset, so `None in metrics.values()` always holds. |
| `Metrics.ScanLabels` | extract_financial_metrics.py:166-176 | The loop over the lines yields `ScanLines` over the lines' labels and scans. |
| `Metrics.ResolveLine` | extract_financial_metrics.py:166-176 | The loop over the metrics on one line gives each metric, in dictionary order, its turn on that line. |
| `Metrics.MetricTurn` | extract_financial_metrics.py:168-176 | A metric that already has a value is skipped on the line. An open one takes the scan's value exactly when the line starts with one of its keywords and the scan finds a value: the turn is `Step`. |
| `Metrics.TryKeywords` | extract_financial_metrics.py:171-176 | The loop over a metric's keywords stores the scan's value under the metric exactly when one of the keywords starts the lowered line and the scan below the line finds a value. Otherwise the dictionary is unchanged. |
| `Metrics.StepsLookup` | extract_financial_metrics.py:168-176 | On one line, a metric's entry changes only when it was empty and the line is labelled for it; it then becomes the scan's value. |
| `Metrics.FirstWins` | extract_financial_metrics.py:166-176 | After the line scan, a metric keeps the value it had on entry. Otherwise it gets `FirstHit`: the value below its first labelled line whose scan finds one. |
| `Metrics.FirstHitNone` | extract_financial_metrics.py:166-176 | No hit means no labelled line has a scan that finds a value. |
| `Metrics.FirstHitMeaning` | extract_financial_metrics.py:166-176 | A hit of `v` means: some labelled line has a scan giving `v`, and no earlier labelled line has a scan that finds anything. Both directions are proved. |
| `Metrics.FirstHitLine` | extract_financial_metrics.py:172-175 | It names the labelled line whose scan gave the hit. |
| `Metrics.CombineLookup` | extract_financial_metrics.py:127-176 | When the first pass leaves a metric open, the scan runs. Metrics found by the first pass keep their value, and the rest get their first hit. |
| `Metrics.ResolveCosts` | extract_financial_metrics.py:127-176 | Cost of goods sold, expenses and other expenses come from the line scan alone. |
| `Metrics.ResolvePatterned` | extract_financial_metrics.py:118-176 | Income and net income take their pattern's value when it parses, and otherwise their first hit in the line scan. |
| `Metrics.Derive` | extract_financial_metrics.py:178-206 | Every result entry equals its emission rule, and the result has no other keys. |
| `Metrics.ExtractMetricsFromText` | extract_financial_metrics.py:86-206 | The result is the emission rule applied to the metrics both passes resolve from the text. |
| `Metrics.MarginMeaning` | extract_financial_metrics.py:186-188 | A reported margin comes with reported income and net income. Income is non-zero and margin × income = net income × 100. |
| `Metrics.TotalMeaning` | extract_financial_metrics.py:185-202 | A reported total is non-zero and is the sum of the reported costs, a missing one counting as zero. |
| `Metrics.ZeroPolicy` | extract_financial_metrics.py:187-200 | A zero income or net income is reported, while a zero cost is not. A zero income gives no margin. |
| `Metrics.FieldNamesDistinct` | extract_financial_metrics.py:190-204 | Different entries have different keys in the result. |
| `Text.SplitLinesKeepsText` | extract_financial_metrics.py:129 | The lines of `splitlines()` hold exactly the text's non-boundary characters, in order, and no line holds a boundary. |
| `Text.SplitWsKeepsText` | extract_financial_metrics.py:155 | The tokens of `re.split(r"\s+")` hold exactly the non-space characters, in order. |
| `Text.CollapseKeepsText` | extract_financial_metrics.py:100 | Collapsing whitespace keeps every non-space character, in order. |
| `Text.CollapseSingleBlanks` | extract_financial_metrics.py:100 | After collapsing, whitespace occurs only as single blanks. |
| `Text.Strip` | extract_financial_metrics.py:149 | The stripped text is a slice of the text with only whitespace before and after it. It neither starts nor ends with whitespace, and it is empty exactly when the text is all whitespace. |
| `Text.Lower` | extract_financial_metrics.py:167 | Lowering keeps the length and lowers each character in place. |
| `Text.SplitLines` | extract_financial_metrics.py:129 | No line of `splitlines()` holds a line boundary. |
| `Text.SplitLinesJoin` | extract_financial_metrics.py:129 | For text whose only boundary is `\n`, joining the lines with `\n` gives back the text, less a final `\n`: every boundary ends exactly one line, and blank lines stay lines. |
| `Text.SplitLinesExample` | extract_financial_metrics.py:129 | `"a\r\n\nb"` has the lines `"a"`, `""` and `"b"`: `\r\n` is one boundary and a blank line is a line. |
| `Text.SplitWs` | extract_financial_metrics.py:155 | `re.split(r"\s+")` gives at least one token, and no token holds whitespace. |
| `Text.SplitWsGaps` | extract_financial_metrics.py:155 | The text is its tokens with exactly one non-empty whitespace run between each two of them, and every token but the first and the last is non-empty. So each gap is a whole whitespace run, and only a leading or trailing run leaves an empty token at that end. |
| `Text.CollapseSpaces` | extract_financial_metrics.py:100 | The collapsed text starts with whitespace exactly when the text does. |
| `Text.CollapseIsJoin` | extract_financial_metrics.py:100 | Collapsing whitespace gives the whitespace-separated tokens joined by single blanks. |

## Left out

- `run_pdftotext` (lines 38-56) and `main` (lines 209-222) are not modelled. They are a subprocess call, command-line handling and JSON printing; the model starts from the extracted text.
- Amounts are exact reals, not binary floating point. The model has no rounding, no overflow, no `-0.0`, and an exact division for the margin.
- `Amount.ParseFloat` accepts only decimal text: an optional sign, digits, an optional point and fraction digits, with surrounding whitespace. Python's `float()` also accepts exponents, `inf`, `nan`, underscores between digits and non-ASCII digits; the model reads those as `None`. The regular-expression groups never hold such text, but a scanned token such as `1e5` or `1_000` does: Python reads it as a number and the model does not.
- `\d` and the digit test of `float()` are ASCII digits only; Python also accepts other Unicode decimal digits.
- `lower()` and `re.IGNORECASE` fold ASCII letters only; the labels and keywords are ASCII, but a line with non-ASCII capitals can lower differently in Python.
- The regular-expression engine in general is left out. Only the two patterns used here are modelled, as a leftmost search over label alternatives tried in order with a greedy tail. The tail needs no backtracking: `Pattern.CaptureComplete` shows the greedy reading of `\s*\$?` loses no match.
- Insertion order of the result dictionary is left out: the result is a map from key to value.
- The end-to-end window property ("a value eleven lines below its label is never picked up") is stated in two steps. `Metrics.FirstHitMeaning` and `Metrics.FirstHitLine` say a metric's value is the scan below a labelled line; `Scan.BelowLabel` says such a scan only reads the ten lines after the label.
