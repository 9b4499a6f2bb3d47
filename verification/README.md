# Weather records: parsing and aggregation

A Dafny model of the core of a small command-line weather tool (`weather.py`).
The tool reads a directory of `.txt` files whose lines are records
`YYYY-MM-DD,max_temp,min_temp,humidity`, builds a dataset of daily readings,
and answers three queries: the extremes of a year, the averages of a month,
and the readings of a month to draw as a bar chart.

The model is purely functional:

- `Wrappers` holds `Option` and `Result`. The tool raises exceptions; the
  model returns `Failure` values instead.
- `Text` models Python's `str.strip()`, `str.split(',')` and `str.endswith`.
- `Numerals` models `int(text)` on a restricted grammar: an optional `-`, then
  ASCII digits. It also holds the zero-padded digit fields of a date.
- `Dates` models `datetime.strptime(text, "%Y-%m-%d")` as a
  `Date(year, month, day)` with a calendar-validity predicate (proleptic
  Gregorian, years 1 to 9999).
- `Readings` holds `Reading`, the `Period` a query is about (a year, or a month
  of a year) and `Select`, the list comprehension that every query starts from.
- `Parser` models `WeatherFileParser.parse_files`. The directory is a sequence
  of `TextFile(name, lines)` in the order it is listed.
- `Calculator` models `WeatherCalculator.yearly_extremes` and
  `monthly_averages`.
- `Chart` models the selection loop of `WeatherChart.draw`.
- `AsWritten` models two defects of the code as written, next to the
  intended behaviour (see Findings). Which fields read is decided by the
  model's own date and integer grammars (see Left out).
- `Scenarios` holds worked examples on small datasets.

Error kinds follow the tool's failure modes: `InvalidDateFormat` (the
`strptime` call fails), `InvalidNumericField` (an `int` call fails) and
`EmptyResultSet` (a query over a period with no readings). A line that does not
split into exactly four fields is skipped without error. Any other bad line
aborts the whole parse, and no partial dataset is returned.

Two points about the code that the model keeps:

- Averages use floor division, as Python's `//` does. On negative sums this
  differs from truncation toward zero: minima −1 and −2 average to −2
  (`Scenarios.AveragesRoundDown`).
- Files are taken in directory-listing order; `parse_files` does not sort them.

The code has three defects. The model follows the evident intent for each, as
the rest of the program uses it:

- `WeatherReading` is declared without `@dataclass`, yet it is built with
  keyword arguments.
- `monthly_averages` reads `r.humid`, but the field is `humidity`.
- `monthly_averages` is written at module level with a `self` parameter, yet
  `main` calls it as a method of `WeatherCalculator`. The model treats it as
  that method.

## Model

| member | source | states |
|---|---|---|
| `Text.Strip` | weather.py:25 | `line.strip()`: only whitespace is removed, only from the two ends, and the result neither starts nor ends with whitespace |
| `Text.StripTrailingSpace` | weather.py:24-25 | a trailing whitespace character, such as the newline a line is read with, does not change the stripped line |
| `Text.Split` | weather.py:25 | `split(",")`: there is always at least one part, and no part contains a comma |
| `Text.SplitCount` | weather.py:25-27 | there is one more part than there are commas, so the four-field test means exactly three commas |
| `Text.JoinSplit` | weather.py:25 | joining the parts with commas gives back the line, so splitting loses nothing |
| `Text.SplitJoin` | weather.py:25 | splitting undoes joining for comma-free fields, which is the other half of the round trip |
| `Numerals.ParseInt` | weather.py:34-36 | `int(field)` succeeds exactly on an optional minus sign followed by digits; a negative value comes only from a leading minus |
| `Numerals.ParseIntSpelling` | weather.py:34-36 | `int(field)` reads `n` exactly from the spellings of `n`: any number of leading zeros before its shortest spelling, with a minus sign when `n` is negative (or zero); so `030` reads as 30 |
| `Numerals.ParseFormatInt` | weather.py:34-36 | every integer, written in decimal and read back, is itself |
| `Numerals.PaddedDigitsValue` | weather.py:29 | a fixed-width digit field is the zero-padded spelling of its value, so reading a date field loses nothing |
| `Dates.DaysInMonth` | weather.py:29 | month lengths of the Gregorian calendar: February has 29 days in leap years and 28 otherwise, and every other month has 30 or 31 days by the knuckle rule `30 + (m + m / 8) % 2` |
| `Dates.ParseDate` | weather.py:29 | `strptime(..., "%Y-%m-%d")` accepts only `YYYY-MM-DD` text that names a real calendar date |
| `Dates.ParseFormatDate` | weather.py:29 | every valid date, written as `YYYY-MM-DD` and parsed back, is itself |
| `Dates.DateCanonical` | weather.py:29 | a field parses to date `d` exactly when it is the zero-padded spelling of the valid date `d` |
| `Readings.MatchingPositionsSpec` | weather.py:46 | the positions kept by the period filter are increasing, and a position is kept exactly when its reading lies in the period |
| `Readings.Select` | weather.py:55-58 | the period's list comprehension keeps no more readings than the dataset has; what it keeps is stated by `SelectPositions`, `SelectMembership` and `SelectAppend` |
| `Readings.SelectPositions` | weather.py:55-58 | the period's list comprehension keeps exactly the readings at the matching positions, in dataset order |
| `Readings.SelectMembership` | weather.py:89-90 | a reading is selected exactly when it is in the dataset and lies in the period |
| `Readings.SelectAppend` | weather.py:89 | filtering a concatenation gives the concatenation of the filtered parts, so a left-to-right scan builds the selection |
| `Parser.ParseLine` | weather.py:25-37 | a line is skipped exactly when its stripped text does not hold exactly three commas; a parsed reading always has a valid date; a bad line is a parse error, never an empty-period error |
| `Parser.ParsedLineFields` | weather.py:25-37 | a line yields reading `r` exactly when `r`'s date is valid and the stripped line is that date as `YYYY-MM-DD`, then three comma-separated integers that read as `r`'s max, min and humidity |
| `Parser.ParseLineErrors` | weather.py:26-36 | a four-field line whose date field is not a date fails with `InvalidDateFormat` (the `strptime` call); one whose date parses but whose other fields are not all integers fails with `InvalidNumericField` (an `int` call); no other line gets these errors |
| `Parser.ParseFormatLine` | weather.py:29-38 | the record line of any valid reading parses to exactly that reading |
| `Parser.NewlineIgnored` | weather.py:24-25 | a line read with its trailing newline parses like the bare text |
| `Parser.ParseLines` | weather.py:24-38 | the lines of one file, parsed in order, give at most one reading per line; `ParseLinesAppend`, `ParseLinesFailure`, `SkippedLineIgnored`, `ParsedLineKept` and `RejectedLineAborts` state what it keeps |
| `Parser.ParseLinesAppend` | weather.py:24-38 | parsing consecutive runs of lines is parsing each run in turn: the first failure wins, otherwise the readings are concatenated in line order |
| `Parser.CollectFailure` | weather.py:29-36 | gathering line outcomes fails exactly when some line is rejected, and then with the first rejection's error |
| `Parser.ParseLinesFailure` | weather.py:29-36 | a file's parse fails exactly when one of its lines has a bad date or number, and then with the error of the first such line |
| `Parser.SkippedLineIgnored` | weather.py:25-27 | a line without exactly four fields adds nothing, and the lines after it are still parsed |
| `Parser.ParsedLineKept` | weather.py:31-38 | a well-formed line adds exactly its reading, after the readings of earlier lines and before those of later lines |
| `Parser.RejectedLineAborts` | weather.py:29-36 | a line with a bad date or number makes the whole parse fail with that line's error, with no partial dataset |
| `Parser.ParseFiles` | weather.py:16-39 | `parse_files` gives at most one reading per line of the directory; `ParseFilesAppend`, `ParseFilesFailure`, `NonTextFileIgnored` and `TextFileContributes` state which readings, in which order |
| `Parser.ParseFilesAppend` | weather.py:19-38 | parsing a directory listed in two parts is parsing each part in turn, so readings come in file-then-line order |
| `Parser.ParseFilesFailure` | weather.py:19-38 | the whole parse fails exactly when some `.txt` file has a rejected line |
| `Parser.NonTextFileIgnored` | weather.py:19-21 | a file whose name does not end in `.txt` contributes nothing, wherever it is listed |
| `Parser.TextFileContributes` | weather.py:19-39 | a `.txt` file contributes its lines' readings between those of the files listed before it and after it |
| `Calculator.ArgMax` | weather.py:48 | `max(..., key=...)` returns a reading whose field no other reading exceeds, and every reading before it has a strictly smaller field (the first maximum) |
| `Calculator.ArgMin` | weather.py:49 | `min(..., key=...)` returns the first reading whose field is smallest |
| `Calculator.SelectedArgMax` | weather.py:46-48 | the maximum of the year's filtered list is the first maximal reading of that year in the whole dataset |
| `Calculator.SelectedArgMin` | weather.py:46-49 | the minimum of the year's filtered list is the first minimal reading of that year in the whole dataset |
| `Calculator.FirstMaxUnique` | weather.py:48 | the first-maximum description picks out one reading, so the result leaves no choice |
| `Calculator.FirstMinUnique` | weather.py:49 | the first-minimum description picks out one reading |
| `Calculator.SelectEmpty` | weather.py:46 | the period's selection is empty exactly when no reading lies in the period |
| `Calculator.YearlyExtremes` | weather.py:45-52 | fails with `EmptyResultSet` exactly when the year has no reading; otherwise highest, lowest and most humid are each the year's first extremal reading for their field |
| `Calculator.FloorMean` | weather.py:65-67 | `sum // len` for a non-empty list: the largest integer whose product with the count does not exceed the sum |
| `Calculator.MonthlyAverages` | weather.py:54-68 | fails with `EmptyResultSet` exactly when the month has no reading, instead of returning (0, 0, 0); otherwise each average is the floor of its field's mean over the month's readings |
| `Calculator.SumAppend` | weather.py:65-67 | `sum(...)` of a concatenation is the sum of the two sums |
| `Calculator.SumBounds` | weather.py:65-67 | a sum of values between `lo` and `hi` lies between count times `lo` and count times `hi` |
| `Calculator.FloorBetween` | weather.py:65-67 | if the sum lies between n·lo and n·hi, the floor quotient `sum // n` lies between lo and hi |
| `Calculator.FloorMeanInRange` | weather.py:65-67 | a floor mean lies between the smallest and largest value averaged |
| `Calculator.AveragesInRange` | weather.py:54-68 | each monthly average lies between the least and the greatest value of its field among the month's readings |
| `Text.EndsWith` | weather.py:20 | `file.endswith(".txt")` holds exactly when the name is some prefix followed by `.txt` |
| `Chart.ChartReadings` | weather.py:89-90 | the chart loop keeps exactly the readings of the given month and year, in dataset order |
| `AsWritten.RunAsWritten` | weather.py:29-38 | as written, the parse loop never produces a reading: it returns an empty list or raises `ValueError` or `TypeError` |
| `AsWritten.RunAsWrittenFirstLine` | weather.py:29-38 | the first line that is not skipped decides the exception: `ValueError` exactly when its date or a number fails to read in the model's grammar, `TypeError` exactly when all its fields read there and the keyword construction is reached |
| `AsWritten.ParseFilesAsWritten` | weather.py:16-39 | `parse_files` as written returns only an empty list; it raises `ValueError` exactly when the first unskipped line of the `.txt` files, in listing order, is rejected, and `TypeError` exactly when that line's fields all read, both in the model's grammar |
| `AsWritten.ParseFilesGathersOutcomes` | weather.py:19-38 | parsing a directory gathers the outcomes of all `.txt` lines in file-then-line order |
| `AsWritten.ParseAsWrittenOnlyWhenEmpty` | weather.py:31-37 | as written, `parse_files` returns only when the intended parse finds no reading at all |
| `AsWritten.DataclassCounterexample` | weather.py:32-37 | one well-formed record: the code as written raises `TypeError`; the intended parse yields the reading |
| `AsWritten.MonthlyAveragesAsWritten` | weather.py:54-68 | `monthly_averages` as written never returns: it raises `ZeroDivisionError` exactly when the month has no reading, and `AttributeError` otherwise |
| `AsWritten.HumidAttributeCounterexample` | weather.py:67 | for every month with readings, the code as written raises `AttributeError` on `r.humid`; the intended computation succeeds |
| `Scenarios.RecordDate` | weather.py:29 | the date field `2023-01-15` parses to 15 January 2023 |
| `Scenarios.RecordLineOfJan15` | weather.py:25-36 | the record line of the reading of 15 January 2023 is `2023-01-15,30,18,65` |
| `Scenarios.RecordLineOfJan20` | weather.py:25-36 | the record line of the reading of 20 January 2023 is `2023-01-20,28,15,70` |
| `Scenarios.TwoLineFile` | weather.py:19-39 | a `.txt` file of two record lines, each read with its newline, parses to the two readings in line order |
| `Scenarios.JanuaryFileParses` | weather.py:16-39 | the file `jan.txt` holding those two record lines parses to the readings of the 15th and the 20th, in that order |
| `Scenarios.JanuaryFileQueries` | weather.py:45-68 | the queries over that parsed file give the extremes (15th, 20th, 20th) and the averages (29, 16, 67) |
| `Scenarios.NoLeapDayIn2023` | weather.py:29 | `2023-02-29` has the right shape but is rejected as a date |
| `Scenarios.ExtremesOfJanuary` | weather.py:45-52 | for the records of 15 and 20 January 2023, the hottest day is the 15th and the coldest and most humid is the 20th |
| `Scenarios.NoExtremesForOtherYear` | weather.py:46-48 | a year without records has no extremes |
| `Scenarios.AveragesOfJanuary` | weather.py:54-68 | the same records average to (29, 16, 67); February has no average |
| `Scenarios.TieGoesToEarlier` | weather.py:48 | of two readings tied on the highest maximum, the earlier is reported |
| `Scenarios.AveragesRoundDown` | weather.py:65-67 | maxima 10 and 11 average to 10, and minima −1 and −2 to −2 |

## Left out

- File system access (`os.listdir`, `open`, weather.py:19, 23) is not modelled. The directory is an input sequence of named files, each already split into lines, in the order it is listed. A missing or unreadable directory is therefore not modelled either.
- How a file is split into lines (`for line in f`, universal newlines) is not modelled: lines come pre-split. A trailing newline is handled by `Parser.NewlineIgnored`.
- Numerals.ParseInt: accepts only an optional `-` followed by ASCII digits. Python's `int` also accepts surrounding whitespace, a `+` sign, `_` separators and non-ASCII digits, so a line such as `2023-01-15, 30,18,65` is rejected here but parses in Python. Python 3.11 and later also raise `ValueError` for a field of more than 4300 digits, which is accepted here.
- Dates.ParseDate: accepts only exactly four, two and two digits. `strptime` also accepts one-digit months and days such as `2023-1-5`, and a space-padded day such as `2023-01- 5`; both are rejected here. Its `%Y` and `%d` also match non-ASCII decimal digits (such as Arabic-Indic digits), which are rejected here.
- Text.Strip: treats only ASCII whitespace (tab, line feed, vertical tab, form feed, carriage return, the separators 0x1C to 0x1F, and space) as whitespace. Python also strips non-ASCII whitespace.
- The report and chart output (`WeatherReport`, weather.py:70-81, and the coloured `+` bars of `WeatherChart.draw`, weather.py:87, 91-100) is printing only. Only the chart's selection of readings is modelled.
- `main` (weather.py:102-123) is left out: it parses `sys.argv` and dispatches to the queries. Its call `calculator.monthly_averages(...)` would fail, because the function is not defined on the class. The model treats `monthly_averages` as the calculator's method.
- AsWritten.ParseFilesAsWritten: takes its line outcomes from `Parser.ParseLine`, so a line whose fields only Python's more lenient `int` or `strptime` accept (`+30`, ` 30`, `2023-1-5`) raises `TypeError` in Python but `ValueError` here. The same holds for `AsWritten.RunAsWritten`.

## Findings

| source | as written | input that shows it | evidently intended | confidence | as-written member | corrected member |
|---|---|---|---|---|---|---|
| weather.py:6-10, 32-37 | `WeatherReading` has no `@dataclass`, so `WeatherReading(date=..., ...)` raises `TypeError` and no line ever becomes a reading | a directory holding `a.txt` with the single line `2023-01-15,30,18,65` | one reading per well-formed line | high; not executed | `AsWritten.DataclassCounterexample` (over `AsWritten.ParseFilesAsWritten`) | `Parser.TextFileContributes` with `Parser.ParsedLineKept` (over `Parser.ParseFiles`) |
| weather.py:67 | `sum(r.humid for r in data)` raises `AttributeError`, since the field is `humidity` | any dataset with a reading in the queried month | the floor mean of `humidity` over the month | high; not executed | `AsWritten.HumidAttributeCounterexample` (over `AsWritten.MonthlyAveragesAsWritten`) | `Calculator.MonthlyAverages` |
