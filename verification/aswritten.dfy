/** Two places where `weather.py` cannot do what it evidently means to,
    modelled as the code is written, next to the intended behaviour that
    the rest of the model uses. */
module AsWritten {
  import opened Wrappers
  import opened Text
  import opened Dates
  import opened Readings
  import opened Parser
  import opened Calculator

  /** The exceptions Python raises on the paths modelled here. */
  datatype PyError = ValueError | TypeError | ZeroDivisionError | AttributeError

  /** The outcomes of the lines of every `.txt` file, in file-then-line order. */
  function AllOutcomes(files: seq<TextFile>): seq<LineOutcome> {
    if |files| == 0 then []
    else (if EndsWith(files[0].name, Extension) then Outcomes(files[0].lines) else []) + AllOutcomes(files[1..])
  }

  /** Parsing a directory is gathering the outcomes of all its record lines. */
  lemma {:induction false} ParseFilesGathersOutcomes(files: seq<TextFile>)
    ensures ParseFiles(files) == Collect(AllOutcomes(files))
  {
    if |files| > 0 {
      var first := if EndsWith(files[0].name, Extension) then Outcomes(files[0].lines) else [];
      ParseFilesGathersOutcomes(files[1..]);
      CollectAppend(first, AllOutcomes(files[1..]));
      if !EndsWith(files[0].name, Extension) {
        assert first + AllOutcomes(files[1..]) == AllOutcomes(files[1..]);
        ThenUnit(ParseFiles(files[1..]));
      }
    }
  }

  /** The parse loop as written: `WeatherReading` is declared without
      `@dataclass`, so once a line's fields have been read, the keyword call
      `WeatherReading(date=..., ...)` raises `TypeError`; a bad date or number
      raises `ValueError` before that. Only lines that are skipped get through. */
  function RunAsWritten(os: seq<LineOutcome>): (r: Result<seq<Reading>, PyError>)
    ensures r.Success? ==> r.value == []
    ensures r.Failure? ==> r.error == ValueError || r.error == TypeError
  {
    if |os| == 0 then Success([])
    else
      match os[0]
      case Skipped => RunAsWritten(os[1..])
      case Rejected(_) => Failure(ValueError)
      case Parsed(_) => Failure(TypeError)
  }

  /** Position `j` holds the first outcome of `os` that is not skipped. */
  predicate FirstUnskipped(os: seq<LineOutcome>, j: int) {
    0 <= j < |os| && !os[j].Skipped? && forall k :: 0 <= k < j ==> os[k].Skipped?
  }

  /** Past a skipped first outcome, the first unskipped position moves down by one. */
  lemma FirstUnskippedShift(os: seq<LineOutcome>, j: int)
    requires |os| > 0 && os[0].Skipped? && j > 0
    ensures FirstUnskipped(os, j) <==> FirstUnskipped(os[1..], j - 1)
  {
  }

  /** The first line that is not skipped decides the exception: `ValueError`
      when it is rejected, `TypeError` when its fields read. */
  lemma {:induction false} RunAsWrittenFirstLine(os: seq<LineOutcome>)
    ensures RunAsWritten(os) == Failure(ValueError) <==> exists j :: FirstUnskipped(os, j) && os[j].Rejected?
    ensures RunAsWritten(os) == Failure(TypeError) <==> exists j :: FirstUnskipped(os, j) && os[j].Parsed?
  {
    if |os| > 0 {
      if os[0].Skipped? {
        RunAsWrittenFirstLine(os[1..]);
        if exists j :: FirstUnskipped(os, j) {
          var j :| FirstUnskipped(os, j);
          FirstUnskippedShift(os, j);
          assert os[1..][j - 1] == os[j];
        }
        if exists j :: FirstUnskipped(os[1..], j) {
          var j :| FirstUnskipped(os[1..], j);
          FirstUnskippedShift(os, j + 1);
          assert os[1..][j] == os[j + 1];
        }
      } else {
        assert FirstUnskipped(os, 0);
        assert forall j | FirstUnskipped(os, j) :: j == 0;
      }
    }
  }

  /** `parse_files` as written: the loop above over the lines of every `.txt` file.
      The first of those lines that is not skipped decides the exception. */
  function ParseFilesAsWritten(files: seq<TextFile>): (r: Result<seq<Reading>, PyError>)
    ensures r.Success? ==> r.value == []
    ensures r.Failure? ==> r.error == ValueError || r.error == TypeError
    ensures r == Failure(ValueError) <==>
      exists j :: FirstUnskipped(AllOutcomes(files), j) && AllOutcomes(files)[j].Rejected?
    ensures r == Failure(TypeError) <==>
      exists j :: FirstUnskipped(AllOutcomes(files), j) && AllOutcomes(files)[j].Parsed?
  {
    RunAsWrittenFirstLine(AllOutcomes(files));
    RunAsWritten(AllOutcomes(files))
  }

  /** The loop as written completes only where the intended parse finds no
      reading at all. */
  lemma {:induction false} RunAsWrittenOnlyWhenEmpty(os: seq<LineOutcome>)
    ensures RunAsWritten(os).Success? <==> Collect(os) == Success([])
  {
    if |os| > 0 {
      RunAsWrittenOnlyWhenEmpty(os[1..]);
      match os[0]
      case Skipped =>
        ThenUnit(Collect(os[1..]));
      case Rejected(_) =>
      case Parsed(r) =>
        if Collect(os[1..]).Success? {
          assert |Collect(os).value| >= 1;
        }
    }
  }

  /** As written, `parse_files` never returns a reading: it returns only
      where the intended parse returns an empty dataset. */
  lemma ParseAsWrittenOnlyWhenEmpty(files: seq<TextFile>)
    ensures ParseFilesAsWritten(files).Success? <==> ParseFiles(files) == Success([])
  {
    ParseFilesGathersOutcomes(files);
    RunAsWrittenOnlyWhenEmpty(AllOutcomes(files));
  }

  /** One well-formed record in `a.txt`: the code as written raises
      `TypeError`, the intended parse yields the reading. */
  lemma DataclassCounterexample()
    ensures var r := Reading(Date(2023, 1, 15), 30, 18, 65);
      && ParseFilesAsWritten([TextFile("a.txt", [FormatLine(r)])]) == Failure(TypeError)
      && ParseFiles([TextFile("a.txt", [FormatLine(r)])]) == Success([r])
  {
    assert EndsWith("a.txt", Extension) by {
      assert "a.txt"[1..] == ".txt";
    }
    OneRecordFile("a.txt", Reading(Date(2023, 1, 15), 30, 18, 65));
  }

  /** A `.txt` file holding the record line of one reading: as written the
      parse raises `TypeError`; the intended parse yields the reading. */
  lemma OneRecordFile(name: string, r: Reading)
    requires EndsWith(name, Extension) && ValidDate(r.date)
    ensures ParseFilesAsWritten([TextFile(name, [FormatLine(r)])]) == Failure(TypeError)
    ensures ParseFiles([TextFile(name, [FormatLine(r)])]) == Success([r])
  {
    var files := [TextFile(name, [FormatLine(r)])];
    ParseFormatLine(r);
    assert Outcomes([FormatLine(r)]) == [Parsed(r)];
    assert AllOutcomes(files) == [Parsed(r)] by {
      assert files[1..] == [];
    }
    ParseFilesGathersOutcomes(files);
    assert Collect([Parsed(r)]) == Then(Success([r]), Success([]));
    ThenUnit(Success([r]));
  }

  /** `monthly_averages` as written: with no readings in the month the first
      `// len(data)` raises `ZeroDivisionError`; otherwise the two
      temperature averages are computed and `r.humid`, a field `WeatherReading`
      does not have, raises `AttributeError`. */
  function MonthlyAveragesAsWritten(readings: seq<Reading>, year: int, month: int): (r: Result<Averages, PyError>)
    ensures r.Failure?
    ensures r.error == ZeroDivisionError <==> NoneIn(readings, Month(year, month))
  {
    var data := Select(readings, Month(year, month));
    SelectEmpty(readings, Month(year, month));
    if |data| == 0 then Failure(ZeroDivisionError) else Failure(AttributeError)
  }

  /** For every month that has readings, the code as written fails on the
      `humid` attribute while the intended computation succeeds. */
  lemma HumidAttributeCounterexample(readings: seq<Reading>, year: int, month: int)
    requires !NoneIn(readings, Month(year, month))
    ensures MonthlyAveragesAsWritten(readings, year, month) == Failure(AttributeError)
    ensures MonthlyAverages(readings, year, month).Success?
  {
    SelectEmpty(readings, Month(year, month));
  }
}
