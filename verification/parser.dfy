/** `WeatherFileParser.parse_files`: a directory of text files becomes the
    dataset, one reading per well-formed line, in file-then-line order. */
module Parser {
  import opened Wrappers
  import opened Text
  import opened Numerals
  import opened Dates
  import opened Readings

  /** A directory entry with its contents already split into lines. */
  datatype TextFile = TextFile(name: string, lines: seq<string>)

  /** What one line contributes: nothing, one reading, or a fatal error. */
  datatype LineOutcome = Skipped | Parsed(reading: Reading) | Rejected(error: WeatherError)

  const Extension: string := ".txt"

  /** Reads one line: strip it, split it on commas, skip it unless it has
      exactly four fields, otherwise parse the date and the three integers. */
  function ParseLine(line: string): (o: LineOutcome)
    ensures o.Skipped? <==> multiset(Strip(line))[','] != 3
    ensures o.Parsed? ==> ValidDate(o.reading.date)
    ensures o.Rejected? ==> o.error != EmptyResultSet
  {
    var parts := Split(Strip(line), ',');
    SplitCount(Strip(line), ',');
    if |parts| != 4 then Skipped
    else
      match ParseDate(parts[0])
      case None => Rejected(InvalidDateFormat)
      case Some(date) =>
        match (ParseInt(parts[1]), ParseInt(parts[2]), ParseInt(parts[3]))
        case (Some(hi), Some(lo), Some(hum)) => Parsed(Reading(date, hi, lo, hum))
        case _ => Rejected(InvalidNumericField)
  }

  /** A line yields reading `r` exactly when, once stripped, it is `r`'s date
      in `YYYY-MM-DD` form followed by three comma-separated integer fields
      whose values are `r`'s temperatures and humidity. */
  lemma ParsedLineFields(line: string, r: Reading)
    ensures ParseLine(line) == Parsed(r) <==>
      && ValidDate(r.date)
      && exists a, b, c :: Strip(line) == FormatDate(r.date) + "," + a + "," + b + "," + c
           && ParseInt(a) == Some(r.maxTemp) && ParseInt(b) == Some(r.minTemp) && ParseInt(c) == Some(r.humidity)
  {
    if ParseLine(line) == Parsed(r) {
      ParsedLineShape(line);
    }
    forall a, b, c | ValidDate(r.date)
      && Strip(line) == FormatDate(r.date) + "," + a + "," + b + "," + c
      && ParseInt(a) == Some(r.maxTemp) && ParseInt(b) == Some(r.minTemp) && ParseInt(c) == Some(r.humidity)
      ensures ParseLine(line) == Parsed(r)
    {
      RecordFieldsSplit(Strip(line), r, a, b, c);
      FieldsParse(line, FormatDate(r.date), a, b, c, r);
    }
  }

  /** A record's date followed by three integer literals, joined by commas,
      splits back into those four fields, the first of which reads as the date. */
  lemma RecordFieldsSplit(t: string, r: Reading, a: string, b: string, c: string)
    requires ValidDate(r.date) && IsIntLiteral(a) && IsIntLiteral(b) && IsIntLiteral(c)
    requires t == FormatDate(r.date) + "," + a + "," + b + "," + c
    ensures Split(t, ',') == [FormatDate(r.date), a, b, c]
    ensures ParseDate(FormatDate(r.date)) == Some(r.date)
  {
    NoCommaInDate(r.date);
    NoCommaInLiteral(a);
    NoCommaInLiteral(b);
    NoCommaInLiteral(c);
    SplitFourFields(FormatDate(r.date), a, b, c);
    ParseFormatDate(r.date);
  }

  lemma ParsedLineShape(line: string)
    requires ParseLine(line).Parsed?
    ensures var r := ParseLine(line).reading;
      exists a, b, c :: Strip(line) == FormatDate(r.date) + "," + a + "," + b + "," + c
        && ParseInt(a) == Some(r.maxTemp) && ParseInt(b) == Some(r.minTemp) && ParseInt(c) == Some(r.humidity)
  {
    var r := ParseLine(line).reading;
    var parts := Split(Strip(line), ',');
    assert |parts| == 4;
    assert ParseDate(parts[0]) == Some(r.date);
    assert ParseInt(parts[1]) == Some(r.maxTemp);
    assert ParseInt(parts[2]) == Some(r.minTemp);
    assert ParseInt(parts[3]) == Some(r.humidity);
    DateCanonical(parts[0], r.date);
    JoinSplit(Strip(line), ',');
    JoinFour(parts, ',');
    assert Strip(line) == FormatDate(r.date) + "," + parts[1] + "," + parts[2] + "," + parts[3];
  }

  /** A line that splits into four fields which all parse yields their reading. */
  lemma FieldsParse(line: string, d: string, a: string, b: string, c: string, r: Reading)
    requires Split(Strip(line), ',') == [d, a, b, c]
    requires ParseDate(d) == Some(r.date)
    requires ParseInt(a) == Some(r.maxTemp) && ParseInt(b) == Some(r.minTemp) && ParseInt(c) == Some(r.humidity)
    ensures ParseLine(line) == Parsed(r)
  {
    var parts := Split(Strip(line), ',');
    assert |parts| == 4 && parts[0] == d;
    assert (ParseInt(parts[1]), ParseInt(parts[2]), ParseInt(parts[3]))
      == (Some(r.maxTemp), Some(r.minTemp), Some(r.humidity));
  }

  /** Which error a bad line gets: a four-field line whose date field is not a
      date is rejected with `InvalidDateFormat`; one whose date parses but
      whose other fields are not all integers, with `InvalidNumericField`. */
  lemma ParseLineErrors(line: string)
    ensures var parts := Split(Strip(line), ',');
      ParseLine(line) == Rejected(InvalidDateFormat) <==> |parts| == 4 && ParseDate(parts[0]).None?
    ensures var parts := Split(Strip(line), ',');
      ParseLine(line) == Rejected(InvalidNumericField) <==>
        && |parts| == 4 && ParseDate(parts[0]).Some?
        && !(IsIntLiteral(parts[1]) && IsIntLiteral(parts[2]) && IsIntLiteral(parts[3]))
  {
  }

  /** A line read together with its newline parses like the bare text. */
  lemma NewlineIgnored(line: string)
    ensures ParseLine(line + "\n") == ParseLine(line)
  {
    StripTrailingSpace(line, '\n');
  }

  /** A reading written out as a record line, `YYYY-MM-DD,max,min,humidity`. */
  function FormatLine(r: Reading): string
    requires ValidDate(r.date)
  {
    FormatDate(r.date) + "," + FormatInt(r.maxTemp) + "," + FormatInt(r.minTemp) + "," + FormatInt(r.humidity)
  }

  lemma NoCommaInDigits(s: string)
    requires AllDigits(s)
    ensures ',' !in s
  {
    assert forall k :: 0 <= k < |s| ==> s[k] != ',';
  }

  lemma NoCommaInLiteral(s: string)
    requires IsIntLiteral(s)
    ensures ',' !in s
  {
    if AllDigits(s) {
      NoCommaInDigits(s);
    } else {
      NoCommaInDigits(s[1..]);
      assert s == [s[0]] + s[1..];
    }
  }

  lemma NoCommaInInt(n: int)
    ensures ',' !in FormatInt(n)
  {
    var s := FormatInt(n);
    if n < 0 {
      NoCommaInDigits(s[1..]);
      assert s == [s[0]] + s[1..];
    } else {
      NoCommaInDigits(s);
    }
  }

  lemma NoCommaInDate(d: Date)
    requires ValidDate(d)
    ensures ',' !in FormatDate(d)
  {
    var s := FormatDate(d);
    forall k | 0 <= k < |s|
      ensures s[k] != ','
    {
      if k < 4 {
        assert s[k] == s[..4][k];
      } else if 5 <= k < 7 {
        assert s[k] == s[5..7][k - 5];
      } else if 8 <= k {
        assert s[k] == s[8..][k - 8];
      }
    }
  }

  /** Four comma-free fields joined by commas split back into those four fields. */
  lemma SplitFourFields(a: string, b: string, c: string, d: string)
    requires ',' !in a && ',' !in b && ',' !in c && ',' !in d
    ensures Split(a + "," + b + "," + c + "," + d, ',') == [a, b, c, d]
  {
    var parts := [a, b, c, d];
    JoinFour(parts, ',');
    SplitJoin(parts, ',');
  }

  /** A record line has no surrounding whitespace and splits into the four
      formatted fields. */
  lemma FormatLineFields(r: Reading)
    requires ValidDate(r.date)
    ensures Split(Strip(FormatLine(r)), ',')
      == [FormatDate(r.date), FormatInt(r.maxTemp), FormatInt(r.minTemp), FormatInt(r.humidity)]
  {
    var a, b, c, d := FormatDate(r.date), FormatInt(r.maxTemp), FormatInt(r.minTemp), FormatInt(r.humidity);
    var line := FormatLine(r);
    assert line == a + "," + b + "," + c + "," + d;
    assert line[0] == a[0] && IsDigit(a[0]);
    assert line[|line| - 1] == d[|d| - 1];
    assert IsDigit(d[|d| - 1]) by {
      if d[0] == '-' { assert d[|d| - 1] == d[1..][|d| - 2]; }
    }
    StripUnpadded(line);
    NoCommaInDate(r.date);
    NoCommaInInt(r.maxTemp);
    NoCommaInInt(r.minTemp);
    NoCommaInInt(r.humidity);
    SplitFourFields(a, b, c, d);
  }

  /** A record line for a valid reading parses back to exactly that reading. */
  lemma ParseFormatLine(r: Reading)
    requires ValidDate(r.date)
    ensures ParseLine(FormatLine(r)) == Parsed(r)
  {
    FormatLineFields(r);
    ParseFormatDate(r.date);
    ParseFormatInt(r.maxTemp);
    ParseFormatInt(r.minTemp);
    ParseFormatInt(r.humidity);
    FieldsParse(FormatLine(r), FormatDate(r.date), FormatInt(r.maxTemp), FormatInt(r.minTemp), FormatInt(r.humidity), r);
  }

  /** Sequential composition of two parses: the first failure wins, otherwise
      the readings are concatenated. */
  function Then(x: Result<seq<Reading>, WeatherError>, y: Result<seq<Reading>, WeatherError>): Result<seq<Reading>, WeatherError>
  {
    if x.Failure? then x
    else if y.Failure? then y
    else Success(x.value + y.value)
  }

  lemma ThenAssociative(x: Result<seq<Reading>, WeatherError>, y: Result<seq<Reading>, WeatherError>, z: Result<seq<Reading>, WeatherError>)
    ensures Then(x, Then(y, z)) == Then(Then(x, y), z)
  {
    if x.Success? && y.Success? && z.Success? {
      assert x.value + (y.value + z.value) == (x.value + y.value) + z.value;
    }
  }

  lemma ThenUnit(x: Result<seq<Reading>, WeatherError>)
    ensures Then(Success([]), x) == x && Then(x, Success([])) == x
  {
    if x.Success? {
      assert [] + x.value == x.value && x.value + [] == x.value;
    }
  }

  /** What one line adds to the dataset. */
  function Contribution(o: LineOutcome): Result<seq<Reading>, WeatherError> {
    match o
    case Skipped => Success([])
    case Parsed(reading) => Success([reading])
    case Rejected(e) => Failure(e)
  }

  /** The outcomes of a run of lines gathered in order: the first rejected
      line aborts, skipped lines add nothing, parsed lines one reading each. */
  function Collect(os: seq<LineOutcome>): (r: Result<seq<Reading>, WeatherError>)
    ensures r.Success? ==> |r.value| <= |os|
  {
    if |os| == 0 then Success([])
    else Then(Contribution(os[0]), Collect(os[1..]))
  }

  lemma {:induction false} CollectAppend(a: seq<LineOutcome>, b: seq<LineOutcome>)
    ensures Collect(a + b) == Then(Collect(a), Collect(b))
  {
    if |a| == 0 {
      assert a + b == b;
      ThenUnit(Collect(b));
    } else {
      assert (a + b)[0] == a[0] && (a + b)[1..] == a[1..] + b;
      CollectAppend(a[1..], b);
      ThenAssociative(Contribution(a[0]), Collect(a[1..]), Collect(b));
    }
  }

  /** Gathering fails exactly when some outcome is a rejection, and then with
      the error of the first rejection: nothing gathered before it survives. */
  lemma {:induction false} CollectFailure(os: seq<LineOutcome>)
    ensures Collect(os).Failure? <==> exists j :: 0 <= j < |os| && os[j].Rejected?
    ensures Collect(os).Failure? ==>
      exists j :: 0 <= j < |os| && os[j] == Rejected(Collect(os).error) && forall k :: 0 <= k < j ==> !os[k].Rejected?
  {
    if |os| > 0 {
      CollectFailure(os[1..]);
      if os[0].Rejected? {
        assert os[0] == Rejected(Collect(os).error);
      } else {
        if exists j :: 0 <= j < |os| && os[j].Rejected? {
          var j :| 0 <= j < |os| && os[j].Rejected?;
          assert os[1..][j - 1] == os[j];
        }
        if Collect(os).Failure? {
          var j :| 0 <= j < |os[1..]| && os[1..][j] == Rejected(Collect(os).error)
            && forall k :: 0 <= k < j ==> !os[1..][k].Rejected?;
          assert os[j + 1] == Rejected(Collect(os).error);
          forall k | 0 <= k < j + 1
            ensures !os[k].Rejected?
          {
            if k > 0 { assert os[k] == os[1..][k - 1]; }
          }
        }
      }
    }
  }

  /** `f` applied to each element, in order. */
  function MapSeq<A, B>(xs: seq<A>, f: A -> B): (ys: seq<B>)
    ensures |ys| == |xs|
    ensures forall j :: 0 <= j < |xs| ==> ys[j] == f(xs[j])
  {
    seq(|xs|, j requires 0 <= j < |xs| => f(xs[j]))
  }

  lemma MapSeqAppend<A, B>(a: seq<A>, b: seq<A>, f: A -> B)
    ensures MapSeq(a + b, f) == MapSeq(a, f) + MapSeq(b, f)
  {
    var o, oa, ob := MapSeq(a + b, f), MapSeq(a, f), MapSeq(b, f);
    forall j | 0 <= j < |a + b|
      ensures o[j] == (oa + ob)[j]
    {
      if j < |a| {
        assert (a + b)[j] == a[j];
      } else {
        assert (a + b)[j] == b[j - |a|];
      }
    }
  }

  /** The outcome of each line of a file, in line order. */
  function Outcomes(lines: seq<string>): seq<LineOutcome> {
    MapSeq(lines, ParseLine)
  }

  /** The lines of one file, parsed in order. */
  function ParseLines(lines: seq<string>): (r: Result<seq<Reading>, WeatherError>)
    ensures r.Success? ==> |r.value| <= |lines|
  {
    Collect(Outcomes(lines))
  }

  /** Parsing a concatenation of lines is parsing one part, then the other. */
  lemma ParseLinesAppend(a: seq<string>, b: seq<string>)
    ensures ParseLines(a + b) == Then(ParseLines(a), ParseLines(b))
  {
    OutcomesAppend(a, b);
    CollectAppend(Outcomes(a), Outcomes(b));
  }

  lemma OutcomesAppend(a: seq<string>, b: seq<string>)
    ensures Outcomes(a + b) == Outcomes(a) + Outcomes(b)
  {
    MapSeqAppend(a, b, ParseLine);
  }

  /** A file's parse fails exactly when one of its lines is rejected, and then
      with the error of its first rejected line; there is no partial result. */
  lemma ParseLinesFailure(lines: seq<string>)
    ensures ParseLines(lines).Failure? <==> exists j :: 0 <= j < |lines| && ParseLine(lines[j]).Rejected?
    ensures ParseLines(lines).Failure? ==>
      exists j :: 0 <= j < |lines| && ParseLine(lines[j]) == Rejected(ParseLines(lines).error)
        && forall k :: 0 <= k < j ==> !ParseLine(lines[k]).Rejected?
  {
    ParseLinesFailsOnRejection(lines);
    if ParseLines(lines).Failure? {
      ParseLinesFirstRejection(lines);
    }
  }

  /** Parsing fails exactly when some line is rejected. */
  lemma ParseLinesFailsOnRejection(lines: seq<string>)
    ensures ParseLines(lines).Failure? <==> exists j :: 0 <= j < |lines| && ParseLine(lines[j]).Rejected?
  {
    var os := Outcomes(lines);
    CollectFailure(os);
    if exists j :: 0 <= j < |lines| && ParseLine(lines[j]).Rejected? {
      var j :| 0 <= j < |lines| && ParseLine(lines[j]).Rejected?;
      assert os[j] == ParseLine(lines[j]);
    }
    if Collect(os).Failure? {
      var j :| 0 <= j < |os| && os[j] == Rejected(Collect(os).error) && forall k :: 0 <= k < j ==> !os[k].Rejected?;
      assert os[j] == ParseLine(lines[j]);
    }
  }

  /** A failure carries the error of the first rejected line. */
  lemma ParseLinesFirstRejection(lines: seq<string>)
    requires ParseLines(lines).Failure?
    ensures exists j ::
      0 <= j < |lines| && ParseLine(lines[j]) == Rejected(ParseLines(lines).error)
      && forall k :: 0 <= k < j ==> !ParseLine(lines[k]).Rejected?
  {
    var os := Outcomes(lines);
    CollectFailure(os);
    var j :| 0 <= j < |os| && os[j] == Rejected(Collect(os).error) && forall k :: 0 <= k < j ==> !os[k].Rejected?;
    assert os[j] == ParseLine(lines[j]);
    assert forall k :: 0 <= k < j ==> os[k] == ParseLine(lines[k]);
  }

  /** A line without exactly four fields adds nothing and does not stop the
      lines after it from being parsed. */
  lemma SkippedLineIgnored(pre: seq<string>, line: string, post: seq<string>)
    requires |Split(Strip(line), ',')| != 4
    ensures ParseLines(pre + [line] + post) == ParseLines(pre + post)
  {
    ParseLinesAppend(pre + [line], post);
    ParseLinesAppend(pre, [line]);
    ParseLinesAppend(pre, post);
    assert Outcomes([line]) == [Skipped];
    assert Collect([Skipped]) == Then(Success([]), Collect([]));
    ThenUnit(ParseLines(pre));
    ThenUnit(ParseLines(pre + post));
    assert pre + [] == pre;
  }

  /** A well-formed line contributes exactly its reading, between the readings
      of the lines before it and those of the lines after it. */
  lemma ParsedLineKept(pre: seq<string>, line: string, post: seq<string>, r: Reading)
    requires ParseLine(line) == Parsed(r)
    ensures ParseLines(pre + [line] + post) == Then(Then(ParseLines(pre), Success([r])), ParseLines(post))
  {
    ParseLinesAppend(pre + [line], post);
    ParseLinesAppend(pre, [line]);
    assert Outcomes([line]) == [Parsed(r)];
    assert Collect([Parsed(r)]) == Then(Success([r]), Collect([]));
    ThenUnit(Success([r]));
  }

  /** A line whose date or numbers do not parse makes the whole parse fail
      with its error, unless an earlier line already failed. */
  lemma RejectedLineAborts(pre: seq<string>, line: string, post: seq<string>)
    requires ParseLine(line).Rejected?
    requires ParseLines(pre).Success?
    ensures ParseLines(pre + [line] + post) == Failure(ParseLine(line).error)
  {
    ParseLinesAppend(pre + [line], post);
    ParseLinesAppend(pre, [line]);
    assert Outcomes([line]) == [ParseLine(line)];
    assert Collect([ParseLine(line)]) == Then(Failure(ParseLine(line).error), Collect([]));
  }

  function TotalLines(files: seq<TextFile>): nat {
    if |files| == 0 then 0 else |files[0].lines| + TotalLines(files[1..])
  }

  /** What one directory entry adds: nothing unless its name ends in `.txt`. */
  function FileContribution(f: TextFile): Result<seq<Reading>, WeatherError> {
    if EndsWith(f.name, Extension) then ParseLines(f.lines) else Success([])
  }

  /** The directory, in the order it is listed: files not named `*.txt` are
      passed over, the others are parsed in turn and their readings appended. */
  function ParseFiles(files: seq<TextFile>): (r: Result<seq<Reading>, WeatherError>)
    ensures r.Success? ==> |r.value| <= TotalLines(files)
  {
    if |files| == 0 then Success([])
    else Then(FileContribution(files[0]), ParseFiles(files[1..]))
  }

  /** Parsing a directory listed in two parts is parsing one part, then the other. */
  lemma {:induction false} ParseFilesAppend(a: seq<TextFile>, b: seq<TextFile>)
    ensures ParseFiles(a + b) == Then(ParseFiles(a), ParseFiles(b))
  {
    if |a| == 0 {
      assert a + b == b;
      ThenUnit(ParseFiles(b));
    } else {
      assert (a + b)[0] == a[0] && (a + b)[1..] == a[1..] + b;
      ParseFilesAppend(a[1..], b);
      ThenAssociative(FileContribution(a[0]), ParseFiles(a[1..]), ParseFiles(b));
    }
  }

  /** The whole parse fails exactly when some `.txt` file has a rejected line. */
  lemma {:induction false} ParseFilesFailure(files: seq<TextFile>)
    ensures ParseFiles(files).Failure? <==>
      exists i, j :: 0 <= i < |files| && EndsWith(files[i].name, Extension) && 0 <= j < |files[i].lines|
        && ParseLine(files[i].lines[j]).Rejected?
  {
    if |files| > 0 {
      ParseFilesFailure(files[1..]);
      ParseLinesFailure(files[0].lines);
      if exists i, j :: 0 <= i < |files| && EndsWith(files[i].name, Extension) && 0 <= j < |files[i].lines|
                          && ParseLine(files[i].lines[j]).Rejected?
      {
        var i, j :| 0 <= i < |files| && EndsWith(files[i].name, Extension) && 0 <= j < |files[i].lines|
          && ParseLine(files[i].lines[j]).Rejected?;
        if i > 0 {
          assert files[1..][i - 1] == files[i];
        }
      }
      if ParseFiles(files[1..]).Failure? {
        var i, j :| 0 <= i < |files[1..]| && EndsWith(files[1..][i].name, Extension) && 0 <= j < |files[1..][i].lines|
          && ParseLine(files[1..][i].lines[j]).Rejected?;
        assert files[i + 1] == files[1..][i];
      }
    }
  }

  /** A file whose name does not end in `.txt` contributes nothing. */
  lemma NonTextFileIgnored(pre: seq<TextFile>, f: TextFile, post: seq<TextFile>)
    requires !EndsWith(f.name, Extension)
    ensures ParseFiles(pre + [f] + post) == ParseFiles(pre + post)
  {
    ParseFilesAppend(pre + [f], post);
    ParseFilesAppend(pre, [f]);
    ParseFilesAppend(pre, post);
    assert ParseFiles([f]) == Then(Success([]), ParseFiles([])) by {
      assert [f][1..] == [];
    }
    ThenUnit(ParseFiles(pre));
    ThenUnit(ParseFiles(pre + post));
    assert pre + [] == pre;
  }

  /** A `.txt` file contributes the readings of its lines, after those of the
      files listed before it and before those of the files listed after it. */
  lemma TextFileContributes(pre: seq<TextFile>, f: TextFile, post: seq<TextFile>)
    requires EndsWith(f.name, Extension)
    ensures ParseFiles(pre + [f] + post) == Then(Then(ParseFiles(pre), ParseLines(f.lines)), ParseFiles(post))
  {
    ParseFilesAppend(pre + [f], post);
    ParseFilesAppend(pre, [f]);
    assert ParseFiles([f]) == Then(ParseLines(f.lines), Success([])) by {
      assert [f][1..] == [];
    }
    ThenUnit(ParseLines(f.lines));
  }
}
