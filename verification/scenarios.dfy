/** Worked examples of the pipeline on small datasets: one file of two
    January 2023 records, a tie in maximum temperature, and the floor
    division of the averages. */
module Scenarios {
  import opened Wrappers
  import opened Text
  import opened Numerals
  import opened Dates
  import opened Readings
  import opened Parser
  import opened Calculator

  const Jan15 := Reading(Date(2023, 1, 15), 30, 18, 65)
  const Jan20 := Reading(Date(2023, 1, 20), 28, 15, 70)

  /** The date field of the record line of 15 January 2023. */
  lemma RecordDate()
    ensures ParseDate("2023-01-15") == Some(Date(2023, 1, 15))
  {
    var s := "2023-01-15";
    assert s[..4] == "2023";
    assert s[5..7] == "01";
    assert s[8..] == "15";
    YearDigits();
    assert DigitsValue("01") == 1 by {
      assert "01"[..1] == "0" && "0"[..0] == "";
    }
    assert DigitsValue("15") == 15 by {
      assert "15"[..1] == "1" && "1"[..0] == "";
    }
    assert DateShaped(s);
  }

  /** The year field `2023` reads as 2023. */
  lemma YearDigits()
    ensures DigitsValue("2023") == 2023
  {
    assert "2023"[..3] == "202" && "202"[..2] == "20" && "20"[..1] == "2" && "2"[..0] == "";
  }

  /** 29 February 2023 has the right shape but does not exist. */
  lemma NoLeapDayIn2023()
    ensures ParseDate("2023-02-29") == None
  {
    var s := "2023-02-29";
    assert s[..4] == "2023";
    assert s[5..7] == "02";
    assert s[8..] == "29";
    YearDigits();
    assert DigitsValue("02") == 2 by {
      assert "02"[..1] == "0" && "0"[..0] == "";
    }
    assert DigitsValue("29") == 29 by {
      assert "29"[..1] == "2" && "2"[..0] == "";
    }
    assert !IsLeapYear(2023);
  }

  /** The year's extremes of the two-record file: the 30 degree day is the
      hottest, the 15 degree night the coldest, the 70% day the most humid. */
  lemma ExtremesOfJanuary()
    ensures YearlyExtremes([Jan15, Jan20], 2023).Success?
    ensures YearlyExtremes([Jan15, Jan20], 2023).value.highest == Jan15
    ensures YearlyExtremes([Jan15, Jan20], 2023).value.lowest == Jan20
    ensures YearlyExtremes([Jan15, Jan20], 2023).value.humid == Jan20
  {
    HottestOfJanuary();
    ColdestOfJanuary();
    MostHumidOfJanuary();
  }

  lemma HottestOfJanuary()
    ensures YearlyExtremes([Jan15, Jan20], 2023).Success?
    ensures YearlyExtremes([Jan15, Jan20], 2023).value.highest == Jan15
  {
    var data, p := [Jan15, Jan20], Year(2023);
    assert !NoneIn(data, p) by {
      assert p.Contains(data[0].date);
    }
    assert IsFirstMax(data, p, MaxTemp, Jan15) by {
      assert data[0] == Jan15;
    }
    FirstMaxUnique(data, p, MaxTemp, YearlyExtremes(data, 2023).value.highest, Jan15);
  }

  lemma ColdestOfJanuary()
    ensures YearlyExtremes([Jan15, Jan20], 2023).Success?
    ensures YearlyExtremes([Jan15, Jan20], 2023).value.lowest == Jan20
  {
    var data, p := [Jan15, Jan20], Year(2023);
    assert !NoneIn(data, p) by {
      assert p.Contains(data[0].date);
    }
    assert IsFirstMin(data, p, MinTemp, Jan20) by {
      assert data[1] == Jan20 && data[0].minTemp > Jan20.minTemp;
    }
    FirstMinUnique(data, p, MinTemp, YearlyExtremes(data, 2023).value.lowest, Jan20);
  }

  lemma MostHumidOfJanuary()
    ensures YearlyExtremes([Jan15, Jan20], 2023).Success?
    ensures YearlyExtremes([Jan15, Jan20], 2023).value.humid == Jan20
  {
    var data, p := [Jan15, Jan20], Year(2023);
    assert !NoneIn(data, p) by {
      assert p.Contains(data[0].date);
    }
    assert IsFirstMax(data, p, Humidity, Jan20) by {
      assert data[1] == Jan20 && data[0].humidity < Jan20.humidity;
    }
    FirstMaxUnique(data, p, Humidity, YearlyExtremes(data, 2023).value.humid, Jan20);
  }

  /** A year without records has no extremes. */
  lemma NoExtremesForOtherYear()
    ensures YearlyExtremes([Jan15, Jan20], 2022) == Failure(EmptyResultSet)
  {
    assert [Jan15, Jan20][..1] == [Jan15];
    assert [Jan15][..0] == [];
    assert Select([], Year(2022)) == [];
    assert Select([Jan15], Year(2022)) == [];
    assert Select([Jan15, Jan20], Year(2022)) == [];
  }

  /** The month's averages of the two-record file are (58 // 2, 33 // 2, 135 // 2). */
  lemma AveragesOfJanuary()
    ensures MonthlyAverages([Jan15, Jan20], 2023, 1) == Success(Averages(29, 16, 67))
    ensures MonthlyAverages([Jan15, Jan20], 2023, 2) == Failure(EmptyResultSet)
  {
    var data := [Jan15, Jan20];
    var p := Month(2023, 1);
    assert data[..1] == [Jan15];
    assert [Jan15][..0] == [];
    assert Select([], p) == [];
    assert Select([Jan15], p) == [Jan15];
    assert Select(data, p) == data;
    assert Sum([], MaxTemp) == 0;
    assert Sum([Jan15], MaxTemp) == 30;
    assert Sum([], MinTemp) == 0;
    assert Sum([Jan15], MinTemp) == 18;
    assert Sum([], Humidity) == 0;
    assert Sum([Jan15], Humidity) == 65;
    assert Sum(data, MaxTemp) == 58;
    assert Sum(data, MinTemp) == 33;
    assert Sum(data, Humidity) == 135;
  }

  /** Two readings tie on the highest maximum temperature: the earlier one is reported. */
  lemma TieGoesToEarlier()
    ensures var a, b := Reading(Date(2023, 3, 1), 25, 10, 40), Reading(Date(2023, 3, 2), 25, 12, 50);
      YearlyExtremes([a, b], 2023).Success? && YearlyExtremes([a, b], 2023).value.highest == a
  {
    var a, b := Reading(Date(2023, 3, 1), 25, 10, 40), Reading(Date(2023, 3, 2), 25, 12, 50);
    var data, p := [a, b], Year(2023);
    assert !NoneIn(data, p) by {
      assert p.Contains(data[0].date);
    }
    assert IsFirstMax(data, p, MaxTemp, a) by {
      assert data[0] == a;
    }
    FirstMaxUnique(data, p, MaxTemp, YearlyExtremes(data, 2023).value.highest, a);
  }

  /** Averages round down: maxima 10 and 11 average to 10, and minima -1 and -2
      average to -2 (floor division, not truncation toward zero). */
  lemma AveragesRoundDown()
    ensures var a, b := Reading(Date(2023, 3, 1), 10, -1, 40), Reading(Date(2023, 3, 2), 11, -2, 50);
      MonthlyAverages([a, b], 2023, 3) == Success(Averages(10, -2, 45))
  {
    var a, b := Reading(Date(2023, 3, 1), 10, -1, 40), Reading(Date(2023, 3, 2), 11, -2, 50);
    assert [a, b][..1] == [a];
    assert [a][..0] == [];
    assert Select([], Month(2023, 3)) == [];
    assert Select([a], Month(2023, 3)) == [a];
    assert Select([a, b], Month(2023, 3)) == [a, b];
    assert Sum([], MaxTemp) == 0 && Sum([a], MaxTemp) == 10 && Sum([a, b], MaxTemp) == 21;
    assert Sum([], MinTemp) == 0 && Sum([a], MinTemp) == -1 && Sum([a, b], MinTemp) == -3;
    assert Sum([], Humidity) == 0 && Sum([a], Humidity) == 40 && Sum([a, b], Humidity) == 90;
  }

  /** The record line of 15 January 2023 is `2023-01-15,30,18,65`. */
  lemma RecordLineOfJan15()
    ensures ValidDate(Jan15.date)
    ensures FormatLine(Jan15) == "2023-01-15,30,18,65"
  {
    RecordDateSpelling();
    FieldSpelling(30, '3', '0');
    FieldSpelling(18, '1', '8');
    FieldSpelling(65, '6', '5');
    LineSpelling(Jan15, "2023-01-15", "30", "18", "65");
    LineTexts();
  }

  /** The record line of 20 January 2023 is `2023-01-20,28,15,70`. */
  lemma RecordLineOfJan20()
    ensures ValidDate(Jan20.date)
    ensures FormatLine(Jan20) == "2023-01-20,28,15,70"
  {
    RecordDateSpelling();
    FieldSpelling(28, '2', '8');
    FieldSpelling(15, '1', '5');
    FieldSpelling(70, '7', '0');
    LineSpelling(Jan20, "2023-01-20", "28", "15", "70");
    LineTexts();
  }

  /** The two record lines, put together from their fields. */
  lemma LineTexts()
    ensures "2023-01-15" + "," + "30" + "," + "18" + "," + "65" == "2023-01-15,30,18,65"
    ensures "2023-01-20" + "," + "28" + "," + "15" + "," + "70" == "2023-01-20,28,15,70"
  {
  }

  /** A record line is its date and three fields, comma-separated. */
  lemma LineSpelling(r: Reading, d: string, a: string, b: string, c: string)
    requires ValidDate(r.date) && FormatDate(r.date) == d
    requires FormatInt(r.maxTemp) == a && FormatInt(r.minTemp) == b && FormatInt(r.humidity) == c
    ensures FormatLine(r) == d + "," + a + "," + b + "," + c
  {
  }

  lemma FieldSpelling(n: nat, hi: char, lo: char)
    requires 10 <= n < 100 && hi == DigitChar(n / 10) && lo == DigitChar(n % 10)
    ensures FormatInt(n) == [hi, lo]
  {
    TwoDigitSpelling(n);
  }

  lemma TwoDigitSpelling(n: nat)
    requires 10 <= n < 100
    ensures FormatInt(n) == [DigitChar(n / 10), DigitChar(n % 10)]
  {
    assert FormatNat(n / 10) == [DigitChar(n / 10)];
  }

  lemma RecordDateSpelling()
    ensures FormatDate(Date(2023, 1, 15)) == "2023-01-15"
    ensures FormatDate(Date(2023, 1, 20)) == "2023-01-20"
  {
    TwoDigitSpelling(15);
    JanuaryDateSpelling(15, "15");
    TwoDigitSpelling(20);
    JanuaryDateSpelling(20, "20");
  }

  /** A January 2023 date whose day has two digits is spelled `2023-01-` then the day. */
  lemma JanuaryDateSpelling(day: nat, dd: string)
    requires 10 <= day <= 31 && FormatInt(day) == dd
    ensures FormatDate(Date(2023, 1, day)) == "2023-01-" + dd
  {
    YearSpelling();
    assert PadTo(FormatNat(1), 2) == "01" by {
      assert FormatNat(1) == "1";
      assert Zeros(1) == "0";
    }
    assert |FormatNat(day)| == 2;
  }

  lemma YearSpelling()
    ensures PadTo(FormatNat(2023), 4) == "2023"
  {
    assert FormatNat(2) == "2";
    assert FormatNat(20) == FormatNat(2) + "0";
    assert FormatNat(202) == FormatNat(20) + "2";
    assert FormatNat(2023) == FormatNat(202) + "3";
  }

  /** A directory holding one file, `jan.txt`, whose two lines are the
      record lines of 15 and 20 January 2023 (`RecordLineOfJan15`,
      `RecordLineOfJan20`), each read with its newline. */
  const JanuaryDirectory := [TextFile("jan.txt", [FormatLine(Jan15) + "\n", FormatLine(Jan20) + "\n"])]

  /** The file of the two January records parses to those two readings, in line order. */
  lemma JanuaryFileParses()
    ensures ParseFiles(JanuaryDirectory) == Success([Jan15, Jan20])
  {
    assert EndsWith("jan.txt", Extension) by {
      assert "jan.txt"[3..] == ".txt";
    }
    TwoLineFile("jan.txt", Jan15, Jan20);
  }

  /** A `.txt` file of the record lines of two readings, each read with its
      newline, parses to the two readings in line order. */
  lemma TwoLineFile(name: string, r1: Reading, r2: Reading)
    requires EndsWith(name, Extension) && ValidDate(r1.date) && ValidDate(r2.date)
    ensures ParseFiles([TextFile(name, [FormatLine(r1) + "\n", FormatLine(r2) + "\n"])]) == Success([r1, r2])
  {
    var l1, l2 := FormatLine(r1) + "\n", FormatLine(r2) + "\n";
    ParseFormatLine(r1);
    NewlineIgnored(FormatLine(r1));
    ParseFormatLine(r2);
    NewlineIgnored(FormatLine(r2));
    TwoParsedLines(l1, l2, r1, r2);
    OneTextFile(TextFile(name, [l1, l2]));
  }

  lemma TwoParsedLines(l1: string, l2: string, r1: Reading, r2: Reading)
    requires ParseLine(l1) == Parsed(r1) && ParseLine(l2) == Parsed(r2)
    ensures ParseLines([l1, l2]) == Success([r1, r2])
  {
    OneParsedLine(l1, r1);
    OneParsedLine(l2, r2);
    ParseLinesAppend([l1], [l2]);
    assert [l1] + [l2] == [l1, l2];
    assert [r1] + [r2] == [r1, r2];
  }

  lemma OneParsedLine(l: string, r: Reading)
    requires ParseLine(l) == Parsed(r)
    ensures ParseLines([l]) == Success([r])
  {
    assert Outcomes([l]) == [Parsed(r)];
    assert Collect([Parsed(r)]) == Then(Success([r]), Collect([]));
    assert Collect([]) == Success([]);
    assert [r] + [] == [r];
  }

  lemma OneTextFile(f: TextFile)
    requires EndsWith(f.name, Extension)
    ensures ParseFiles([f]) == ParseLines(f.lines)
  {
    TextFileContributes([], f, []);
    assert [] + [f] + [] == [f];
    ThenUnit(ParseLines(f.lines));
  }

  /** The queries over the parsed file give the extremes and averages of the
      two January records. */
  lemma JanuaryFileQueries()
    ensures ParseFiles(JanuaryDirectory).Success?
    ensures YearlyExtremes(ParseFiles(JanuaryDirectory).value, 2023) == Success(Extremes(Jan15, Jan20, Jan20))
    ensures MonthlyAverages(ParseFiles(JanuaryDirectory).value, 2023, 1) == Success(Averages(29, 16, 67))
  {
    JanuaryFileParses();
    ExtremesOfJanuary();
    AveragesOfJanuary();
  }
}
