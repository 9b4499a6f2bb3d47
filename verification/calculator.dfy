/** `WeatherCalculator`: the extremes of a year and the averages of a month,
    both computed over the readings of the period in dataset order. */
module Calculator {
  import opened Wrappers
  import opened Readings

  /** Python's `max(xs, key=...)` as a left-to-right scan that replaces its
      candidate only on a strictly larger key: the position of the first
      reading whose field is largest. */
  function ArgMax(xs: seq<Reading>, f: Field): (i: nat)
    requires |xs| > 0
    ensures i < |xs|
    ensures forall j :: 0 <= j < |xs| ==> xs[j].Get(f) <= xs[i].Get(f)
    ensures forall j :: 0 <= j < i ==> xs[j].Get(f) < xs[i].Get(f)
  {
    if |xs| == 1 then 0
    else
      var k := ArgMax(xs[..|xs| - 1], f);
      if xs[|xs| - 1].Get(f) > xs[k].Get(f) then |xs| - 1 else k
  }

  /** Python's `min(xs, key=...)`: the position of the first reading whose
      field is smallest. */
  function ArgMin(xs: seq<Reading>, f: Field): (i: nat)
    requires |xs| > 0
    ensures i < |xs|
    ensures forall j :: 0 <= j < |xs| ==> xs[i].Get(f) <= xs[j].Get(f)
    ensures forall j :: 0 <= j < i ==> xs[i].Get(f) < xs[j].Get(f)
  {
    if |xs| == 1 then 0
    else
      var k := ArgMin(xs[..|xs| - 1], f);
      if xs[|xs| - 1].Get(f) < xs[k].Get(f) then |xs| - 1 else k
  }

  /** `x` is the reading of period `p` that `max(..., key=f)` picks out of the
      dataset `rs`: it lies in the period, no reading of the period has a
      larger field, and every reading of the period before it has a smaller one. */
  predicate IsFirstMax(rs: seq<Reading>, p: Period, f: Field, x: Reading) {
    exists i :: 0 <= i < |rs| && rs[i] == x && p.Contains(x.date)
      && (forall j :: 0 <= j < |rs| && p.Contains(rs[j].date) ==> rs[j].Get(f) <= x.Get(f))
      && (forall j :: 0 <= j < i && p.Contains(rs[j].date) ==> rs[j].Get(f) < x.Get(f))
  }

  /** The same for `min(..., key=f)`. */
  predicate IsFirstMin(rs: seq<Reading>, p: Period, f: Field, x: Reading) {
    exists i :: 0 <= i < |rs| && rs[i] == x && p.Contains(x.date)
      && (forall j :: 0 <= j < |rs| && p.Contains(rs[j].date) ==> x.Get(f) <= rs[j].Get(f))
      && (forall j :: 0 <= j < i && p.Contains(rs[j].date) ==> x.Get(f) < rs[j].Get(f))
  }

  /** The arg-max of the selected readings is the first maximal reading of
      the period in the whole dataset. */
  lemma SelectedArgMax(rs: seq<Reading>, p: Period, f: Field)
    requires |Select(rs, p)| > 0
    ensures IsFirstMax(rs, p, f, Select(rs, p)[ArgMax(Select(rs, p), f)])
  {
    var sel, idx := Select(rs, p), MatchingPositions(rs, p);
    SelectPositions(rs, p);
    MatchingPositionsSpec(rs, p);
    var m := ArgMax(sel, f);
    var x := sel[m];
    var i := idx[m];
    forall j | 0 <= j < |rs| && p.Contains(rs[j].date)
      ensures rs[j].Get(f) <= x.Get(f)
    {
      assert j in idx;
      var k :| 0 <= k < |idx| && idx[k] == j;
      assert sel[k] == rs[j];
    }
    forall j | 0 <= j < i && p.Contains(rs[j].date)
      ensures rs[j].Get(f) < x.Get(f)
    {
      EarlierMatches(rs, p, m, j);
      var k :| 0 <= k < m && idx[k] == j;
      assert sel[k] == rs[j];
    }
    assert rs[i] == x;
  }

  /** The arg-min of the selected readings is the first minimal reading of
      the period in the whole dataset. */
  lemma SelectedArgMin(rs: seq<Reading>, p: Period, f: Field)
    requires |Select(rs, p)| > 0
    ensures IsFirstMin(rs, p, f, Select(rs, p)[ArgMin(Select(rs, p), f)])
  {
    var sel, idx := Select(rs, p), MatchingPositions(rs, p);
    SelectPositions(rs, p);
    MatchingPositionsSpec(rs, p);
    var m := ArgMin(sel, f);
    var x := sel[m];
    var i := idx[m];
    forall j | 0 <= j < |rs| && p.Contains(rs[j].date)
      ensures x.Get(f) <= rs[j].Get(f)
    {
      assert j in idx;
      var k :| 0 <= k < |idx| && idx[k] == j;
      assert sel[k] == rs[j];
    }
    forall j | 0 <= j < i && p.Contains(rs[j].date)
      ensures x.Get(f) < rs[j].Get(f)
    {
      EarlierMatches(rs, p, m, j);
      var k :| 0 <= k < m && idx[k] == j;
      assert sel[k] == rs[j];
    }
    assert rs[i] == x;
  }

  /** The first-maximum description leaves no choice: at most one reading meets it. */
  lemma FirstMaxUnique(rs: seq<Reading>, p: Period, f: Field, x: Reading, y: Reading)
    requires IsFirstMax(rs, p, f, x) && IsFirstMax(rs, p, f, y)
    ensures x == y
  {
    var i :| 0 <= i < |rs| && rs[i] == x && p.Contains(x.date)
      && (forall j :: 0 <= j < |rs| && p.Contains(rs[j].date) ==> rs[j].Get(f) <= x.Get(f))
      && (forall j :: 0 <= j < i && p.Contains(rs[j].date) ==> rs[j].Get(f) < x.Get(f));
    var i' :| 0 <= i' < |rs| && rs[i'] == y && p.Contains(y.date)
      && (forall j :: 0 <= j < |rs| && p.Contains(rs[j].date) ==> rs[j].Get(f) <= y.Get(f))
      && (forall j :: 0 <= j < i' && p.Contains(rs[j].date) ==> rs[j].Get(f) < y.Get(f));
    assert i == i';
  }

  /** The first-minimum description leaves no choice: at most one reading meets it. */
  lemma FirstMinUnique(rs: seq<Reading>, p: Period, f: Field, x: Reading, y: Reading)
    requires IsFirstMin(rs, p, f, x) && IsFirstMin(rs, p, f, y)
    ensures x == y
  {
    var i :| 0 <= i < |rs| && rs[i] == x && p.Contains(x.date)
      && (forall j :: 0 <= j < |rs| && p.Contains(rs[j].date) ==> x.Get(f) <= rs[j].Get(f))
      && (forall j :: 0 <= j < i && p.Contains(rs[j].date) ==> x.Get(f) < rs[j].Get(f));
    var i' :| 0 <= i' < |rs| && rs[i'] == y && p.Contains(y.date)
      && (forall j :: 0 <= j < |rs| && p.Contains(rs[j].date) ==> y.Get(f) <= rs[j].Get(f))
      && (forall j :: 0 <= j < i' && p.Contains(rs[j].date) ==> y.Get(f) < rs[j].Get(f));
    assert i == i';
  }

  /** No reading of the dataset lies in the period. */
  predicate NoneIn(rs: seq<Reading>, p: Period) {
    forall i :: 0 <= i < |rs| ==> !p.Contains(rs[i].date)
  }

  lemma SelectEmpty(rs: seq<Reading>, p: Period)
    ensures |Select(rs, p)| == 0 <==> NoneIn(rs, p)
  {
    var idx := MatchingPositions(rs, p);
    SelectPositions(rs, p);
    MatchingPositionsSpec(rs, p);
    if |idx| > 0 {
      assert idx[0] in idx;
    }
  }

  datatype Extremes = Extremes(highest: Reading, lowest: Reading, humid: Reading)

  /** `yearly_extremes`: the year's hottest day by maximum temperature, coldest
      by minimum temperature and most humid, each the first such reading in
      dataset order; a year without readings is an error, as `max` of an
      empty sequence is. */
  function YearlyExtremes(readings: seq<Reading>, year: int): (r: Result<Extremes, WeatherError>)
    ensures r.Failure? <==> NoneIn(readings, Year(year))
    ensures r.Failure? ==> r.error == EmptyResultSet
    ensures r.Success? ==>
      && IsFirstMax(readings, Year(year), MaxTemp, r.value.highest)
      && IsFirstMin(readings, Year(year), MinTemp, r.value.lowest)
      && IsFirstMax(readings, Year(year), Humidity, r.value.humid)
  {
    var yearData := Select(readings, Year(year));
    SelectEmpty(readings, Year(year));
    if |yearData| == 0 then Failure(EmptyResultSet)
    else
      SelectedArgMax(readings, Year(year), MaxTemp);
      SelectedArgMin(readings, Year(year), MinTemp);
      SelectedArgMax(readings, Year(year), Humidity);
      Success(Extremes(
        yearData[ArgMax(yearData, MaxTemp)],
        yearData[ArgMin(yearData, MinTemp)],
        yearData[ArgMax(yearData, Humidity)]))
  }

  /** Python's `sum(r.field for r in xs)`. */
  function Sum(xs: seq<Reading>, f: Field): int {
    if |xs| == 0 then 0 else Sum(xs[..|xs| - 1], f) + xs[|xs| - 1].Get(f)
  }

  /** The sum of a concatenation is the sum of the sums. */
  lemma {:induction false} SumAppend(xs: seq<Reading>, ys: seq<Reading>, f: Field)
    ensures Sum(xs + ys, f) == Sum(xs, f) + Sum(ys, f)
  {
    if |ys| > 0 {
      SumAppend(xs, ys[..|ys| - 1], f);
      assert (xs + ys)[..|xs + ys| - 1] == xs + ys[..|ys| - 1];
    } else {
      assert xs + ys == xs;
    }
  }

  /** `a` is `Sum(xs, f) // |xs|`, described without division: the largest
      integer whose multiple by the count does not exceed the sum. */
  predicate IsFloorMean(xs: seq<Reading>, f: Field, a: int) {
    |xs| > 0 && |xs| * a <= Sum(xs, f) < |xs| * (a + 1)
  }

  /** Python's floor division by a positive count. */
  function FloorMean(xs: seq<Reading>, f: Field): (a: int)
    requires |xs| > 0
    ensures IsFloorMean(xs, f, a)
  {
    var n, s := |xs|, Sum(xs, f);
    var a := s / n;
    assert s == n * a + s % n;
    assert n * (a + 1) == n * a + n;
    a
  }

  datatype Averages = Averages(high: int, low: int, humidity: int)

  /** `monthly_averages`: the floor of the mean of each field over the
      readings of the month; a month without readings is an error rather
      than `(0, 0, 0)`. */
  function MonthlyAverages(readings: seq<Reading>, year: int, month: int): (r: Result<Averages, WeatherError>)
    ensures r.Failure? <==> NoneIn(readings, Month(year, month))
    ensures r.Failure? ==> r.error == EmptyResultSet
    ensures r.Success? ==>
      && IsFloorMean(Select(readings, Month(year, month)), MaxTemp, r.value.high)
      && IsFloorMean(Select(readings, Month(year, month)), MinTemp, r.value.low)
      && IsFloorMean(Select(readings, Month(year, month)), Humidity, r.value.humidity)
  {
    var data := Select(readings, Month(year, month));
    SelectEmpty(readings, Month(year, month));
    if |data| == 0 then Failure(EmptyResultSet)
    else Success(Averages(FloorMean(data, MaxTemp), FloorMean(data, MinTemp), FloorMean(data, Humidity)))
  }

  /** A sum of `|xs|` values each between `lo` and `hi` is between `|xs| * lo` and `|xs| * hi`. */
  lemma {:induction false} SumBounds(xs: seq<Reading>, f: Field, lo: int, hi: int)
    requires forall j :: 0 <= j < |xs| ==> lo <= xs[j].Get(f) <= hi
    ensures |xs| * lo <= Sum(xs, f) <= |xs| * hi
  {
    if |xs| > 0 {
      var pre := xs[..|xs| - 1];
      assert forall j :: 0 <= j < |pre| ==> pre[j] == xs[j];
      SumBounds(pre, f, lo, hi);
      assert |xs| * lo == |pre| * lo + lo;
      assert |xs| * hi == |pre| * hi + hi;
    }
  }

  /** Multiplying both sides of `<` by the same positive count keeps it `<`, and only then. */
  lemma MulCancelLess(n: int, x: int, y: int)
    requires n > 0 && n * x < n * y
    ensures x < y
  {
    assert n * (y - x) == n * y - n * x;
  }

  /** If `a` is the floor of `s / n` and `s` lies between `n * lo` and `n * hi`,
      then `a` lies between `lo` and `hi`. */
  lemma FloorBetween(n: int, s: int, a: int, lo: int, hi: int)
    requires n > 0 && n * a <= s < n * (a + 1)
    requires n * lo <= s <= n * hi
    ensures lo <= a <= hi
  {
    MulCancelLess(n, lo, a + 1);
    assert n * (hi + 1) == n * hi + n;
    MulCancelLess(n, a, hi + 1);
  }

  /** A floor mean lies between the smallest and the largest value averaged. */
  lemma FloorMeanInRange(xs: seq<Reading>, f: Field, a: int)
    requires IsFloorMean(xs, f, a)
    ensures xs[ArgMin(xs, f)].Get(f) <= a <= xs[ArgMax(xs, f)].Get(f)
  {
    var lo, hi := xs[ArgMin(xs, f)].Get(f), xs[ArgMax(xs, f)].Get(f);
    SumBounds(xs, f, lo, hi);
    FloorBetween(|xs|, Sum(xs, f), a, lo, hi);
  }

  /** Each monthly average lies between the least and the greatest value of
      its field among the month's readings. */
  lemma AveragesInRange(readings: seq<Reading>, year: int, month: int)
    requires MonthlyAverages(readings, year, month).Success?
    ensures var data, avg := Select(readings, Month(year, month)), MonthlyAverages(readings, year, month).value;
      && data[ArgMin(data, MaxTemp)].maxTemp <= avg.high <= data[ArgMax(data, MaxTemp)].maxTemp
      && data[ArgMin(data, MinTemp)].minTemp <= avg.low <= data[ArgMax(data, MinTemp)].minTemp
      && data[ArgMin(data, Humidity)].humidity <= avg.humidity <= data[ArgMax(data, Humidity)].humidity
  {
    var data, avg := Select(readings, Month(year, month)), MonthlyAverages(readings, year, month).value;
    FloorMeanInRange(data, MaxTemp, avg.high);
    FloorMeanInRange(data, MinTemp, avg.low);
    FloorMeanInRange(data, Humidity, avg.humidity);
  }
}
