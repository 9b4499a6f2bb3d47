/** `WeatherChart.draw`: which readings get a pair of bars. The bars
    themselves (colours, `+` glyphs) are presentation and not modelled. */
module Chart {
  import opened Readings

  /** The scan in `draw`: walk the dataset in order and keep each reading of
      the given month of the given year. */
  method ChartReadings(readings: seq<Reading>, year: int, month: int) returns (rows: seq<Reading>)
    ensures rows == Select(readings, Month(year, month))
    ensures forall r :: r in rows <==> r in readings && r.date.year == year && r.date.month == month
  {
    rows := [];
    var i := 0;
    while i < |readings|
      invariant 0 <= i <= |readings|
      invariant rows == Select(readings[..i], Month(year, month))
    {
      assert readings[..i + 1] == readings[..i] + [readings[i]];
      SelectAppend(readings[..i], [readings[i]], Month(year, month));
      assert [readings[i]][..0] == [];
      if readings[i].date.year == year && readings[i].date.month == month {
        rows := rows + [readings[i]];
      }
      i := i + 1;
    }
    assert readings[..i] == readings;
    forall r: Reading
      ensures r in rows <==> r in readings && r.date.year == year && r.date.month == month
    {
      SelectMembership(readings, Month(year, month), r);
    }
  }
}
