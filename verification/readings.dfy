/** The dataset: daily readings, the fields queries rank by, and the
    year / year-month selections every query starts from. */
module Readings {
  import opened Dates

  /** One day's observation: `WeatherReading` with its four fields. */
  datatype Reading = Reading(date: Date, maxTemp: int, minTemp: int, humidity: int) {

    /** The value of one measured field, as a `key=lambda x: x.field` reads it. */
    function Get(f: Field): int {
      match f
      case MaxTemp => maxTemp
      case MinTemp => minTemp
      case Humidity => humidity
    }
  }

  datatype Field = MaxTemp | MinTemp | Humidity

  /** The failures the pipeline reports: a date field that is not a date, a
      numeric field that is not an integer, and a query over a period with
      no readings. */
  datatype WeatherError = InvalidDateFormat | InvalidNumericField | EmptyResultSet

  /** The period a query is about: a whole year, or one month of one year. */
  datatype Period = Year(year: int) | Month(year: int, month: int) {

    predicate Contains(d: Date) {
      match this
      case Year(y) => d.year == y
      case Month(y, m) => d.year == y && d.month == m
    }
  }

  predicate StrictlyIncreasing(idx: seq<nat>) {
    forall a, b :: 0 <= a < b < |idx| ==> idx[a] < idx[b]
  }

  /** The positions of the readings that fall in `p`, each within the dataset. */
  function MatchingPositions(rs: seq<Reading>, p: Period): (idx: seq<nat>)
    ensures forall k :: 0 <= k < |idx| ==> idx[k] < |rs|
  {
    if |rs| == 0 then []
    else
      var pre := MatchingPositions(rs[..|rs| - 1], p);
      if p.Contains(rs[|rs| - 1].date) then pre + [|rs| - 1] else pre
  }

  /** The matching positions are increasing, and a position is among them
      exactly when its reading lies in the period. */
  lemma {:induction false} MatchingPositionsSpec(rs: seq<Reading>, p: Period)
    ensures StrictlyIncreasing(MatchingPositions(rs, p))
    ensures forall i :: 0 <= i < |rs| ==> (i in MatchingPositions(rs, p) <==> p.Contains(rs[i].date))
  {
    if |rs| > 0 {
      var rs' := rs[..|rs| - 1];
      MatchingPositionsSpec(rs', p);
      assert forall i :: 0 <= i < |rs'| ==> rs'[i] == rs[i];
    }
  }

  /** The list comprehension `[r for r in readings if <r in p>]`: the readings
      of the period, in dataset order, and nothing else. */
  function Select(rs: seq<Reading>, p: Period): (sel: seq<Reading>)
    ensures |sel| <= |rs|
  {
    if |rs| == 0 then []
    else
      var pre := Select(rs[..|rs| - 1], p);
      if p.Contains(rs[|rs| - 1].date) then pre + [rs[|rs| - 1]] else pre
  }

  /** The `k`-th selected reading is the reading at the `k`-th matching position. */
  lemma {:induction false} SelectPositions(rs: seq<Reading>, p: Period)
    ensures |Select(rs, p)| == |MatchingPositions(rs, p)|
    ensures forall k :: 0 <= k < |Select(rs, p)| ==> Select(rs, p)[k] == rs[MatchingPositions(rs, p)[k]]
  {
    if |rs| > 0 {
      var rs' := rs[..|rs| - 1];
      SelectPositions(rs', p);
      var idx' := MatchingPositions(rs', p);
      assert forall k :: 0 <= k < |idx'| ==> rs'[idx'[k]] == rs[idx'[k]];
    }
  }

  /** A reading is selected exactly when it occurs in the dataset and lies in the period. */
  lemma SelectMembership(rs: seq<Reading>, p: Period, r: Reading)
    ensures r in Select(rs, p) <==> r in rs && p.Contains(r.date)
  {
    var sel := Select(rs, p);
    var idx := MatchingPositions(rs, p);
    SelectPositions(rs, p);
    MatchingPositionsSpec(rs, p);
    if r in sel {
      var k :| 0 <= k < |sel| && sel[k] == r;
      assert idx[k] in idx;
    }
    if r in rs && p.Contains(r.date) {
      var i :| 0 <= i < |rs| && rs[i] == r;
      assert i in idx;
      var k :| 0 <= k < |idx| && idx[k] == i;
      assert sel[k] == r;
    }
  }

  /** Selection distributes over concatenation of datasets. */
  lemma {:induction false} SelectAppend(a: seq<Reading>, b: seq<Reading>, p: Period)
    ensures Select(a + b, p) == Select(a, p) + Select(b, p)
  {
    if |b| == 0 {
      assert a + b == a;
    } else {
      var b' := b[..|b| - 1];
      SelectAppend(a, b', p);
      assert (a + b)[..|a + b| - 1] == a + b';
    }
  }

  /** Among the readings of the period, the one at selected position `m`
      comes after exactly the matching readings selected before it: any
      matching reading earlier in the dataset is selected at a position below `m`. */
  lemma EarlierMatches(rs: seq<Reading>, p: Period, m: nat, j: nat)
    requires m < |MatchingPositions(rs, p)|
    requires j < MatchingPositions(rs, p)[m] && p.Contains(rs[j].date)
    ensures exists k :: 0 <= k < m && MatchingPositions(rs, p)[k] == j
  {
    var idx := MatchingPositions(rs, p);
    MatchingPositionsSpec(rs, p);
    assert j in idx;
    var k :| 0 <= k < |idx| && idx[k] == j;
    assert k < m;
  }
}
