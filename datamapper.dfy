/** The yearly chain of `datamapper_deflator_and_yearly_pcpipch`
    (src/main.rs:955-985): the series of one country is looked up in the parsed
    DataMapper JSON, and the annual inflation rates of the years of the range
    are compounded into a deflator. JSON numbers are reals and the arithmetic is
    exact. */
module Datamapper {
  import opened Outcomes
  import opened Numerals

  /** The part of a parsed `serde_json::Value` the calculator looks at. */
  datatype Json =
    | Number(n: real)
    | Object(members: map<string, Json>)
    | Other                                 // null, booleans, strings, arrays

  /** One year used and its inflation rate in percent. */
  datatype YearInflation = YearInflation(year: int, pct: real)

  /** The deflator, the latest year with data and the years used. */
  datatype Chain = Chain(deflator: real, latestYear: int, yearly: seq<YearInflation>)

  const Indicator: string := "PCPIPCH"

  /** `Value::get(key)`: a member of an object, nothing for any other value. */
  function Get(v: Json, key: string): Option<Json> {
    if v.Object? && key in v.members then Some(v.members[key]) else None
  }

  /** `json.get("values")`, then `.get("PCPIPCH")`, `.get(country)` and
      `.as_object()`. */
  function SeriesOf(json: Json, country: string): Result<map<string, Json>> {
    match Get(json, "values")
    case None => Err(MissingValues)
    case Some(values) =>
      match Get(values, Indicator)
      case None => Err(NoSeriesData)
      case Some(byCountry) =>
        match Get(byCountry, country)
        case Some(Object(series)) => Ok(series)
        case _ => Err(NoSeriesData)
  }

  /** The series has a number for the year, under the key `y.to_string()`. */
  predicate NumericAt(series: map<string, Json>, y: int) {
    IntToString(y) in series && series[IntToString(y)].Number?
  }

  /** What year y contributes: its rate when the series has a number for it. */
  function Entry(series: map<string, Json>, y: int): seq<YearInflation> {
    if NumericAt(series, y) then [YearInflation(y, series[IntToString(y)].n)] else []
  }

  /** The years lo..=hi that have a number, in ascending order. */
  function Yearly(series: map<string, Json>, lo: int, hi: int): seq<YearInflation>
    decreases hi - lo
  {
    if hi < lo then [] else Yearly(series, lo, hi - 1) + Entry(series, hi)
  }

  /** One more year of the range. */
  lemma YearlyStep(series: map<string, Json>, lo: int, y: int)
    requires lo <= y
    ensures Yearly(series, lo, y) == Yearly(series, lo, y - 1) + Entry(series, y)
  {
  }

  /** `deflator *= 1.0 + (pi / 100.0)`: a deflator grown by one year's rate. */
  function Grow(deflator: real, pct: real): real {
    deflator * (1.0 + pct / 100.0)
  }

  /** The product of the yearly factors over the years, multiplied in order. */
  function Compound(yearly: seq<YearInflation>): real {
    if yearly == [] then 1.0
    else Grow(Compound(yearly[..|yearly| - 1]), yearly[|yearly| - 1].pct)
  }

  /** One more year of the deflator. */
  lemma CompoundStep(yearly: seq<YearInflation>, e: YearInflation)
    ensures Compound(yearly + [e]) == Grow(Compound(yearly), e.pct)
  {
    assert (yearly + [e])[..|yearly|] == yearly;
  }

  /** The year of the last entry, if any. */
  function LastYear(yearly: seq<YearInflation>): Option<int> {
    if yearly == [] then None else Some(yearly[|yearly| - 1].year)
  }

  function ChainOf(series: map<string, Json>, startYear: int, endYear: int): Result<Chain> {
    var yearly := Yearly(series, startYear, endYear);
    if yearly == [] then Err(NoNumericObservations)
    else Ok(Chain(Compound(yearly), yearly[|yearly| - 1].year, yearly))
  }

  /** What the function computes from the parsed JSON. */
  function DeflatorOf(json: Json, country: string, startYear: int, endYear: int): Result<Chain> {
    match SeriesOf(json, country)
    case Err(e) => Err(e)
    case Ok(series) => ChainOf(series, startYear, endYear)
  }

  // --------------------------------------------------------------- methods

  /** The `for y in years` loop of src/main.rs:968-984, which updates
      `deflator`, `latest_year` and `yearly` year by year. */
  method YearlyChain(series: map<string, Json>, startYear: int, endYear: int) returns (r: Result<Chain>)
    ensures r == ChainOf(series, startYear, endYear)
  {
    var deflator := 1.0;
    var latestYear: Option<int> := None;
    var yearly: seq<YearInflation> := [];
    var y := startYear;
    while y <= endYear
      invariant startYear <= y && (y <= endYear + 1 || y == startYear)
      invariant yearly == Yearly(series, startYear, y - 1)
      invariant deflator == Compound(yearly)
      invariant latestYear == LastYear(yearly)
      decreases endYear - y
    {
      YearlyStep(series, startYear, y);
      var key := IntToString(y);
      if key in series {
        var val := series[key];
        if val.Number? {
          var pi := val.n;
          CompoundStep(yearly, YearInflation(y, pi));
          yearly := yearly + [YearInflation(y, pi)];
          deflator := Grow(deflator, pi);
          latestYear := Some(y);
        }
      }
      y := y + 1;
    }
    if latestYear.None? {
      return Err(NoNumericObservations);
    }
    return Ok(Chain(deflator, latestYear.value, yearly));
  }

  /** src/main.rs:955-985 after the JSON has been parsed: the series lookup and
      the yearly chain. */
  method DeflatorAndYearly(json: Json, country: string, startYear: int, endYear: int) returns (r: Result<Chain>)
    ensures r == DeflatorOf(json, country, startYear, endYear)
  {
    var values := Get(json, "values");
    if values.None? {
      return Err(MissingValues);
    }
    var byCountry := Get(values.value, Indicator);
    if byCountry.None? {
      return Err(NoSeriesData);
    }
    var series := Get(byCountry.value, country);
    if series.None? || !series.value.Object? {
      return Err(NoSeriesData);
    }
    r := YearlyChain(series.value.members, startYear, endYear);
  }

  // --------------------------------------------------------------- lemmas

  /** The years used lie in the range, each with its rate from the series. */
  lemma {:induction false} YearlyFromSeries(series: map<string, Json>, lo: int, hi: int)
    ensures forall i :: 0 <= i < |Yearly(series, lo, hi)| ==>
      var e := Yearly(series, lo, hi)[i];
      lo <= e.year <= hi && NumericAt(series, e.year) && e.pct == series[IntToString(e.year)].n
    decreases hi - lo
  {
    if lo <= hi {
      YearlyFromSeries(series, lo, hi - 1);
      var init := Yearly(series, lo, hi - 1);
      var all := Yearly(series, lo, hi);
      assert forall i :: 0 <= i < |init| ==> all[i] == init[i];
    }
  }

  /** The years used are strictly ascending. */
  lemma {:induction false} YearlyAscending(series: map<string, Json>, lo: int, hi: int)
    ensures forall i, j :: 0 <= i < j < |Yearly(series, lo, hi)| ==>
      Yearly(series, lo, hi)[i].year < Yearly(series, lo, hi)[j].year
    decreases hi - lo
  {
    if lo <= hi {
      YearlyAscending(series, lo, hi - 1);
      YearlyFromSeries(series, lo, hi - 1);
      var init := Yearly(series, lo, hi - 1);
      var all := Yearly(series, lo, hi);
      assert forall i :: 0 <= i < |init| ==> all[i] == init[i];
    }
  }

  /** Every year of the range that has a number is used. */
  lemma {:induction false} YearlyComplete(series: map<string, Json>, lo: int, hi: int, y: int)
    requires lo <= y <= hi && NumericAt(series, y)
    ensures exists i :: 0 <= i < |Yearly(series, lo, hi)| && Yearly(series, lo, hi)[i].year == y
    decreases hi - lo
  {
    var all := Yearly(series, lo, hi);
    if y == hi {
      assert all[|all| - 1].year == y;
    } else {
      YearlyComplete(series, lo, hi - 1, y);
      var init := Yearly(series, lo, hi - 1);
      var i :| 0 <= i < |init| && init[i].year == y;
      assert all[i] == init[i];
    }
  }

  /** No year is used when the range has no number. */
  lemma {:induction false} YearlyEmpty(series: map<string, Json>, lo: int, hi: int)
    requires forall y :: lo <= y <= hi ==> !NumericAt(series, y)
    ensures Yearly(series, lo, hi) == []
    decreases hi - lo
  {
    if lo <= hi {
      YearlyEmpty(series, lo, hi - 1);
    }
  }

  /** An accepted chain: the years used are exactly the years of the range with
      a number, in ascending order, with their rates; the deflator compounds
      their rates; the latest year is the greatest year used. */
  lemma ChainAccepted(series: map<string, Json>, startYear: int, endYear: int)
    requires ChainOf(series, startYear, endYear).Ok?
    ensures var c := ChainOf(series, startYear, endYear).value;
      c.deflator == Compound(c.yearly)
      && (forall i :: 0 <= i < |c.yearly| ==>
            startYear <= c.yearly[i].year <= endYear && NumericAt(series, c.yearly[i].year)
            && c.yearly[i].pct == series[IntToString(c.yearly[i].year)].n)
      && (forall y :: startYear <= y <= endYear && NumericAt(series, y) ==>
            exists i :: 0 <= i < |c.yearly| && c.yearly[i].year == y)
      && (forall i, j :: 0 <= i < j < |c.yearly| ==> c.yearly[i].year < c.yearly[j].year)
      && (forall i :: 0 <= i < |c.yearly| ==> c.yearly[i].year <= c.latestYear)
      && startYear <= c.latestYear <= endYear && NumericAt(series, c.latestYear)
  {
    YearlyFromSeries(series, startYear, endYear);
    YearlyAscending(series, startYear, endYear);
    forall y | startYear <= y <= endYear && NumericAt(series, y)
      ensures exists i :: 0 <= i < |Yearly(series, startYear, endYear)| && Yearly(series, startYear, endYear)[i].year == y
    {
      YearlyComplete(series, startYear, endYear, y);
    }
  }

  /** The chain fails exactly when no year of the range has a number. */
  lemma ChainFails(series: map<string, Json>, startYear: int, endYear: int)
    ensures ChainOf(series, startYear, endYear).Err? <==>
      forall y :: startYear <= y <= endYear ==> !NumericAt(series, y)
  {
    if forall y :: startYear <= y <= endYear ==> !NumericAt(series, y) {
      YearlyEmpty(series, startYear, endYear);
    } else {
      var y :| startYear <= y <= endYear && NumericAt(series, y);
      YearlyComplete(series, startYear, endYear, y);
    }
  }

  /** Compounding over consecutive stretches of years multiplies their
      deflators. */
  lemma {:induction false} CompoundConcat(a: seq<YearInflation>, b: seq<YearInflation>)
    ensures Compound(a + b) == Compound(a) * Compound(b)
    decreases |b|
  {
    if b == [] {
      assert a + b == a;
    } else {
      var b' := b[..|b| - 1];
      assert (a + b)[..|a + b| - 1] == a + b';
      assert (a + b)[|a + b| - 1] == b[|b| - 1];
      CompoundConcat(a, b');
    }
  }

  /** The lookup errors of the JSON: no "values" member, and no object for the
      indicator and the country. */
  lemma DeflatorLookupErrors(json: Json, country: string, startYear: int, endYear: int)
    ensures Get(json, "values").None? ==> DeflatorOf(json, country, startYear, endYear) == Err(MissingValues)
    ensures Get(json, "values").Some? && Get(Get(json, "values").value, Indicator).None? ==>
      DeflatorOf(json, country, startYear, endYear) == Err(NoSeriesData)
    ensures Get(json, "values").Some? && Get(Get(json, "values").value, Indicator).Some? ==>
      var c := Get(Get(Get(json, "values").value, Indicator).value, country);
      (c.None? || !c.value.Object?) ==> DeflatorOf(json, country, startYear, endYear) == Err(NoSeriesData)
  {
  }
}
