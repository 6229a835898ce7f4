/** The CPI observations of `sdmx_fetch_cpi_start_and_latest`
    (src/main.rs:769-836): one pass over the XML events of an SDMX-ML data
    message such as `<Obs TIME_PERIOD="2020-M01" OBS_VALUE="101.3"/>`, the check
    for an empty result, the sort by period token and the choice of the start and
    the latest observation. The f64 parse of `OBS_VALUE` is a parameter, and
    index values are reals. */
module Observations {
  import opened Outcomes
  import opened Texts
  import opened XmlEvents
  import opened Sorting

  /** One observation kept: its period token and its index value. */
  datatype Observation = Observation(period: string, value: real)

  /** The two observations a run uses. */
  datatype CpiPair = CpiPair(startPeriod: string, cpiStart: real, latestPeriod: string, cpiLatest: real)

  /** The two variables of the attribute loop of an `Obs` element. */
  datatype ObsFields = ObsFields(timePeriod: Option<string>, obsValue: Option<real>)

  /** The attribute loop of an `Obs` element: every attribute must be readable;
      a key ending in "TIME_PERIOD" overwrites the period with its unescaped
      value; otherwise a key ending in "OBS_VALUE" overwrites the value with its
      unescaped value parsed as a number, and a value that does not parse fails
      the whole message. */
  function ObsAttrs(attrs: seq<Attribute>, fields: ObsFields, parseNum: string -> Option<real>): Result<ObsFields>
    decreases |attrs|
  {
    if attrs == [] then Ok(fields)
    else
      match attrs[0]
      case Malformed => Err(MalformedAttribute)
      case Attribute(key, value) =>
        if EndsWith(key, TimePeriodName) then
          match value
          case None => Err(UndecodableValue)
          case Some(v) => ObsAttrs(attrs[1..], fields.(timePeriod := Some(v)), parseNum)
        else if EndsWith(key, ObsValueName) then
          match value
          case None => Err(UndecodableValue)
          case Some(v) =>
            match parseNum(v)
            case None => Err(ObsValueNotNumeric)
            case Some(x) => ObsAttrs(attrs[1..], fields.(obsValue := Some(x)), parseNum)
        else ObsAttrs(attrs[1..], fields, parseNum)
  }

  const NoFields: ObsFields := ObsFields(None, None)

  /** What one `Obs` element adds: an observation when it has both a period and
      a value and the value is positive, nothing otherwise. */
  function Keep(fields: ObsFields): seq<Observation> {
    if fields.timePeriod.Some? && fields.obsValue.Some? && fields.obsValue.value > 0.0
    then [Observation(fields.timePeriod.value, fields.obsValue.value)]
    else []
  }

  /** An element the loop looks at: a start or empty tag ending in "Obs". */
  predicate IsObs(e: Event) {
    (e.Start? || e.Empty?) && EndsWith(e.name, ObsName)
  }

  /** The event loop: it stops at `Eof` (or where the events run out), fails on a
      reader error, and ignores everything but `Obs` elements. */
  function ScanObs(events: seq<Event>, obs: seq<Observation>, parseNum: string -> Option<real>): Result<seq<Observation>>
    decreases |events|
  {
    if events == [] then Ok(obs)
    else if events[0].Eof? then Ok(obs)
    else if events[0].Error? then Err(InvalidSdmxXml)
    else if IsObs(events[0]) then
      match ObsAttrs(events[0].attrs, NoFields, parseNum)
      case Err(e) => Err(e)
      case Ok(fields) => ScanObs(events[1..], obs + Keep(fields), parseNum)
    else ScanObs(events[1..], obs, parseNum)
  }

  /** The sort key: the period token. */
  function PeriodKey(o: Observation): string {
    o.period
  }

  /** `obs.iter().find(|(t, _)| t >= start_period)`. */
  function FirstAtOrAfter(obs: seq<Observation>, startPeriod: string): Option<Observation> {
    if obs == [] then None
    else if !LexLess(obs[0].period, startPeriod) then Some(obs[0])
    else FirstAtOrAfter(obs[1..], startPeriod)
  }

  /** The choice made from the sorted observations. */
  function SelectFrom(sorted: seq<Observation>, startPeriod: string): Result<CpiPair> {
    match FirstAtOrAfter(sorted, startPeriod)
    case None => Err(NoDataAtOrAfterStart)
    case Some(first) =>
      if sorted == [] then Err(NoCpiData)
      else
        var latest := sorted[|sorted| - 1];
        if first.value <= 0.0 || latest.value <= 0.0 then Err(InvalidCpiValues)
        else Ok(CpiPair(first.period, first.value, latest.period, latest.value))
  }

  /** What the function returns for the events of a data message. */
  function CpiOf(events: seq<Event>, startPeriod: string, parseNum: string -> Option<real>): Result<CpiPair> {
    match ScanObs(events, [], parseNum)
    case Err(e) => Err(e)
    case Ok(obs) =>
      if obs == [] then Err(NoObservations)
      else SelectFrom(SortBy(obs, PeriodKey), startPeriod)
  }

  // --------------------------------------------------------------- methods

  /** The `for a in e.attributes()` loop of an `Obs` element. */
  method ReadObsFields(attrs: seq<Attribute>, parseNum: string -> Option<real>) returns (r: Result<ObsFields>)
    ensures r == ObsAttrs(attrs, NoFields, parseNum)
  {
    var tp: Option<string> := None;
    var val: Option<real> := None;
    var j := 0;
    while j < |attrs|
      invariant 0 <= j <= |attrs|
      invariant ObsAttrs(attrs, NoFields, parseNum) == ObsAttrs(attrs[j..], ObsFields(tp, val), parseNum)
    {
      assert attrs[j..][0] == attrs[j] && attrs[j..][1..] == attrs[j + 1..];
      match attrs[j] {
        case Malformed =>
          return Err(MalformedAttribute);
        case Attribute(key, value) =>
          if EndsWith(key, TimePeriodName) {
            if value.None? {
              return Err(UndecodableValue);
            }
            tp := Some(value.value);
          } else if EndsWith(key, ObsValueName) {
            if value.None? {
              return Err(UndecodableValue);
            }
            var parsed := parseNum(value.value);
            if parsed.None? {
              return Err(ObsValueNotNumeric);
            }
            val := Some(parsed.value);
          }
      }
      j := j + 1;
    }
    return Ok(ObsFields(tp, val));
  }

  /** The event loop of src/main.rs:774-803. */
  method ExtractObservations(events: seq<Event>, parseNum: string -> Option<real>)
    returns (r: Result<seq<Observation>>)
    ensures r == ScanObs(events, [], parseNum)
  {
    var obs: seq<Observation> := [];
    var i := 0;
    while i < |events| && !events[i].Eof?
      invariant 0 <= i <= |events|
      invariant ScanObs(events, [], parseNum) == ScanObs(events[i..], obs, parseNum)
    {
      assert events[i..][0] == events[i] && events[i..][1..] == events[i + 1..];
      match events[i] {
        case Start(name, attrs) =>
          if EndsWith(name, ObsName) {
            var fields := ReadObsFields(attrs, parseNum);
            if fields.Err? {
              return Err(fields.error);
            }
            ghost var before := obs;
            if fields.value.timePeriod.Some? && fields.value.obsValue.Some? && fields.value.obsValue.value > 0.0 {
              obs := obs + [Observation(fields.value.timePeriod.value, fields.value.obsValue.value)];
            }
            assert obs == before + Keep(fields.value);
          }
        case Empty(name, attrs) =>
          if EndsWith(name, ObsName) {
            var fields := ReadObsFields(attrs, parseNum);
            if fields.Err? {
              return Err(fields.error);
            }
            ghost var before := obs;
            if fields.value.timePeriod.Some? && fields.value.obsValue.Some? && fields.value.obsValue.value > 0.0 {
              obs := obs + [Observation(fields.value.timePeriod.value, fields.value.obsValue.value)];
            }
            assert obs == before + Keep(fields.value);
          }
        case Error =>
          return Err(InvalidSdmxXml);
        case _ =>
      }
      i := i + 1;
    }
    assert ScanObs(events[i..], obs, parseNum) == Ok(obs);
    return Ok(obs);
  }

  /** src/main.rs:774-836: extraction, the emptiness check, the sort and the
      choice of the start and the latest observation. */
  method FetchCpiStartAndLatest(events: seq<Event>, startPeriod: string, parseNum: string -> Option<real>)
    returns (r: Result<CpiPair>)
    ensures r == CpiOf(events, startPeriod, parseNum)
  {
    var extracted := ExtractObservations(events, parseNum);
    if extracted.Err? {
      return Err(extracted.error);
    }
    var obs := extracted.value;
    if obs == [] {
      return Err(NoObservations);
    }
    obs := SortBy(obs, PeriodKey);
    var startObs := FirstAtOrAfter(obs, startPeriod);
    if startObs.None? {
      return Err(NoDataAtOrAfterStart);
    }
    if obs == [] {
      return Err(NoCpiData);
    }
    var latestObs := obs[|obs| - 1];
    var cpiStart := startObs.value.value;
    var cpiLatest := latestObs.value;
    if cpiStart <= 0.0 || cpiLatest <= 0.0 {
      return Err(InvalidCpiValues);
    }
    return Ok(CpiPair(startObs.value.period, cpiStart, latestObs.period, cpiLatest));
  }

  // ------------------------------------------------------ the kept records

  /** Every observation the loop keeps has a positive value. */
  predicate AllPositive(obs: seq<Observation>) {
    forall i :: 0 <= i < |obs| ==> obs[i].value > 0.0
  }

  lemma {:induction false} ScanObsPositive(events: seq<Event>, obs: seq<Observation>, parseNum: string -> Option<real>)
    requires AllPositive(obs)
    requires ScanObs(events, obs, parseNum).Ok?
    ensures AllPositive(ScanObs(events, obs, parseNum).value)
    decreases |events|
  {
    if events != [] && !events[0].Eof? && !events[0].Error? {
      if IsObs(events[0]) {
        var fields := ObsAttrs(events[0].attrs, NoFields, parseNum).value;
        var obs' := obs + Keep(fields);
        assert AllPositive(obs') by {
          forall i | 0 <= i < |obs'|
            ensures obs'[i].value > 0.0
          {
            if i >= |obs| {
              assert obs'[i] == Keep(fields)[i - |obs|];
            }
          }
        }
        ScanObsPositive(events[1..], obs', parseNum);
      } else {
        ScanObsPositive(events[1..], obs, parseNum);
      }
    }
  }

  /** The value of the last attribute whose key ends in "TIME_PERIOD". */
  function LastTimePeriod(attrs: seq<Attribute>): Option<string> {
    if attrs == [] then None
    else if LastTimePeriod(attrs[1..]).Some? then LastTimePeriod(attrs[1..])
    else if attrs[0].Attribute? && EndsWith(attrs[0].key, TimePeriodName) then attrs[0].value
    else None
  }

  /** The number in the last attribute whose key ends in "OBS_VALUE" (and not in
      "TIME_PERIOD"). */
  function LastObsValue(attrs: seq<Attribute>, parseNum: string -> Option<real>): Option<real> {
    if attrs == [] then None
    else if LastObsValue(attrs[1..], parseNum).Some? then LastObsValue(attrs[1..], parseNum)
    else if attrs[0].Attribute? && !EndsWith(attrs[0].key, TimePeriodName) && EndsWith(attrs[0].key, ObsValueName)
            && attrs[0].value.Some? then parseNum(attrs[0].value.value)
    else None
  }

  /** When the attribute loop succeeds, the period and the value are those of
      the last attributes of their names. */
  lemma {:induction false} ObsAttrsTakesLast(attrs: seq<Attribute>, fields: ObsFields, parseNum: string -> Option<real>)
    requires ObsAttrs(attrs, fields, parseNum).Ok?
    ensures var f := ObsAttrs(attrs, fields, parseNum).value;
      f.timePeriod == (if LastTimePeriod(attrs).Some? then LastTimePeriod(attrs) else fields.timePeriod)
      && f.obsValue == (if LastObsValue(attrs, parseNum).Some? then LastObsValue(attrs, parseNum) else fields.obsValue)
    decreases |attrs|
  {
    if attrs != [] {
      var a := attrs[0];
      if EndsWith(a.key, TimePeriodName) {
        ObsAttrsTakesLast(attrs[1..], fields.(timePeriod := a.value), parseNum);
      } else if EndsWith(a.key, ObsValueName) {
        ObsAttrsTakesLast(attrs[1..], fields.(obsValue := parseNum(a.value.value)), parseNum);
      } else {
        ObsAttrsTakesLast(attrs[1..], fields, parseNum);
      }
    }
  }

  /** A number that does not parse in an `OBS_VALUE` fails the message, however
      many attributes follow. */
  lemma ObsAttrsNotNumeric(before: seq<Attribute>, key: seq<byte>, v: string, after: seq<Attribute>,
                           fields: ObsFields, parseNum: string -> Option<real>)
    requires ObsAttrs(before, fields, parseNum).Ok?
    requires !EndsWith(key, TimePeriodName) && EndsWith(key, ObsValueName) && parseNum(v).None?
    ensures ObsAttrs(before + [Attribute(key, Some(v))] + after, fields, parseNum) == Err(ObsValueNotNumeric)
    decreases |before|
  {
    var all := before + [Attribute(key, Some(v))] + after;
    if before == [] {
      assert all[0] == Attribute(key, Some(v));
    } else {
      assert all[0] == before[0];
      assert all[1..] == before[1..] + [Attribute(key, Some(v))] + after;
      var a := before[0];
      if EndsWith(a.key, TimePeriodName) {
        ObsAttrsNotNumeric(before[1..], key, v, after, fields.(timePeriod := a.value), parseNum);
      } else if EndsWith(a.key, ObsValueName) {
        ObsAttrsNotNumeric(before[1..], key, v, after, fields.(obsValue := parseNum(a.value.value)), parseNum);
      } else {
        ObsAttrsNotNumeric(before[1..], key, v, after, fields, parseNum);
      }
    }
  }

  /** The observations of a message, element by element: what each `Obs`
      element before the first `Eof` keeps. */
  function KeptRecords(events: seq<Event>, parseNum: string -> Option<real>): seq<Observation> {
    if events == [] || events[0].Eof? then []
    else if IsObs(events[0]) then
      var attrs := events[0].attrs;
      (if LastTimePeriod(attrs).Some? && LastObsValue(attrs, parseNum).Some? && LastObsValue(attrs, parseNum).value > 0.0
       then [Observation(LastTimePeriod(attrs).value, LastObsValue(attrs, parseNum).value)]
       else [])
      + KeptRecords(events[1..], parseNum)
    else KeptRecords(events[1..], parseNum)
  }

  /** When the loop succeeds it has kept, in document order, exactly the `Obs`
      elements that carry both a period and a positive value. */
  lemma {:induction false} ScanObsKeeps(events: seq<Event>, obs: seq<Observation>, parseNum: string -> Option<real>)
    requires ScanObs(events, obs, parseNum).Ok?
    ensures ScanObs(events, obs, parseNum).value == obs + KeptRecords(events, parseNum)
    decreases |events|
  {
    if events == [] || events[0].Eof? {
      assert obs + [] == obs;
    } else if IsObs(events[0]) {
      var attrs := events[0].attrs;
      ObsAttrsTakesLast(attrs, NoFields, parseNum);
      var fields := ObsAttrs(attrs, NoFields, parseNum).value;
      ScanObsKeeps(events[1..], obs + Keep(fields), parseNum);
      assert obs + Keep(fields) + KeptRecords(events[1..], parseNum) == obs + KeptRecords(events, parseNum);
    } else {
      ScanObsKeeps(events[1..], obs, parseNum);
    }
  }

  // --------------------------------------------------------------- choice

  lemma {:induction false} FirstAtOrAfterFinds(obs: seq<Observation>, startPeriod: string)
    ensures FirstAtOrAfter(obs, startPeriod).Some? <==>
      exists i :: 0 <= i < |obs| && !LexLess(obs[i].period, startPeriod)
    ensures FirstAtOrAfter(obs, startPeriod).Some? ==>
      exists i :: 0 <= i < |obs| && FirstAtOrAfter(obs, startPeriod).value == obs[i]
        && !LexLess(obs[i].period, startPeriod)
        && forall j :: 0 <= j < i ==> LexLess(obs[j].period, startPeriod)
  {
    if obs != [] {
      FirstAtOrAfterFinds(obs[1..], startPeriod);
      if LexLess(obs[0].period, startPeriod) {
        if exists i :: 0 <= i < |obs| && !LexLess(obs[i].period, startPeriod) {
          var i :| 0 <= i < |obs| && !LexLess(obs[i].period, startPeriod);
          assert obs[1..][i - 1] == obs[i];
        }
        if FirstAtOrAfter(obs, startPeriod).Some? {
          var i :| 0 <= i < |obs[1..]| && FirstAtOrAfter(obs[1..], startPeriod).value == obs[1..][i]
            && !LexLess(obs[1..][i].period, startPeriod)
            && forall j :: 0 <= j < i ==> LexLess(obs[1..][j].period, startPeriod);
          assert forall j :: 0 <= j < i + 1 ==> LexLess(obs[j].period, startPeriod) by {
            forall j | 0 <= j < i + 1
              ensures LexLess(obs[j].period, startPeriod)
            {
              if j > 0 {
                assert obs[j] == obs[1..][j - 1];
              }
            }
          }
          assert obs[i + 1] == obs[1..][i];
        }
      }
    }
  }

  /** Reordering keeps every value positive. */
  lemma PositivePermutation(a: seq<Observation>, b: seq<Observation>)
    requires multiset(a) == multiset(b) && AllPositive(a)
    ensures AllPositive(b)
  {
    forall j | 0 <= j < |b|
      ensures b[j].value > 0.0
    {
      assert b[j] in multiset(a);
    }
  }

  /** The last of observations sorted by period has the greatest period. */
  lemma LastIsLatest(sorted: seq<Observation>)
    requires sorted != [] && SortedBy(sorted, PeriodKey)
    ensures forall o :: o in sorted ==> !LexLess(sorted[|sorted| - 1].period, o.period)
  {
    forall o | o in sorted
      ensures !LexLess(sorted[|sorted| - 1].period, o.period)
    {
      var k :| 0 <= k < |sorted| && sorted[k] == o;
      if k < |sorted| - 1 {
        assert !LexLess(PeriodKey(sorted[|sorted| - 1]), PeriodKey(sorted[k]));
      } else {
        LexLessIrreflexive(o.period);
      }
    }
  }

  /** The first observation at or after the start, in observations sorted by
      period, has the smallest period among those at or after the start, and
      none later than the last. */
  lemma FirstIsEarliest(sorted: seq<Observation>, startPeriod: string)
    requires SortedBy(sorted, PeriodKey) && FirstAtOrAfter(sorted, startPeriod).Some?
    ensures var first := FirstAtOrAfter(sorted, startPeriod).value;
      first in sorted && !LexLess(first.period, startPeriod)
      && !LexLess(sorted[|sorted| - 1].period, first.period)
      && forall o :: o in sorted && !LexLess(o.period, startPeriod) ==> !LexLess(o.period, first.period)
  {
    FirstAtOrAfterFinds(sorted, startPeriod);
    var i :| 0 <= i < |sorted| && FirstAtOrAfter(sorted, startPeriod).value == sorted[i]
      && !LexLess(sorted[i].period, startPeriod)
      && forall j :: 0 <= j < i ==> LexLess(sorted[j].period, startPeriod);
    LastIsLatest(sorted);
    forall o | o in sorted && !LexLess(o.period, startPeriod)
      ensures !LexLess(o.period, sorted[i].period)
    {
      var k :| 0 <= k < |sorted| && sorted[k] == o;
      if k > i {
        assert !LexLess(PeriodKey(sorted[k]), PeriodKey(sorted[i]));
      } else if k == i {
        LexLessIrreflexive(o.period);
      }
    }
  }

  /** The choice from positive observations sorted by period. */
  lemma SelectFromSorted(sorted: seq<Observation>, startPeriod: string)
    requires SortedBy(sorted, PeriodKey) && AllPositive(sorted) && FirstAtOrAfter(sorted, startPeriod).Some?
    ensures SelectFrom(sorted, startPeriod).Ok?
    ensures var p := SelectFrom(sorted, startPeriod).value;
      p.cpiStart > 0.0 && p.cpiLatest > 0.0
      && !LexLess(p.startPeriod, startPeriod)
      && !LexLess(p.latestPeriod, p.startPeriod)
      && Observation(p.startPeriod, p.cpiStart) in sorted
      && Observation(p.latestPeriod, p.cpiLatest) in sorted
      && (forall o :: o in sorted ==> !LexLess(p.latestPeriod, o.period))
      && (forall o :: o in sorted && !LexLess(o.period, startPeriod) ==> !LexLess(o.period, p.startPeriod))
  {
    FirstIsEarliest(sorted, startPeriod);
    LastIsLatest(sorted);
    var first := FirstAtOrAfter(sorted, startPeriod).value;
    var k :| 0 <= k < |sorted| && sorted[k] == first;
    assert sorted[k].value > 0.0;
  }

  /** Among observations sharing a period, the start observation is the first
      of its period and the latest observation the last of its period. */
  lemma SelectFromTieBreak(sorted: seq<Observation>, startPeriod: string)
    requires SortedBy(sorted, PeriodKey) && FirstAtOrAfter(sorted, startPeriod).Some?
    ensures var first := FirstAtOrAfter(sorted, startPeriod).value;
      var w := WithKey(sorted, PeriodKey, first.period);
      w != [] && w[0] == first
    ensures sorted != []
    ensures var last := sorted[|sorted| - 1];
      var w := WithKey(sorted, PeriodKey, last.period);
      w != [] && w[|w| - 1] == last
  {
    FirstAtOrAfterFinds(sorted, startPeriod);
    var first := FirstAtOrAfter(sorted, startPeriod).value;
    var i :| 0 <= i < |sorted| && first == sorted[i]
      && !LexLess(sorted[i].period, startPeriod)
      && forall j :: 0 <= j < i ==> LexLess(sorted[j].period, startPeriod);
    WithKeyFirst(sorted, PeriodKey, first.period, i);
    WithKeyLast(sorted, PeriodKey);
  }

  /** The kept observations in period order, when the loop succeeds. */
  lemma SortedKept(events: seq<Event>, parseNum: string -> Option<real>)
    requires ScanObs(events, [], parseNum).Ok?
    ensures var sorted := SortBy(ScanObs(events, [], parseNum).value, PeriodKey);
      SortedBy(sorted, PeriodKey) && AllPositive(sorted)
      && (forall o :: o in sorted <==> o in KeptRecords(events, parseNum))
      && (sorted == [] <==> KeptRecords(events, parseNum) == [])
      && ScanObs(events, [], parseNum).value == KeptRecords(events, parseNum)
  {
    var obs := ScanObs(events, [], parseNum).value;
    ScanObsKeeps(events, [], parseNum);
    assert [] + KeptRecords(events, parseNum) == KeptRecords(events, parseNum);
    ScanObsPositive(events, [], parseNum);
    var sorted := SortBy(obs, PeriodKey);
    SortBySorted(obs, PeriodKey);
    SortByPermutation(obs, PeriodKey);
    PositivePermutation(obs, sorted);
    forall o
      ensures o in sorted <==> o in obs
    {
      assert o in sorted <==> o in multiset(sorted);
      assert o in obs <==> o in multiset(obs);
    }
    if obs != [] {
      assert obs[0] in sorted;
    }
  }

  /** What an accepted message yields. Both index values are positive (so the
      "Invalid CPI values" error cannot occur), the start period is at or after
      the requested start and no later than the latest period, the latest period
      is the greatest of all, and no kept observation lies between the
      requested start and the chosen start. Both are observations of the
      message. */
  lemma CpiAccepted(events: seq<Event>, startPeriod: string, parseNum: string -> Option<real>)
    requires CpiOf(events, startPeriod, parseNum).Ok?
    ensures var p := CpiOf(events, startPeriod, parseNum).value;
      var kept := KeptRecords(events, parseNum);
      p.cpiStart > 0.0 && p.cpiLatest > 0.0
      && !LexLess(p.startPeriod, startPeriod)
      && !LexLess(p.latestPeriod, p.startPeriod)
      && Observation(p.startPeriod, p.cpiStart) in kept
      && Observation(p.latestPeriod, p.cpiLatest) in kept
      && (forall o :: o in kept ==> !LexLess(p.latestPeriod, o.period))
      && (forall o :: o in kept && !LexLess(o.period, startPeriod) ==> !LexLess(o.period, p.startPeriod))
    ensures var p := CpiOf(events, startPeriod, parseNum).value;
      var kept := KeptRecords(events, parseNum);
      var atStart := WithKey(kept, PeriodKey, p.startPeriod);
      var atLatest := WithKey(kept, PeriodKey, p.latestPeriod);
      atStart != [] && atStart[0] == Observation(p.startPeriod, p.cpiStart)
      && atLatest != [] && atLatest[|atLatest| - 1] == Observation(p.latestPeriod, p.cpiLatest)
  {
    SortedKept(events, parseNum);
    var sorted := SortBy(ScanObs(events, [], parseNum).value, PeriodKey);
    SelectFromSorted(sorted, startPeriod);
    CpiTieBreak(events, startPeriod, parseNum);
  }

  /** The tie-break of `CpiAccepted`: the stable sort keeps the order of the
      observations of one period, `find` takes the first of them and `last`
      the last. */
  lemma CpiTieBreak(events: seq<Event>, startPeriod: string, parseNum: string -> Option<real>)
    requires CpiOf(events, startPeriod, parseNum).Ok?
    ensures var p := CpiOf(events, startPeriod, parseNum).value;
      var kept := KeptRecords(events, parseNum);
      var atStart := WithKey(kept, PeriodKey, p.startPeriod);
      var atLatest := WithKey(kept, PeriodKey, p.latestPeriod);
      atStart != [] && atStart[0] == Observation(p.startPeriod, p.cpiStart)
      && atLatest != [] && atLatest[|atLatest| - 1] == Observation(p.latestPeriod, p.cpiLatest)
  {
    SortedKept(events, parseNum);
    var kept := KeptRecords(events, parseNum);
    var sorted := SortBy(kept, PeriodKey);
    assert CpiOf(events, startPeriod, parseNum) == SelectFrom(sorted, startPeriod);
    var p := SelectFrom(sorted, startPeriod).value;
    var first := FirstAtOrAfter(sorted, startPeriod).value;
    var last := sorted[|sorted| - 1];
    assert Observation(p.startPeriod, p.cpiStart) == first;
    assert Observation(p.latestPeriod, p.cpiLatest) == last;
    SelectFromTieBreak(sorted, startPeriod);
    SortByStable(kept, PeriodKey, first.period);
    SortByStable(kept, PeriodKey, last.period);
  }

  /** The run is refused for want of data at or after the start exactly when
      observations were kept but all of them are earlier than the start. */
  lemma CpiNoDataAtOrAfterStart(events: seq<Event>, startPeriod: string, parseNum: string -> Option<real>)
    requires ScanObs(events, [], parseNum).Ok?
    ensures CpiOf(events, startPeriod, parseNum) == Err(NoDataAtOrAfterStart) <==>
      var kept := KeptRecords(events, parseNum);
      kept != [] && forall o :: o in kept ==> LexLess(o.period, startPeriod)
  {
    SortedKept(events, parseNum);
    var sorted := SortBy(ScanObs(events, [], parseNum).value, PeriodKey);
    FirstAtOrAfterFinds(sorted, startPeriod);
    if FirstAtOrAfter(sorted, startPeriod).Some? {
      SelectFromSorted(sorted, startPeriod);
    } else {
      forall o | o in sorted
        ensures LexLess(o.period, startPeriod)
      {
        var k :| 0 <= k < |sorted| && sorted[k] == o;
      }
    }
  }

  /** A message without kept observations is refused as such. */
  lemma CpiNoObservations(events: seq<Event>, startPeriod: string, parseNum: string -> Option<real>)
    requires ScanObs(events, [], parseNum).Ok?
    ensures CpiOf(events, startPeriod, parseNum) == Err(NoObservations) <==> KeptRecords(events, parseNum) == []
  {
    SortedKept(events, parseNum);
  }
}
