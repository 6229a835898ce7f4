/** The date range of a run: the start the user gave, an optional end, and the
    clamp of the end to "now" (src/main.rs:410, 427-444 for the SDMX mode and
    521-549 for the DataMapper mode). The clock is a parameter. */
module Ranges {
  import opened Outcomes
  import opened Texts
  import opened Numerals
  import opened Periods

  /** The two SDMX monthly tokens a run asks for, such as "2024-M01". */
  datatype PeriodRange = PeriodRange(startPeriod: string, endPeriod: string)

  /** The two years a DataMapper run covers. */
  datatype YearRange = YearRange(startYear: int, endYear: int)

  // ------------------------------------------------------------ SDMX mode

  /** The end "YYYY-MM" text before the clamp: the parsed `--end`, or the
      current month when there is none. */
  function SdmxEndText(endInput: Option<string>, currentYm: string): Result<string> {
    match endInput
    case Some(s) => (match ParseYm(s) case Err(e) => Err(SdmxEndInvalid(e)) case Ok(ym) => Ok(ym))
    case None => Ok(currentYm)
  }

  /** What `run_sdmx` computes for its range: both ends as "YYYY-MM" texts
      (compared as strings), the end lowered to the current month when it is
      later, `--end must be >= start` when the end is then earlier than the
      start, and both ends converted to SDMX tokens. */
  function SdmxRangeOf(startInput: string, endInput: Option<string>, today: YearMonth): Result<PeriodRange> {
    match ParseYm(startInput)
    case Err(e) => Err(SdmxStartInvalid(e))
    case Ok(startYm) =>
      var currentYm := FormatYm(today);
      match SdmxEndText(endInput, currentYm)
      case Err(e) => Err(e)
      case Ok(endYm) =>
        var clamped := if LexLess(currentYm, endYm) then currentYm else endYm;
        if LexLess(clamped, startYm) then Err(EndBeforeStart)
        else
          match YmToSdmxPeriod(startYm)
          case Err(e) => Err(e)
          case Ok(startPeriod) =>
            match YmToSdmxPeriod(clamped)
            case Err(e) => Err(e)
            case Ok(endPeriod) => Ok(PeriodRange(startPeriod, endPeriod))
  }

  /** `run_sdmx`'s range code, with `end_ym` a variable that the clamp
      reassigns. */
  method ResolveSdmxRange(startInput: string, endInput: Option<string>, today: YearMonth)
    returns (r: Result<PeriodRange>)
    ensures r == SdmxRangeOf(startInput, endInput, today)
  {
    var start := ParseYm(startInput);
    if start.Err? {
      return Err(SdmxStartInvalid(start.error));
    }
    var startYm := start.value;
    var currentYm := FormatYm(today);
    var endYm: string;
    match endInput {
      case Some(s) =>
        var parsed := ParseYm(s);
        if parsed.Err? {
          return Err(SdmxEndInvalid(parsed.error));
        }
        endYm := parsed.value;
      case None =>
        endYm := currentYm;
    }
    if LexLess(currentYm, endYm) {
      endYm := currentYm;
    }
    if LexLess(endYm, startYm) {
      return Err(EndBeforeStart);
    }
    var startPeriod := YmToSdmxPeriod(startYm);
    if startPeriod.Err? {
      return Err(startPeriod.error);
    }
    var endPeriod := YmToSdmxPeriod(endYm);
    if endPeriod.Err? {
      return Err(endPeriod.error);
    }
    return Ok(PeriodRange(startPeriod.value, endPeriod.value));
  }

  /** A month that `parse_ym` accepts and writes with four year digits. */
  predicate Ordinary(ym: YearMonth) {
    0 <= ym.year <= 9999 && 1 <= ym.month <= 12
  }

  /** The earlier of two months. */
  function EarlierOf(a: YearMonth, b: YearMonth): (c: YearMonth)
    ensures c == a || c == b
    ensures !Before(a, c) && !Before(b, c)
  {
    if Before(b, a) then b else a
  }

  /** The month `--end` names, or the current month. */
  function RequestedEnd(endInput: Option<string>, today: YearMonth): Result<YearMonth> {
    match endInput
    case Some(s) => ParseYmFields(s)
    case None => Ok(today)
  }

  /** The SDMX token of a month with a four-digit year. */
  lemma TokenOfOrdinary(ym: YearMonth)
    requires Ordinary(ym)
    ensures ParseYm(FormatYm(ym)) == Ok(FormatYm(ym))
    ensures YmToSdmxPeriod(FormatYm(ym)) == Ok(WireToken(ym))
  {
    ParseYmCanonical(ym);
  }

  /** For four-digit years the string comparisons of `run_sdmx` are comparisons in
      time: the range is the start month and the earlier of the requested end and
      the current month, and it is refused exactly when that end lies before the
      start. */
  lemma {:induction false} SdmxRangeChronological(startInput: string, endInput: Option<string>, today: YearMonth)
    requires ParseYmFields(startInput).Ok? && Ordinary(ParseYmFields(startInput).value)
    requires RequestedEnd(endInput, today).Ok? && Ordinary(RequestedEnd(endInput, today).value)
    requires Ordinary(today)
    ensures var start := ParseYmFields(startInput).value;
      var end := EarlierOf(RequestedEnd(endInput, today).value, today);
      SdmxRangeOf(startInput, endInput, today) ==
        if Before(end, start) then Err(EndBeforeStart)
        else Ok(PeriodRange(WireToken(start), WireToken(end)))
  {
    var start := ParseYmFields(startInput).value;
    var requested := RequestedEnd(endInput, today).value;
    var end := EarlierOf(requested, today);
    assert ParseYm(startInput) == Ok(FormatYm(start));
    assert SdmxEndText(endInput, FormatYm(today)) == Ok(FormatYm(requested));
    FormatYmOrder(today, requested);
    FormatYmOrder(end, start);
    assert (if LexLess(FormatYm(today), FormatYm(requested)) then FormatYm(today) else FormatYm(requested))
      == FormatYm(end);
    TokenOfOrdinary(start);
    TokenOfOrdinary(end);
  }

  /** A start or an end that `parse_ym` refuses is refused with its error,
      wrapped in the context that names the argument. */
  lemma SdmxRangeParseErrors(startInput: string, endInput: Option<string>, today: YearMonth)
    ensures ParseYmFields(startInput).Err? ==>
      SdmxRangeOf(startInput, endInput, today) == Err(SdmxStartInvalid(ParseYmFields(startInput).error))
    ensures ParseYmFields(startInput).Ok? && endInput.Some? && ParseYmFields(endInput.value).Err? ==>
      SdmxRangeOf(startInput, endInput, today) == Err(SdmxEndInvalid(ParseYmFields(endInput.value).error))
  {
  }

  /** A five-digit start year passes `parse_ym`, but the run is always refused:
      by the order check, or else by the conversion to an SDMX token, whose own
      `parse_ym` refuses the 8-byte "YYYYY-MM". */
  lemma {:induction false} SdmxRangeWideStart(startInput: string, endInput: Option<string>, today: YearMonth)
    requires ParseYmFields(startInput).Ok? && ParseYmFields(startInput).value.year >= 10000
    ensures SdmxRangeOf(startInput, endInput, today).Err?
  {
    var start := ParseYmFields(startInput).value;
    ParseYmAccepted(startInput);
    ParseYmWideYear(start);
  }

  /** An `--end` in the years 10000..19999 is never lowered to the current
      month: "1YYYY-MM" sorts before any "2YYY-MM" as text, so it is kept, and
      it then sorts before the start too. A run from 2000 on with such an end is
      refused as ending before it starts. */
  lemma SdmxRangeWideEnd(startInput: string, endInput: string, today: YearMonth)
    requires ParseYmFields(startInput).Ok? && 2000 <= ParseYmFields(startInput).value.year <= 9999
    requires ParseYmFields(endInput).Ok? && 10000 <= ParseYmFields(endInput).value.year <= 19999
    requires Ordinary(today) && 2000 <= today.year
    ensures SdmxRangeOf(startInput, Some(endInput), today) == Err(EndBeforeStart)
  {
    var start, end := ParseYmFields(startInput).value, ParseYmFields(endInput).value;
    ParseYmAccepted(startInput);
    ParseYmAccepted(endInput);
    LeadFrom2000(start);
    LeadFrom2000(today);
    LeadOfWide(end);
    LexLessByHead(FormatYm(end), FormatYm(start));
    LexLessByHead(FormatYm(end), FormatYm(today));
  }

  /** An `--end` in the years 30000..99999 does sort after a current month of
      the years 2000..2999 as text, so it is lowered to the current month and
      the run goes ahead as if no `--end` had been given. */
  lemma SdmxRangeWideEndClamped(startInput: string, endInput: string, today: YearMonth)
    requires ParseYmFields(startInput).Ok? && Ordinary(ParseYmFields(startInput).value)
    requires ParseYmFields(endInput).Ok? && 30000 <= ParseYmFields(endInput).value.year
    requires Ordinary(today) && 2000 <= today.year <= 2999
    ensures var start := ParseYmFields(startInput).value;
      SdmxRangeOf(startInput, Some(endInput), today) ==
        if Before(today, start) then Err(EndBeforeStart)
        else Ok(PeriodRange(WireToken(start), WireToken(today)))
  {
    var start, end := ParseYmFields(startInput).value, ParseYmFields(endInput).value;
    ParseYmAccepted(startInput);
    ParseYmAccepted(endInput);
    LeadIn2000s(today);
    LeadOfFiveDigits(end);
    LexLessByHead(FormatYm(today), FormatYm(end));
    FormatYmOrder(today, start);
    TokenOfOrdinary(start);
    TokenOfOrdinary(today);
  }

  /** A month of the years 2000..2999 is written with the leading digit '2'. */
  lemma LeadIn2000s(ym: YearMonth)
    requires Ordinary(ym) && 2000 <= ym.year <= 2999
    ensures FormatYm(ym) != [] && FormatYm(ym)[0] == '2'
  {
    FormatYmNarrow(ym);
    FourDigitLead(ym.year);
  }

  /** A month of the years 2000..9999 is written with a leading digit above '1'. */
  lemma LeadFrom2000(ym: YearMonth)
    requires Ordinary(ym) && 2000 <= ym.year
    ensures FormatYm(ym) != [] && FormatYm(ym)[0] > '1'
  {
    FormatYmNarrow(ym);
    FourDigitLead(ym.year);
  }

  /** A month of the years 10000..19999 is written with the leading digit '1'. */
  lemma LeadOfWide(ym: YearMonth)
    requires 10000 <= ym.year <= 19999
    ensures FormatYm(ym) != [] && FormatYm(ym)[0] == '1'
  {
    LeadOfFiveDigits(ym);
  }

  /** A month of a five-digit year is written with the year's first digit. */
  lemma LeadOfFiveDigits(ym: YearMonth)
    requires 10000 <= ym.year <= 99999
    ensures FormatYm(ym) != [] && FormatYm(ym)[0] == DigitChar(ym.year / 10000)
  {
    FormatIntNat(ym.year, 4);
    assert Pow10(4) == 10000 && Pow10(5) == 100000;
    NumDigitsAtLeast(ym.year, 4);
    NumDigitsAtMost(ym.year, 5);
    FiveDigitLead(ym.year);
  }

  // ------------------------------------------------------ DataMapper mode

  /** What `run_datamapper` computes for its range: the loose start year, the
      loose end year or the current year, the end lowered to the current year
      when it is later, and `--end must be >= start year` when it is then earlier
      than the start. */
  function DatamapperRangeOf(startInput: string, endInput: Option<string>, currentYear: int): Result<YearRange> {
    match ParseYearLoose(startInput)
    case Err(e) => Err(DatamapperStartInvalid(e))
    case Ok(startYear) =>
      var requested := match endInput case Some(s) => ParseYearLoose(s) case None => Ok(currentYear);
      match requested
      case Err(e) => Err(DatamapperEndInvalid(e))
      case Ok(endYear) =>
        var clamped := if endYear > currentYear then currentYear else endYear;
        if clamped < startYear then Err(EndBeforeStartYear) else Ok(YearRange(startYear, clamped))
  }

  /** `run_datamapper`'s range code, with `end_year_used` a variable that the
      clamp reassigns. */
  method ResolveDatamapperRange(startInput: string, endInput: Option<string>, currentYear: int)
    returns (r: Result<YearRange>)
    ensures r == DatamapperRangeOf(startInput, endInput, currentYear)
  {
    var start := ParseYearLoose(startInput);
    if start.Err? {
      return Err(DatamapperStartInvalid(start.error));
    }
    var startYear := start.value;
    var endYearUsed: int;
    match endInput {
      case Some(s) =>
        var parsed := ParseYearLoose(s);
        if parsed.Err? {
          return Err(DatamapperEndInvalid(parsed.error));
        }
        endYearUsed := parsed.value;
      case None =>
        endYearUsed := currentYear;
    }
    if endYearUsed > currentYear {
      endYearUsed := currentYear;
    }
    if endYearUsed < startYear {
      return Err(EndBeforeStartYear);
    }
    return Ok(YearRange(startYear, endYearUsed));
  }

  /** An accepted DataMapper range starts in 1800..=3000, ends no later than the
      current year and no earlier than the start, and its end is the earlier of
      the requested end and the current year. */
  lemma DatamapperRangeAccepted(startInput: string, endInput: Option<string>, currentYear: int)
    requires DatamapperRangeOf(startInput, endInput, currentYear).Ok?
    ensures var r := DatamapperRangeOf(startInput, endInput, currentYear).value;
      r.startYear == ParseYearLoose(startInput).value
      && 1800 <= r.startYear <= r.endYear <= currentYear
      && (endInput.Some? ==> r.endYear == if ParseYearLoose(endInput.value).value > currentYear
                                           then currentYear else ParseYearLoose(endInput.value).value)
      && (endInput.None? ==> r.endYear == currentYear)
  {
  }

  /** A start or an end that `parse_year_loose` refuses is refused with its
      error, wrapped in the context that names the argument. */
  lemma DatamapperRangeParseErrors(startInput: string, endInput: Option<string>, currentYear: int)
    ensures ParseYearLoose(startInput).Err? ==>
      DatamapperRangeOf(startInput, endInput, currentYear) == Err(DatamapperStartInvalid(ParseYearLoose(startInput).error))
    ensures ParseYearLoose(startInput).Ok? && endInput.Some? && ParseYearLoose(endInput.value).Err? ==>
      DatamapperRangeOf(startInput, endInput, currentYear) == Err(DatamapperEndInvalid(ParseYearLoose(endInput.value).error))
  {
  }

  /** The DataMapper range is refused for an end before the start exactly when
      both years parse and the earlier of the end and the current year lies
      before the start. */
  lemma DatamapperRangeEndBeforeStart(startInput: string, endInput: Option<string>, currentYear: int)
    ensures DatamapperRangeOf(startInput, endInput, currentYear) == Err(EndBeforeStartYear) <==>
      ParseYearLoose(startInput).Ok?
      && (endInput.Some? ==> ParseYearLoose(endInput.value).Ok?)
      && var requested := if endInput.Some? then ParseYearLoose(endInput.value).value else currentYear;
         (if requested > currentYear then currentYear else requested) < ParseYearLoose(startInput).value
  {
  }
}
