# Real-income calculator: the verified core

`real-income` is a command-line tool. It asks how much money you had at a
start date and tells you what that amount is worth today once consumer-price
inflation is taken out. It has two data sources:

- **SDMX mode.** Monthly consumer price index levels come from the IMF SDMX
  service as an SDMX-ML data message. An optional country picker reads the
  ISO3 country codelist.
- **DataMapper mode.** Annual inflation rates (indicator `PCPIPCH`) come from
  the IMF DataMapper JSON service.

This project models the logic of `src/main.rs` that decides what gets asked
for and what is read back. It covers:

- the parsers of periods (`parse_ym`, `parse_year_loose`) and the two
  conversions of the SDMX monthly token (`ym_to_sdmx_period`,
  `sdmx_period_to_ym`);
- how each mode resolves its date range, including the clamp of the end to
  "now";
- the event loop that reads the country codelist, and the sort of that list
  by lower-cased name;
- the event loop that reads `Obs` elements, the sort by period, and the
  choice of the start observation and the latest one;
- the DataMapper loop that compounds the annual rates into a deflator;
- the names of the cached responses.

Modules, one per file:

| module | file | models |
|---|---|---|
| `Outcomes` | outcomes.dfy | `Option`, `Result` and the error messages the core can return |
| `Texts` | texts.dfy | the Rust string operations used: UTF-8 length, `trim`, `split`, byte order of `String`, `ends_with` on byte names, ASCII case, `replace` |
| `Numerals` | numerals.dfy | `i32`/`u32` parsing, `{:04}`/`{:02}` formatting, `to_string` |
| `Periods` | periods.dfy | `parse_ym`, `parse_year_loose`, `ym_to_sdmx_period`, `sdmx_period_to_ym` |
| `Ranges` | ranges.dfy | the range code of `run_sdmx` and `run_datamapper` |
| `Sorting` | sorting.dfy | the stable `Vec::sort_by` with a string key |
| `XmlEvents` | events.dfy | the events and attributes quick-xml hands over |
| `Codelist` | codelist.dfy | the codelist loop of `sdmx_load_or_fetch_countries_iso3` |
| `Observations` | observations.dfy | the `Obs` loop and the selection of `sdmx_fetch_cpi_start_and_latest` |
| `Datamapper` | datamapper.dfy | the lookup and yearly chain of `datamapper_deflator_and_yearly_pcpipch` |
| `CacheKeys` | cachekeys.dfy | the SDMX series key and the two cache file names |

Each loop and each variable the source reassigns becomes a `method`, and each
loop a `while` loop with invariants. That method is proved equal to a specification function, such as
`Codelist.Scan`, `Observations.ScanObs` or `Datamapper.Yearly`/`Compound`.
What the source promises is then proved about those functions as lemmas.

The code and its own comments disagree in one place, and the model follows
the code. `parse_ym` is meant to take exactly "YYYY-MM". The code only checks
that the trimmed text is 7 bytes long and splits at '-' into two pieces that
parse as `i32` and `u32`. So it also accepts "10000-1", which it writes as
"10000-01", and "+202-01", which it writes as "0202-01".

- `Periods.ParseYmWideYear` and `Periods.ParseYmIdempotent` show that the
  8-character rewriting of a five-digit year is not accepted again.
- `Ranges.SdmxRangeWideStart` shows the consequence. An SDMX run that starts
  in a five-digit year is always refused, after the country has already been
  chosen. A failing `--end` parse refuses it ("End must be YYYY-MM for SDMX
  mode"), or else the order check does ("--end must be >= start"), or else
  `ym_to_sdmx_period` does, because it re-parses `parse_ym`'s output.
- `Ranges.SdmxRangeWideEnd` shows the same quirk at the other end. An
  `--end` in the years 10000..19999 is never lowered to the current month,
  because "10000-01" sorts before "2026-10" as text. A run from 2000 on is
  then refused as ending before it starts.
- `Ranges.SdmxRangeWideEndClamped` shows the other side. An `--end` in the
  years 30000..99999 sorts after a current month of the years 2000..2999, so
  it is lowered to the current month and the run goes ahead normally.

## Model

| member | source | states |
|---|---|---|
| Periods.ParseYmFields | src/main.rs:270-286 | definition: the checks of `parse_ym` in source order (7 bytes after trim, two pieces at '-', i32 and u32, month 1..=12, chrono date), keeping the year and month |
| Periods.ParseYm | src/main.rs:270-286 | definition: `parse_ym`, the fields written back as "{:04}-{:02}", or the first failed check |
| Periods.ParseYmNeverInvalidDate | src/main.rs:284 | once the length, split, integer and month checks pass, chrono never refuses the date: "Invalid date" cannot be returned |
| Periods.ParseYmAccepted | src/main.rs:270-286 | an accepted period has a month in 1..=12 and a year in 0..=99999, and `parse_ym` returns it written as "{:04}-{:02}" |
| Periods.ParseYmCanonical | src/main.rs:270-286 | a canonical "YYYY-MM" text with a four-digit year parses back to the same year and month, and `parse_ym` returns it unchanged |
| Periods.ParseYmMonthOutOfRange | src/main.rs:281-283 | a well-shaped text whose month is outside 1..=12 gets "Month out of range" |
| Periods.ParseYmWideYear | src/main.rs:272-274 | the text written for a five-digit year is refused with "Expected YYYY-MM" |
| Periods.ParseYmIdempotent | src/main.rs:270-286 | `parse_ym` accepts its own output unchanged exactly when the year has at most four digits |
| Periods.YmToSdmxPeriod | src/main.rs:299-305 | the result is the SDMX token "{:04}-M{:02}" of the year and month `parse_ym` read, or `parse_ym`'s error; the second parse never fails |
| Periods.YmToSdmxPeriodAccepted | src/main.rs:299-305 | every period `parse_ym` accepts gets its SDMX token |
| Periods.SdmxPeriodToYm | src/main.rs:331-342 | in bytes: an 8-byte text with "-M" at offsets 4-5 and ASCII digits at 6-7 loses the 'M', and any other text comes back unchanged |
| Periods.SdmxPeriodToYmOfToken | src/main.rs:331-342 | the token of a four-digit-year month converts back to its "YYYY-MM" text |
| Periods.SdmxPeriodToYmWideToken | src/main.rs:334-341 | the 9-byte token of a five-digit year is returned unchanged |
| Periods.PeriodRoundTrip | src/main.rs:331-342 | for a period `parse_ym` accepts with a four-digit year, `sdmx_period_to_ym(ym_to_sdmx_period(s)) == parse_ym(s)` |
| Periods.SdmxPeriodToYmIdempotent | src/main.rs:331-342 | converting twice gives the same text as converting once |
| Periods.FormatYmOrder | src/main.rs:435-438 | for four-digit years, the string order of "YYYY-MM" texts is the calendar order of the months, in both directions |
| Periods.WireTokenOrder | src/main.rs:814-815 | for four-digit years, the string order of SDMX tokens is the calendar order of the months, in both directions |
| Periods.ParseYearLoose | src/main.rs:288-296 | an accepted year lies in 1800..=3000 |
| Periods.ParseYearLooseIgnoresRest | src/main.rs:290 | only the text before the first '-' counts: "YYYY-anything" reads like "YYYY" |
| Periods.ParseYearLooseOfDigits | src/main.rs:288-296 | a run of digits within i32 is its value when it lies in 1800..=3000, otherwise "Year out of reasonable range" |
| Periods.ParseYearLooseOfInt | src/main.rs:288-296 | on the `to_string` text of an integer: the integer in 1800..=3000, out of range for other non-negative values, a parse error for negative ones |
| Periods.ParseYearLooseOfYm | src/main.rs:521-522 | a "YYYY-MM" text with a year in 1800..=3000 gives that year, so DataMapper mode takes SDMX-style dates |
| Ranges.SdmxRangeOf | src/main.rs:410-444 | definition: both ends as `parse_ym` texts (a refusal wrapped in "Start must be YYYY-MM for SDMX mode" or "End must be YYYY-MM for SDMX mode"), the end lowered to the current month when it is greater as text, the order error when it is then smaller than the start, and both ends converted by `ym_to_sdmx_period` |
| Ranges.ResolveSdmxRange | src/main.rs:410-444 | the method with the reassigned `end_ym` computes exactly `SdmxRangeOf` |
| Ranges.EarlierOf | src/main.rs:435-437 | the calendar reading of the string clamp, which `SdmxRangeChronological` relates it to: one of the two months, and neither is earlier than it |
| Ranges.TokenOfOrdinary | src/main.rs:443-444 | a month with a four-digit year is accepted unchanged by `parse_ym` and gets its own token |
| Ranges.SdmxRangeChronological | src/main.rs:435-444 | with a clock month of four-digit year, the string comparisons mean calendar order: the range is (start, earlier of end and now) as tokens, or "--end must be >= start" exactly when that end is before the start |
| Ranges.SdmxRangeParseErrors | src/main.rs:410-431 | a start that `parse_ym` refuses gives its error under "Start must be YYYY-MM for SDMX mode", and a refused `--end` after an accepted start gives its error under "End must be YYYY-MM for SDMX mode" |
| Ranges.SdmxRangeWideStart | src/main.rs:443 | a start `parse_ym` accepts with a five-digit year always fails |
| Ranges.SdmxRangeWideEnd | src/main.rs:430-439 | with a start and a current month in the years 2000..9999 and an `--end` of the years 10000..19999, the run is refused with "--end must be >= start": the end sorts before the current month as text, so it is not clamped, and before the start |
| Ranges.SdmxRangeWideEndClamped | src/main.rs:430-444 | with a start of a four-digit year, a current month in the years 2000..2999 and an `--end` of the years 30000..99999, the end sorts after the current month as text and is lowered to it: the range is (start, current month) as tokens, or "--end must be >= start" exactly when the current month is before the start |
| Ranges.DatamapperRangeOf | src/main.rs:521-549 | definition: the loose start year, the loose end year or the current year (a refusal wrapped in "Start must be YYYY (or YYYY-MM) for DataMapper mode" or "End must be YYYY (or YYYY-MM) for DataMapper mode"), the end lowered to the current year, and "--end must be >= start year" |
| Ranges.DatamapperRangeParseErrors | src/main.rs:521-540 | a start that `parse_year_loose` refuses gives its error under "Start must be YYYY (or YYYY-MM) for DataMapper mode", and a refused `--end` after an accepted start gives its error under "End must be YYYY (or YYYY-MM) for DataMapper mode" |
| Ranges.ResolveDatamapperRange | src/main.rs:521-549 | the method with the reassigned `end_year_used` computes exactly `DatamapperRangeOf` |
| Ranges.DatamapperRangeAccepted | src/main.rs:521-549 | an accepted range starts at the loose start year and has 1800 <= start <= end <= current year, the end being the given year lowered to the current year, or the current year |
| Sorting.SortBy | src/main.rs:720 | definition: a stable insertion sort by a string key, standing for `Vec::sort_by` with `cmp` on the keys |
| Sorting.SortBySorted | src/main.rs:720 | the sort orders by key |
| Sorting.SortByPermutation | src/main.rs:720 | the sort keeps every element as often as it occurs |
| Sorting.SortByStable | src/main.rs:720 | elements with equal keys keep their original order |
| Sorting.SortByOfSorted | src/main.rs:815 | sorting a sequence that is already ordered changes nothing |
| Codelist.Step | src/main.rs:653-710 | definition: one turn of the event loop for a `Start`, `Text`, `End` or any other event |
| Codelist.Scan | src/main.rs:651-714 | definition: the event loop, stopping at `Eof` and failing on a reader error |
| Codelist.CodelistOf | src/main.rs:640-721 | definition: the loop from the initial state, the empty check, and the sort by lower-cased name |
| Codelist.ReadId | src/main.rs:662-667 | the attribute loop of a `Code` computes `IdAttrs` |
| Codelist.ReadIsEnglish | src/main.rs:670-679 | the attribute loop of a `Name` computes `LangAttrs` |
| Codelist.ExtractCodes | src/main.rs:640-721 | the event loop, the empty check and the sort compute exactly `CodelistOf` |
| Codelist.CodelistAccepted | src/main.rs:716-721 | a successful result is non-empty, ordered by lower-cased name, a permutation of the collected items, and stable for each name |
| Codelist.ScanConcat | src/main.rs:651-714 | the loop over a prefix without `Eof` goes on from the state that prefix leaves, or stops at its error |
| Codelist.ScanStopsAtEof | src/main.rs:708 | nothing after the first `Eof` is read |
| Codelist.ScanReaderError | src/main.rs:709 | a reader error before `Eof` fails the whole codelist |
| Codelist.IdAttrsFindsLast | src/main.rs:662-667 | with readable attributes, the id is the last attribute whose key ends in "id", or the id from before |
| Codelist.LangAttrsFindsEnglish | src/main.rs:670-679 | with readable attributes, a name is English exactly when some key ending in "lang" has the value "en" in any ASCII case |
| Codelist.NameFoldChooses | src/main.rs:681-689 | after a run of names: the text of the last English name, or else the name held already, or else the first name's text |
| Codelist.NameScan | src/main.rs:668-697 | one `Name` element inside a `Code` updates only the current name, as `NameAfter` says |
| Codelist.NamesScan | src/main.rs:668-697 | a run of `Name` elements leaves the name `NameFold` chooses |
| Codelist.CodeScan | src/main.rs:657-705 | a whole `Code` element appends its item and, when it has an id, clears the current id and name |
| Codelist.AfterCodesOut | src/main.rs:699-703 | a run of `Code` elements appends `ItemsOf`: one item per code with an id, in document order |
| Codelist.CodesScan | src/main.rs:651-714 | a well-formed list of `Code` elements is read without error, leaving `AfterCodes` |
| Codelist.CodelistOfDocument | src/main.rs:640-721 | for a rendered codelist document, the result is "Parsed 0 country codes" when no code has an id, and otherwise the items `ItemsOf` defines, sorted by lower-cased name |
| Observations.ObsAttrs | src/main.rs:784-794 | definition: the attribute loop of an `Obs`, keeping the last TIME_PERIOD and the last OBS_VALUE |
| Observations.ScanObs | src/main.rs:776-808 | definition: the event loop, keeping complete `Obs` elements with a positive value |
| Observations.FirstAtOrAfter | src/main.rs:817-820 | definition: `find` of the first observation whose period is not below the start |
| Observations.SelectFrom | src/main.rs:817-836 | definition: the start observation, the last one, and the three errors |
| Observations.CpiOf | src/main.rs:769-836 | definition: the loop, the empty check, the sort by period, and the selection |
| Observations.ReadObsFields | src/main.rs:784-794 | the attribute loop of an `Obs` computes `ObsAttrs` |
| Observations.ExtractObservations | src/main.rs:774-808 | the event loop computes exactly `ScanObs` |
| Observations.FetchCpiStartAndLatest | src/main.rs:769-836 | the loop, the empty check, the sort and the selection compute exactly `CpiOf` |
| Observations.ScanObsPositive | src/main.rs:796-800 | every observation kept has a value above 0 |
| Observations.ObsAttrsTakesLast | src/main.rs:784-794 | the period is the last TIME_PERIOD attribute and the value the last OBS_VALUE one, each falling back to what came before |
| Observations.ObsAttrsNotNumeric | src/main.rs:790-792 | an OBS_VALUE that does not parse as a number fails the message with "OBS_VALUE not numeric" |
| Observations.ScanObsKeeps | src/main.rs:776-808 | the loop keeps exactly `KeptRecords`: the positive, complete `Obs` elements before `Eof`, in document order |
| Observations.FirstAtOrAfterFinds | src/main.rs:817-820 | `find` succeeds exactly when some period is at or after the start, and it returns the first such observation |
| Observations.LastIsLatest | src/main.rs:822 | in a sorted list, no period is later than the last one |
| Observations.FirstIsEarliest | src/main.rs:814-822 | in a sorted list, the start observation is at or after the start, no later than the latest, and the earliest of those at or after the start |
| Observations.SelectFromSorted | src/main.rs:814-836 | on a sorted, positive list with data at or after the start, the selection succeeds with both values positive, both observations taken from the list, and the later of the two periods the latest overall |
| Observations.SortedKept | src/main.rs:810-815 | the sorted observations are ordered, positive and hold exactly the kept ones |
| Observations.CpiAccepted | src/main.rs:769-836 | a successful result has positive values, a start period at or after the requested one and no later than the latest, both observations kept from the message, nothing later than the latest period, and nothing kept between the requested start and the chosen one; when several kept observations share a period, the start is the first of its period in document order and the latest the last of its period |
| Observations.CpiNoDataAtOrAfterStart | src/main.rs:817-820 | "No CPI data found at/after start date" exactly when something was kept and every kept period is before the start |
| Observations.CpiNoObservations | src/main.rs:810-812 | "No observations found" exactly when nothing was kept |
| Datamapper.SeriesOf | src/main.rs:958-966 | definition: the lookup of `values`, then the indicator, then the country as an object |
| Datamapper.Yearly | src/main.rs:972-981 | definition: the years of the range, in order, whose series value is a number, with that number |
| Datamapper.Compound | src/main.rs:977 | definition: the product of the factors 1 + pct/100 of the years used, in order |
| Datamapper.ChainOf | src/main.rs:968-984 | definition: the deflator, the last year used and the years used, or the error when no year is used |
| Datamapper.DeflatorOf | src/main.rs:958-984 | definition: the lookup followed by the chain |
| Datamapper.YearlyChain | src/main.rs:968-984 | the loop over the years with `deflator`, `latest_year` and `yearly` computes exactly `ChainOf` |
| Datamapper.DeflatorLookupErrors | src/main.rs:958-966 | no "values" member gives "Unexpected DataMapper response (missing 'values')"; no entry for the indicator, or no object for the country under it, gives "No data for {indicator} / {country}" |
| Datamapper.DeflatorAndYearly | src/main.rs:958-984 | the JSON lookup followed by the chain computes exactly `DeflatorOf` |
| Datamapper.YearlyFromSeries | src/main.rs:972-981 | every year used lies in the range, has a numeric value in the series, and carries that value |
| Datamapper.YearlyAscending | src/main.rs:972-981 | the years used are strictly increasing |
| Datamapper.YearlyComplete | src/main.rs:972-981 | every year of the range with a numeric value is used |
| Datamapper.YearlyEmpty | src/main.rs:972-981 | no year is used when no year of the range has a numeric value |
| Datamapper.ChainAccepted | src/main.rs:968-984 | a successful chain: the deflator is the product of the yearly factors, the years used are exactly the numeric years of the range in increasing order, and the latest year is the last of them |
| Datamapper.ChainFails | src/main.rs:983 | "No numeric observations found" exactly when no year of the range has a numeric value |
| Datamapper.CompoundConcat | src/main.rs:977 | compounding two runs of years one after the other multiplies their deflators |
| CacheKeys.SeriesKey | src/main.rs:448-451 | definition: the country followed by ".CPI._T.IX.M" |
| CacheKeys.SdmxCacheKey | src/main.rs:733-738 | definition: "sdmx_cpi_xml_", the series key with '.' turned into '_', both periods without '-', joined by '_', then ".xml" |
| CacheKeys.DmCacheKey | src/main.rs:924 | definition: "dm_PCPIPCH_", the country, both years, joined by '_', then ".json" |
| CacheKeys.SqueezedToken | src/main.rs:736-737 | removing '-' from a four-digit-year token gives "YYYYMmm" |
| CacheKeys.SqueezedTokenInjective | src/main.rs:736-737 | different months keep different squeezed tokens |
| CacheKeys.ReplacedSeriesKey | src/main.rs:735 | the rewritten series key is the rewritten country followed by "_CPI__T_IX_M" |
| CacheKeys.SdmxCacheKeyLayout | src/main.rs:733-738 | the SDMX cache name splits into the rewritten country, the tail and two 7-character periods |
| CacheKeys.SdmxCacheKeyCollides | src/main.rs:733-738 | two runs share an SDMX cache file exactly when their countries agree once '.' is turned into '_' and both months agree |
| CacheKeys.SdmxCacheKeyInjective | src/main.rs:733-738 | countries without '.' and the ranges they ask for each get their own SDMX cache file |
| CacheKeys.SdmxCacheKeyDotAlias | src/main.rs:735 | the countries "A.B" and "A_B" share an SDMX cache file |
| CacheKeys.DmCacheKeyInjective | src/main.rs:924 | the DataMapper cache name determines the country and both years |

## Left out

- HTTP, async and retries are not modelled. This covers `reqwest`, the status
  checks and the anti-403 client. Each response body is an input: an event
  sequence for XML, a `Json` value for JSON.
- Reading and writing the cache files is I/O and is not modelled. The file
  names are modelled (`CacheKeys`).
- XML tokenising, well-formedness and entity unescaping are done by quick-xml.
  The reader output is an input to the model: a failed `unescape` or
  `unescape_value` gives a missing value, an attribute the reader cannot read
  is `Malformed`, and a reader failure is `Error`. An event sequence that ends
  without `Eof` is read as if it ended with one.
- Byte-to-value parsing by serde_json is a library call. Its result is the
  `Json` datatype, and `as_f64` is the `Number` case.
- `chrono::Utc::now()` is not modelled. The current month and the current
  year are parameters.
- `f64` values are `real`s, so the arithmetic is exact with no rounding and no
  overflow to infinity. The `f64` parse of `OBS_VALUE` is a parameter, since a
  float parser is a library call.
- The money arithmetic after the data is fetched is not modelled: ratio,
  value now, loss, `fmt_money`, the report printing, the jokes, the prompts,
  `main` and argument parsing are presentation rather than core logic.
- `datamapper_list_countries`, `prompt_fuzzy_pick`, `default_cache_dir` and
  the country code's `trim().to_uppercase()` are not modelled. They are
  network, terminal UI, the operating system and Unicode case tables.
- Ranges.SdmxRangeOf: the source chooses the country between the start parse
  and the end parse, and that choice can fail or use the network. The model
  leaves it out, so it does not capture that a country error comes before an
  end-date error.
- Ranges.DatamapperRangeOf: the same holds for the DataMapper country lookup
  between the two year parses.
- Codelist.NameKey: `to_lowercase` is modelled as ASCII lower-casing. Names
  outside ASCII are compared by their code points unchanged.
- Datamapper.Compound: the deflator is the exact product of the yearly
  factors, not the rounded `f64` product.
- The URL and its `periods=` list (src/main.rs:917-922, 932-935) are not
  modelled. Only the cache name of that query is.
- CacheKeys.SdmxCacheKeyCollides: it is stated for months with a four-digit
  year. These are the only ones `ym_to_sdmx_period` lets through in a run (see
  Ranges.SdmxRangeWideStart).
