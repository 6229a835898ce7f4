/** Month periods as the calculator writes them: the user's "YYYY-MM"
    (`parse_ym`), the SDMX monthly token "YYYY-MMM" such as "2025-M03"
    (`ym_to_sdmx_period`, `sdmx_period_to_ym`) and a loosely written year
    (`parse_year_loose`). */
module Periods {
  import opened Outcomes
  import opened Texts
  import opened Numerals

  /** A year and a month as parsed from the text; nothing else is kept. */
  datatype YearMonth = YearMonth(year: int, month: int)

  /** The order of calendar months. */
  predicate Before(a: YearMonth, b: YearMonth) {
    a.year < b.year || (a.year == b.year && a.month < b.month)
  }

  /** The years chrono's `NaiveDate::from_ymd_opt` can represent. */
  const ChronoMinYear: int := -262144
  const ChronoMaxYear: int := 262143

  /** `NaiveDate::from_ymd_opt(y, m, 1).is_some()` for a month in 1..=12: the first
      day of every month exists, so only the year range matters. */
  predicate FirstOfMonthExists(y: int, m: int)
    requires 1 <= m <= 12
  {
    ChronoMinYear <= y <= ChronoMaxYear
  }

  /** The checks of `parse_ym` (src/main.rs:270-286) in order, keeping the parsed
      numbers: the trimmed text must be 7 bytes long and split at '-' into exactly
      two pieces, the pieces must parse as i32 and u32, the month must lie in
      1..=12 and chrono must accept the date. */
  function ParseYmFields(s: string): Result<YearMonth> {
    var t := Trim(s);
    if Utf8Len(t) != 7 then Err(ExpectedYearMonth)
    else
      var parts := Split(t, '-');
      if |parts| != 2 then Err(ExpectedYearMonth)
      else
        match ParseI32(parts[0])
        case None => Err(InvalidInteger)
        case Some(y) =>
          match ParseU32(parts[1])
          case None => Err(InvalidInteger)
          case Some(m) =>
            if !(1 <= m <= 12) then Err(MonthOutOfRange)
            else if !FirstOfMonthExists(y, m) then Err(InvalidDate)
            else Ok(YearMonth(y, m))
  }

  /** `format!("{:04}-{:02}", y, m)`. */
  function FormatYm(ym: YearMonth): string {
    FormatInt(ym.year, 4) + "-" + FormatInt(ym.month, 2)
  }

  /** `format!("{:04}-M{:02}", y, m)`, the SDMX monthly period. */
  function WireToken(ym: YearMonth): string {
    FormatInt(ym.year, 4) + "-M" + FormatInt(ym.month, 2)
  }

  /** `parse_ym`: the period rewritten as "YYYY-MM", or why it was refused. */
  function ParseYm(s: string): Result<string> {
    match ParseYmFields(s)
    case Ok(ym) => Ok(FormatYm(ym))
    case Err(e) => Err(e)
  }

  /** `ym_to_sdmx_period` (src/main.rs:299-305): `parse_ym`, then split its output
      at '-' again, parse both pieces again and write the SDMX token. Indexing the
      two pieces cannot go out of bounds and the second parse cannot fail, so the
      result is the token of what `parse_ym` read. */
  function YmToSdmxPeriod(s: string): (r: Result<string>)
    ensures r == match ParseYmFields(s) case Ok(ym) => Ok(WireToken(ym)) case Err(e) => Err(e)
  {
    match ParseYm(s)
    case Err(e) => Err(e)
    case Ok(t) =>
      ParseYmBounds(s);
      FormattedReparses(ParseYmFields(s).value);
      var parts := Split(t, '-');
      match ParseI32(parts[0])
      case None => Err(InvalidInteger)
      case Some(y) =>
        match ParseU32(parts[1])
        case None => Err(InvalidInteger)
        case Some(m) => Ok(FormatInt(y, 4) + "-M" + FormatInt(m, 2))
  }

  const DashByte: byte := 0x2D    // '-'
  const MByte: byte := 0x4D       // 'M'

  predicate IsDigitByte(x: byte) {
    0x30 <= x <= 0x39
  }

  /** The test of `sdmx_period_to_ym`: 8 bytes, '-' and 'M' at byte offsets 4 and
      5, and `mm`, the text of bytes 6 and 7, made of ASCII digits. A character
      outside ASCII has no byte below 0x80, so `mm` is made of ASCII digits exactly
      when both of its bytes are. */
  predicate WireShaped(b: seq<byte>) {
    |b| == 8 && b[4] == DashByte && b[5] == MByte && IsDigitByte(b[6]) && IsDigitByte(b[7])
  }

  /** `sdmx_period_to_ym` (src/main.rs:331-342): "2025-M11" becomes "2025-11";
      any other text comes back unchanged. The byte offsets 4, 6 and 8 that the
      source slices at are character boundaries because the last four bytes are
      ASCII, so the year is the text before the last four characters and the
      month the last two. */
  function SdmxPeriodToYm(p: string): (r: string)
    ensures var b := Utf8(p); Utf8(r) == if WireShaped(b) then b[..4] + [DashByte] + b[6..] else b
  {
    var b := Utf8(p);
    if WireShaped(b) then
      WireShapedText(p, b);
      p[..|p| - 4] + "-" + p[|p| - 2..]
    else p
  }

  /** `parse_year_loose` (src/main.rs:288-296): the i32 before the first '-' of
      the trimmed text, which must lie in 1800..=3000. (`split` always yields a
      first piece, so the `unwrap_or` fallback never applies.) */
  function ParseYearLoose(s: string): (r: Result<int>)
    ensures r.Ok? ==> 1800 <= r.value <= 3000
  {
    var yearPart := Split(Trim(s), '-')[0];
    match ParseI32(yearPart)
    case None => Err(InvalidInteger)
    case Some(y) => if 1800 <= y <= 3000 then Ok(y) else Err(YearOutOfRange)
  }

  // ----------------------------------------------------- text of periods

  lemma DigitsNoDash(s: string)
    requires AllDigits(s)
    ensures '-' !in s && 'M' !in s
    ensures s != [] ==> !IsWhitespace(s[0]) && !IsWhitespace(s[|s| - 1])
  {
  }

  lemma DigitsAscii(s: string)
    requires AllDigits(s)
    ensures IsAscii(s)
  {
    assert forall i :: 0 <= i < |s| ==> IsDigit(s[i]);
  }

  /** A piece before the '-' of a 7-byte text is at most 5 characters long, and a
      piece that parses as i32 has no '-', so the year is in 0..=99999. */
  lemma ParseYmBounds(s: string)
    requires ParseYmFields(s).Ok? || ParseYmFields(s) == Err(InvalidDate)
    ensures var t := Trim(s); var parts := Split(t, '-');
      |parts| == 2 && ParseI32(parts[0]).Some? && 0 <= ParseI32(parts[0]).value <= 99999
    ensures ParseYmFields(s).Ok? ==> 1 <= ParseYmFields(s).value.month <= 12
  {
    var t := Trim(s);
    var parts := Split(t, '-');
    SplitJoin(t, '-');
    SplitPiecesNoSep(t, '-');
    assert t == parts[0] + ['-'] + parts[1];
    Utf8LenConcat(parts[0] + ['-'], parts[1]);
    Utf8LenConcat(parts[0], ['-']);
    assert Utf8Len(['-']) == 1;
    Utf8LenBounds(parts[0]);
    Utf8LenBounds(parts[1]);
    ParseI32NoMinus(parts[0]);
    Pow10Monotone(|parts[0]|, 5);
    assert Pow10(5) == 100000;
  }

  /** `parse_ym` never reports "Invalid date": every year it can read from 7 bytes
      is one chrono represents. */
  lemma ParseYmNeverInvalidDate(s: string)
    ensures ParseYmFields(s) != Err(InvalidDate)
  {
    if ParseYmFields(s) == Err(InvalidDate) {
      ParseYmBounds(s);
    }
  }

  /** What `parse_ym` accepts: a month in 1..=12 and a year in 0..=99999 (a leading
      '-' would make a third piece), written back as "YYYY-MM" with at least four
      year digits. */
  lemma ParseYmAccepted(s: string)
    requires ParseYmFields(s).Ok?
    ensures var ym := ParseYmFields(s).value;
      1 <= ym.month <= 12 && 0 <= ym.year <= 99999 && ParseYm(s) == Ok(FormatYm(ym))
  {
    ParseYmBounds(s);
  }

  /** The text y written with four digits, a '-' and m written with two digits. */
  lemma PaddedText(y: nat, m: nat, sep: string)
    requires y < 10000 && m < 100 && sep != [] && IsAscii(sep)
    requires !IsWhitespace(sep[0]) && !IsWhitespace(sep[|sep| - 1])
    requires sep == "-" || sep == "-M"
    ensures var text := FixedDigits(y, 4) + sep + FixedDigits(m, 2);
      Trim(text) == text && Utf8Len(text) == 6 + |sep| && IsAscii(text)
  {
    var text := FixedDigits(y, 4) + sep + FixedDigits(m, 2);
    DigitsNoDash(FixedDigits(y, 4));
    DigitsNoDash(FixedDigits(m, 2));
    DigitsAscii(FixedDigits(y, 4));
    DigitsAscii(FixedDigits(m, 2));
    assert text[0] == FixedDigits(y, 4)[0];
    assert text[|text| - 1] == FixedDigits(m, 2)[1];
    TrimUnchanged(text);
    assert forall i :: 0 <= i < |text| ==> text[i] as int < 0x80 by {
      forall i | 0 <= i < |text|
        ensures text[i] as int < 0x80
      {
        if i < 4 {
          assert text[i] == FixedDigits(y, 4)[i];
        } else if i < 4 + |sep| {
          assert text[i] == sep[i - 4];
        } else {
          assert text[i] == FixedDigits(m, 2)[i - 4 - |sep|];
        }
      }
    }
    Utf8LenBounds(text);
  }

  /** A four-digit year and a two-digit month written as "YYYY-MM". */
  lemma FormatYmNarrow(ym: YearMonth)
    requires 0 <= ym.year <= 9999 && 0 <= ym.month <= 99
    ensures FormatYm(ym) == FixedDigits(ym.year, 4) + "-" + FixedDigits(ym.month, 2)
    ensures WireToken(ym) == FixedDigits(ym.year, 4) + "-M" + FixedDigits(ym.month, 2)
  {
    assert Pow10(4) == 10000 && Pow10(2) == 100;
    FormatIntNarrow(ym.year, 4);
    FormatIntNarrow(ym.month, 2);
  }

  /** Splitting what `parse_ym` wrote at '-' gives the year and month digits, and
      they parse back to the same numbers. */
  lemma FormattedReparses(ym: YearMonth)
    requires 0 <= ym.year <= 99999 && 1 <= ym.month <= 12
    ensures var parts := Split(FormatYm(ym), '-');
      parts == [FormatInt(ym.year, 4), FormatInt(ym.month, 2)]
      && ParseI32(parts[0]) == Some(ym.year) && ParseU32(parts[1]) == Some(ym.month)
  {
    FormatIntNat(ym.year, 4);
    FormatIntNat(ym.month, 2);
    DigitsNoDash(FormatInt(ym.year, 4));
    DigitsNoDash(FormatInt(ym.month, 2));
    SplitOne(FormatInt(ym.year, 4), '-', FormatInt(ym.month, 2));
    ParseI32Digits(FormatInt(ym.year, 4));
    ParseU32Digits(FormatInt(ym.month, 2));
  }

  /** "YYYY-MM" with a four-digit year is 7 bytes and has nothing to trim. */
  lemma CanonicalLayout(ym: YearMonth)
    requires 0 <= ym.year <= 9999 && 1 <= ym.month <= 12
    ensures Trim(FormatYm(ym)) == FormatYm(ym) && Utf8Len(FormatYm(ym)) == 7
  {
    FormatYmNarrow(ym);
    PaddedText(ym.year, ym.month, "-");
  }

  /** The decisions of `parse_ym` for a trimmed 7-byte text with one '-'. */
  lemma ParseYmFieldsOfPieces(t: string, a: string, b: string)
    requires Trim(t) == t && Utf8Len(t) == 7 && Split(t, '-') == [a, b]
    ensures ParseYmFields(t) ==
      match ParseI32(a)
      case None => Err(InvalidInteger)
      case Some(y) =>
        match ParseU32(b)
        case None => Err(InvalidInteger)
        case Some(m) =>
          if !(1 <= m <= 12) then Err(MonthOutOfRange)
          else if !FirstOfMonthExists(y, m) then Err(InvalidDate)
          else Ok(YearMonth(y, m))
  {
  }

  /** Round trip: a canonical "YYYY-MM" with a four-digit year parses to its own
      year and month. */
  lemma {:induction false} ParseYmCanonical(ym: YearMonth)
    requires 0 <= ym.year <= 9999 && 1 <= ym.month <= 12
    ensures ParseYmFields(FormatYm(ym)) == Ok(ym)
    ensures ParseYm(FormatYm(ym)) == Ok(FormatYm(ym))
  {
    CanonicalLayout(ym);
    FormattedReparses(ym);
    ParseYmFieldsOfPieces(FormatYm(ym), FormatInt(ym.year, 4), FormatInt(ym.month, 2));
  }

  /** A well-formed "YYYY-MM" whose month is not in 1..=12 is refused with "Month
      out of range". */
  lemma ParseYmMonthOutOfRange(y: nat, m: nat)
    requires y <= 9999 && m <= 99 && !(1 <= m <= 12)
    ensures ParseYmFields(FixedDigits(y, 4) + "-" + FixedDigits(m, 2)) == Err(MonthOutOfRange)
  {
    var text := FixedDigits(y, 4) + "-" + FixedDigits(m, 2);
    PaddedText(y, m, "-");
    DigitsNoDash(FixedDigits(y, 4));
    DigitsNoDash(FixedDigits(m, 2));
    SplitOne(FixedDigits(y, 4), '-', FixedDigits(m, 2));
    assert Pow10(4) == 10000 && Pow10(2) == 100;
    ParseI32Fixed(y, 4);
    ParseU32Fixed(m, 2);
  }

  /** A year of five digits makes "YYYY-MM" at least 8 bytes long, with nothing
      to trim. */
  lemma WideLayout(ym: YearMonth)
    requires 10000 <= ym.year <= 99999 && 1 <= ym.month <= 12
    ensures Trim(FormatYm(ym)) == FormatYm(ym) && Utf8Len(FormatYm(ym)) >= 8
  {
    var text := FormatYm(ym);
    var ys, ms := FormatInt(ym.year, 4), FormatInt(ym.month, 2);
    FormatIntNat(ym.year, 4);
    FormatIntNat(ym.month, 2);
    assert Pow10(4) == 10000;
    NumDigitsAtLeast(ym.year, 4);
    DigitsNoDash(ys);
    DigitsNoDash(ms);
    assert text[0] == ys[0];
    assert text[|text| - 1] == ms[|ms| - 1];
    TrimUnchanged(text);
    Utf8LenBounds(text);
  }

  /** A year of five digits is written with five digits, so `parse_ym` refuses
      its own output. */
  lemma ParseYmWideYear(ym: YearMonth)
    requires 10000 <= ym.year <= 99999 && 1 <= ym.month <= 12
    ensures ParseYmFields(FormatYm(ym)) == Err(ExpectedYearMonth)
  {
    WideLayout(ym);
  }

  /** `parse_ym` is idempotent on what it accepts exactly when the year has at
      most four digits. */
  lemma ParseYmIdempotent(s: string)
    requires ParseYmFields(s).Ok?
    ensures var t := FormatYm(ParseYmFields(s).value);
      ParseYm(t) == Ok(t) <==> ParseYmFields(s).value.year <= 9999
  {
    var ym := ParseYmFields(s).value;
    ParseYmAccepted(s);
    if ym.year <= 9999 {
      ParseYmCanonical(ym);
    } else {
      ParseYmWideYear(ym);
    }
  }

  /** The SDMX token of `ym_to_sdmx_period` for input that `parse_ym` accepts. */
  lemma YmToSdmxPeriodAccepted(s: string)
    requires ParseYmFields(s).Ok?
    ensures YmToSdmxPeriod(s) == Ok(WireToken(ParseYmFields(s).value))
  {
  }

  // ---------------------------------------------------- sdmx_period_to_ym

  lemma WireShapedTail(b: seq<byte>)
    requires WireShaped(b)
    ensures AsciiTail(b, 4) && AsciiTail(b, 2)
  {
  }

  /** The encoding of two texts joined by '-'. */
  lemma Utf8AroundDash(x: string, y: string)
    ensures Utf8(x + "-" + y) == Utf8(x) + [DashByte] + Utf8(y)
  {
    Utf8Concat(x + "-", y);
    Utf8Concat(x, "-");
    assert Utf8("-") == [DashByte];
  }

  /** The last four bytes of an SDMX-shaped text are four ASCII characters, so
      the byte ranges 0..4 and 6..8 are the text before the last four characters
      and the last two characters. */
  lemma WireShapedPieces(p: string, b: seq<byte>)
    requires b == Utf8(p) && WireShaped(b)
    ensures |p| >= 4
    ensures Utf8(p[..|p| - 4]) == b[..4] && Utf8(p[|p| - 2..]) == b[6..]
  {
    WireShapedTail(b);
    WireYearPiece(p, b);
    WireMonthPiece(p, b);
  }

  lemma WireYearPiece(p: string, b: seq<byte>)
    requires b == Utf8(p) && |b| == 8 && AsciiTail(b, 4)
    ensures |p| >= 4 && Utf8(p[..|p| - 4]) == b[..4]
  {
    Utf8AsciiTail(p, 4);
  }

  lemma WireMonthPiece(p: string, b: seq<byte>)
    requires b == Utf8(p) && |b| == 8 && AsciiTail(b, 2)
    ensures |p| >= 2 && Utf8(p[|p| - 2..]) == b[6..]
  {
    Utf8AsciiSuffix(p, 2);
  }

  lemma WireShapedText(p: string, b: seq<byte>)
    requires b == Utf8(p) && WireShaped(b)
    ensures |p| >= 4
    ensures Utf8(p[..|p| - 4] + "-" + p[|p| - 2..]) == b[..4] + [DashByte] + b[6..]
  {
    WireShapedPieces(p, b);
    Utf8AroundDash(p[..|p| - 4], p[|p| - 2..]);
  }

  /** `sdmx_period_to_ym` turns the token of a four-digit year back into the
      "YYYY-MM" text of the same month. */
  lemma SdmxPeriodToYmOfToken(ym: YearMonth)
    requires 0 <= ym.year <= 9999 && 1 <= ym.month <= 12
    ensures SdmxPeriodToYm(WireToken(ym)) == FormatYm(ym)
  {
    var p := WireToken(ym);
    FormatYmNarrow(ym);
    PaddedText(ym.year, ym.month, "-M");
    Utf8OfAscii(p);
    assert p[4] == '-' && p[5] == 'M';
    assert IsDigit(p[6]) by {
      assert p[6] == FixedDigits(ym.month, 2)[0];
    }
    assert IsDigit(p[7]) by {
      assert p[7] == FixedDigits(ym.month, 2)[1];
    }
    assert WireShaped(Utf8(p));
    assert p[..|p| - 4] == FixedDigits(ym.year, 4);
    assert p[|p| - 2..] == FixedDigits(ym.month, 2);
  }

  /** The token of a five-digit year is 9 bytes long and comes back unchanged. */
  lemma SdmxPeriodToYmWideToken(ym: YearMonth)
    requires 10000 <= ym.year <= 99999 && 1 <= ym.month <= 12
    ensures SdmxPeriodToYm(WireToken(ym)) == WireToken(ym)
  {
    var p := WireToken(ym);
    FormatIntNat(ym.year, 4);
    assert Pow10(4) == 10000;
    NumDigitsAtLeast(ym.year, 4);
    Utf8NoShorter(p);
  }

  /** Round trip through the wire format: for a period with a four-digit year,
      mapping the SDMX token of what the user typed back gives what `parse_ym`
      gives. */
  lemma PeriodRoundTrip(s: string)
    requires ParseYmFields(s).Ok? && ParseYmFields(s).value.year <= 9999
    ensures YmToSdmxPeriod(s).Ok? && ParseYm(s).Ok?
    ensures SdmxPeriodToYm(YmToSdmxPeriod(s).value) == ParseYm(s).value
  {
    ParseYmAccepted(s);
    YmToSdmxPeriodAccepted(s);
    SdmxPeriodToYmOfToken(ParseYmFields(s).value);
  }

  /** Applying `sdmx_period_to_ym` twice changes nothing more: its rewritten
      output is 7 bytes long, not 8. */
  lemma SdmxPeriodToYmIdempotent(p: string)
    ensures SdmxPeriodToYm(SdmxPeriodToYm(p)) == SdmxPeriodToYm(p)
  {
  }

  // --------------------------------------------------------------- order

  lemma PaddedOrder(a: YearMonth, b: YearMonth, sep: string)
    requires 0 <= a.year <= 9999 && 0 <= a.month <= 99
    requires 0 <= b.year <= 9999 && 0 <= b.month <= 99
    ensures var ta := FixedDigits(a.year, 4) + sep + FixedDigits(a.month, 2);
      var tb := FixedDigits(b.year, 4) + sep + FixedDigits(b.month, 2);
      LexLess(ta, tb) <==> Before(a, b)
  {
    assert Pow10(4) == 10000 && Pow10(2) == 100;
    var ya, yb := FixedDigits(a.year, 4), FixedDigits(b.year, 4);
    var ma, mb := FixedDigits(a.month, 2), FixedDigits(b.month, 2);
    assert ya + sep + ma == ya + (sep + ma);
    assert yb + sep + mb == yb + (sep + mb);
    LexLessConcat(ya, sep + ma, yb, sep + mb);
    LexLessConcat(sep, ma, sep, mb);
    LexLessIrreflexive(sep);
    FixedDigitsOrder(a.year, b.year, 4);
    FixedDigitsOrder(a.month, b.month, 2);
    if ya == yb {
      FixedDigitsValue(a.year, 4);
      FixedDigitsValue(b.year, 4);
    }
  }

  /** For four-digit years, comparing the "YYYY-MM" texts as strings is comparing
      the months in time; the program relies on this when it compares periods as
      strings. */
  lemma FormatYmOrder(a: YearMonth, b: YearMonth)
    requires 0 <= a.year <= 9999 && 1 <= a.month <= 12
    requires 0 <= b.year <= 9999 && 1 <= b.month <= 12
    ensures LexLess(FormatYm(a), FormatYm(b)) <==> Before(a, b)
  {
    FormatYmNarrow(a);
    FormatYmNarrow(b);
    PaddedOrder(a, b, "-");
  }

  /** The same for the SDMX tokens that the observations carry. */
  lemma WireTokenOrder(a: YearMonth, b: YearMonth)
    requires 0 <= a.year <= 9999 && 1 <= a.month <= 12
    requires 0 <= b.year <= 9999 && 1 <= b.month <= 12
    ensures LexLess(WireToken(a), WireToken(b)) <==> Before(a, b)
  {
    FormatYmNarrow(a);
    FormatYmNarrow(b);
    PaddedOrder(a, b, "-M");
  }

  // ---------------------------------------------------- parse_year_loose

  /** Whatever follows the first '-' is ignored. */
  lemma ParseYearLooseIgnoresRest(a: string, rest: string)
    requires a != [] && '-' !in a && !IsWhitespace(a[0]) && !IsWhitespace(a[|a| - 1])
    ensures ParseYearLoose(a + "-" + rest) == ParseYearLoose(a)
  {
    var s := a + "-" + rest;
    assert TrimStart(s) == s;
    assert s == (a + "-") + rest;
    TrimEndAfter(a + "-", rest);
    SplitFirst(a, '-', TrimEnd(rest));
    TrimUnchanged(a);
    SplitNone(a, '-');
  }

  lemma LeadingDashYearPart(d: string)
    requires d != [] && AllDigits(d)
    ensures Split(Trim("-" + d), '-')[0] == ""
  {
    var s := "-" + d;
    DigitsNoDash(d);
    assert s[|s| - 1] == d[|d| - 1];
    TrimUnchanged(s);
    assert s[0] == '-';
  }

  /** `parse_year_loose` on a plain string of digits. */
  lemma ParseYearLooseOfDigits(s: string)
    requires s != [] && AllDigits(s) && DigitsValue(s) <= I32Max
    ensures ParseYearLoose(s) ==
      if 1800 <= DigitsValue(s) <= 3000 then Ok(DigitsValue(s)) else Err(YearOutOfRange)
  {
    DigitsNoDash(s);
    TrimUnchanged(s);
    SplitNone(s, '-');
    ParseI32Digits(s);
  }

  /** `parse_year_loose` on an integer as `to_string` writes it: the integer
      itself in 1800..=3000, "Year out of reasonable range" for the other
      non-negative i32 values, and a parse error for negative numbers, whose
      text before the first '-' is empty. */
  lemma ParseYearLooseOfInt(y: int)
    requires y <= I32Max
    ensures ParseYearLoose(IntToString(y)) ==
      if y < 0 then Err(InvalidInteger)
      else if 1800 <= y <= 3000 then Ok(y)
      else Err(YearOutOfRange)
  {
    var s := IntToString(y);
    if y >= 0 {
      IntToStringValue(y);
      ParseYearLooseOfDigits(s);
    } else {
      IntToStringNegative(y);
      var d := IntToString(-y);
      IntToStringValue(-y);
      LeadingDashYearPart(d);
      assert Split(Trim(s), '-')[0] == "";
    }
  }

  /** `parse_year_loose` reads the year of a "YYYY-MM" text. */
  lemma ParseYearLooseOfYm(ym: YearMonth)
    requires 1800 <= ym.year <= 3000 && 1 <= ym.month <= 12
    ensures ParseYearLoose(FormatYm(ym)) == Ok(ym.year)
  {
    FormatYmNarrow(ym);
    var ys := FixedDigits(ym.year, 4);
    DigitsNoDash(ys);
    ParseYearLooseIgnoresRest(ys, FixedDigits(ym.month, 2));
    assert Pow10(4) == 10000;
    FixedDigitsValue(ym.year, 4);
    ParseYearLooseOfDigits(ys);
  }
}
