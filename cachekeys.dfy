/** The names of the cached responses: the SDMX series key of a country
    (src/main.rs:447-450), the file name of a cached SDMX query
    (src/main.rs:733-738) and the file name of a cached DataMapper query
    (src/main.rs:924). The files themselves are not part of this module. */
module CacheKeys {
  import opened Texts
  import opened Numerals
  import opened Periods
  import opened Ranges
  import Datamapper

  /** `format!("{}.{}.{}.{}.{}", country, "CPI", "_T", "IX", "M")`. */
  function SeriesKey(country: string): string {
    country + "." + "CPI" + "." + "_T" + "." + "IX" + "." + "M"
  }

  /** `format!("sdmx_cpi_xml_{}_{}_{}.xml", ...)` with the dots of the series key
      turned into '_' and the '-' of both periods removed. */
  function SdmxCacheKey(seriesKey: string, startPeriod: string, endPeriod: string): string {
    "sdmx_cpi_xml_" + ReplaceChar(seriesKey, '.', '_') + "_"
      + RemoveChar(startPeriod, '-') + "_" + RemoveChar(endPeriod, '-') + ".xml"
  }

  /** `format!("dm_{}_{}_{}_{}.json", "PCPIPCH", country, start, end)`. */
  function DmCacheKey(country: string, startYear: int, endYear: int): string {
    "dm_" + Datamapper.Indicator + "_" + country + "_" + IntToString(startYear) + "_"
      + IntToString(endYear) + ".json"
  }

  // ------------------------------------------------------- the SDMX key

  /** An SDMX token with a four-digit year loses its one '-': "2024-M01" becomes
      "2024M01". */
  lemma SqueezedToken(ym: YearMonth)
    requires Ordinary(ym)
    ensures RemoveChar(WireToken(ym), '-') == FixedDigits(ym.year, 4) + "M" + FixedDigits(ym.month, 2)
  {
    var y, m := FixedDigits(ym.year, 4), FixedDigits(ym.month, 2);
    FormatYmNarrow(ym);
    DigitsNoDash(y);
    DigitsNoDash(m);
    RemoveCharConcat(y + "-M", m, '-');
    RemoveCharConcat(y, "-M", '-');
    RemoveCharAbsent(y, '-');
    RemoveCharAbsent(m, '-');
    assert RemoveChar("-M", '-') == "M";
  }

  /** Removing the '-' loses nothing: different months keep different texts. */
  lemma SqueezedTokenInjective(a: YearMonth, b: YearMonth)
    requires Ordinary(a) && Ordinary(b)
    requires RemoveChar(WireToken(a), '-') == RemoveChar(WireToken(b), '-')
    ensures a == b
  {
    SqueezedToken(a);
    SqueezedToken(b);
    var t, u := RemoveChar(WireToken(a), '-'), RemoveChar(WireToken(b), '-');
    assert t[..4] == FixedDigits(a.year, 4) && u[..4] == FixedDigits(b.year, 4);
    assert t[5..] == FixedDigits(a.month, 2) && u[5..] == FixedDigits(b.month, 2);
    FormatYmNarrow(a);
    FormatYmNarrow(b);
    assert WireToken(a) == WireToken(b);
    LexLessIrreflexive(WireToken(a));
    WireTokenOrder(a, b);
    WireTokenOrder(b, a);
  }

  /** What follows the country in a series key. */
  const SeriesTail: string := ".CPI._T.IX.M"

  /** The series key with its dots turned into '_' is the country's own
      rewriting followed by the rewritten tail. */
  lemma ReplacedSeriesKey(country: string)
    ensures ReplaceChar(SeriesKey(country), '.', '_') == ReplaceChar(country, '.', '_') + ReplaceChar(SeriesTail, '.', '_')
  {
    assert SeriesKey(country) == country + SeriesTail;
    ReplaceCharConcat(country, SeriesTail, '.', '_');
  }

  /** The name of a cached SDMX query when the periods are tokens with a
      four-digit year (as `ym_to_sdmx_period` writes them): the country's
      rewriting and two 7-character periods. */
  lemma SdmxCacheKeyLayout(country: string, s: YearMonth, e: YearMonth)
    requires Ordinary(s) && Ordinary(e)
    ensures SdmxCacheKey(SeriesKey(country), WireToken(s), WireToken(e))
      == "sdmx_cpi_xml_" + (ReplaceChar(country, '.', '_') + ReplaceChar(SeriesTail, '.', '_')) + "_"
         + RemoveChar(WireToken(s), '-') + "_" + RemoveChar(WireToken(e), '-') + ".xml"
    ensures |RemoveChar(WireToken(s), '-')| == 7 && |RemoveChar(WireToken(e), '-')| == 7
  {
    SqueezedToken(s);
    SqueezedToken(e);
    ReplacedSeriesKey(country);
  }

  /** Two texts of the same layout, whose last two pieces have the same
      lengths, agree piece by piece. */
  lemma SameLayout(p: string, m: string, t: string, r1: string, a1: string, b1: string, r2: string, a2: string, b2: string)
    requires |a1| == |a2| && |b1| == |b2|
    requires p + (r1 + m) + "_" + a1 + "_" + b1 + t == p + (r2 + m) + "_" + a2 + "_" + b2 + t
    ensures r1 == r2 && a1 == a2 && b1 == b2
  {
    var k := p + (r1 + m) + "_" + a1 + "_" + b1 + t;
    var k' := p + (r2 + m) + "_" + a2 + "_" + b2 + t;
    assert |r1| == |r2|;
    var i, j := |p| + |r1| + |m| + 1, |p| + |r1| + |m| + |a1| + 2;
    assert r1 == k[|p|..|p| + |r1|] && r2 == k'[|p|..|p| + |r2|];
    assert a1 == k[i..i + |a1|] && a2 == k'[i..i + |a2|];
    assert b1 == k[j..j + |b1|] && b2 == k'[j..j + |b2|];
  }

  /** Two runs share an SDMX cache file exactly when their countries agree once
      their dots are turned into '_' and they ask for the same months. */
  lemma SdmxCacheKeyCollides(c1: string, s1: YearMonth, e1: YearMonth, c2: string, s2: YearMonth, e2: YearMonth)
    requires Ordinary(s1) && Ordinary(e1) && Ordinary(s2) && Ordinary(e2)
    ensures SdmxCacheKey(SeriesKey(c1), WireToken(s1), WireToken(e1))
            == SdmxCacheKey(SeriesKey(c2), WireToken(s2), WireToken(e2))
      <==> ReplaceChar(c1, '.', '_') == ReplaceChar(c2, '.', '_') && s1 == s2 && e1 == e2
  {
    SdmxCacheKeyLayout(c1, s1, e1);
    SdmxCacheKeyLayout(c2, s2, e2);
    if SdmxCacheKey(SeriesKey(c1), WireToken(s1), WireToken(e1))
       == SdmxCacheKey(SeriesKey(c2), WireToken(s2), WireToken(e2))
    {
      SameLayout("sdmx_cpi_xml_", ReplaceChar(SeriesTail, '.', '_'), ".xml",
        ReplaceChar(c1, '.', '_'), RemoveChar(WireToken(s1), '-'), RemoveChar(WireToken(e1), '-'),
        ReplaceChar(c2, '.', '_'), RemoveChar(WireToken(s2), '-'), RemoveChar(WireToken(e2), '-'));
      SqueezedTokenInjective(s1, s2);
      SqueezedTokenInjective(e1, e2);
    }
  }

  /** Countries without a dot have their own SDMX cache files. */
  lemma SdmxCacheKeyInjective(c1: string, s1: YearMonth, e1: YearMonth, c2: string, s2: YearMonth, e2: YearMonth)
    requires Ordinary(s1) && Ordinary(e1) && Ordinary(s2) && Ordinary(e2)
    requires '.' !in c1 && '.' !in c2
    requires SdmxCacheKey(SeriesKey(c1), WireToken(s1), WireToken(e1))
             == SdmxCacheKey(SeriesKey(c2), WireToken(s2), WireToken(e2))
    ensures c1 == c2 && s1 == s2 && e1 == e2
  {
    SdmxCacheKeyCollides(c1, s1, e1, c2, s2, e2);
    var r1, r2 := ReplaceChar(c1, '.', '_'), ReplaceChar(c2, '.', '_');
    assert forall i :: 0 <= i < |c1| ==> c1[i] == r1[i];
    assert forall i :: 0 <= i < |c2| ==> c2[i] == r2[i];
  }

  /** The dots are not kept apart from '_': "A.B" and "A_B" share a cache file. */
  lemma SdmxCacheKeyDotAlias(s: YearMonth, e: YearMonth)
    requires Ordinary(s) && Ordinary(e)
    ensures "A.B" != "A_B"
    ensures SdmxCacheKey(SeriesKey("A.B"), WireToken(s), WireToken(e))
            == SdmxCacheKey(SeriesKey("A_B"), WireToken(s), WireToken(e))
  {
    var r1, r2 := ReplaceChar("A.B", '.', '_'), ReplaceChar("A_B", '.', '_');
    assert r1[1] == '_' && r2[1] == '_';
    assert r1 == r2;
    SdmxCacheKeyCollides("A.B", s, e, "A_B", s, e);
  }

  // -------------------------------------------------- the DataMapper key

  /** `to_string` of an integer writes digits and at most a '-'. */
  lemma IntToStringNoUnderscore(v: int)
    ensures '_' !in IntToString(v)
  {
    if v >= 0 {
      IntToStringNat(v);
    } else {
      IntToStringNat(-v);
      IntToStringNegative(v);
    }
  }

  /** A separator that occurs in neither tail marks the same place in both
      texts. */
  lemma LastSeparator(x: string, y: string, x': string, y': string, c: char)
    requires x + [c] + y == x' + [c] + y'
    requires c !in y && c !in y'
    ensures x == x' && y == y'
  {
    var w := x + [c] + y;
    assert w[|x|] == c && w[|x'|] == c;
    assert forall j :: |x| < j < |w| ==> w[j] == y[j - |x| - 1] && y[j - |x| - 1] != c;
    assert forall j :: |x'| < j < |w| ==> w[j] == y'[j - |x'| - 1] && y'[j - |x'| - 1] != c;
    assert |x| == |x'|;
    assert x == w[..|x|] && x' == w[..|x'|];
    assert y == w[|x| + 1..] && y' == w[|x'| + 1..];
  }

  /** Different DataMapper queries have different cache files: the name
      determines the country and both years, since the years are written
      without '_'. */
  lemma DmCacheKeyInjective(c1: string, s1: int, e1: int, c2: string, s2: int, e2: int)
    requires DmCacheKey(c1, s1, e1) == DmCacheKey(c2, s2, e2)
    ensures c1 == c2 && s1 == s2 && e1 == e2
  {
    var p := "dm_" + Datamapper.Indicator + "_";
    var t1, t2 := IntToString(e1) + ".json", IntToString(e2) + ".json";
    IntToStringNoUnderscore(s1);
    IntToStringNoUnderscore(s2);
    IntToStringNoUnderscore(e1);
    IntToStringNoUnderscore(e2);
    assert '_' !in t1 && '_' !in t2;
    assert DmCacheKey(c1, s1, e1) == (p + c1 + "_" + IntToString(s1)) + ['_'] + t1;
    assert DmCacheKey(c2, s2, e2) == (p + c2 + "_" + IntToString(s2)) + ['_'] + t2;
    LastSeparator(p + c1 + "_" + IntToString(s1), t1, p + c2 + "_" + IntToString(s2), t2, '_');
    assert IntToString(e1) == t1[..|t1| - 5] && IntToString(e2) == t2[..|t2| - 5];
    IntToStringInjective(e1, e2);
    LastSeparator(p + c1, IntToString(s1), p + c2, IntToString(s2), '_');
    IntToStringInjective(s1, s2);
    assert c1 == (p + c1)[|p|..] && c2 == (p + c2)[|p|..];
  }
}
