/** The country codelist reader of `sdmx_load_or_fetch_countries_iso3`
    (src/main.rs:640-721): one pass over the XML events of an SDMX codelist
    such as `<str:Code id="POL"><com:Name xml:lang="en">Poland</com:Name></str:Code>`,
    then the check for an empty list and the sort by lower-cased name. */
module Codelist {
  import opened Outcomes
  import opened Texts
  import opened XmlEvents
  import opened Sorting

  /** A country: its code and the name shown to the user. */
  datatype Item = Item(code: string, name: string)

  /** The variables of the event loop and the list built so far. */
  datatype CodeState = CodeState(
    inCode: bool,
    currentId: Option<string>,
    currentName: Option<string>,
    capture: bool,
    out: seq<Item>)

  const Initial: CodeState := CodeState(false, None, None, false, [])

  /** The attribute loop of a `Code` start tag: every attribute must be readable,
      and each key ending in "id" overwrites the id with its unescaped value. */
  function IdAttrs(attrs: seq<Attribute>, id: Option<string>): Result<Option<string>>
    decreases |attrs|
  {
    if attrs == [] then Ok(id)
    else
      match attrs[0]
      case Malformed => Err(MalformedAttribute)
      case Attribute(key, value) =>
        if EndsWith(key, IdName) then
          match value
          case None => Err(UndecodableValue)
          case Some(v) => IdAttrs(attrs[1..], Some(v))
        else IdAttrs(attrs[1..], id)
  }

  /** The attribute loop of a `Name` start tag: every attribute must be readable,
      and any key ending in "lang" whose value is "en" in any ASCII case makes
      the name English. */
  function LangAttrs(attrs: seq<Attribute>, isEn: bool): Result<bool>
    decreases |attrs|
  {
    if attrs == [] then Ok(isEn)
    else
      match attrs[0]
      case Malformed => Err(MalformedAttribute)
      case Attribute(key, value) =>
        if EndsWith(key, LangName) then
          match value
          case None => Err(UndecodableValue)
          case Some(v) => LangAttrs(attrs[1..], isEn || EqIgnoreAsciiCase(v, "en"))
        else LangAttrs(attrs[1..], isEn)
  }

  /** One turn of the event loop for an event other than `Eof` and an error. */
  function Step(st: CodeState, e: Event): Result<CodeState> {
    match e
    case Start(name, attrs) =>
      if EndsWith(name, CodeName) then
        match IdAttrs(attrs, None)
        case Err(err) => Err(err)
        case Ok(id) => Ok(st.(inCode := true, currentId := id, currentName := None))
      else if st.inCode && EndsWith(name, NameName) then
        match LangAttrs(attrs, false)
        case Err(err) => Err(err)
        case Ok(isEn) => Ok(st.(capture := isEn || st.currentName.None?))
      else Ok(st)
    case Text(t) =>
      if st.inCode && st.capture then
        match t
        case None => Err(UndecodableValue)
        case Some(s) => Ok(st.(currentName := Some(s)))
      else Ok(st)
    case End(name) =>
      var st1 := if EndsWith(name, NameName) then st.(capture := false) else st;
      if EndsWith(name, CodeName) && st1.inCode then
        var st2 :=
          match st1.currentId
          case Some(id) =>
            st1.(out := st1.out + [Item(id, st1.currentName.GetOr(id))], currentId := None, currentName := None)
          case None => st1;
        Ok(st2.(inCode := false))
      else Ok(st1)
    case _ => Ok(st)
  }

  /** The event loop: it stops at `Eof` (or where the events run out) and fails
      on a reader error. */
  function Scan(events: seq<Event>, st: CodeState): Result<CodeState>
    decreases |events|
  {
    if events == [] then Ok(st)
    else if events[0].Eof? then Ok(st)
    else if events[0].Error? then Err(InvalidCodelistXml)
    else
      match Step(st, events[0])
      case Err(e) => Err(e)
      case Ok(st') => Scan(events[1..], st')
  }

  /** The sort key: the name lower-cased. */
  function NameKey(it: Item): string {
    AsciiLower(it.name)
  }

  /** What the function returns for the events of a codelist: the items in
      order of name, or the error. */
  function CodelistOf(events: seq<Event>): Result<seq<Item>> {
    match Scan(events, Initial)
    case Err(e) => Err(e)
    case Ok(st) => if st.out == [] then Err(NoCountryCodes) else Ok(SortBy(st.out, NameKey))
  }

  // --------------------------------------------------------------- methods

  /** The `for a in e.attributes()` loop of a `Code` start tag. */
  method ReadId(attrs: seq<Attribute>) returns (r: Result<Option<string>>)
    ensures r == IdAttrs(attrs, None)
  {
    var currentId: Option<string> := None;
    var j := 0;
    while j < |attrs|
      invariant 0 <= j <= |attrs|
      invariant IdAttrs(attrs, None) == IdAttrs(attrs[j..], currentId)
    {
      assert attrs[j..][0] == attrs[j] && attrs[j..][1..] == attrs[j + 1..];
      match attrs[j] {
        case Malformed =>
          return Err(MalformedAttribute);
        case Attribute(key, value) =>
          if EndsWith(key, IdName) {
            if value.None? {
              return Err(UndecodableValue);
            }
            currentId := Some(value.value);
          }
      }
      j := j + 1;
    }
    return Ok(currentId);
  }

  /** The `for a in e.attributes()` loop of a `Name` start tag. */
  method ReadIsEnglish(attrs: seq<Attribute>) returns (r: Result<bool>)
    ensures r == LangAttrs(attrs, false)
  {
    var isEn := false;
    var j := 0;
    while j < |attrs|
      invariant 0 <= j <= |attrs|
      invariant LangAttrs(attrs, false) == LangAttrs(attrs[j..], isEn)
    {
      assert attrs[j..][0] == attrs[j] && attrs[j..][1..] == attrs[j + 1..];
      match attrs[j] {
        case Malformed =>
          return Err(MalformedAttribute);
        case Attribute(key, value) =>
          if EndsWith(key, LangName) {
            if value.None? {
              return Err(UndecodableValue);
            }
            if EqIgnoreAsciiCase(value.value, "en") {
              isEn := true;
            }
          }
      }
      j := j + 1;
    }
    return Ok(isEn);
  }

  /** The event loop of src/main.rs:640-713, the emptiness check and the sort. */
  method ExtractCodes(events: seq<Event>) returns (r: Result<seq<Item>>)
    ensures r == CodelistOf(events)
  {
    var inCode := false;
    var currentId: Option<string> := None;
    var currentName: Option<string> := None;
    var capture := false;
    var out: seq<Item> := [];
    var i := 0;
    while i < |events| && !events[i].Eof?
      invariant 0 <= i <= |events|
      invariant Scan(events, Initial) == Scan(events[i..], CodeState(inCode, currentId, currentName, capture, out))
    {
      ghost var st := CodeState(inCode, currentId, currentName, capture, out);
      assert events[i..][0] == events[i] && events[i..][1..] == events[i + 1..];
      match events[i] {
        case Start(name, attrs) =>
          if EndsWith(name, CodeName) {
            inCode := true;
            currentId := None;
            currentName := None;
            var id := ReadId(attrs);
            if id.Err? {
              return Err(id.error);
            }
            currentId := id.value;
          } else if inCode && EndsWith(name, NameName) {
            var isEn := ReadIsEnglish(attrs);
            if isEn.Err? {
              return Err(isEn.error);
            }
            capture := isEn.value || currentName.None?;
          }
        case Text(t) =>
          if inCode && capture {
            if t.None? {
              return Err(UndecodableValue);
            }
            currentName := Some(t.value);
          }
        case End(name) =>
          if EndsWith(name, NameName) {
            capture := false;
          }
          if EndsWith(name, CodeName) && inCode {
            if currentId.Some? {
              var id := currentId.value;
              currentId := None;
              var name := currentName.GetOr(id);
              currentName := None;
              out := out + [Item(id, name)];
            }
            inCode := false;
          }
        case Error =>
          return Err(InvalidCodelistXml);
        case _ =>
      }
      assert Step(st, events[i]) == Ok(CodeState(inCode, currentId, currentName, capture, out));
      i := i + 1;
    }
    assert Scan(events[i..], CodeState(inCode, currentId, currentName, capture, out))
      == Ok(CodeState(inCode, currentId, currentName, capture, out));
    if out == [] {
      return Err(NoCountryCodes);
    }
    out := SortBy(out, NameKey);
    return Ok(out);
  }

  // ------------------------------------------------------ the result list

  /** What an accepted codelist is: not empty, ordered by lower-cased name, and
      the items the loop collected, each as often as it was collected, with
      items of the same lower-cased name in document order. */
  lemma CodelistAccepted(events: seq<Event>)
    requires CodelistOf(events).Ok?
    ensures var items := CodelistOf(events).value;
      var collected := Scan(events, Initial).value.out;
      items != [] && SortedBy(items, NameKey) && multiset(items) == multiset(collected)
      && forall k :: WithKey(items, NameKey, k) == WithKey(collected, NameKey, k)
  {
    var collected := Scan(events, Initial).value.out;
    SortBySorted(collected, NameKey);
    SortByPermutation(collected, NameKey);
    forall k
      ensures WithKey(SortBy(collected, NameKey), NameKey, k) == WithKey(collected, NameKey, k)
    {
      SortByStable(collected, NameKey, k);
    }
    assert collected[0] in multiset(collected);
  }

  // ------------------------------------------------------ the event stream

  /** The loop reads a prefix without `Eof` and then goes on from where that
      prefix left it. */
  lemma {:induction false} ScanConcat(a: seq<Event>, b: seq<Event>, st: CodeState)
    requires Eof !in a
    ensures Scan(a + b, st) ==
      match Scan(a, st)
      case Err(e) => Err(e)
      case Ok(t) => Scan(b, t)
    decreases |a|
  {
    if a == [] {
      assert a + b == b;
    } else {
      assert (a + b)[0] == a[0] && (a + b)[1..] == a[1..] + b;
      if !a[0].Error? {
        match Step(st, a[0]) {
          case Err(e) =>
          case Ok(st') =>
            assert Eof !in a[1..];
            ScanConcat(a[1..], b, st');
        }
      }
    }
  }

  /** Nothing after the first `Eof` is read. */
  lemma {:induction false} ScanStopsAtEof(a: seq<Event>, b: seq<Event>, st: CodeState)
    requires Eof !in a
    ensures Scan(a + [Eof] + b, st) == Scan(a, st)
  {
    assert a + [Eof] + b == a + ([Eof] + b);
    ScanConcat(a, [Eof] + b, st);
    assert Scan([Eof] + b, st) == Ok(st);
    assert a + [] == a;
    ScanConcat(a, [], st);
  }

  /** A reader error reached before `Eof` fails the whole list. */
  lemma {:induction false} ScanReaderError(a: seq<Event>, b: seq<Event>)
    requires Eof !in a
    ensures CodelistOf(a + [Error] + b).Err?
  {
    assert a + [Error] + b == a + ([Error] + b);
    ScanConcat(a, [Error] + b, Initial);
    if Scan(a, Initial).Ok? {
      assert Scan([Error] + b, Scan(a, Initial).value) == Err(InvalidCodelistXml) by {
        assert ([Error] + b)[0] == Error;
      }
    }
  }

  // ------------------------------------------------ well-formed codelists

  /** A `Name` element: its tag, its attributes and its text, if any. */
  datatype NameElem = NameElem(tag: seq<byte>, attrs: seq<Attribute>, text: Option<string>)

  /** A `Code` element and the `Name` elements inside it. */
  datatype CodeElem = CodeElem(tag: seq<byte>, attrs: seq<Attribute>, names: seq<NameElem>)

  predicate WellFormedName(n: NameElem) {
    EndsWith(n.tag, NameName) && Decodable(n.attrs)
  }

  predicate WellFormedCode(c: CodeElem) {
    EndsWith(c.tag, CodeName) && Decodable(c.attrs)
    && forall i :: 0 <= i < |c.names| ==> WellFormedName(c.names[i])
  }

  predicate WellFormedCodes(cs: seq<CodeElem>) {
    forall i :: 0 <= i < |cs| ==> WellFormedCode(cs[i])
  }

  function RenderName(n: NameElem): seq<Event> {
    [Start(n.tag, n.attrs)] + (if n.text.Some? then [Text(n.text)] else []) + [End(n.tag)]
  }

  function RenderNames(ns: seq<NameElem>): seq<Event> {
    if ns == [] then [] else RenderName(ns[0]) + RenderNames(ns[1..])
  }

  function RenderCode(c: CodeElem): seq<Event> {
    [Start(c.tag, c.attrs)] + RenderNames(c.names) + [End(c.tag)]
  }

  function RenderCodes(cs: seq<CodeElem>): seq<Event> {
    if cs == [] then [] else RenderCode(cs[0]) + RenderCodes(cs[1..])
  }

  /** The value of the last attribute whose key ends in "id". */
  function LastId(attrs: seq<Attribute>): Option<string>
    requires Decodable(attrs)
  {
    if attrs == [] then None
    else if LastId(attrs[1..]).Some? then LastId(attrs[1..])
    else if EndsWith(attrs[0].key, IdName) then attrs[0].value
    else None
  }

  /** An attribute `lang="en"`, in any namespace and any ASCII case. */
  predicate IsEnglishLang(a: Attribute) {
    a.Attribute? && EndsWith(a.key, LangName) && a.value.Some? && EqIgnoreAsciiCase(a.value.value, "en")
  }

  predicate English(attrs: seq<Attribute>) {
    exists i :: 0 <= i < |attrs| && IsEnglishLang(attrs[i])
  }

  /** The text of the last English `Name` that has a text. */
  function LastEnglishText(ns: seq<NameElem>): Option<string> {
    if ns == [] then None
    else if LastEnglishText(ns[1..]).Some? then LastEnglishText(ns[1..])
    else if English(ns[0].attrs) && ns[0].text.Some? then ns[0].text
    else None
  }

  /** The text of the first `Name` that has a text. */
  function FirstText(ns: seq<NameElem>): Option<string> {
    if ns == [] then None
    else if ns[0].text.Some? then ns[0].text
    else FirstText(ns[1..])
  }

  /** The name a code gets: an English name wins (the last one, as each
      overwrites the one before), otherwise the first name seen, otherwise
      none. */
  function ChosenName(ns: seq<NameElem>): Option<string> {
    if LastEnglishText(ns).Some? then LastEnglishText(ns) else FirstText(ns)
  }

  /** The item a `Code` element contributes: none without an id, otherwise its
      id with the chosen name, or the id again when it has no name. */
  function ItemOf(c: CodeElem): seq<Item>
    requires Decodable(c.attrs)
  {
    match LastId(c.attrs)
    case None => []
    case Some(id) => [Item(id, ChosenName(c.names).GetOr(id))]
  }

  function ItemsOf(cs: seq<CodeElem>): seq<Item>
    requires WellFormedCodes(cs)
  {
    if cs == [] then [] else ItemOf(cs[0]) + ItemsOf(cs[1..])
  }

  /** The id loop finds the last id. */
  lemma {:induction false} IdAttrsFindsLast(attrs: seq<Attribute>, id: Option<string>)
    requires Decodable(attrs)
    ensures IdAttrs(attrs, id) == Ok(if LastId(attrs).Some? then LastId(attrs) else id)
    decreases |attrs|
  {
    if attrs != [] {
      assert Decodable(attrs[1..]) by {
        assert forall i :: 0 <= i < |attrs[1..]| ==> attrs[1..][i] == attrs[i + 1];
      }
      assert attrs[0].Attribute? && attrs[0].value.Some?;
      if EndsWith(attrs[0].key, IdName) {
        IdAttrsFindsLast(attrs[1..], attrs[0].value);
      } else {
        IdAttrsFindsLast(attrs[1..], id);
      }
    }
  }

  lemma EnglishCons(attrs: seq<Attribute>)
    requires attrs != []
    ensures English(attrs) <==> IsEnglishLang(attrs[0]) || English(attrs[1..])
  {
    if English(attrs[1..]) {
      var i :| 0 <= i < |attrs[1..]| && IsEnglishLang(attrs[1..][i]);
      assert IsEnglishLang(attrs[i + 1]);
    }
    if English(attrs) && !IsEnglishLang(attrs[0]) {
      var i :| 0 <= i < |attrs| && IsEnglishLang(attrs[i]);
      assert attrs[1..][i - 1] == attrs[i];
    }
  }

  /** The lang loop finds out whether some attribute says English. */
  lemma {:induction false} LangAttrsFindsEnglish(attrs: seq<Attribute>, isEn: bool)
    requires Decodable(attrs)
    ensures LangAttrs(attrs, isEn) == Ok(isEn || English(attrs))
    decreases |attrs|
  {
    if attrs != [] {
      assert Decodable(attrs[1..]) by {
        assert forall i :: 0 <= i < |attrs[1..]| ==> attrs[1..][i] == attrs[i + 1];
      }
      assert attrs[0].Attribute? && attrs[0].value.Some?;
      EnglishCons(attrs);
      if EndsWith(attrs[0].key, LangName) {
        LangAttrsFindsEnglish(attrs[1..], isEn || EqIgnoreAsciiCase(attrs[0].value.value, "en"));
      } else {
        LangAttrsFindsEnglish(attrs[1..], isEn);
      }
    } else {
      assert !English(attrs);
    }
  }

  /** What the loop keeps as the name after one `Name` element. */
  function NameAfter(cur: Option<string>, n: NameElem): Option<string> {
    if (English(n.attrs) || cur.None?) && n.text.Some? then n.text else cur
  }

  function NameFold(cur: Option<string>, ns: seq<NameElem>): Option<string>
    decreases |ns|
  {
    if ns == [] then cur else NameFold(NameAfter(cur, ns[0]), ns[1..])
  }

  /** Reading the names one after the other yields the precedence rule. */
  lemma {:induction false} NameFoldChooses(cur: Option<string>, ns: seq<NameElem>)
    ensures NameFold(cur, ns) ==
      if LastEnglishText(ns).Some? then LastEnglishText(ns)
      else if cur.Some? then cur
      else FirstText(ns)
    decreases |ns|
  {
    if ns != [] {
      NameFoldChooses(NameAfter(cur, ns[0]), ns[1..]);
    }
  }

  /** The events of one `Name` inside a code, read with no text being captured. */
  lemma NameScan(n: NameElem, st: CodeState)
    requires WellFormedName(n) && st.inCode && !st.capture
    ensures Scan(RenderName(n), st) == Ok(st.(currentName := NameAfter(st.currentName, n)))
  {
    NameIsNotCode(n.tag);
    LangAttrsFindsEnglish(n.attrs, false);
    var st1 := st.(capture := English(n.attrs) || st.currentName.None?);
    assert Step(st, Start(n.tag, n.attrs)) == Ok(st1);
    var st2 := st1.(currentName := NameAfter(st.currentName, n));
    var events := RenderName(n);
    var final := st.(currentName := NameAfter(st.currentName, n));
    if n.text.Some? {
      assert events == [Start(n.tag, n.attrs), Text(n.text), End(n.tag)];
      assert Step(st1, Text(n.text)) == Ok(st2);
      assert Step(st2, End(n.tag)) == Ok(final);
      assert Scan(events[2..], st2) == Ok(final) by {
        assert events[2..] == [End(n.tag)];
        assert events[2..][1..] == [];
      }
      assert Scan(events[1..], st1) == Scan(events[2..], st2) by {
        assert events[1..][0] == Text(n.text) && events[1..][1..] == events[2..];
      }
    } else {
      assert events == [Start(n.tag, n.attrs), End(n.tag)];
      assert Step(st1, End(n.tag)) == Ok(final);
      assert Scan(events[1..], st1) == Ok(final) by {
        assert events[1..] == [End(n.tag)];
        assert events[1..][1..] == [];
      }
    }
  }

  lemma RenderNameNoEof(n: NameElem)
    ensures Eof !in RenderName(n)
  {
  }

  lemma {:induction false} RenderNamesNoEof(ns: seq<NameElem>)
    ensures Eof !in RenderNames(ns)
  {
    if ns != [] {
      RenderNameNoEof(ns[0]);
      RenderNamesNoEof(ns[1..]);
    }
  }

  /** The events of the names of a code, read with no text being captured. */
  lemma {:induction false} NamesScan(ns: seq<NameElem>, st: CodeState)
    requires forall i :: 0 <= i < |ns| ==> WellFormedName(ns[i])
    requires st.inCode && !st.capture
    ensures Scan(RenderNames(ns), st) == Ok(st.(currentName := NameFold(st.currentName, ns)))
    decreases |ns|
  {
    if ns != [] {
      RenderNameNoEof(ns[0]);
      ScanConcat(RenderName(ns[0]), RenderNames(ns[1..]), st);
      NameScan(ns[0], st);
      var st1 := st.(currentName := NameAfter(st.currentName, ns[0]));
      assert forall i :: 0 <= i < |ns[1..]| ==> ns[1..][i] == ns[i + 1];
      NamesScan(ns[1..], st1);
    } else {
      assert Scan([], st) == Ok(st);
    }
  }

  /** The events of one code, read with no text being captured: the item of the
      code is appended, and nothing is left being captured. */
  lemma CodeScan(c: CodeElem, st: CodeState)
    requires WellFormedCode(c) && !st.capture
    ensures Scan(RenderCode(c), st) == Ok(AfterCode(c, st))
  {
    CodeIsNotName(c.tag);
    IdAttrsFindsLast(c.attrs, None);
    var st1 := st.(inCode := true, currentId := LastId(c.attrs), currentName := None);
    assert Step(st, Start(c.tag, c.attrs)) == Ok(st1);
    var st2 := st1.(currentName := NameFold(None, c.names));
    NamesScan(c.names, st1);
    NameFoldChooses(None, c.names);
    RenderNamesNoEof(c.names);
    var events := RenderCode(c);
    assert events == [Start(c.tag, c.attrs)] + (RenderNames(c.names) + [End(c.tag)]);
    assert Scan(events, st) == Scan(RenderNames(c.names) + [End(c.tag)], st1);
    ScanConcat(RenderNames(c.names), [End(c.tag)], st1);
    assert Scan([End(c.tag)], st2) == Step(st2, End(c.tag));
    assert NameFold(None, c.names) == ChosenName(c.names);
    if LastId(c.attrs).None? {
      assert st.out + ItemOf(c) == st.out;
    }
    assert Step(st2, End(c.tag)) == Ok(AfterCode(c, st));
  }

  lemma RenderCodeNoEof(c: CodeElem)
    ensures Eof !in RenderCode(c)
  {
    RenderNamesNoEof(c.names);
  }

  /** The loop's variables after one code: nothing is open, and the item of the
      code (if any) has been appended. */
  function AfterCode(c: CodeElem, st: CodeState): CodeState
    requires Decodable(c.attrs)
  {
    CodeState(false, None, if LastId(c.attrs).Some? then None else NameFold(None, c.names), false,
      st.out + ItemOf(c))
  }

  lemma WellFormedTail(cs: seq<CodeElem>)
    requires cs != [] && WellFormedCodes(cs)
    ensures WellFormedCodes(cs[1..])
  {
    assert forall i :: 0 <= i < |cs[1..]| ==> cs[1..][i] == cs[i + 1];
  }

  function AfterCodes(cs: seq<CodeElem>, st: CodeState): CodeState
    requires WellFormedCodes(cs)
    decreases |cs|
  {
    if cs == [] then st
    else
      WellFormedTail(cs);
      AfterCodes(cs[1..], AfterCode(cs[0], st))
  }

  lemma {:induction false} AfterCodesOut(cs: seq<CodeElem>, st: CodeState)
    requires WellFormedCodes(cs)
    ensures AfterCodes(cs, st).out == st.out + ItemsOf(cs)
    decreases |cs|
  {
    if cs != [] {
      WellFormedTail(cs);
      var st1 := AfterCode(cs[0], st);
      AfterCodesOut(cs[1..], st1);
      assert AfterCodes(cs, st) == AfterCodes(cs[1..], st1);
      assert ItemsOf(cs) == ItemOf(cs[0]) + ItemsOf(cs[1..]);
      assert st1.out == st.out + ItemOf(cs[0]);
      assert st.out + ItemOf(cs[0]) + ItemsOf(cs[1..]) == st.out + ItemsOf(cs);
    }
  }

  /** The first code of a codelist is read first. */
  lemma FirstCodeScan(cs: seq<CodeElem>, st: CodeState)
    requires cs != [] && WellFormedCodes(cs) && !st.capture
    ensures Scan(RenderCodes(cs), st) == Scan(RenderCodes(cs[1..]), AfterCode(cs[0], st))
  {
    var c := cs[0];
    assert WellFormedCode(c);
    RenderCodeNoEof(c);
    assert RenderCodes(cs) == RenderCode(c) + RenderCodes(cs[1..]);
    ScanConcat(RenderCode(c), RenderCodes(cs[1..]), st);
    CodeScan(c, st);
  }

  lemma {:induction false} CodesScan(cs: seq<CodeElem>, st: CodeState)
    requires WellFormedCodes(cs) && !st.capture
    ensures Scan(RenderCodes(cs), st) == Ok(AfterCodes(cs, st))
    decreases |cs|
  {
    if cs == [] {
      assert Scan([], st) == Ok(st);
    } else {
      FirstCodeScan(cs, st);
      WellFormedTail(cs);
      CodesScan(cs[1..], AfterCode(cs[0], st));
    }
  }

  /** A well-formed codelist yields one item per code that has an id, in
      document order before the sort: the last id, with the last English name,
      else the first name, else the id as its name. The list is refused when no
      code has an id. */
  lemma {:induction false} CodelistOfDocument(cs: seq<CodeElem>, rest: seq<Event>)
    requires WellFormedCodes(cs)
    ensures CodelistOf(RenderCodes(cs) + [Eof] + rest) ==
      if ItemsOf(cs) == [] then Err(NoCountryCodes) else Ok(SortBy(ItemsOf(cs), NameKey))
  {
    RenderCodesNoEof(cs);
    ScanStopsAtEof(RenderCodes(cs), rest, Initial);
    CodesScan(cs, Initial);
    AfterCodesOut(cs, Initial);
    assert Initial.out + ItemsOf(cs) == ItemsOf(cs);
  }

  lemma {:induction false} RenderCodesNoEof(cs: seq<CodeElem>)
    ensures Eof !in RenderCodes(cs)
  {
    if cs != [] {
      RenderCodeNoEof(cs[0]);
      RenderCodesNoEof(cs[1..]);
    }
  }
}
