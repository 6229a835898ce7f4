/** The XML events the calculator reads from quick-xml's `Reader` with
    `trim_text(true)`. Tokenising and unescaping are done by the library; an
    event here is what the reader hands over, with a failed unescape marked as
    a missing value. Element and attribute names are byte strings, as
    quick-xml gives them. */
module XmlEvents {
  import opened Outcomes
  import opened Texts

  /** One item of `attributes().with_checks(false)`: a key and its value,
      which is `None` when `unescape_value` fails, or an attribute the reader
      could not read at all. */
  datatype Attribute =
    | Attribute(key: seq<byte>, value: Option<string>)
    | Malformed

  datatype Event =
    | Start(name: seq<byte>, attrs: seq<Attribute>)   // <name attrs>
    | Empty(name: seq<byte>, attrs: seq<Attribute>)   // <name attrs/>
    | Text(text: Option<string>)                      // None when `unescape` fails
    | End(name: seq<byte>)                            // </name>
    | Eof
    | Other                                           // comments, CDATA, declarations
    | Error                                           // `read_event_into` failed

  /** Every attribute is readable and its value unescapes. */
  predicate Decodable(attrs: seq<Attribute>) {
    forall i :: 0 <= i < |attrs| ==> attrs[i].Attribute? && attrs[i].value.Some?
  }

  /** Element and attribute names the calculator looks for, as Rust byte-string
      literals. */
  const CodeName: seq<byte> := [0x43, 0x6F, 0x64, 0x65]          // b"Code"
  const NameName: seq<byte> := [0x4E, 0x61, 0x6D, 0x65]          // b"Name"
  const IdName: seq<byte> := [0x69, 0x64]                        // b"id"
  const LangName: seq<byte> := [0x6C, 0x61, 0x6E, 0x67]          // b"lang"
  const ObsName: seq<byte> := [0x4F, 0x62, 0x73]                 // b"Obs"
  const TimePeriodName: seq<byte> :=                             // b"TIME_PERIOD"
    [0x54, 0x49, 0x4D, 0x45, 0x5F, 0x50, 0x45, 0x52, 0x49, 0x4F, 0x44]
  const ObsValueName: seq<byte> :=                               // b"OBS_VALUE"
    [0x4F, 0x42, 0x53, 0x5F, 0x56, 0x41, 0x4C, 0x55, 0x45]

  /** A name ending in "Name" does not end in "Code". */
  lemma NameIsNotCode(tag: seq<byte>)
    requires EndsWith(tag, NameName)
    ensures !EndsWith(tag, CodeName)
  {
    assert tag[|tag| - 4] == NameName[0];
  }

  /** A name ending in "Code" does not end in "Name". */
  lemma CodeIsNotName(tag: seq<byte>)
    requires EndsWith(tag, CodeName)
    ensures !EndsWith(tag, NameName)
  {
    assert tag[|tag| - 4] == CodeName[0];
  }
}
