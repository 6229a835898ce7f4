/** The parts of Rust's `str` that the calculator relies on, over Dafny strings
    (sequences of Unicode scalar values): the UTF-8 encoding behind `len()` and
    `as_bytes()`, `trim`, `split`, the byte-wise ordering of `String`,
    `ends_with` on byte strings, ASCII case handling and one-character replacement. */
module Texts {

  newtype byte = x: int | 0 <= x < 256

  // ---------------------------------------------------------------- UTF-8

  /** n % 64 and n / 64, the low six bits of n and the bits above them. They are
      written with subtraction only, so that unfolding them in a proof brings in no
      division (High6Is shows they are the remainder and quotient). */
  function Low6(n: nat): (r: nat)
    ensures r < 64
    decreases n
  {
    if n < 64 then n else Low6(n - 64)
  }

  function High6(n: nat): nat
    decreases n
  {
    if n < 64 then 0 else 1 + High6(n - 64)
  }

  lemma {:induction false} High6Is(n: nat)
    ensures High6(n) == n / 64 && Low6(n) == n % 64
    decreases n
  {
    if n >= 64 {
      High6Is(n - 64);
    }
  }

  lemma {:induction false} High6Below(n: nat, m: nat)
    requires n < 64 * m
    ensures High6(n) < m
    decreases n
  {
    if n >= 64 {
      High6Below(n - 64, m - 1);
    }
  }

  /** How many bytes UTF-8 uses for a character. */
  function CharLen(c: char): nat {
    if c as int < 0x80 then 1 else if c as int < 0x800 then 2 else if c as int < 0x1_0000 then 3 else 4
  }

  /** The lead byte of a character's encoding: the character itself when it is
      ASCII, otherwise a length marker and the bits of the code point above its
      continuation bytes. */
  function LeadByte(c: char): (b: byte)
    ensures (b < 0x80) == (c as int < 0x80)
    ensures b < 0x80 ==> b as int == c as int
  {
    var n := c as int;
    if n < 0x80 then n as byte
    else if n < 0x800 then
      High6Below(n, 32);
      (0xC0 + High6(n)) as byte
    else if n < 0x1_0000 then
      High6Below(n, 1024);
      High6Below(High6(n), 16);
      (0xE0 + High6(High6(n))) as byte
    else
      High6Below(n, 17408);
      High6Below(High6(n), 272);
      High6Below(High6(High6(n)), 5);
      (0xF0 + High6(High6(High6(n)))) as byte
  }

  /** The k continuation bytes that carry the low 6k bits of n, six bits each,
      most significant first. */
  function ContBytes(n: nat, k: nat): (bs: seq<byte>)
    ensures |bs| == k && forall i :: 0 <= i < k ==> bs[i] >= 0x80
    decreases k
  {
    if k == 0 then [] else ContBytes(High6(n), k - 1) + [(0x80 + Low6(n)) as byte]
  }

  /** The UTF-8 encoding of one character. */
  function CharUtf8(c: char): (bs: seq<byte>)
    ensures |bs| == CharLen(c)
    ensures |bs| == 1 ==> bs[0] as int == c as int
    ensures |bs| > 1 ==> forall i :: 0 <= i < |bs| ==> bs[i] >= 0x80
  {
    [LeadByte(c)] + ContBytes(c as int, CharLen(c) - 1)
  }

  /** Rust's `str::as_bytes`; its length is `str::len`. */
  function Utf8(s: string): seq<byte>
  {
    if s == [] then [] else Utf8(s[..|s| - 1]) + CharUtf8(s[|s| - 1])
  }

  /** Rust's `str::len`: the number of bytes of the UTF-8 encoding. */
  function Utf8Len(s: string): nat {
    if s == [] then 0 else Utf8Len(s[..|s| - 1]) + CharLen(s[|s| - 1])
  }

  /** `len()` is the length of `as_bytes()`. */
  lemma {:induction false} Utf8LenIsLength(s: string)
    ensures Utf8Len(s) == |Utf8(s)|
  {
    if s != [] {
      Utf8LenIsLength(s[..|s| - 1]);
    }
  }

  lemma {:induction false} Utf8LenConcat(a: string, b: string)
    ensures Utf8Len(a + b) == Utf8Len(a) + Utf8Len(b)
    decreases |b|
  {
    if b != [] {
      assert (a + b)[..|a + b| - 1] == a + b[..|b| - 1];
      assert (a + b)[|a + b| - 1] == b[|b| - 1];
      Utf8LenConcat(a, b[..|b| - 1]);
    } else {
      assert a + b == a;
    }
  }

  /** Every character takes at least one byte, and an ASCII character exactly one. */
  lemma {:induction false} Utf8LenBounds(s: string)
    ensures Utf8Len(s) >= |s|
    ensures IsAscii(s) ==> Utf8Len(s) == |s|
  {
    if s != [] {
      Utf8LenBounds(s[..|s| - 1]);
    }
  }

  predicate IsAscii(s: string) {
    forall i :: 0 <= i < |s| ==> s[i] as int < 0x80
  }

  lemma {:induction false} Utf8Concat(a: string, b: string)
    ensures Utf8(a + b) == Utf8(a) + Utf8(b)
    decreases |b|
  {
    if b == [] {
      assert a + b == a;
    } else {
      var b', c := b[..|b| - 1], b[|b| - 1];
      assert (a + b)[..|a + b| - 1] == a + b';
      assert (a + b)[|a + b| - 1] == c;
      assert Utf8(a + b) == Utf8(a + b') + CharUtf8(c);
      Utf8Concat(a, b');
      assert Utf8(b) == Utf8(b') + CharUtf8(c);
    }
  }

  /** An ASCII string is encoded one byte per character. */
  lemma {:induction false} Utf8OfAscii(s: string)
    requires IsAscii(s)
    ensures |Utf8(s)| == |s|
    ensures forall i :: 0 <= i < |s| ==> Utf8(s)[i] as int == s[i] as int
  {
    if s != [] {
      Utf8OfAscii(s[..|s| - 1]);
    }
  }

  /** Every character takes at least one byte. */
  lemma {:induction false} Utf8NoShorter(s: string)
    ensures |Utf8(s)| >= |s|
  {
    if s != [] {
      Utf8NoShorter(s[..|s| - 1]);
    }
  }

  /** The last k bytes of bs are ASCII. */
  predicate AsciiTail(bs: seq<byte>, k: nat) {
    k <= |bs| && forall i :: |bs| - k <= i < |bs| ==> bs[i] < 0x80
  }

  /** An encoding that ends in an ASCII byte ends with the encoding of an ASCII
      character. */
  lemma Utf8LastAscii(s: string)
    requires Utf8(s) != [] && Utf8(s)[|Utf8(s)| - 1] < 0x80
    ensures s != [] && s[|s| - 1] as int < 0x80
    ensures Utf8(s) == Utf8(s[..|s| - 1]) + [Utf8(s)[|Utf8(s)| - 1]]
  {
    var last := CharUtf8(s[|s| - 1]);
    assert Utf8(s) == Utf8(s[..|s| - 1]) + last;
  }

  /** One step of Utf8AsciiTail: drop the last (ASCII) character. */
  lemma AsciiTailStep(s: string, k: nat)
    requires k > 0 && AsciiTail(Utf8(s), k)
    ensures s != [] && s[|s| - 1] as int < 0x80
    ensures AsciiTail(Utf8(s[..|s| - 1]), k - 1)
    ensures Utf8(s)[..|Utf8(s)| - k] == Utf8(s[..|s| - 1])[..|Utf8(s[..|s| - 1])| - (k - 1)]
  {
    var bs := Utf8(s);
    Utf8LastAscii(s);
    var ibs := Utf8(s[..|s| - 1]);
    assert bs == ibs + [bs[|bs| - 1]];
    forall i | |ibs| - (k - 1) <= i < |ibs|
      ensures ibs[i] < 0x80
    {
      assert ibs[i] == bs[i];
    }
  }

  /** When the last k bytes of an encoding are ASCII, they encode the last k
      characters, and the bytes before them encode the rest of the string. This is why byte offsets into such a tail are character boundaries. */
  lemma {:induction false} Utf8AsciiTail(s: string, k: nat)
    requires AsciiTail(Utf8(s), k)
    ensures k <= |s|
    ensures Utf8(s[..|s| - k]) == Utf8(s)[..|Utf8(s)| - k]
  {
    if k == 0 {
      assert s[..|s|] == s;
    } else {
      AsciiTailStep(s, k);
      var init := s[..|s| - 1];
      Utf8AsciiTail(init, k - 1);
      assert init[..|init| - (k - 1)] == s[..|s| - k];
    }
  }

  /** ... and the last k bytes encode the last k characters. */
  lemma Utf8AsciiSuffix(s: string, k: nat)
    requires AsciiTail(Utf8(s), k)
    ensures k <= |s|
    ensures Utf8(s[|s| - k..]) == Utf8(s)[|Utf8(s)| - k..]
  {
    Utf8AsciiTail(s, k);
    var pre, suf := s[..|s| - k], s[|s| - k..];
    assert pre + suf == s;
    Utf8Concat(pre, suf);
    var b := Utf8(s);
    assert b == b[..|b| - k] + Utf8(suf);
  }

  // ----------------------------------------------------------- whitespace

  /** Rust's `char::is_whitespace`: the Unicode White_Space property. */
  predicate IsWhitespace(c: char) {
    || ('\t' <= c <= '\r')
    || c == ' ' || c == '\U{85}' || c == '\U{A0}' || c == '\U{1680}'
    || ('\U{2000}' <= c <= '\U{200A}')
    || c == '\U{2028}' || c == '\U{2029}' || c == '\U{202F}' || c == '\U{205F}'
    || c == '\U{3000}'
  }

  function TrimStart(s: string): string {
    if s != [] && IsWhitespace(s[0]) then TrimStart(s[1..]) else s
  }

  function TrimEnd(s: string): string {
    if s != [] && IsWhitespace(s[|s| - 1]) then TrimEnd(s[..|s| - 1]) else s
  }

  /** Rust's `str::trim`. */
  function Trim(s: string): string {
    TrimEnd(TrimStart(s))
  }

  /** A string that neither starts nor ends with white space is its own trim. */
  lemma TrimUnchanged(s: string)
    requires s != [] ==> !IsWhitespace(s[0]) && !IsWhitespace(s[|s| - 1])
    ensures Trim(s) == s
  {
  }

  /** Trailing white space after a character that is not white space is all
      that `TrimEnd` removes. */
  lemma {:induction false} TrimEndAfter(a: string, rest: string)
    requires a != [] && !IsWhitespace(a[|a| - 1])
    ensures TrimEnd(a + rest) == a + TrimEnd(rest)
    decreases |rest|
  {
    if rest == [] {
      assert a + rest == a;
    } else if IsWhitespace(rest[|rest| - 1]) {
      assert (a + rest)[..|a + rest| - 1] == a + rest[..|rest| - 1];
      TrimEndAfter(a, rest[..|rest| - 1]);
    }
  }

  // ---------------------------------------------------------------- split

  /** Rust's `str::split(sep)` collected into a vector: the maximal pieces between
      separators, in order; always at least one piece. */
  function Split(s: string, sep: char): (parts: seq<string>)
    ensures |parts| >= 1
  {
    if s == [] then [""]
    else
      var rest := Split(s[1..], sep);
      if s[0] == sep then [""] + rest
      else [[s[0]] + rest[0]] + rest[1..]
  }

  /** No piece contains the separator. */
  lemma {:induction false} SplitPiecesNoSep(s: string, sep: char)
    ensures forall i :: 0 <= i < |Split(s, sep)| ==> sep !in Split(s, sep)[i]
  {
    if s != [] {
      SplitPiecesNoSep(s[1..], sep);
    }
  }

  /** The pieces joined back with the separator. */
  function Join(parts: seq<string>, sep: char): string
    requires |parts| >= 1
  {
    if |parts| == 1 then parts[0] else parts[0] + [sep] + Join(parts[1..], sep)
  }

  /** Splitting loses nothing: joining the pieces gives back the string. */
  lemma {:induction false} SplitJoin(s: string, sep: char)
    ensures Join(Split(s, sep), sep) == s
  {
    if s != [] {
      var rest := Split(s[1..], sep);
      SplitJoin(s[1..], sep);
      assert s == [s[0]] + s[1..];
      var parts := Split(s, sep);
      if s[0] == sep {
        assert parts[1..] == rest;
        assert Join(parts, sep) == "" + [sep] + Join(rest, sep);
      } else if |rest| == 1 {
        assert parts == [[s[0]] + rest[0]];
      } else {
        assert parts[1..] == rest[1..];
        assert Join(parts, sep) == [s[0]] + rest[0] + [sep] + Join(rest[1..], sep);
      }
    }
  }

  /** A string without the separator is one piece. */
  lemma {:induction false} SplitNone(s: string, sep: char)
    requires sep !in s
    ensures Split(s, sep) == [s]
  {
    if s != [] {
      assert sep !in s[1..];
      SplitNone(s[1..], sep);
      assert s == [s[0]] + s[1..];
    }
  }

  /** A string with exactly one separator splits into the text before it and the
      text after it. */
  lemma {:induction false} SplitOne(a: string, sep: char, b: string)
    requires sep !in a && sep !in b
    ensures Split(a + [sep] + b, sep) == [a, b]
  {
    if a == [] {
      assert a + [sep] + b == [sep] + b;
      assert ([sep] + b)[1..] == b;
      SplitNone(b, sep);
    } else {
      assert (a + [sep] + b)[1..] == a[1..] + [sep] + b;
      assert sep !in a[1..];
      SplitOne(a[1..], sep, b);
      assert [a[0]] + a[1..] == a;
    }
  }

  /** The first piece is the text before the first separator, whatever follows it. */
  lemma {:induction false} SplitFirst(a: string, sep: char, rest: string)
    requires sep !in a
    ensures Split(a + [sep] + rest, sep)[0] == a
  {
    if a == [] {
      assert a + [sep] + rest == [sep] + rest;
    } else {
      assert (a + [sep] + rest)[1..] == a[1..] + [sep] + rest;
      assert sep !in a[1..];
      SplitFirst(a[1..], sep, rest);
      assert [a[0]] + a[1..] == a;
    }
  }

  // ------------------------------------------------------------- ordering

  /** The order of Rust's `String`/`str` comparison. It compares UTF-8 bytes, and
      UTF-8 preserves the order of code points, so it is the lexicographic order
      on characters. (Dafny's `<` on sequences is the proper-prefix relation.) */
  predicate LexLess(a: string, b: string) {
    if a == [] then b != []
    else if b == [] then false
    else if a[0] != b[0] then a[0] < b[0]
    else LexLess(a[1..], b[1..])
  }

  /** Texts whose first characters differ compare by those characters. */
  lemma LexLessByHead(a: string, b: string)
    requires a != [] && b != [] && a[0] < b[0]
    ensures LexLess(a, b) && !LexLess(b, a)
  {
  }

  lemma {:induction false} LexLessIrreflexive(a: string)
    ensures !LexLess(a, a)
  {
    if a != [] {
      LexLessIrreflexive(a[1..]);
    }
  }

  lemma {:induction false} LexLessAsymmetric(a: string, b: string)
    ensures LexLess(a, b) ==> !LexLess(b, a)
  {
    if a != [] && b != [] && a[0] == b[0] {
      LexLessAsymmetric(a[1..], b[1..]);
    }
  }

  lemma {:induction false} LexLessTransitive(a: string, b: string, c: string)
    requires LexLess(a, b) && LexLess(b, c)
    ensures LexLess(a, c)
  {
    if a != [] && a[0] == b[0] && b[0] == c[0] {
      LexLessTransitive(a[1..], b[1..], c[1..]);
    }
  }

  /** Distinct strings are ordered one way or the other. */
  lemma {:induction false} LexLessTotal(a: string, b: string)
    ensures a == b || LexLess(a, b) || LexLess(b, a)
  {
    if a != [] && b != [] && a[0] == b[0] {
      LexLessTotal(a[1..], b[1..]);
      if a[1..] == b[1..] {
        assert a == [a[0]] + a[1..] && b == [b[0]] + b[1..];
      }
    }
  }

  /** "not less" is transitive too (the order is total). */
  lemma LexLeTransitive(a: string, b: string, c: string)
    requires !LexLess(b, a) && !LexLess(c, b)
    ensures !LexLess(c, a)
  {
    if LexLess(c, a) {
      LexLessTotal(a, b);
      if LexLess(a, b) {
        LexLessTransitive(c, a, b);
      }
    }
  }

  /** Comparing two strings that start with pieces of the same length: the first
      pieces decide, and only when they are equal do the rest decide. */
  lemma {:induction false} LexLessConcat(a: string, x: string, b: string, y: string)
    requires |a| == |b|
    ensures LexLess(a + x, b + y) <==> LexLess(a, b) || (a == b && LexLess(x, y))
  {
    if a != [] {
      assert (a + x)[0] == a[0] && (b + y)[0] == b[0];
      assert (a + x)[1..] == a[1..] + x && (b + y)[1..] == b[1..] + y;
      LexLessConcat(a[1..], x, b[1..], y);
      if a[0] == b[0] && a[1..] == b[1..] {
        assert a == [a[0]] + a[1..] && b == [b[0]] + b[1..];
      }
      if a == b {
        assert a[1..] == b[1..];
        LexLessIrreflexive(a[1..]);
      }
    } else {
      assert a + x == x && b + y == y;
    }
  }

  // ------------------------------------------------- suffixes, ASCII case

  /** Rust's `ends_with` on byte strings (`[u8]`), which is how the XML element
      and attribute names are tested. */
  predicate EndsWith(s: seq<byte>, suffix: seq<byte>) {
    |suffix| <= |s| && s[|s| - |suffix|..] == suffix
  }

  function AsciiLowerChar(c: char): char {
    if 'A' <= c <= 'Z' then (c as int + 32) as char else c
  }

  /** `to_lowercase` restricted to ASCII letters. */
  function AsciiLower(s: string): (r: string)
    ensures |r| == |s|
    ensures forall i :: 0 <= i < |s| ==> r[i] == AsciiLowerChar(s[i])
  {
    if s == [] then [] else [AsciiLowerChar(s[0])] + AsciiLower(s[1..])
  }

  /** Rust's `str::eq_ignore_ascii_case`. */
  predicate EqIgnoreAsciiCase(a: string, b: string) {
    |a| == |b| && forall i :: 0 <= i < |a| ==> AsciiLowerChar(a[i]) == AsciiLowerChar(b[i])
  }

  /** Rust's `str::replace` with a one-character pattern and a one-character
      replacement. */
  function ReplaceChar(s: string, from: char, to: char): (r: string)
    ensures |r| == |s|
    ensures forall i :: 0 <= i < |s| ==> r[i] == (if s[i] == from then to else s[i])
  {
    if s == [] then [] else [if s[0] == from then to else s[0]] + ReplaceChar(s[1..], from, to)
  }

  lemma {:induction false} ReplaceCharConcat(a: string, b: string, from: char, to: char)
    ensures ReplaceChar(a + b, from, to) == ReplaceChar(a, from, to) + ReplaceChar(b, from, to)
  {
    if a != [] {
      assert (a + b)[0] == a[0];
      assert (a + b)[1..] == a[1..] + b;
      ReplaceCharConcat(a[1..], b, from, to);
    } else {
      assert a + b == b;
    }
  }

  /** Rust's `str::replace(c, "")`. */
  function RemoveChar(s: string, c: char): (r: string)
    ensures c !in r
    ensures |r| <= |s|
  {
    if s == [] then [] else if s[0] == c then RemoveChar(s[1..], c) else [s[0]] + RemoveChar(s[1..], c)
  }

  lemma {:induction false} RemoveCharConcat(a: string, b: string, c: char)
    ensures RemoveChar(a + b, c) == RemoveChar(a, c) + RemoveChar(b, c)
  {
    if a != [] {
      assert (a + b)[1..] == a[1..] + b;
      RemoveCharConcat(a[1..], b, c);
    } else {
      assert a + b == b;
    }
  }

  lemma {:induction false} RemoveCharAbsent(s: string, c: char)
    requires c !in s
    ensures RemoveChar(s, c) == s
  {
    if s != [] {
      assert c !in s[1..];
      RemoveCharAbsent(s[1..], c);
    }
  }
}
