/** Decimal integers as text: Rust's `{:0w}` formatting and `to_string` of an
    integer, and the `parse::<i32>()` / `parse::<u32>()` conversions. */
module Numerals {
  import opened Outcomes
  import opened Texts

  predicate IsDigit(c: char) {
    '0' <= c <= '9'
  }

  predicate AllDigits(s: string) {
    forall i :: 0 <= i < |s| ==> IsDigit(s[i])
  }

  function DigitChar(d: nat): (c: char)
    requires d < 10
    ensures IsDigit(c) && c as int - '0' as int == d
  {
    ('0' as int + d) as char
  }

  function Pow10(n: nat): (p: nat)
    ensures p >= 1
  {
    if n == 0 then 1 else 10 * Pow10(n - 1)
  }

  function Max(a: nat, b: nat): nat {
    if a < b then b else a
  }

  /** The value of a string of decimal digits; leading zeros are allowed. */
  function DigitsValue(s: string): nat
    requires AllDigits(s)
  {
    if s == [] then 0 else 10 * DigitsValue(s[..|s| - 1]) + (s[|s| - 1] as int - '0' as int)
  }

  /** The w lowest decimal digits of n, most significant first, so n written with
      exactly w digits when n < 10^w (zero-padded on the left). */
  function FixedDigits(n: nat, w: nat): (r: string)
    ensures |r| == w && AllDigits(r)
  {
    if w == 0 then [] else FixedDigits(n / 10, w - 1) + [DigitChar(n % 10)]
  }

  /** How many decimal digits n has (0 has one). */
  function NumDigits(n: nat): (k: nat)
    ensures k >= 1
  {
    if n < 10 then 1 else 1 + NumDigits(n / 10)
  }

  /** Rust's `format!("{:0w}", v)`: the decimal digits of |v|, preceded by '-' when
      v < 0, with zeros inserted after the sign until the text is w characters long;
      a number that needs more characters is never cut. */
  function FormatInt(v: int, w: nat): string {
    if v < 0 then "-" + FixedDigits(-v, Max(if w > 0 then w - 1 else 0, NumDigits(-v)))
    else FixedDigits(v, Max(w, NumDigits(v)))
  }

  /** Rust's `to_string` of an integer. */
  function IntToString(v: int): string {
    FormatInt(v, 0)
  }

  const I32Min: int := -0x8000_0000
  const I32Max: int := 0x7FFF_FFFF
  const U32Max: int := 0xFFFF_FFFF

  /** Rust's `str::parse::<i32>()`: an optional '+' or '-' followed by at least one
      ASCII digit, and the value must fit in 32 bits. */
  function ParseI32(s: string): (r: Option<int>)
    ensures r.Some? ==> I32Min <= r.value <= I32Max
  {
    if s == [] || ((s[0] == '+' || s[0] == '-') && |s| == 1) then None
    else
      var digits := if s[0] == '+' || s[0] == '-' then s[1..] else s;
      if !AllDigits(digits) then None
      else
        var v: int := if s[0] == '-' then -(DigitsValue(digits) as int) else DigitsValue(digits);
        if I32Min <= v <= I32Max then Some(v) else None
  }

  /** Rust's `str::parse::<u32>()`: an optional '+' followed by at least one
      ASCII digit, and the value must fit in 32 bits. */
  function ParseU32(s: string): (r: Option<int>)
    ensures r.Some? ==> 0 <= r.value <= U32Max
  {
    if s == [] || (s[0] == '+' && |s| == 1) then None
    else
      var digits := if s[0] == '+' then s[1..] else s;
      if !AllDigits(digits) then None
      else if DigitsValue(digits) <= U32Max then Some(DigitsValue(digits)) else None
  }

  // --------------------------------------------------------------- lemmas

  /** Reading back n written with w digits gives n. */
  lemma {:induction false} FixedDigitsValue(n: nat, w: nat)
    requires n < Pow10(w)
    ensures DigitsValue(FixedDigits(n, w)) == n
  {
    if w > 0 {
      var s := FixedDigits(n, w);
      assert s[..|s| - 1] == FixedDigits(n / 10, w - 1);
      FixedDigitsValue(n / 10, w - 1);
    }
  }

  /** A string of k digits denotes a number below 10^k. */
  lemma {:induction false} DigitsValueBound(s: string)
    requires AllDigits(s)
    ensures DigitsValue(s) < Pow10(|s|)
  {
    if s != [] {
      DigitsValueBound(s[..|s| - 1]);
    }
  }

  lemma {:induction false} NumDigitsBound(n: nat)
    ensures n < Pow10(NumDigits(n))
  {
    if n >= 10 {
      NumDigitsBound(n / 10);
    }
  }

  /** A number below 10^w has at most w digits. */
  lemma {:induction false} NumDigitsAtMost(n: nat, w: nat)
    requires w >= 1 && n < Pow10(w)
    ensures NumDigits(n) <= w
  {
    if n >= 10 {
      assert Pow10(1) == 10;
      NumDigitsAtMost(n / 10, w - 1);
    }
  }

  /** A non-negative number below 10^w is formatted with `{:0w}` as exactly w
      digits. */
  lemma FormatIntNarrow(v: int, w: nat)
    requires w >= 1 && 0 <= v < Pow10(w)
    ensures FormatInt(v, w) == FixedDigits(v, w)
  {
    NumDigitsAtMost(v, w);
  }

  /** Zero-padded numbers of the same width compare as text exactly as they
      compare as numbers. */
  lemma {:induction false} FixedDigitsOrder(a: nat, b: nat, w: nat)
    requires a < Pow10(w) && b < Pow10(w)
    ensures LexLess(FixedDigits(a, w), FixedDigits(b, w)) <==> a < b
  {
    if w == 0 {
      assert a == 0 && b == 0;
    } else {
      var fa, fb := FixedDigits(a / 10, w - 1), FixedDigits(b / 10, w - 1);
      var da, db := DigitChar(a % 10), DigitChar(b % 10);
      LexLessConcat(fa, [da], fb, [db]);
      FixedDigitsOrder(a / 10, b / 10, w - 1);
      if fa == fb {
        FixedDigitsValue(a / 10, w - 1);
        FixedDigitsValue(b / 10, w - 1);
      }
      assert LexLess([da], [db]) <==> da < db by {
        assert [da][1..] == [] && [db][1..] == [];
      }
    }
  }

  lemma {:induction false} Pow10Monotone(a: nat, b: nat)
    requires a <= b
    ensures Pow10(a) <= Pow10(b)
    decreases b
  {
    if a < b {
      Pow10Monotone(a, b - 1);
    }
  }

  /** A number of at least 10^w has more than w digits. */
  lemma {:induction false} NumDigitsAtLeast(n: nat, w: nat)
    requires n >= Pow10(w)
    ensures NumDigits(n) > w
  {
    if w > 0 {
      NumDigitsAtLeast(n / 10, w - 1);
    }
  }

  /** The leading digit of a number written with four digits. */
  lemma FourDigitLead(n: nat)
    requires n < 10000
    ensures FixedDigits(n, 4)[0] == DigitChar(n / 1000)
  {
    var a, b, c := n / 10, n / 10 / 10, n / 10 / 10 / 10;
    assert FixedDigits(n, 4)[0] == FixedDigits(a, 3)[0];
    assert FixedDigits(a, 3)[0] == FixedDigits(b, 2)[0];
    assert FixedDigits(b, 2)[0] == FixedDigits(c, 1)[0];
    assert c == n / 1000 && c < 10;
  }

  /** The leading digit of a number written with five digits. */
  lemma FiveDigitLead(n: nat)
    requires n < 100000
    ensures FixedDigits(n, 5)[0] == DigitChar(n / 10000)
  {
    FourDigitLead(n / 10);
    assert FixedDigits(n, 5)[0] == FixedDigits(n / 10, 4)[0];
    assert n / 10 / 1000 == n / 10000;
  }

  /** `{:0w}` of a non-negative number is a string of digits denoting it. */
  lemma FormatIntNat(v: nat, w: nat)
    ensures FormatInt(v, w) == FixedDigits(v, Max(w, NumDigits(v)))
    ensures |FormatInt(v, w)| >= 1 && DigitsValue(FormatInt(v, w)) == v
  {
    NumDigitsBound(v);
    Pow10Monotone(NumDigits(v), Max(w, NumDigits(v)));
    FixedDigitsValue(v, Max(w, NumDigits(v)));
  }

  /** `parse::<i32>()` of a non-empty string of digits is its value, when that
      fits. */
  lemma ParseI32Digits(s: string)
    requires s != [] && AllDigits(s) && DigitsValue(s) <= I32Max
    ensures ParseI32(s) == Some(DigitsValue(s))
  {
    assert IsDigit(s[0]);
  }

  /** `parse::<u32>()` of a non-empty string of digits is its value, when that
      fits. */
  lemma ParseU32Digits(s: string)
    requires s != [] && AllDigits(s) && DigitsValue(s) <= U32Max
    ensures ParseU32(s) == Some(DigitsValue(s))
  {
    assert IsDigit(s[0]);
  }

  /** `parse::<i32>()` reads back a non-negative number written with w >= 1 digits. */
  lemma ParseI32Fixed(n: nat, w: nat)
    requires w >= 1 && n < Pow10(w) && n <= I32Max
    ensures ParseI32(FixedDigits(n, w)) == Some(n)
  {
    FixedDigitsValue(n, w);
    ParseI32Digits(FixedDigits(n, w));
  }

  /** `parse::<u32>()` reads back a number written with w >= 1 digits. */
  lemma ParseU32Fixed(n: nat, w: nat)
    requires w >= 1 && n < Pow10(w) && n <= U32Max
    ensures ParseU32(FixedDigits(n, w)) == Some(n)
  {
    FixedDigitsValue(n, w);
    ParseU32Digits(FixedDigits(n, w));
  }

  /** Text without a '-' never parses to a negative i32, and k characters parse
      to a number below 10^k. */
  lemma ParseI32NoMinus(s: string)
    requires '-' !in s && ParseI32(s).Some?
    ensures 0 <= ParseI32(s).value < Pow10(|s|)
  {
    var digits := if s[0] == '+' then s[1..] else s;
    DigitsValueBound(digits);
    if s[0] == '+' {
      assert Pow10(|s|) == 10 * Pow10(|digits|);
    }
  }

  /** `to_string` of a non-negative number is its digits, without padding. */
  lemma IntToStringNat(v: nat)
    ensures IntToString(v) == FixedDigits(v, NumDigits(v))
  {
  }

  /** `to_string` starts with '-' exactly for negative numbers. */
  lemma IntToStringSign(v: int)
    ensures |IntToString(v)| >= 1 && (IntToString(v)[0] == '-' <==> v < 0)
  {
    if v >= 0 {
      assert IsDigit(IntToString(v)[0]);
    }
  }

  /** `to_string` of a non-negative number reads back as that number. */
  lemma IntToStringValue(v: nat)
    ensures AllDigits(IntToString(v)) && DigitsValue(IntToString(v)) == v
  {
    NumDigitsBound(v);
    FixedDigitsValue(v, NumDigits(v));
  }

  /** A negative number is written as '-' and the digits of its magnitude. */
  lemma IntToStringNegative(v: int)
    requires v < 0
    ensures IntToString(v) == "-" + IntToString(-v)
  {
  }

  lemma IntToStringInjectiveNat(a: nat, b: nat)
    requires IntToString(a) == IntToString(b)
    ensures a == b
  {
    IntToStringValue(a);
    IntToStringValue(b);
  }

  /** Different integers are written differently. */
  lemma IntToStringInjective(a: int, b: int)
    requires IntToString(a) == IntToString(b)
    ensures a == b
  {
    IntToStringSign(a);
    IntToStringSign(b);
    if a >= 0 && b >= 0 {
      IntToStringInjectiveNat(a, b);
    } else if a < 0 && b < 0 {
      IntToStringNegative(a);
      IntToStringNegative(b);
      assert IntToString(-a) == IntToString(a)[1..] == IntToString(-b);
      IntToStringInjectiveNat(-a, -b);
    }
  }
}
