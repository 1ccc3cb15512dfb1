/**
 * `strtol` with base 0 and `isdigit`/`isspace` of the C locale, as section
 * 7.22.1.4 of ISO/IEC 9899:2011 describes them: white space is skipped, an
 * optional sign is read, a `0x` or `0X` prefix followed by a hexadecimal
 * digit selects base 16, a leading `0` base 8 and anything else base 10;
 * the longest run of digits of that base is converted. Without any digit
 * nothing is consumed and the value is 0. A value out of the range of a
 * 64-bit `long` is replaced by the nearest bound.
 */
module Strtol {
  import opened CStrings

  /** The range of `long` on an LP64 target. */
  const LONG_MAX: int := 0x7FFF_FFFF_FFFF_FFFF
  const LONG_MIN: int := -0x8000_0000_0000_0000

  /** `isdigit`. */
  predicate IsDigit(c: Byte) {
    '0' as int <= c <= '9' as int
  }

  /** `isspace` of the C locale: space, and tab through carriage return. */
  predicate IsSpace(c: Byte) {
    c == ' ' as int || 9 <= c <= 13
  }

  /** The value of `c` as a digit of bases up to 36; 36 when it is no digit at all. */
  function DigitValue(c: Byte): (r: nat)
    ensures r <= 36
    ensures r < 10 <==> IsDigit(c)
  {
    if IsDigit(c) then c - '0' as int
    else if 'a' as int <= c <= 'z' as int then c - 'a' as int + 10
    else if 'A' as int <= c <= 'Z' as int then c - 'A' as int + 10
    else 36
  }

  /** The number of white-space bytes at the start of `s`. */
  function Blanks(s: seq<Byte>): (n: nat)
    ensures n <= |s|
    ensures n < |s| ==> !IsSpace(s[n])
  {
    if s == [] || !IsSpace(s[0]) then 0 else 1 + Blanks(s[1..])
  }

  /** The number of digits of base `base` at the start of `s`. */
  function DigitRun(s: seq<Byte>, base: nat): (n: nat)
    ensures n <= |s|
    ensures n < |s| ==> DigitValue(s[n]) >= base
  {
    if s == [] || DigitValue(s[0]) >= base then 0 else 1 + DigitRun(s[1..], base)
  }

  /** The value of the digits `d` in base `base`, most significant first. */
  function Digits(d: seq<Byte>, base: nat): nat {
    if d == [] then 0 else Digits(d[..|d| - 1], base) * base + DigitValue(d[|d| - 1])
  }

  /** What `strtol` returns and how many bytes it consumed (`endptr - nptr`). */
  datatype Conversion = Conversion(value: int, used: nat)

  /** The base and where the digits start, for a subject sequence starting at `j`. */
  function Base(s: seq<Byte>, j: nat): (r: (nat, nat))
    requires j <= |s|
    ensures r.0 in {8, 10, 16} && j <= r.1 <= |s|
  {
    if j + 2 < |s| && s[j] == '0' as int && (s[j + 1] == 'x' as int || s[j + 1] == 'X' as int)
       && DigitValue(s[j + 2]) < 16
    then (16, j + 2)
    else if j < |s| && s[j] == '0' as int then (8, j)
    else (10, j)
  }

  /** `strtol(s, &end, 0)`. */
  function StrToL(s: seq<Byte>): (r: Conversion)
    ensures LONG_MIN <= r.value <= LONG_MAX
    ensures r.used <= |s|
    ensures r.used == 0 ==> r.value == 0
  {
    var i := Blanks(s);
    var j := if i < |s| && (s[i] == '+' as int || s[i] == '-' as int) then i + 1 else i;
    var (base, k) := Base(s, j);
    var n := DigitRun(s[k..], base);
    if n == 0 then Conversion(0, 0)
    else
      var v: int := Digits(s[k..k + n], base);
      var signed := if j > i && s[i] == '-' as int then -v else v;
      Conversion(if signed > LONG_MAX then LONG_MAX else if signed < LONG_MIN then LONG_MIN else signed, k + n)
  }

  /** Every byte of the white-space run is white space. */
  lemma {:induction false} BlanksAreSpace(s: seq<Byte>, i: nat)
    requires i < Blanks(s)
    ensures IsSpace(s[i])
  {
    if i > 0 {
      BlanksAreSpace(s[1..], i - 1);
    }
  }

  /** Every byte of the digit run is a digit of the base. */
  lemma {:induction false} DigitRunBelow(s: seq<Byte>, base: nat, i: nat)
    requires i < DigitRun(s, base)
    ensures DigitValue(s[i]) < base
  {
    if i > 0 {
      DigitRunBelow(s[1..], base, i - 1);
    }
  }

  /** `strtol` stops at the terminating NUL: it consumes no NUL byte. */
  lemma StrToLInside(s: seq<Byte>)
    ensures forall i :: 0 <= i < StrToL(s).used ==> s[i] != NUL
  {
    var i := Blanks(s);
    var j := if i < |s| && (s[i] == '+' as int || s[i] == '-' as int) then i + 1 else i;
    var (base, k) := Base(s, j);
    var n := DigitRun(s[k..], base);
    forall m | 0 <= m < StrToL(s).used
      ensures s[m] != NUL
    {
      if m < i {
        BlanksAreSpace(s, m);
      } else if k <= m {
        DigitRunBelow(s[k..], base, m - k);
        assert s[k..][m - k] == s[m];
      }
    }
  }

  /** A string that starts with a digit gives `strtol` at least that digit to consume. */
  lemma StrToLAtDigit(s: seq<Byte>)
    requires |s| > 0 && IsDigit(s[0])
    ensures StrToL(s).used >= 1
  {
    var (base, k) := Base(s, 0);
    assert DigitValue(s[k..][0]) < base;
  }

  /**
   * A run of decimal digits not starting with 0 and not followed by another
   * digit is read whole as a decimal number.
   */
  lemma StrToLDecimal(d: seq<Byte>, rest: seq<Byte>)
    requires |d| > 0 && d[0] != '0' as int && forall i :: 0 <= i < |d| ==> IsDigit(d[i])
    requires rest == [] || !IsDigit(rest[0])
    requires Digits(d, 10) <= LONG_MAX
    ensures StrToL(d + rest) == Conversion(Digits(d, 10), |d|)
  {
    var s := d + rest;
    assert s[0] == d[0];
    var (base, k) := Base(s, 0);
    assert base == 10 && k == 0;
    DigitRunExact(s, d, rest);
    assert s[..|d|] == d;
  }

  /** The decimal digits `d` followed by no digit form the whole decimal run. */
  lemma {:induction false} DigitRunExact(s: seq<Byte>, d: seq<Byte>, rest: seq<Byte>)
    requires s == d + rest && (forall i :: 0 <= i < |d| ==> IsDigit(d[i])) && (rest == [] || !IsDigit(rest[0]))
    ensures DigitRun(s, 10) == |d|
    decreases |d|
  {
    if d != [] {
      assert s[0] == d[0] && s[1..] == d[1..] + rest;
      DigitRunExact(s[1..], d[1..], rest);
    }
  }
}
