/**
 * Bytes and NUL-terminated C strings, as the C library sees them:
 * `strlen` reads up to the first NUL, `strcmp` compares the bytes
 * before the first NUL as unsigned chars, a shorter string being a
 * prefix of a longer one comparing less.
 */
module CStrings {

  /** An `unsigned char`. */
  type Byte = b: int | 0 <= b < 256

  const NUL: Byte := 0

  /** No byte of `s` is NUL. */
  predicate NulFree(s: seq<Byte>) {
    forall i :: 0 <= i < |s| ==> s[i] != NUL
  }

  /** The C string stored at the start of `s`: the bytes before its first NUL. */
  function CStr(s: seq<Byte>): (r: seq<Byte>)
    ensures |r| <= |s| && r == s[..|r|]
    ensures NulFree(r)
    ensures |r| < |s| ==> s[|r|] == NUL
  {
    if s == [] || s[0] == NUL then [] else [s[0]] + CStr(s[1..])
  }

  /** `strlen`. */
  function StrLen(s: seq<Byte>): nat {
    |CStr(s)|
  }

  /** A string without NUL is its own C string, with or without a terminator. */
  lemma {:induction false} CStrOfTerminated(d: seq<Byte>, rest: seq<Byte>)
    requires NulFree(d)
    ensures CStr(d + [NUL] + rest) == d
    ensures CStr(d) == d
  {
    if d != [] {
      assert (d + [NUL] + rest)[1..] == d[1..] + [NUL] + rest;
      CStrOfTerminated(d[1..], rest);
    }
  }

  /** A block whose first bytes are `d` and a NUL holds the C string of `d`, whatever follows. */
  lemma {:induction false} CStrOfWritten(d: seq<Byte>, s: seq<Byte>)
    requires |d| < |s| && s[..|d| + 1] == d + [NUL]
    ensures CStr(s) == CStr(d)
  {
    if d != [] {
      assert s[0] == d[0];
      if d[0] != NUL {
        assert s[1..][..|d[1..]| + 1] == d[1..] + [NUL];
        CStrOfWritten(d[1..], s[1..]);
      }
    } else {
      assert s[0] == NUL;
    }
  }

  /** A NUL at `i` with none before it ends the C string at `i`. */
  lemma CStrUpTo(s: seq<Byte>, i: nat)
    requires i < |s| && s[i] == NUL && NulFree(s[..i])
    ensures CStr(s) == s[..i]
  {
    assert s == s[..i] + [NUL] + s[i + 1..];
    CStrOfTerminated(s[..i], s[i + 1..]);
  }

  /** A block holding a NUL holds its C string and that NUL: `strlen` stays inside it. */
  lemma StrLenInside(s: seq<Byte>)
    requires NUL in s
    ensures StrLen(s) < |s|
  {
  }

  /** The sign of `strcmp` on two NUL-free strings. */
  function LexCmp(a: seq<Byte>, b: seq<Byte>): (r: int)
    ensures -1 <= r <= 1
  {
    if a == [] && b == [] then 0
    else if a == [] then -1
    else if b == [] then 1
    else if a[0] < b[0] then -1
    else if a[0] > b[0] then 1
    else LexCmp(a[1..], b[1..])
  }

  /** `strcmp` of the C strings stored at `a` and `b`. */
  function StrCmp(a: seq<Byte>, b: seq<Byte>): int {
    LexCmp(CStr(a), CStr(b))
  }

  lemma {:induction false} LexCmpZeroIff(a: seq<Byte>, b: seq<Byte>)
    ensures LexCmp(a, b) == 0 <==> a == b
  {
    if a != [] && b != [] && a[0] == b[0] {
      LexCmpZeroIff(a[1..], b[1..]);
      assert a == [a[0]] + a[1..] && b == [b[0]] + b[1..];
    }
  }

  lemma {:induction false} LexCmpAntisymmetric(a: seq<Byte>, b: seq<Byte>)
    ensures LexCmp(b, a) == -LexCmp(a, b)
  {
    if a != [] && b != [] && a[0] == b[0] {
      LexCmpAntisymmetric(a[1..], b[1..]);
    }
  }

  lemma {:induction false} LexCmpTransitive(a: seq<Byte>, b: seq<Byte>, c: seq<Byte>)
    requires LexCmp(a, b) <= 0 && LexCmp(b, c) <= 0
    ensures LexCmp(a, c) <= 0
  {
    if a != [] && b != [] && c != [] && a[0] == b[0] == c[0] {
      LexCmpTransitive(a[1..], b[1..], c[1..]);
    }
  }

  /** Strictly below then below-or-equal is strictly below. */
  lemma LexCmpStrictLeft(a: seq<Byte>, b: seq<Byte>, c: seq<Byte>)
    requires LexCmp(a, b) < 0 && LexCmp(b, c) <= 0
    ensures LexCmp(a, c) < 0
  {
    LexCmpTransitive(a, b, c);
    LexCmpZeroIff(a, c);
    if a == c {
      LexCmpAntisymmetric(a, b);
    }
  }

  /** Below-or-equal then strictly below is strictly below. */
  lemma LexCmpStrictRight(a: seq<Byte>, b: seq<Byte>, c: seq<Byte>)
    requires LexCmp(a, b) <= 0 && LexCmp(b, c) < 0
    ensures LexCmp(a, c) < 0
  {
    LexCmpTransitive(a, b, c);
    LexCmpZeroIff(a, c);
    if a == c {
      LexCmpAntisymmetric(b, c);
    }
  }
}
