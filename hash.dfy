/**
 * The `bkdr` string hash of main.c: starting from 0, each byte of a C
 * string is folded in as `val * 131 + tolower(byte)` in 32-bit unsigned
 * arithmetic. A NULL string hashes to 0. The keywords of the
 * configuration file are compared through their hashes.
 */
module Hash {
  import opened Wrappers
  import opened CStrings

  /** A `uint32_t`. */
  type U32 = x: int | 0 <= x < 0x1_0000_0000

  const MOD32: int := 0x1_0000_0000

  /** `tolower` of the C locale on an unsigned char: only 'A'..'Z' change. */
  function ToLower(c: Byte): (r: Byte)
    ensures 'A' as int <= c <= 'Z' as int ==> r == c + ('a' as int - 'A' as int)
    ensures !('A' as int <= c <= 'Z' as int) ==> r == c
  {
    if 'A' as int <= c <= 'Z' as int then c + ('a' as int - 'A' as int) else c
  }

  /** The hash of the bytes `s`, folded in from the first to the last, modulo 2^32. */
  function Fold(s: seq<Byte>): U32
    decreases |s|
  {
    if s == [] then 0 else (Fold(s[..|s| - 1]) * 131 + ToLower(s[|s| - 1])) % MOD32
  }

  /** `bkdr`: the hash of the C string at `str`, 0 for NULL. */
  method Bkdr(str: Option<seq<Byte>>) returns (val: U32)
    ensures str == None ==> val == 0
    ensures str.Some? ==> val == Fold(CStr(str.value))
  {
    val := 0;
    if str.Some? {
      var s := str.value;
      var i := 0;
      while i < |s| && s[i] != NUL
        invariant i <= |s| && NulFree(s[..i]) && val == Fold(s[..i])
      {
        assert s[..i + 1][..i] == s[..i];
        val := (val * 131 + ToLower(s[i])) % MOD32;
        i := i + 1;
      }
      if i < |s| {
        CStrUpTo(s, i);
      } else {
        assert s[..i] == s;
        CStrOfTerminated(s, []);
      }
    }
  }

  /** The empty string hashes to 0, like NULL. */
  lemma FoldEmpty()
    ensures Fold([]) == 0
  {
  }

  /** Two strings that differ only in the case of ASCII letters hash equally. */
  lemma {:induction false} FoldIgnoresCase(a: seq<Byte>, b: seq<Byte>)
    requires |a| == |b| && forall i :: 0 <= i < |a| ==> ToLower(a[i]) == ToLower(b[i])
    ensures Fold(a) == Fold(b)
  {
    if a != [] {
      FoldIgnoresCase(a[..|a| - 1], b[..|b| - 1]);
    }
  }

  /** The lower-case copy of `s`, letter by letter. */
  function Lower(s: seq<Byte>): (r: seq<Byte>)
    ensures |r| == |s| && forall i :: 0 <= i < |s| ==> r[i] == ToLower(s[i])
  {
    seq(|s|, i requires 0 <= i < |s| => ToLower(s[i]))
  }

  /** A string hashes like its lower-case copy. */
  lemma FoldLower(s: seq<Byte>)
    ensures Fold(Lower(s)) == Fold(s)
  {
    FoldIgnoresCase(Lower(s), s);
  }

  /** Hashing one more byte: the old hash times 131 plus the byte, lower-cased, modulo 2^32. */
  lemma FoldSnoc(s: seq<Byte>, c: Byte)
    ensures Fold(s + [c]) == (Fold(s) * 131 + ToLower(c)) % MOD32
  {
    assert (s + [c])[..|s|] == s;
  }

  /**
   * Hashing the first `k + 1` bytes of `s`, when byte `k` is already lower
   * case: the hash of the first `k` times 131 plus that byte, reduced modulo
   * 2^32 by the quotient `q` the caller names.
   */
  lemma FoldStep(s: seq<Byte>, k: nat, v: U32, q: int, w: U32)
    requires k < |s| && Fold(s[..k]) == v && ToLower(s[k]) == s[k]
    requires v * 131 + s[k] == q * MOD32 + w
    ensures Fold(s[..k + 1]) == w
  {
    assert s[..k + 1][..k] == s[..k];
  }

  /** The bytes of an ASCII text. */
  function Ascii(s: string): (r: seq<Byte>)
    requires forall i :: 0 <= i < |s| ==> s[i] as int < 256
    ensures |r| == |s| && forall i :: 0 <= i < |s| ==> r[i] == s[i] as int
  {
    seq(|s|, i requires 0 <= i < |s| => s[i] as int)
  }

  /** The hash of an ASCII text. */
  function H(s: string): U32
    requires forall i :: 0 <= i < |s| ==> s[i] as int < 256
  {
    Fold(Ascii(s))
  }

  /** A text that spells `word` in any mix of upper and lower case hashes as `word` does. */
  lemma HashOfWord(text: seq<Byte>, word: string)
    requires forall i :: 0 <= i < |word| ==> word[i] as int < 256
    requires Lower(text) == Ascii(word)
    ensures Fold(text) == H(word)
  {
    FoldLower(text);
  }
}
