/**
 * `u8_parse` of main.c: read up to `num` numbers from a C string with
 * `strtol` (base 0), store each one truncated to an unsigned byte, and
 * skip whatever is not a digit between them. The configuration file's
 * colour triples and the fan bounds are read this way.
 */
module U8Parse {
  import opened Wrappers
  import opened CStrings
  import opened Strtol

  /** `(uint8_t)v`: the conversion keeps `v` modulo 256. */
  function U8(v: int): (r: Byte)
    ensures 0 <= v < 256 ==> r == v
    ensures (v - r) % 256 == 0
  {
    v % 256
  }

  /** The C string in `t` has ended at `p`: past the buffer or at a NUL. */
  predicate AtEnd(t: seq<Byte>, p: nat) {
    p >= |t| || t[p] == NUL
  }

  /** Where the C string in `t` that continues at `p` ends. */
  function End(t: seq<Byte>, p: nat): (q: nat)
    requires p <= |t|
    ensures p <= q <= |t| && AtEnd(t, q)
    decreases |t| - p
  {
    if AtEnd(t, p) then p else End(t, p + 1)
  }

  /** The skip loop of `u8_parse`: the first position from `p` on that holds a digit or ends the string. */
  function SkipNonDigits(t: seq<Byte>, p: nat): (q: nat)
    requires p <= |t|
    ensures p <= q <= |t|
    ensures AtEnd(t, q) || IsDigit(t[q])
    decreases |t| - p
  {
    if AtEnd(t, p) || IsDigit(t[p]) then p else SkipNonDigits(t, p + 1)
  }

  /** Where `strtol` leaves `endptr` when it starts at `p`. */
  function After(t: seq<Byte>, p: nat): (q: nat)
    requires p <= |t|
    ensures p <= q <= |t|
  {
    p + StrToL(t[p..]).used
  }

  /** The string ends at the first NUL: no byte before its end is NUL, and a position with none before it lies within. */
  lemma {:induction false} EndBounds(t: seq<Byte>, p: nat, a: nat)
    requires p <= a <= |t|
    ensures (forall i :: p <= i < a ==> t[i] != NUL) ==> a <= End(t, p)
    ensures a <= End(t, p) ==> End(t, a) == End(t, p)
    decreases a - p
  {
    if p < a {
      EndBounds(t, p + 1, a);
    }
  }

  /** The skip loop stops at the end of the string at the latest. */
  lemma {:induction false} SkipInside(t: seq<Byte>, p: nat)
    requires p <= |t|
    ensures SkipNonDigits(t, p) <= End(t, p)
    decreases |t| - p
  {
    if !AtEnd(t, p) && !IsDigit(t[p]) {
      SkipInside(t, p + 1);
    }
  }

  /**
   * A number read at a byte of the string, and the non-digits after it
   * skipped, leave the reader strictly further on and still inside the
   * string: either `strtol` consumed a digit, or the byte it refused is a
   * non-digit that the skip loop passes.
   */
  lemma Progress(t: seq<Byte>, p: nat)
    requires p < |t| && t[p] != NUL
    ensures p < SkipNonDigits(t, After(t, p)) <= End(t, p)
    ensures End(t, SkipNonDigits(t, After(t, p))) == End(t, p)
  {
    if IsDigit(t[p]) {
      StrToLAtDigit(t[p..]);
    }
    var a := After(t, p);
    StrToLInside(t[p..]);
    assert forall i :: p <= i < a ==> t[i] == t[p..][i - p];
    EndBounds(t, p, a);
    SkipInside(t, a);
    EndBounds(t, p, SkipNonDigits(t, a));
  }

  /**
   * The bytes `u8_parse` stores when it reads from position `p` of `t`
   * with room for `num` more: one per number, at most `num`, and no more
   * than the bytes left in the string, since each number starts at a
   * distinct byte of it. Nothing is stored exactly when there is no room
   * or the string has ended.
   */
  function Parsed(t: seq<Byte>, p: nat, num: nat): (r: seq<Byte>)
    requires p <= |t|
    ensures |r| <= num && |r| <= End(t, p) - p
    ensures r == [] <==> num == 0 || AtEnd(t, p)
    decreases |t| - p
  {
    if num == 0 || AtEnd(t, p) then []
    else
      var v := U8(StrToL(t[p..]).value);
      if num == 1 then [v]
      else
        Progress(t, p);
        [v] + Parsed(t, SkipNonDigits(t, After(t, p)), num - 1)
  }

  /**
   * The state of `u8_parse` at the head of its loop: `w` has been stored,
   * reading goes on at `p`, and what is still to come completes the bytes
   * of the whole call.
   */
  ghost predicate Reading(t: seq<Byte>, num: nat, p: nat, w: seq<Byte>, all: seq<Byte>) {
    p <= |t| && |w| < num && w + Parsed(t, p, num - |w|) == all
  }

  lemma ReadingStart(t: seq<Byte>, num: nat)
    requires num > 0
    ensures Reading(t, num, 0, [], Parsed(t, 0, num))
  {
  }

  /** One number read at `p` and stored when it was the last one there was room for: the call's bytes are complete. */
  lemma ReadingLast(t: seq<Byte>, num: nat, p: nat, w: seq<Byte>, all: seq<Byte>, c: Conversion)
    requires Reading(t, num, p, w, all) && !AtEnd(t, p) && c == StrToL(t[p..]) && |w| + 1 == num
    ensures w + [U8(c.value)] == all
  {
    assert Parsed(t, p, num - |w|) == [U8(c.value)];
  }

  /**
   * One number read at `p` and stored with room left: reading goes on,
   * strictly further on, after the skip.
   */
  lemma ReadingNext(t: seq<Byte>, num: nat, p: nat, w: seq<Byte>, all: seq<Byte>, c: Conversion)
    requires Reading(t, num, p, w, all) && !AtEnd(t, p) && c == StrToL(t[p..]) && |w| + 1 < num
    ensures After(t, p) == p + c.used
    ensures p < SkipNonDigits(t, After(t, p)) && Reading(t, num, SkipNonDigits(t, After(t, p)), w + [U8(c.value)], all)
  {
    Progress(t, p);
    var v := U8(c.value);
    var q := SkipNonDigits(t, After(t, p));
    var rest := Parsed(t, q, num - |w| - 1);
    assert Parsed(t, p, num - |w|) == [v] + rest;
    Assoc(w, [v], rest);
    var w2 := w + [v];
    assert |w2| == |w| + 1;
    assert Parsed(t, q, num - |w2|) == rest;
    assert w2 + rest == all;
  }

  lemma Assoc(a: seq<Byte>, b: seq<Byte>, c: seq<Byte>)
    ensures a + (b + c) == (a + b) + c
  {
  }

  /** The string has ended: the bytes stored are the call's bytes. */
  lemma ReadingDone(t: seq<Byte>, num: nat, p: nat, w: seq<Byte>, all: seq<Byte>)
    requires Reading(t, num, p, w, all) && AtEnd(t, p)
    ensures w == all
  {
  }

  /**
   * `u8_parse(ptr, num, text)`: with a buffer, a positive count and a
   * string, the first `parsed` bytes of `ptr` become the numbers read and
   * the rest of the buffer keeps its bytes; otherwise nothing is written
   * and 0 is returned.
   */
  method Parse(ptr: array?<Byte>, num: nat, text: Option<seq<Byte>>) returns (parsed: nat)
    requires ptr != null ==> num <= ptr.Length
    modifies ptr
    ensures ptr == null || num == 0 || text == None ==> parsed == 0
    ensures ptr != null && (num == 0 || text == None) ==> ptr[..] == old(ptr[..])
    ensures ptr != null && num > 0 && text.Some? ==>
              parsed == |Parsed(text.value, 0, num)| && ptr[..] == Parsed(text.value, 0, num) + old(ptr[..])[parsed..]
  {
    parsed := 0;
    if ptr != null && num != 0 && text.Some? {
      parsed := Fill(ptr, num, text.value);
    }
  }

  /** The loop of `u8_parse`, once the buffer, the count and the string are known to be there. */
  method Fill(ptr: array<Byte>, num: nat, t: seq<Byte>) returns (parsed: nat)
    requires 0 < num <= ptr.Length
    modifies ptr
    ensures parsed == |Parsed(t, 0, num)| && ptr[..] == Parsed(t, 0, num) + old(ptr[..])[parsed..]
  {
    parsed := 0;
    ghost var before := ptr[..];
    ghost var written: seq<Byte> := [];
    ghost var all := Parsed(t, 0, num);
    ReadingStart(t, num);
    var p := 0;
    while p < |t| && t[p] != NUL
      invariant parsed == |written| < num <= ptr.Length
      invariant ptr[..] == written + before[parsed..]
      invariant Reading(t, num, p, written, all)
      decreases |t| - p
    {
      var c := StrToL(t[p..]);
      Store(ptr, parsed, written, before, U8(c.value));
      ghost var w := written;
      written := written + [U8(c.value)];
      parsed := parsed + 1;
      if parsed == num {
        ReadingLast(t, num, p, w, all, c);
        break;
      }
      ReadingNext(t, num, p, w, all, c);
      p := Skip(t, After(t, p));
    }
    if parsed < num {
      ReadingDone(t, num, p, written, all);
    }
  }

  /** The skip loop of `u8_parse`: step over everything that neither ends the string nor is a digit. */
  method Skip(t: seq<Byte>, p0: nat) returns (p: nat)
    requires p0 <= |t|
    ensures p == SkipNonDigits(t, p0)
  {
    p := p0;
    while p < |t| && t[p] != NUL && !IsDigit(t[p])
      invariant p <= |t| && SkipNonDigits(t, p) == SkipNonDigits(t, p0)
      decreases |t| - p
    {
      p := p + 1;
    }
  }

  /** `ptr[parsed] = v`: byte `v` is stored just after the bytes `w` already written over `before`. */
  method Store(ptr: array<Byte>, i: nat, ghost w: seq<Byte>, ghost before: seq<Byte>, v: Byte)
    requires i == |w| < |before| == ptr.Length && ptr[..] == w + before[i..]
    modifies ptr
    ensures ptr[..] == (w + [v]) + before[i + 1..]
  {
    ptr[i] := v;
  }
}
