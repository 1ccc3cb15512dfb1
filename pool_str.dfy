/**
 * The bump string arena of pool_str.c and pool_str.h: one growable byte
 * block `p` of capacity `m` whose first `n` bytes hold NUL-terminated
 * strings back to back. Strings are appended at `n`, the last one can be
 * taken back, and one in the middle can be cut out.
 */
module PoolStr {
  import opened CStrings
  import opened Wrappers
  import Mem

  /** BUFSIZ of the C library (8192 in glibc); the capacity `pool_str_init` picks for 0. */
  const BUFSIZ: nat := 8192

  // ---------------------------------------------------------------------
  // Specification functions
  // ---------------------------------------------------------------------

  /**
   * The capacity the `do { m <<= 1; } while (n + need > m)` loop of
   * `pool_str_grow` stops at, for a target `t = n + need`.
   */
  function Grown(m: nat, t: nat): nat
    requires m > 0
    decreases t - m
  {
    if t <= 2 * m then 2 * m else Grown(2 * m, t)
  }

  /**
   * The grown capacity doubles `m` at least once, fits the target, and is
   * the first doubling that does: half of it is `m` or too small.
   */
  lemma {:induction false} GrownFirstFit(m: nat, t: nat)
    requires m > 0
    ensures var r := Grown(m, t);
      && t <= r && 2 * m <= r
      && (r == 2 * m || r < 2 * t)
    decreases t - m
  {
    if t > 2 * m {
      GrownFirstFit(2 * m, t);
    }
  }

  /** Just past the last NUL of `s`, or 0 when `s` has none. */
  function AfterLastNul(s: seq<Byte>): (r: nat)
    ensures r <= |s|
    ensures r > 0 ==> s[r - 1] == NUL
  {
    if s == [] then 0
    else if s[|s| - 1] == NUL then |s|
    else AfterLastNul(s[..|s| - 1])
  }

  /** No NUL follows the point `AfterLastNul` finds. */
  lemma {:induction false} AfterLastNulSkips(s: seq<Byte>)
    ensures forall j :: AfterLastNul(s) <= j < |s| ==> s[j] != NUL
  {
    if s != [] && s[|s| - 1] != NUL {
      AfterLastNulSkips(s[..|s| - 1]);
    }
  }

  lemma {:induction false} AfterLastNulUnique(s: seq<Byte>, k: nat)
    requires k <= |s| && (k > 0 ==> s[k - 1] == NUL)
    requires forall j :: k <= j < |s| ==> s[j] != NUL
    ensures k == AfterLastNul(s)
  {
    if k < |s| {
      AfterLastNulUnique(s[..|s| - 1], k);
    }
  }

  /**
   * The length `pool_str_undo` leaves for a used region `u`: when `u` ends
   * in a NUL, the start of its last string; otherwise all of `u`.
   */
  function UndoPoint(u: seq<Byte>): (r: nat)
    ensures r <= |u|
  {
    if u != [] && u[|u| - 1] == NUL then AfterLastNul(u[..|u| - 1]) else |u|
  }

  /** A region that is empty or ends in a NUL: every string in it is terminated. */
  predicate Terminated(u: seq<Byte>) {
    u == [] || u[|u| - 1] == NUL
  }

  /**
   * Round trip: appending a NUL-free string and its terminator to a
   * terminated region, then undoing, gives back the region's length.
   */
  lemma UndoAfterPut(u: seq<Byte>, d: seq<Byte>)
    requires Terminated(u) && NulFree(d)
    ensures UndoPoint(u + d + [NUL]) == |u|
  {
    var w := u + d + [NUL];
    assert w[..|w| - 1] == u + d;
    var s := u + d;
    forall j | |u| <= j < |s|
      ensures s[j] != NUL
    {
      assert s[j] == d[j - |u|];
    }
    AfterLastNulUnique(s, |u|);
  }

  /** Undo of a terminated region leaves a terminated region. */
  lemma UndoKeepsTerminated(u: seq<Byte>)
    requires Terminated(u)
    ensures Terminated(u[..UndoPoint(u)])
  {
    if u != [] {
      var r := UndoPoint(u);
      assert r > 0 ==> u[..|u| - 1][r - 1] == NUL;
    }
  }

  /** `off` is where a string of the region `u` begins. */
  predicate StringStart(u: seq<Byte>, off: nat) {
    off < |u| && (off == 0 || u[off - 1] == NUL)
  }

  /**
   * The region `pool_str_drop` leaves: an offset inside `u` loses the C
   * string there and its NUL, what follows moves down; any other offset
   * leaves `u` as it is.
   */
  function Cut(u: seq<Byte>, off: int): (r: seq<Byte>)
    requires 0 <= off < |u| ==> NUL in u[off..]
    ensures |r| <= |u|
  {
    if 0 <= off < |u| then
      StrLenInside(u[off..]);
      u[..off] + u[off + StrLen(u[off..]) + 1..]
    else u
  }

  /** Round trip: dropping the string just appended gives back the region. */
  lemma CutAfterPut(u: seq<Byte>, d: seq<Byte>)
    requires NulFree(d)
    ensures NUL in (u + d + [NUL])[|u|..]
    ensures Cut(u + d + [NUL], |u|) == u
  {
    var w := u + d + [NUL];
    assert w[|u|..] == d + [NUL] + [];
    CStrOfTerminated(d, []);
    assert w[..|u|] == u;
  }

  /** Dropping a whole string keeps every remaining string terminated. */
  lemma CutKeepsTerminated(u: seq<Byte>, off: nat)
    requires Terminated(u) && StringStart(u, off) && NUL in u[off..]
    ensures Terminated(Cut(u, off))
  {
    StrLenInside(u[off..]);
    var e := off + StrLen(u[off..]) + 1;
    var r := Cut(u, off);
    if e < |u| {
      assert r[|r| - 1] == u[|u| - 1];
    } else if off > 0 {
      assert r[|r| - 1] == u[off - 1];
    }
  }

  // ---------------------------------------------------------------------
  // Loops over the block
  // ---------------------------------------------------------------------

  /** `strlen(a + off)` when a NUL lies in `a[off..n)`. */
  method StrLenAt(a: array<Byte>, off: nat, n: nat) returns (len: nat)
    requires off <= n <= a.Length && NUL in a[off..n]
    ensures off + len < n && len == StrLen(a[off..n])
  {
    var k := off;
    while a[k] != NUL
      invariant off <= k < n
      invariant forall j :: off <= j < k ==> a[j] != NUL
      invariant NUL in a[k..n]
      decreases n - k
    {
      assert a[k..n] == [a[k]] + a[k + 1..n];
      k := k + 1;
    }
    len := k - off;
    var s := a[off..n];
    assert s[len] == NUL;
    assert forall j :: 0 <= j < len ==> s[..len][j] == a[off + j];
    CStrUpTo(s, len);
  }

  // ---------------------------------------------------------------------
  // struct pool_str
  // ---------------------------------------------------------------------

  /** `struct pool_str`: the block `p` of `m` bytes, the first `n` in use. */
  class PoolStr {
    var p: array<Byte>
    var m: nat
    var n: nat

    ghost predicate Valid()
      reads this
    {
      p.Length == m && n <= m
    }

    /** The used region: the strings stored so far, each with its NUL. */
    ghost function Used(): seq<Byte>
      reads this, p
      requires Valid()
    {
      p[..n]
    }

    /** POOL_STR_INIT: no block, no capacity, nothing used. */
    constructor Zero()
      ensures Valid() && m == 0 && n == 0
    {
      p := new Byte[0];
      m := 0;
      n := 0;
    }

    /** `pool_str_init`: a block of `m0` bytes, or BUFSIZ when `m0` is 0, with nothing used. */
    constructor Init(m0: nat)
      ensures Valid() && fresh(p) && Used() == []
      ensures m == if m0 == 0 then BUFSIZ else m0
    {
      var cap := if m0 == 0 then BUFSIZ else m0;
      p := new Byte[cap];
      m := cap;
      n := 0;
    }

    /**
     * `pool_str_grow`: double the capacity at least once until `n + need`
     * bytes fit, then `realloc` the block; the loop runs forever when the
     * capacity is 0, so a positive capacity is required.
     */
    method Grow(need: nat)
      requires Valid() && m > 0
      modifies this`p, this`m
      ensures Valid() && fresh(p)
      ensures m == Grown(old(m), n + need)
      ensures 2 * old(m) <= m && n + need <= m
      ensures p[..old(m)] == old(p[..])
    {
      var t := n + need;
      ghost var m0 := m;
      m := 2 * m;
      while t > m
        invariant m > 0 && p == old(p)
        invariant Grown(m0, t) == if t <= m then m else Grown(m, t)
        decreases t - m
      {
        m := 2 * m;
      }
      assert m == Grown(m0, t);
      GrownFirstFit(m0, t);
      p := Mem.Realloc(p, m, NUL);
      assert p[..m0] == old(p[..]);
    }

    /** `pool_str_exit`: release the block and forget its capacity. */
    method Exit()
      requires Valid()
      modifies this
      ensures Valid() && m == 0 && n == 0
    {
      p := new Byte[0];
      m := 0;
      n := 0;
    }

    /**
     * `pool_str_putn`: grow when the string and its NUL do not fit, copy
     * the bytes to offset `n`, terminate them, and return that offset.
     * Growing a block of capacity 0 never ends, so it is required not to
     * be needed then.
     */
    method PutN(data: seq<Byte>) returns (off: nat)
      requires Valid() && (n + |data| + 1 > m ==> m > 0)
      modifies this`p, this`m, this`n, p
      ensures Valid() && off == old(n) && n == old(n) + |data| + 1
      ensures Used() == old(Used()) + data + [NUL]
      ensures m == if old(n) + |data| + 1 > old(m) then Grown(old(m), old(n) + |data| + 1) else old(m)
    {
      var strN := |data| + 1;
      if n + strN > m {
        Grow(strN);
      }
      ghost var u := p[..n];
      assert u == old(Used());
      off := n;
      Mem.CopyIn(p, off, data);
      n := n + strN;
      p[off + |data|] := NUL;
      assert p[..n] == u + data + [NUL] by {
        assert p[..off] == u;
        assert p[off..off + |data|] == data;
      }
    }

    /** `pool_str_puts`: `pool_str_putn` of the C string at `str`, or of no bytes when `str` is NULL. */
    method PutS(str: Option<seq<Byte>>) returns (off: nat)
      requires Valid()
      requires var len := if str.Some? then StrLen(str.value) else 0; n + len + 1 > m ==> m > 0
      modifies this`p, this`m, this`n, p
      ensures Valid() && off == old(n)
      ensures Used() == old(Used()) + (if str.Some? then CStr(str.value) else []) + [NUL]
    {
      var data := if str.Some? then CStr(str.value) else [];
      off := PutN(data);
    }

    /**
     * `pool_str_undo`: when the used region ends in a NUL, shrink it back to
     * just after the NUL before that one (or to nothing); return the new end.
     */
    method Undo() returns (off: nat)
      requires Valid()
      modifies this`n
      ensures Valid() && n == UndoPoint(old(Used())) && off == n
    {
      ghost var u := Used();
      var q: int := n - 1;
      if q >= 0 && p[q] == NUL {
        q := q - 1;
        while q >= 0 && p[q] != NUL
          invariant -1 <= q < n - 1
          invariant forall j :: q < j < n - 1 ==> p[j] != NUL
        {
          q := q - 1;
        }
        AfterLastNulUnique(u[..n - 1], q + 1);
      }
      n := q + 1;
      off := n;
    }

    /**
     * `pool_str_drop`: an offset inside the used region cuts out the string
     * there with its NUL, moving the rest down; any other offset is ignored.
     * `strlen` must meet a NUL inside the region.
     */
    method Drop(off: int)
      requires Valid() && (0 <= off < n ==> NUL in p[off..n])
      modifies this`n, p
      ensures Valid() && Used() == Cut(old(Used()), off)
      ensures !(0 <= off < old(n)) ==> p[..] == old(p[..])
    {
      if 0 <= off < n {
        ghost var u := p[..n];
        assert u[off..] == p[off..n];
        var len := StrLenAt(p, off, n);
        var strN := len + 1;
        Mem.MoveDown(p, off, strN, n);
        n := n - strN;
        assert Used() == u[..off] + u[off + strN..];
      }
    }

    /** `pool_str_bufp`: the offset where the next string goes. */
    function BufP(): (r: nat)
      reads this
      requires Valid()
      ensures r == |Used()|
    {
      n
    }

    /** `pool_str_bufn`: the room left after the used region. */
    function BufN(): (r: nat)
      reads this
      requires Valid()
      ensures r + |Used()| == m
    {
      m - n
    }

    /** `pool_str_have`: the offset lies inside the used region. */
    function Have(q: int): (r: bool)
      reads this
      requires Valid()
      ensures r <==> 0 <= q < |Used()|
    {
      0 <= q < n
    }

    /**
     * `pool_str_done`: after the caller wrote `k` bytes at `bufp`, terminate
     * them and take them into the used region; the result is the old `bufp`.
     */
    method Done(k: nat) returns (off: nat)
      requires Valid() && k < BufN()
      modifies this`n, p
      ensures Valid() && off == old(BufP()) && n == old(n) + k + 1
      ensures Used() == old(p[..n + k]) + [NUL]
      ensures p[..] == old(p[..])[old(n) + k := NUL]
    {
      off := n;
      p[n + k] := NUL;
      n := n + k + 1;
    }
  }
}
