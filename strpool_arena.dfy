/**
 * The arena shape that strpool.h declares: `struct strpool { p, m, n }`
 * with the inline accessors of that header. The block holds `n` used bytes
 * out of `m`; pointers handed out by the accessors are positions inside it.
 */
module StrArena {
  import opened CStrings

  /**
   * A `char *`: the block it points into and its offset there. Two
   * pointers compare only through their offsets when the blocks agree.
   */
  datatype Ptr = Ptr(block: array<Byte>, off: int)

  /** `struct strpool` of strpool.h. */
  class Arena {
    var p: array<Byte>
    var m: nat
    var n: nat

    ghost predicate Valid()
      reads this
    {
      p.Length == m && n <= m
    }

    /** The used bytes. */
    ghost function Used(): seq<Byte>
      reads this, p
      requires Valid()
    {
      p[..n]
    }

    /** STRPOOL_INIT: no block, no capacity, nothing used. */
    constructor Init()
      ensures Valid() && m == 0 && n == 0 && Used() == []
    {
      p := new Byte[0];
      m := 0;
      n := 0;
    }

    /** `strpool_addr`: the start of the block. */
    function Addr(): (r: Ptr)
      reads this
      ensures r.block == p && r.off == 0
    {
      Ptr(p, 0)
    }

    /** `strpool_size`: the capacity. */
    function Size(): (r: nat)
      reads this
      requires Valid()
      ensures r == p.Length
    {
      m
    }

    /** `strpool_used`: the number of bytes in use. */
    function UsedLen(): (r: nat)
      reads this, p
      requires Valid()
      ensures r == |Used()| && r <= Size()
    {
      n
    }

    /** `strpool_bufp`: the first free byte, just past the used ones. */
    function BufP(): (r: Ptr)
      reads this
      requires Valid()
      ensures r.block == p && r.off == n
    {
      Ptr(p, n)
    }

    /** `strpool_bufn`: the number of free bytes. */
    function BufN(): (r: nat)
      reads this
      requires Valid()
      ensures r == p.Length - n
    {
      m - n
    }

    /** `strpool_have`: `q` points at a used byte of this block. */
    function Have(q: Ptr): (r: bool)
      reads this
      requires Valid()
      ensures r <==> q.block == p && 0 <= q.off < n
    {
      q.block == p && Addr().off <= q.off < BufP().off
    }

    /**
     * `strpool_done`: after the caller wrote `k` bytes at `bufp`, put a NUL
     * after them and take them and the NUL into the used region; return the
     * old `bufp`. The NUL must land inside the block.
     */
    method Done(k: nat) returns (r: Ptr)
      requires Valid() && k < BufN()
      modifies this`n, p
      ensures Valid() && r == old(BufP()) && n == old(n) + k + 1
      ensures p[..] == old(p[..])[r.off + k := NUL]
      ensures Used() == old(p[..n + k]) + [NUL]
    {
      r := BufP();
      p[n + k] := NUL;
      n := n + k + 1;
    }
  }

  /**
   * The pointer `strpool_done` returns lies in the used region afterwards,
   * the new `bufp` does not, and the free room shrank by what was taken.
   */
  lemma DoneHands(a: Arena, k: nat, r: Ptr, n0: nat)
    requires a.Valid() && r.block == a.p && r.off == n0 && a.n == n0 + k + 1
    ensures a.Have(r) && !a.Have(a.BufP())
    ensures a.BufN() + k + 1 == a.Size() - n0
  {
  }
}
