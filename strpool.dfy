/**
 * The interning string pool of strpool.c (built with STRPOOL_LOOP).
 *
 * Two arrays of buffer pointers: the registry `ptr[0..num)`, kept sorted
 * by the pool's comparator so that `bsearch` can find a string, and the
 * recycle list `pool.ptr[0..pool.num)` of released buffers, kept ascending
 * by the size the allocator actually granted, so that a forward scan finds
 * the best fit. A buffer is a heap block with an identity, a usable size
 * (`malloc_usable_size`) and the bytes written into it.
 */
module StrPool {
  import opened CStrings
  import opened Wrappers
  import Mem

  /** STRPOOL_INIT_MIN: not defined in the files of the repository; any positive value fits the model. */
  const INIT_MIN: nat := 8

  /** sizeof(size_t) on the 64-bit targets the pool is built for. */
  const WORD: nat := 8

  // ---------------------------------------------------------------------
  // STRPOOL_ROUNDUP
  // ---------------------------------------------------------------------

  /**
   * The value the cascade `v |= v >> 1; v |= v >> 2; ... v |= v >> 32`
   * computes for v < 2^64, in closed form: every bit below the highest set
   * bit of `v` becomes set.
   */
  function Smear(v: nat): nat {
    if v == 0 then 0 else 2 * Smear(v / 2) + 1
  }

  /** STRPOOL_ROUNDUP(x): `--x`, smear, `++x`; 0 wraps round to 0. */
  function RoundUp(x: nat): nat {
    if x == 0 then 0 else Smear(x - 1) + 1
  }

  predicate IsPow2(n: nat)
    decreases n
  {
    n == 1 || (n >= 2 && n % 2 == 0 && IsPow2(n / 2))
  }

  lemma {:induction false} SmearBounds(v: nat)
    ensures IsPow2(Smear(v) + 1)
    ensures v <= Smear(v)
    ensures v >= 1 ==> Smear(v) < 2 * v
  {
    if v > 0 {
      SmearBounds(v / 2);
      assert (Smear(v) + 1) / 2 == Smear(v / 2) + 1;
    }
  }

  lemma {:induction false} Pow2Spaced(a: nat, b: nat)
    requires IsPow2(a) && IsPow2(b) && a < b
    ensures 2 * a <= b
  {
    if a != 1 {
      Pow2Spaced(a / 2, b / 2);
    }
  }

  lemma RoundUpBounds(x: nat)
    requires x >= 1
    ensures IsPow2(RoundUp(x)) && x <= RoundUp(x) < 2 * x
  {
    SmearBounds(x - 1);
  }

  lemma RoundUpBelow(x: nat, p: nat)
    requires x >= 1 && IsPow2(p) && x <= p
    ensures RoundUp(x) <= p
  {
    RoundUpBounds(x);
    if p < RoundUp(x) {
      Pow2Spaced(p, RoundUp(x));
    }
  }

  /** STRPOOL_ROUNDUP maps every x >= 1 to the least power of two that is at least x. */
  lemma RoundUpIsLeastPow2(x: nat)
    requires x >= 1
    ensures IsPow2(RoundUp(x)) && x <= RoundUp(x) < 2 * x
    ensures forall p: nat :: IsPow2(p) && x <= p ==> RoundUp(x) <= p
  {
    RoundUpBounds(x);
    forall p: nat | IsPow2(p) && x <= p
      ensures RoundUp(x) <= p
    {
      RoundUpBelow(x, p);
    }
  }

  /**
   * The request size `strpool_pool_load` looks for: 0 counts as 1, and the
   * result is rounded up to a multiple of sizeof(size_t) by `(x + 7) & ~7`.
   */
  function WordRound(num: nat): (r: nat)
    ensures r % WORD == 0
    ensures var x := if num == 0 then 1 else num; x <= r < x + WORD
  {
    var x := if num == 0 then 1 else num;
    (x + WORD - 1) / WORD * WORD
  }

  // ---------------------------------------------------------------------
  // Comparators
  // ---------------------------------------------------------------------

  /**
   * The two comparators strpool.c ships, both called as `cmp(key, slot)`:
   * `strpool_compare` is `strcmp(key, *slot)`, `strpool_reverse` is
   * `strcmp(*slot, key)`.
   */
  datatype Comparator = Compare | Reverse

  function Cmp(c: Comparator, key: seq<Byte>, slot: seq<Byte>): int {
    match c
    case Compare => StrCmp(key, slot)
    case Reverse => StrCmp(slot, key)
  }

  /** Both comparators report 0 exactly for equal C strings. */
  lemma CmpZeroIff(c: Comparator, a: seq<Byte>, b: seq<Byte>)
    ensures Cmp(c, a, b) == 0 <==> CStr(a) == CStr(b)
  {
    LexCmpZeroIff(CStr(a), CStr(b));
    LexCmpZeroIff(CStr(b), CStr(a));
  }

  lemma CmpAntisymmetric(c: Comparator, a: seq<Byte>, b: seq<Byte>)
    ensures Cmp(c, b, a) == -Cmp(c, a, b)
  {
    LexCmpAntisymmetric(CStr(a), CStr(b));
  }

  lemma CmpTransitive(c: Comparator, a: seq<Byte>, b: seq<Byte>, d: seq<Byte>)
    requires Cmp(c, a, b) <= 0 && Cmp(c, b, d) <= 0
    ensures Cmp(c, a, d) <= 0
  {
    match c
    case Compare => LexCmpTransitive(CStr(a), CStr(b), CStr(d));
    case Reverse => LexCmpTransitive(CStr(d), CStr(b), CStr(a));
  }

  lemma CmpStrictLeft(c: Comparator, a: seq<Byte>, b: seq<Byte>, d: seq<Byte>)
    requires Cmp(c, a, b) < 0 && Cmp(c, b, d) <= 0
    ensures Cmp(c, a, d) < 0
  {
    match c
    case Compare => LexCmpStrictLeft(CStr(a), CStr(b), CStr(d));
    case Reverse => LexCmpStrictRight(CStr(d), CStr(b), CStr(a));
  }

  lemma CmpStrictRight(c: Comparator, a: seq<Byte>, b: seq<Byte>, d: seq<Byte>)
    requires Cmp(c, a, b) <= 0 && Cmp(c, b, d) < 0
    ensures Cmp(c, a, d) < 0
  {
    match c
    case Compare => LexCmpStrictRight(CStr(a), CStr(b), CStr(d));
    case Reverse => LexCmpStrictLeft(CStr(d), CStr(b), CStr(a));
  }

  // ---------------------------------------------------------------------
  // Buffers and the two lists
  // ---------------------------------------------------------------------

  /** A heap block: its identity, its usable size and the bytes written into it. */
  datatype Buffer = Buffer(id: nat, cap: nat, bytes: seq<Byte>)

  function Insert(s: seq<Buffer>, k: nat, b: Buffer): seq<Buffer>
    requires k <= |s|
  {
    s[..k] + [b] + s[k..]
  }

  function Remove(s: seq<Buffer>, k: nat): seq<Buffer>
    requires k < |s|
  {
    s[..k] + s[k + 1..]
  }

  /** The registry order: no entry compares above a later one. */
  ghost predicate Sorted(c: Comparator, s: seq<Buffer>) {
    forall i, j :: 0 <= i < j < |s| ==> Cmp(c, s[i].bytes, s[j].bytes) <= 0
  }

  /** The recycle-list order: capacities never decrease. */
  ghost predicate Ascending(s: seq<Buffer>) {
    forall i, j :: 0 <= i < j < |s| ==> s[i].cap <= s[j].cap
  }

  /** The identities of the buffers in `s`, in order. */
  function Ids(s: seq<Buffer>): seq<nat> {
    seq(|s|, i requires 0 <= i < |s| => s[i].id)
  }

  /** The identities of the buffers in `s`, with multiplicity. */
  ghost function IdBag(s: seq<Buffer>): multiset<nat> {
    multiset(Ids(s))
  }

  lemma IdBagHas(s: seq<Buffer>, i: nat)
    requires i < |s|
    ensures s[i].id in IdBag(s)
  {
    assert Ids(s)[i] == s[i].id;
  }

  lemma IdBagInsert(s: seq<Buffer>, k: nat, b: Buffer)
    requires k <= |s|
    ensures IdBag(Insert(s, k, b)) == IdBag(s) + multiset{b.id}
  {
    var ids := Ids(s);
    assert Ids(Insert(s, k, b)) == ids[..k] + [b.id] + ids[k..];
    assert ids == ids[..k] + ids[k..];
  }

  lemma IdBagRemove(s: seq<Buffer>, k: nat)
    requires k < |s|
    ensures IdBag(s) == IdBag(Remove(s, k)) + multiset{s[k].id}
  {
    var ids := Ids(s);
    assert Ids(Remove(s, k)) == ids[..k] + ids[k + 1..];
    assert ids == ids[..k] + [s[k].id] + ids[k + 1..];
  }

  /**
   * Ownership: every buffer sits in at most one slot of the two lists
   * together, and every buffer was handed out before `next`.
   */
  ghost predicate Owned(reg: seq<Buffer>, rec: seq<Buffer>, next: nat) {
    && (forall x :: (IdBag(reg) + IdBag(rec))[x] <= 1)
    && (forall x :: x in IdBag(reg) + IdBag(rec) ==> x < next)
  }

  /** Under ownership no buffer is both registered and recycled. */
  lemma OwnedDisjoint(reg: seq<Buffer>, rec: seq<Buffer>, next: nat)
    requires Owned(reg, rec, next)
    ensures forall i, j :: 0 <= i < |reg| && 0 <= j < |rec| ==> reg[i].id != rec[j].id
    ensures forall i, j :: 0 <= i < j < |reg| ==> reg[i].id != reg[j].id
  {
    forall i, j | 0 <= i < |reg| && 0 <= j < |rec|
      ensures reg[i].id != rec[j].id
    {
      IdBagHas(reg, i);
      IdBagHas(rec, j);
      var x := reg[i].id;
      assert (IdBag(reg) + IdBag(rec))[x] <= 1;
      if x == rec[j].id {
        assert false;
      }
    }
    forall i, j | 0 <= i < j < |reg|
      ensures reg[i].id != reg[j].id
    {
      var x := reg[i].id;
      IdBagRemove(reg, j);
      IdBagHas(Remove(reg, j), i);
      assert Remove(reg, j)[i] == reg[i];
      assert (IdBag(reg) + IdBag(rec))[x] <= 1;
      if x == reg[j].id {
        assert false;
      }
    }
  }

  // ---------------------------------------------------------------------
  // The scans
  // ---------------------------------------------------------------------

  /**
   * The forward scan of `strpool_pool_load`: the first slot whose capacity
   * is at least `r`, or `|s|` when none is.
   */
  function FirstFit(s: seq<Buffer>, r: nat): (k: nat)
    ensures k <= |s|
    ensures k < |s| ==> s[k].cap >= r
  {
    if s == [] || s[0].cap >= r then 0 else 1 + FirstFit(s[1..], r)
  }

  /** Every block the forward scan passes is too small. */
  lemma {:induction false} FirstFitSkips(s: seq<Buffer>, r: nat)
    ensures forall j :: 0 <= j < FirstFit(s, r) ==> s[j].cap < r
  {
    if s != [] && s[0].cap < r {
      FirstFitSkips(s[1..], r);
      forall j | 0 < j < FirstFit(s, r)
        ensures s[j].cap < r
      {
        assert s[1..][j - 1] == s[j];
      }
    }
  }

  /** A slot with the first-fit properties is the first fit. */
  lemma {:induction false} FirstFitUnique(s: seq<Buffer>, r: nat, k: nat)
    requires k <= |s|
    requires forall j :: 0 <= j < k ==> s[j].cap < r
    requires k < |s| ==> s[k].cap >= r
    ensures k == FirstFit(s, r)
  {
    if k > 0 {
      FirstFitUnique(s[1..], r, k - 1);
    }
  }

  /** On an ascending list the first fit is the best fit: no buffer that fits is smaller. */
  lemma FirstFitIsBestFit(s: seq<Buffer>, r: nat)
    requires Ascending(s)
    ensures forall j :: 0 <= j < |s| && s[j].cap >= r ==>
      FirstFit(s, r) < |s| && s[FirstFit(s, r)].cap <= s[j].cap
  {
    FirstFitSkips(s, r);
  }

  /** Taking a buffer out of an ascending list leaves it ascending. */
  lemma RemoveKeepsAscending(s: seq<Buffer>, k: nat)
    requires k < |s| && Ascending(s)
    ensures Ascending(Remove(s, k))
  {
    var t := Remove(s, k);
    forall i, j | 0 <= i < j < |t|
      ensures t[i].cap <= t[j].cap
    {
      var i' := if i < k then i else i + 1;
      var j' := if j < k then j else j + 1;
      assert t[i] == s[i'] && t[j] == s[j'];
    }
  }

  /**
   * The backward scan of `strpool_pool_dump`: the slot just after the last
   * buffer whose capacity is at most `n`, or 0 when there is none.
   */
  function DumpPos(s: seq<Buffer>, n: nat): (k: nat)
    ensures k <= |s|
    ensures k > 0 ==> s[k - 1].cap <= n
  {
    if s == [] then 0
    else if s[|s| - 1].cap <= n then |s|
    else DumpPos(s[..|s| - 1], n)
  }

  /** Every block the backward scan of `strpool_pool_dump` passes is larger. */
  lemma {:induction false} DumpPosSkips(s: seq<Buffer>, n: nat)
    ensures forall j :: DumpPos(s, n) <= j < |s| ==> s[j].cap > n
  {
    if s != [] && s[|s| - 1].cap > n {
      DumpPosSkips(s[..|s| - 1], n);
    }
  }

  /** Inserting at the dump position keeps the recycle list ascending. */
  lemma DumpKeepsAscending(s: seq<Buffer>, b: Buffer)
    requires Ascending(s)
    ensures Ascending(Insert(s, DumpPos(s, b.cap), b))
  {
    var k := DumpPos(s, b.cap);
    DumpPosSkips(s, b.cap);
    var t := Insert(s, k, b);
    forall i, j | 0 <= i < j < |t|
      ensures t[i].cap <= t[j].cap
    {
      if i < k && j == k {
        assert s[i].cap <= s[k - 1].cap;
      } else if i == k && j > k {
        assert t[j] == s[j - 1];
      } else {
        var i' := if i < k then i else i - 1;
        var j' := if j < k then j else j - 1;
        assert t[i] == s[i'] && t[j] == s[j'];
      }
    }
  }

  /**
   * The backward scan of `strpool_load`: the slot just after the last entry
   * `e` with `cmp(key, e) >= 0`, or 0 when there is none.
   */
  function LoadPos(c: Comparator, s: seq<Buffer>, key: seq<Byte>): (k: nat)
    ensures k <= |s|
    ensures k > 0 ==> Cmp(c, key, s[k - 1].bytes) >= 0
  {
    if s == [] then 0
    else if Cmp(c, key, s[|s| - 1].bytes) >= 0 then |s|
    else LoadPos(c, s[..|s| - 1], key)
  }

  /** Every entry the backward scan of `strpool_load` passes compares above the key. */
  lemma {:induction false} LoadPosSkips(c: Comparator, s: seq<Buffer>, key: seq<Byte>)
    ensures forall j :: LoadPos(c, s, key) <= j < |s| ==> Cmp(c, key, s[j].bytes) < 0
  {
    if s != [] && Cmp(c, key, s[|s| - 1].bytes) < 0 {
      LoadPosSkips(c, s[..|s| - 1], key);
    }
  }

  /**
   * An entry placed after everything comparing at or below it and before
   * everything comparing above it keeps the registry sorted.
   */
  lemma InsertKeepsSorted(c: Comparator, s: seq<Buffer>, k: nat, b: Buffer)
    requires k <= |s| && Sorted(c, s)
    requires forall j :: 0 <= j < k ==> Cmp(c, s[j].bytes, b.bytes) <= 0
    requires forall j :: k <= j < |s| ==> Cmp(c, b.bytes, s[j].bytes) <= 0
    ensures Sorted(c, Insert(s, k, b))
  {
    var t := Insert(s, k, b);
    forall i, j | 0 <= i < j < |t|
      ensures Cmp(c, t[i].bytes, t[j].bytes) <= 0
    {
      if j == k {
        assert t[i] == s[i];
      } else if i == k {
        assert t[j] == s[j - 1];
      } else {
        var i' := if i < k then i else i - 1;
        var j' := if j < k then j else j - 1;
        assert t[i] == s[i'] && t[j] == s[j'];
      }
    }
  }

  /** The entry just before the load position compares at or below the key. */
  lemma LoadPosLast(c: Comparator, s: seq<Buffer>, key: seq<Byte>, k: nat)
    requires k == LoadPos(c, s, key) > 0
    ensures Cmp(c, s[k - 1].bytes, key) <= 0
  {
    CmpAntisymmetric(c, key, s[k - 1].bytes);
  }

  /** One pair of a sorted registry. */
  lemma SortedAt(c: Comparator, s: seq<Buffer>, i: nat, j: nat)
    requires Sorted(c, s) && i < j < |s|
    ensures Cmp(c, s[i].bytes, s[j].bytes) <= 0
  {
  }

  /**
   * An entry before the load position compares at or below the key, given
   * that it compares at or below the entry just before that position.
   */
  lemma LoadPosBelow(c: Comparator, s: seq<Buffer>, key: seq<Byte>, j: nat, k: nat)
    requires k == LoadPos(c, s, key) && j < k
    requires j < k - 1 ==> Cmp(c, s[j].bytes, s[k - 1].bytes) <= 0
    ensures Cmp(c, s[j].bytes, key) <= 0
  {
    LoadPosLast(c, s, key, k);
    if j < k - 1 {
      CmpTransitive(c, s[j].bytes, s[k - 1].bytes, key);
    }
  }

  /**
   * On a sorted registry the load position puts the new string after every
   * entry comparing at or below it (so equal keys keep insertion order) and
   * before every entry comparing above it, and the registry stays sorted.
   */
  lemma LoadKeepsSorted(c: Comparator, s: seq<Buffer>, b: Buffer)
    requires Sorted(c, s)
    ensures var k := LoadPos(c, s, b.bytes);
      && (forall j :: 0 <= j < k ==> Cmp(c, s[j].bytes, b.bytes) <= 0)
      && (forall j :: k <= j < |s| ==> Cmp(c, b.bytes, s[j].bytes) < 0)
      && Sorted(c, Insert(s, k, b))
  {
    var k := LoadPos(c, s, b.bytes);
    forall j | 0 <= j < k
      ensures Cmp(c, s[j].bytes, b.bytes) <= 0
    {
      if j < k - 1 {
        SortedAt(c, s, j, k - 1);
      }
      LoadPosBelow(c, s, b.bytes, j, k);
    }
    LoadPosSkips(c, s, b.bytes);
    InsertKeepsSorted(c, s, k, b);
  }

  /** Taking an entry out of a sorted registry leaves it sorted. */
  lemma RemoveKeepsSorted(c: Comparator, s: seq<Buffer>, k: nat)
    requires k < |s| && Sorted(c, s)
    ensures Sorted(c, Remove(s, k))
  {
    var t := Remove(s, k);
    forall i, j | 0 <= i < j < |t|
      ensures Cmp(c, t[i].bytes, t[j].bytes) <= 0
    {
      var i' := if i < k then i else i + 1;
      var j' := if j < k then j else j + 1;
      assert t[i] == s[i'] && t[j] == s[j'];
    }
  }

  /**
   * The best-fit example: with recycled capacities 8, 16 and 32, a request
   * for 10 bytes takes the 16-byte buffer, neither the 8 nor the 32.
   */
  lemma BestFitExample(a: Buffer, b: Buffer, c: Buffer)
    requires a.cap == 8 && b.cap == 16 && c.cap == 32
    ensures FirstFit([a, b, c], WordRound(10)) == 1
  {
    assert WordRound(10) == 16;
    assert [a, b, c][1..] == [b, c];
  }

  /** Position-wise the scan results are unique: a slot with the load-position properties is the load position. */
  lemma LoadPosUnique(c: Comparator, s: seq<Buffer>, key: seq<Byte>, k: nat)
    requires k <= |s|
    requires forall j :: k <= j < |s| ==> Cmp(c, key, s[j].bytes) < 0
    requires k > 0 ==> Cmp(c, key, s[k - 1].bytes) >= 0
    ensures k == LoadPos(c, s, key)
  {
  }

  lemma DumpPosUnique(s: seq<Buffer>, n: nat, k: nat)
    requires k <= |s|
    requires forall j :: k <= j < |s| ==> s[j].cap > n
    requires k > 0 ==> s[k - 1].cap <= n
    ensures k == DumpPos(s, n)
  {
  }

  lemma {:induction false} IdBagLast(s: seq<Buffer>, k: nat)
    requires 0 < k <= |s|
    ensures IdBag(s[..k]) == IdBag(s[..k - 1]) + multiset{s[k - 1].id}
  {
    assert s[..k] == Insert(s[..k - 1], k - 1, s[k - 1]);
    IdBagInsert(s[..k - 1], k - 1, s[k - 1]);
  }

  /** Taking a block out of the recycle list hands it to the caller alone. */
  lemma OwnedTake(reg: seq<Buffer>, rec: seq<Buffer>, next: nat, k: nat)
    requires k < |rec| && Owned(reg, rec, next)
    ensures Owned(reg, Remove(rec, k), next)
    ensures rec[k].id !in IdBag(reg) + IdBag(Remove(rec, k))
    ensures rec[k].id < next
  {
    var rest := Remove(rec, k);
    var x := rec[k].id;
    IdBagRemove(rec, k);
    assert IdBag(reg) + IdBag(rec) == IdBag(reg) + IdBag(rest) + multiset{x};
    forall y
      ensures (IdBag(reg) + IdBag(rest))[y] <= 1
    {
      assert (IdBag(reg) + IdBag(rec))[y] <= 1;
    }
    forall y | y in IdBag(reg) + IdBag(rest)
      ensures y < next
    {
      assert y in IdBag(reg) + IdBag(rec);
    }
    assert (IdBag(reg) + IdBag(rec))[x] <= 1;
    assert x in IdBag(reg) + IdBag(rec);
  }

  /** A block registered from outside both lists is owned once. */
  lemma OwnedAdd(reg: seq<Buffer>, rec: seq<Buffer>, next: nat, k: nat, b: Buffer)
    requires k <= |reg| && Owned(reg, rec, next) && b.id !in IdBag(reg) + IdBag(rec)
    ensures Owned(Insert(reg, k, b), rec, if b.id < next then next else b.id + 1)
  {
    IdBagInsert(reg, k, b);
    assert IdBag(Insert(reg, k, b)) + IdBag(rec) == IdBag(reg) + IdBag(rec) + multiset{b.id};
  }

  /** Moving a registered block to the recycle list keeps it owned once. */
  lemma OwnedMove(reg: seq<Buffer>, rec: seq<Buffer>, next: nat, slot: nat, k: nat)
    requires slot < |reg| && k <= |rec| && Owned(reg, rec, next)
    ensures Owned(Remove(reg, slot), Insert(rec, k, reg[slot]), next)
  {
    IdBagRemove(reg, slot);
    IdBagInsert(rec, k, reg[slot]);
    assert IdBag(Remove(reg, slot)) + IdBag(Insert(rec, k, reg[slot])) == IdBag(reg) + IdBag(rec);
  }

  /** The bytes of a block after `memcpy` of `w` over its start. */
  function Overwrite(prev: seq<Byte>, w: seq<Byte>): (r: seq<Byte>)
    ensures |r| >= |w| && r[..|w|] == w
    ensures |w| < |prev| ==> r[|w|..] == prev[|w|..]
  {
    w + (if |w| < |prev| then prev[|w|..] else [])
  }

  // ---------------------------------------------------------------------
  // The loops of strpool.c, on the arrays they walk
  // ---------------------------------------------------------------------

  /** The forward scan of `strpool_pool_load` over the `n` recycled blocks in `a`. */
  method FitIndex(a: array<Buffer>, n: nat, r: nat) returns (k: nat)
    requires n <= a.Length
    ensures k == FirstFit(a[..n], r)
  {
    k := 0;
    while k < n && a[k].cap < r
      invariant k <= n
      invariant forall j :: 0 <= j < k ==> a[j].cap < r
    {
      k := k + 1;
    }
    FirstFitUnique(a[..n], r, k);
  }

  /**
   * The scan and insert of `strpool_pool_dump` on the `n` recycled blocks
   * in `a`: walk back past the larger blocks, open a gap, store the block.
   */
  method DumpInto(a: array<Buffer>, n: nat, b: Buffer, ghost rec: seq<Buffer>)
    requires n < a.Length && a[..n] == rec
    modifies a
    ensures a[..n + 1] == Insert(rec, DumpPos(rec, b.cap), b)
  {
    var k: nat := n;
    while k > 0 && a[k - 1].cap > b.cap
      invariant k <= n
      invariant forall j :: k <= j < n ==> a[j].cap > b.cap
    {
      k := k - 1;
    }
    DumpPosUnique(rec, b.cap, k);
    assert rec[..k] == a[..k] && rec[k..] == a[k..n];
    Mem.InsertAt(a, k, n, b);
    assert a[..n + 1] == rec[..k] + [b] + rec[k..];
  }

  /** The backward scan of `strpool_load` over the `n` registered strings in `a`. */
  method LoadScan(c: Comparator, a: array<Buffer>, n: nat, key: seq<Byte>) returns (k: nat)
    requires n <= a.Length
    ensures k == LoadPos(c, a[..n], key)
  {
    k := n;
    while k > 0 && Cmp(c, key, a[k - 1].bytes) < 0
      invariant k <= n
      invariant forall j :: k <= j < n ==> Cmp(c, key, a[j].bytes) < 0
    {
      k := k - 1;
    }
    LoadPosUnique(c, a[..n], key, k);
  }

  /**
   * The scan and insert of `strpool_load` on the `n` registered strings in
   * `a`: walk back past the entries the comparator puts above `b`, open a
   * gap, store `b`; the result is its slot.
   */
  method LoadInto(c: Comparator, a: array<Buffer>, n: nat, b: Buffer, ghost reg: seq<Buffer>) returns (k: nat)
    requires n < a.Length && a[..n] == reg
    modifies a
    ensures k == LoadPos(c, reg, b.bytes)
    ensures a[..n + 1] == Insert(reg, k, b)
  {
    k := LoadScan(c, a, n, b.bytes);
    assert reg[..k] == a[..k] && reg[k..] == a[k..n];
    Mem.InsertAt(a, k, n, b);
    assert a[..n + 1] == reg[..k] + [b] + reg[k..];
  }

  /**
   * `bsearch(key, a, n, sizeof(char *), cmp)`: a hit is a slot holding the
   * same C string as `key`; on a sorted registry a miss means no slot does.
   */
  method Bsearch(c: Comparator, a: array<Buffer>, n: nat, key: seq<Byte>) returns (r: Option<nat>)
    requires n <= a.Length
    ensures r.Some? ==> r.value < n && CStr(a[r.value].bytes) == CStr(key)
    ensures r.None? && Sorted(c, a[..n]) ==> forall j :: 0 <= j < n ==> CStr(a[j].bytes) != CStr(key)
  {
    ghost var sorted := Sorted(c, a[..n]);
    var lo, hi := 0, n;
    while lo < hi
      invariant 0 <= lo <= hi <= n
      invariant sorted ==> forall j :: 0 <= j < lo ==> Cmp(c, key, a[j].bytes) > 0
      invariant sorted ==> forall j :: hi <= j < n ==> Cmp(c, key, a[j].bytes) < 0
    {
      var mid := (lo + hi) / 2;
      var d := Cmp(c, key, a[mid].bytes);
      if d < 0 {
        if sorted {
          forall j | mid < j < n
            ensures Cmp(c, key, a[j].bytes) < 0
          {
            assert a[..n][mid] == a[mid] && a[..n][j] == a[j];
            CmpStrictLeft(c, key, a[mid].bytes, a[j].bytes);
          }
        }
        hi := mid;
      } else if d > 0 {
        if sorted {
          forall j | 0 <= j <= mid
            ensures Cmp(c, key, a[j].bytes) > 0
          {
            CmpAntisymmetric(c, key, a[mid].bytes);
            if j < mid {
              assert a[..n][j] == a[j] && a[..n][mid] == a[mid];
              CmpStrictRight(c, a[j].bytes, a[mid].bytes, key);
              CmpAntisymmetric(c, key, a[j].bytes);
            }
          }
        }
        lo := mid + 1;
      } else {
        CmpZeroIff(c, key, a[mid].bytes);
        return Some(mid);
      }
    }
    if sorted {
      forall j | 0 <= j < n
        ensures CStr(a[j].bytes) != CStr(key)
      {
        CmpZeroIff(c, key, a[j].bytes);
      }
    }
    return None;
  }

  /** The ids of `s` from the last to the first: the order the freeing loops of strpool.c visit them. */
  function IdsFromLast(s: seq<Buffer>): (r: seq<nat>)
    ensures |r| == |s|
  {
    if s == [] then [] else [s[|s| - 1].id] + IdsFromLast(s[..|s| - 1])
  }

  lemma {:induction false} IdsFromLastBag(s: seq<Buffer>)
    ensures multiset(IdsFromLast(s)) == IdBag(s)
  {
    if s != [] {
      IdsFromLastBag(s[..|s| - 1]);
      IdBagLast(s, |s|);
      assert s[..|s|] == s;
    }
  }

  lemma {:induction false} IdsFromLastCons(b: Buffer, s: seq<Buffer>)
    ensures IdsFromLast([b] + s) == IdsFromLast(s) + [b.id]
  {
    if s != [] {
      assert ([b] + s)[..|s|] == [b] + s[..|s| - 1];
      IdsFromLastCons(b, s[..|s| - 1]);
    } else {
      assert ([b] + s)[..0] == [];
    }
  }

  /**
   * `while (num) free(a[--num])`: the blocks handed to `free`, in the
   * order it receives them.
   */
  method FreeFromLast(a: array<Buffer>, n: nat) returns (freed: seq<nat>)
    requires n <= a.Length
    ensures freed == IdsFromLast(a[..n])
  {
    freed := [];
    var k: nat := n;
    while k > 0
      invariant k <= n
      invariant freed == IdsFromLast(a[k..n])
    {
      IdsFromLastCons(a[k - 1], a[k..n]);
      assert [a[k - 1]] + a[k..n] == a[k - 1..n];
      freed := freed + [a[k - 1].id];
      k := k - 1;
    }
    assert a[k..n] == a[..n];
  }

  // ---------------------------------------------------------------------
  // The invariant strpool.c keeps between calls, on the two lists
  // ---------------------------------------------------------------------

  /**
   * The registry is sorted by the comparator, the recycle list ascends by
   * capacity, and every block is owned by at most one slot of the two.
   */
  ghost predicate PoolInv(c: Comparator, reg: seq<Buffer>, rec: seq<Buffer>, next: nat) {
    Sorted(c, reg) && Ascending(rec) && Owned(reg, rec, next)
  }

  /**
   * `strpool_pool_load` keeps the invariant, and the block it hands out is
   * in neither list afterwards: a recycled block leaves its slot, a fresh
   * one has an identity never handed out before.
   */
  lemma PoolLoadKeepsInv(c: Comparator, reg: seq<Buffer>, rec: seq<Buffer>, next: nat, r: nat)
    requires PoolInv(c, reg, rec, next)
    ensures var k := FirstFit(rec, r);
      if k < |rec| then
        PoolInv(c, reg, Remove(rec, k), next) && rec[k].id !in IdBag(reg) + IdBag(Remove(rec, k))
      else
        PoolInv(c, reg, rec, next + 1) && next !in IdBag(reg) + IdBag(rec)
  {
    var k := FirstFit(rec, r);
    if k < |rec| {
      RemoveKeepsAscending(rec, k);
      OwnedTake(reg, rec, next, k);
    }
  }

  /** `strpool_load` of a block in neither list keeps the invariant. */
  lemma LoadKeepsInv(c: Comparator, reg: seq<Buffer>, rec: seq<Buffer>, next: nat, b: Buffer)
    requires PoolInv(c, reg, rec, next) && b.id !in IdBag(reg) + IdBag(rec)
    ensures PoolInv(c, Insert(reg, LoadPos(c, reg, b.bytes), b), rec, if b.id < next then next else b.id + 1)
  {
    LoadKeepsSorted(c, reg, b);
    OwnedAdd(reg, rec, next, LoadPos(c, reg, b.bytes), b);
  }

  /** `strpool_dump` of a registered slot keeps the invariant. */
  lemma DumpKeepsInv(c: Comparator, reg: seq<Buffer>, rec: seq<Buffer>, next: nat, slot: nat)
    requires PoolInv(c, reg, rec, next) && slot < |reg|
    ensures PoolInv(c, Remove(reg, slot), Insert(rec, DumpPos(rec, reg[slot].cap), reg[slot]), next)
  {
    RemoveKeepsSorted(c, reg, slot);
    DumpKeepsAscending(rec, reg[slot]);
    OwnedMove(reg, rec, next, slot, DumpPos(rec, reg[slot].cap));
  }

  /**
   * `strpool_putn` keeps the invariant. `reg1`, `rec1` and `next1` are the
   * lists and allocator after the put, as `StrPool.PutN` states them: the
   * block `strpool_pool_load` hands out for a request of `r` bytes (the
   * best fit, or a fresh block) is registered at its load position.
   */
  lemma PutKeepsInv(c: Comparator, reg: seq<Buffer>, rec: seq<Buffer>, next: nat, r: nat,
                    reg1: seq<Buffer>, rec1: seq<Buffer>, next1: nat, slot: nat)
    requires PoolInv(c, reg, rec, next)
    requires slot < |reg1| && slot == LoadPos(c, reg, reg1[slot].bytes) && reg1 == Insert(reg, slot, reg1[slot])
    requires var k := FirstFit(rec, r);
      if k < |rec| then
        var id := rec[k].id;
        rec1 == Remove(rec, k) && reg1[slot].id == id && next1 == (if id < next then next else id + 1)
      else
        rec1 == rec && reg1[slot].id == next && next1 == next + 1
    ensures PoolInv(c, reg1, rec1, next1)
  {
    var k := FirstFit(rec, r);
    PoolLoadKeepsInv(c, reg, rec, next, r);
    if k < |rec| {
      LoadKeepsInv(c, reg, Remove(rec, k), next, reg1[slot]);
    } else {
      LoadKeepsInv(c, reg, rec, next + 1, reg1[slot]);
    }
  }

  /**
   * Freeing the recycle list and then the registry, each from the last,
   * hands no block to `free` twice when every block is owned once.
   */
  lemma ExitFreesEachOnce(reg: seq<Buffer>, rec: seq<Buffer>, next: nat)
    requires Owned(reg, rec, next)
    ensures forall x :: multiset(IdsFromLast(rec) + IdsFromLast(reg))[x] <= 1
  {
    IdsFromLastBag(rec);
    IdsFromLastBag(reg);
    assert multiset(IdsFromLast(rec) + IdsFromLast(reg)) == IdBag(reg) + IdBag(rec);
  }

  /** The bytes `strpool_puts` registers: the C string at `str`, or none for NULL. */
  function Text(str: Option<seq<Byte>>): (d: seq<Byte>)
    ensures NulFree(d) && CStr(d) == d
    ensures str.Some? ==> d == CStr(str.value)
  {
    if str.Some? then
      CStrOfTerminated(CStr(str.value), []);
      CStr(str.value)
    else []
  }

  // ---------------------------------------------------------------------
  // struct strpool
  // ---------------------------------------------------------------------

  /**
   * `struct strpool` of strpool.c: the registry `ptr[0..num)` with room for
   * `mem` entries, and the recycle list `pool.ptr[0..pool.num)` with room
   * for `pool.mem`.
   */
  class StrPool {
    var cmp: Comparator
    var ptr: array<Buffer>
    var mem: nat
    var num: nat
    var pool: array<Buffer>
    var poolMem: nat
    var poolNum: nat
    /** The allocator: the identity of the next block `malloc` hands out. */
    var nextId: nat
    /** Every block handed to `free`, in order. */
    var released: seq<nat>

    /** The shape of the two arrays: separate blocks, counts within capacities. */
    ghost predicate Valid()
      reads this
    {
      && ptr != pool
      && ptr.Length == mem && num <= mem
      && poolNum <= poolMem <= pool.Length
    }

    /** The registered strings, in registry order. */
    ghost function Registry(): seq<Buffer>
      reads this, ptr
      requires num <= ptr.Length
    {
      ptr[..num]
    }

    /** The recycled blocks, smallest first. */
    ghost function Recycled(): seq<Buffer>
      reads this, pool
      requires poolNum <= pool.Length
    {
      pool[..poolNum]
    }

    /** The invariant of the pool holds of its current lists. */
    ghost predicate Consistent()
      reads this, ptr, pool
      requires Valid()
    {
      PoolInv(cmp, Registry(), Recycled(), nextId)
    }

    /**
     * `strpool_init` (with `strpool_pool_init`): both arrays get room for
     * `m` rounded up to a power of two, or STRPOOL_INIT_MIN when `m` is 0;
     * the recycle list starts with capacity 0; a NULL comparator selects
     * `strpool_compare`.
     */
    constructor (c: Option<Comparator>, m: nat)
      ensures Valid() && Registry() == [] && Recycled() == [] && Consistent()
      ensures cmp == (if c.Some? then c.value else Compare)
      ensures m == 0 ==> mem == INIT_MIN
      ensures m != 0 ==> IsPow2(mem) && m <= mem < 2 * m
      ensures pool.Length == mem && poolMem == 0
      ensures nextId == 0 && released == []
    {
      if m != 0 {
        RoundUpIsLeastPow2(m);
      }
      var pm := if m != 0 then RoundUp(m) else INIT_MIN;
      pool := new Buffer[pm];
      poolMem := 0;
      poolNum := 0;
      var rm := if m != 0 then RoundUp(m) else INIT_MIN;
      cmp := if c.Some? then c.value else Compare;
      ptr := new Buffer[rm];
      mem := rm;
      num := 0;
      nextId := 0;
      released := [];
    }

    /**
     * `strpool_pool_load`: take the first recycled block of at least the
     * rounded request out of the list, or allocate a fresh block of
     * `usable` bytes when none is big enough.
     */
    method PoolLoad(n: nat, usable: nat) returns (b: Buffer)
      requires Valid() && usable >= WordRound(n)
      modifies this`poolNum, this`nextId, pool
      ensures Valid() && Registry() == old(Registry())
      ensures b.cap >= WordRound(n)
      ensures var k := FirstFit(old(Recycled()), WordRound(n));
        if k < |old(Recycled())| then
          b == old(Recycled())[k] && Recycled() == Remove(old(Recycled()), k) && nextId == old(nextId)
        else
          b == Buffer(old(nextId), usable, []) && Recycled() == old(Recycled()) && nextId == old(nextId) + 1
    {
      ghost var rec := Recycled();
      var k := FitIndex(pool, poolNum, WordRound(n));
      if k == poolNum {
        b := Buffer(nextId, usable, []);
        nextId := nextId + 1;
      } else {
        b := pool[k];
        Mem.RemoveAt(pool, k, poolNum);
        poolNum := poolNum - 1;
        assert Recycled() == Remove(rec, k);
      }
    }

    /** The growth step of `strpool_pool_dump`: double the capacity (or start at STRPOOL_INIT_MIN), rounded up to a power of two. */
    method GrowRecycle()
      requires Valid() && poolNum >= poolMem
      modifies this`pool, this`poolMem
      ensures Valid() && fresh(pool)
      ensures poolNum < poolMem == pool.Length
      ensures poolMem == RoundUp(if old(poolMem) != 0 then 2 * old(poolMem) else INIT_MIN)
      ensures Recycled() == old(Recycled())
    {
      ghost var rec := Recycled();
      poolMem := if poolMem != 0 then 2 * poolMem else INIT_MIN;
      RoundUpIsLeastPow2(poolMem);
      poolMem := RoundUp(poolMem);
      pool := Mem.Realloc(pool, poolMem, Buffer(0, 0, []));
      assert Recycled() == rec;
    }

    /**
     * `strpool_pool_dump`: grow the recycle list when full, then insert the
     * block after the last one that is no larger.
     */
    method PoolDump(b: Buffer)
      requires Valid()
      modifies this`pool, this`poolMem, this`poolNum, pool
      ensures Valid() && Registry() == old(Registry())
      ensures Recycled() == Insert(old(Recycled()), DumpPos(old(Recycled()), b.cap), b)
      ensures old(poolNum) >= old(poolMem) ==>
        fresh(pool) && poolMem == RoundUp(if old(poolMem) != 0 then 2 * old(poolMem) else INIT_MIN)
      ensures old(poolNum) < old(poolMem) ==> pool == old(pool) && poolMem == old(poolMem)
    {
      ghost var rec := Recycled();
      if poolNum >= poolMem {
        GrowRecycle();
      }
      DumpInto(pool, poolNum, b, rec);
      poolNum := poolNum + 1;
    }

    /** The growth step of `strpool_load`: round the capacity up to a power of two and double it, or start at STRPOOL_INIT_MIN. */
    method GrowRegistry()
      requires Valid() && num >= mem
      modifies this`ptr, this`mem
      ensures Valid() && fresh(ptr)
      ensures num < mem == ptr.Length
      ensures mem == if old(mem) != 0 then 2 * RoundUp(old(mem)) else INIT_MIN
      ensures Registry() == old(Registry())
    {
      ghost var reg := Registry();
      if mem != 0 {
        RoundUpIsLeastPow2(mem);
        mem := RoundUp(mem);
        mem := 2 * mem;
      } else {
        mem := INIT_MIN;
      }
      ptr := Mem.Realloc(ptr, mem, Buffer(0, 0, []));
      assert Registry() == reg;
    }

    /**
     * `strpool_load`: grow the registry when full, then insert the string
     * after the last entry the comparator does not put above it; the result
     * is the slot it now occupies.
     */
    method Load(b: Buffer) returns (slot: nat)
      requires Valid()
      modifies this`ptr, this`mem, this`num, this`nextId, ptr
      ensures Valid()
      ensures slot == LoadPos(cmp, old(Registry()), b.bytes)
      ensures Registry() == Insert(old(Registry()), slot, b)
      ensures nextId == if b.id < old(nextId) then old(nextId) else b.id + 1
      ensures old(num) >= old(mem) ==>
        fresh(ptr) && mem == (if old(mem) != 0 then 2 * RoundUp(old(mem)) else INIT_MIN)
      ensures old(num) < old(mem) ==> ptr == old(ptr) && mem == old(mem)
    {
      ghost var reg := Registry();
      if num >= mem {
        GrowRegistry();
      }
      slot := LoadInto(cmp, ptr, num, b, reg);
      num := num + 1;
      nextId := if b.id < nextId then nextId else b.id + 1;
    }

    /**
     * `strpool_dump`: a slot of the registry moves its block to the recycle
     * list and the later slots close the gap; a pointer outside the
     * registry is ignored.
     */
    method Dump(slot: int)
      requires Valid()
      modifies this`num, this`pool, this`poolMem, this`poolNum, ptr, pool
      ensures Valid()
      ensures 0 <= slot < old(num) ==>
        var e := old(Registry())[slot];
        && Registry() == Remove(old(Registry()), slot)
        && Recycled() == Insert(old(Recycled()), DumpPos(old(Recycled()), e.cap), e)
      ensures !(0 <= slot < old(num)) ==> Registry() == old(Registry()) && Recycled() == old(Recycled())
    {
      if 0 <= slot < num {
        ghost var reg := Registry();
        var e := ptr[slot];
        PoolDump(e);
        Mem.RemoveAt(ptr, slot, num);
        num := num - 1;
        assert Registry() == Remove(reg, slot);
      }
    }

    /**
     * `strpool_exit`: free every recycled block from the last, release the
     * recycle array, then free every registered string from the last and
     * release the registry array.
     */
    method Exit()
      requires Valid()
      modifies this`pool, this`poolMem, this`poolNum, this`ptr, this`mem, this`num, this`released
      ensures Valid() && Registry() == [] && Recycled() == []
      ensures mem == 0 && poolMem == 0
      ensures released == old(released) + IdsFromLast(old(Recycled())) + IdsFromLast(old(Registry()))
    {
      var fromPool := FreeFromLast(pool, poolNum);
      released := released + fromPool;
      poolNum := 0;
      pool := new Buffer[0];
      poolMem := 0;
      var fromReg := FreeFromLast(ptr, num);
      released := released + fromReg;
      num := 0;
      ptr := new Buffer[0];
      mem := 0;
    }

    /**
     * `strpool_putn`: take a block of at least `num + 1` bytes, copy the
     * bytes and a terminating NUL into it and register it. `usable` is what
     * `malloc_usable_size` reports for a fresh block.
     */
    method PutN(data: seq<Byte>, usable: nat) returns (slot: nat)
      requires Valid() && usable >= WordRound(|data| + 1)
      modifies this`ptr, this`mem, this`num, this`nextId, this`poolNum, ptr, pool
      ensures Valid() && slot < |Registry()|
      ensures var b := Registry()[slot];
        && |data| + 1 <= b.cap
        && |data| < |b.bytes| && b.bytes[..|data| + 1] == data + [NUL]
        && CStr(b.bytes) == CStr(data)
        && slot == LoadPos(cmp, old(Registry()), b.bytes)
        && Registry() == Insert(old(Registry()), slot, b)
      ensures var k := FirstFit(old(Recycled()), WordRound(|data| + 1));
        if k < |old(Recycled())| then
          var id := old(Recycled())[k].id;
          && Recycled() == Remove(old(Recycled()), k) && Registry()[slot].id == id
          && nextId == (if id < old(nextId) then old(nextId) else id + 1)
        else
          Recycled() == old(Recycled()) && Registry()[slot].id == old(nextId) && nextId == old(nextId) + 1
    {
      var blk := PoolLoad(|data| + 1, usable);
      slot := Register(blk, data);
    }

    /**
     * The tail of `strpool_putn`: copy the bytes and a NUL into the block
     * and hand it to `strpool_load`.
     */
    method Register(blk: Buffer, data: seq<Byte>) returns (slot: nat)
      requires Valid()
      modifies this`ptr, this`mem, this`num, this`nextId, ptr
      ensures Valid() && Recycled() == old(Recycled())
      ensures var b := blk.(bytes := Overwrite(blk.bytes, data + [NUL]));
        && slot == LoadPos(cmp, old(Registry()), b.bytes)
        && Registry() == Insert(old(Registry()), slot, b)
        && nextId == (if b.id < old(nextId) then old(nextId) else b.id + 1)
      ensures slot < |Registry()| && CStr(Registry()[slot].bytes) == CStr(data)
    {
      var b := blk.(bytes := Overwrite(blk.bytes, data + [NUL]));
      assert b.bytes[..|data| + 1] == data + [NUL];
      CStrOfWritten(data, b.bytes);
      slot := Load(b);
    }

    /** `strpool_puts`: `strpool_putn` of the C string at `str`, or of no bytes when `str` is NULL. */
    method PutS(str: Option<seq<Byte>>, usable: nat) returns (slot: nat)
      requires Valid() && usable >= WordRound((if str.Some? then StrLen(str.value) else 0) + 1)
      modifies this`ptr, this`mem, this`num, this`nextId, this`poolNum, ptr, pool
      ensures Valid() && slot < |Registry()|
      ensures var d, b := Text(str), Registry()[slot];
        && |d| + 1 <= b.cap
        && |d| < |b.bytes| && b.bytes[..|d| + 1] == d + [NUL]
        && CStr(b.bytes) == d
        && slot == LoadPos(cmp, old(Registry()), b.bytes)
        && Registry() == Insert(old(Registry()), slot, b)
      ensures var k := FirstFit(old(Recycled()), WordRound(|Text(str)| + 1));
        if k < |old(Recycled())| then
          var id := old(Recycled())[k].id;
          && Recycled() == Remove(old(Recycled()), k) && Registry()[slot].id == id
          && nextId == (if id < old(nextId) then old(nextId) else id + 1)
        else
          Recycled() == old(Recycled()) && Registry()[slot].id == old(nextId) && nextId == old(nextId) + 1
    {
      slot := PutN(Text(str), usable);
    }

    /**
     * `strpool_find`: `bsearch` of the registry with the pool's comparator.
     * A hit is an entry holding the same C string as `key`; while the
     * invariant holds, a miss means no entry does.
     */
    method Find(key: seq<Byte>) returns (r: Option<nat>)
      requires Valid()
      ensures r.Some? ==> r.value < |Registry()| && CStr(Registry()[r.value].bytes) == CStr(key)
      ensures r.None? && Consistent() ==> forall e :: e in Registry() ==> CStr(e.bytes) != CStr(key)
    {
      r := Bsearch(cmp, ptr, num, key);
    }

    /**
     * Interning: on a consistent pool, `strpool_find` of the bytes just
     * registered by `strpool_putn` finds an entry holding that string, and
     * the pool stays consistent.
     */
    method PutNThenFind(data: seq<Byte>, usable: nat) returns (slot: nat, r: Option<nat>)
      requires Valid() && Consistent() && NulFree(data) && usable >= WordRound(|data| + 1)
      modifies this`ptr, this`mem, this`num, this`nextId, this`poolNum, ptr, pool
      ensures Valid() && Consistent()
      ensures r.Some? && r.value < |Registry()| && CStr(Registry()[r.value].bytes) == data
    {
      ghost var reg, rec, next := Registry(), Recycled(), nextId;
      slot := PutN(data, usable);
      PutKeepsInv(cmp, reg, rec, next, WordRound(|data| + 1), Registry(), Recycled(), nextId, slot);
      CStrOfTerminated(data, []);
      r := Find(data);
    }
  }
}
