/**
 * The libc block operations the pools are built on, for arrays of
 * any element type: `memmove` down by any distance or up by one slot,
 * `memcpy`, and `realloc` of an array to a new length.
 */
module Mem {

  /**
   * `memmove(a + i, a + i + d, n - i - d)`: the slots from `i + d` to
   * `n - 1` move down by `d`, closing the gap `[i, i + d)`; the last `d`
   * slots keep their stale values.
   */
  method MoveDown<T>(a: array<T>, i: nat, d: nat, n: nat)
    requires i + d <= n <= a.Length
    modifies a
    ensures a[..n - d] == old(a[..i]) + old(a[i + d..n])
    ensures a[n - d..] == old(a[n - d..])
  {
    ghost var a0 := a[..];
    var k := i;
    while k + d < n
      invariant i <= k <= n - d
      invariant forall j :: 0 <= j < i ==> a[j] == a0[j]
      invariant forall j :: i <= j < k ==> a[j] == a0[j + d]
      invariant forall j :: k <= j < a.Length ==> a[j] == a0[j]
    {
      a[k] := a[k + d];
      k := k + 1;
    }
    assert a[..n - d] == a0[..i] + a0[i + d..n];
  }

  /**
   * `memmove(a + i + 1, a + i, n - i)`: the slots from `i` to `n - 1`
   * move up by one, opening a gap at `i`, which keeps its stale value.
   */
  method OpenGap<T>(a: array<T>, i: nat, n: nat)
    requires i <= n < a.Length
    modifies a
    ensures a[..i] == old(a[..i])
    ensures a[i] == old(a[i])
    ensures a[i + 1..n + 1] == old(a[i..n])
    ensures a[n + 1..] == old(a[n + 1..])
  {
    ghost var a0 := a[..];
    var k := n;
    while k > i
      invariant i <= k <= n
      invariant forall j :: 0 <= j <= k ==> a[j] == a0[j]
      invariant forall j :: k < j <= n ==> a[j] == a0[j - 1]
      invariant forall j :: n < j < a.Length ==> a[j] == a0[j]
    {
      a[k] := a[k - 1];
      k := k - 1;
    }
    assert a[i + 1..n + 1] == a0[i..n];
  }

  /**
   * `realloc(a, len)`: a fresh array of length `len` that keeps the
   * first `min(len, a.Length)` elements; new slots hold `fill`.
   */
  method Realloc<T>(a: array<T>, len: nat, fill: T) returns (b: array<T>)
    ensures fresh(b) && b.Length == len
    ensures forall j :: 0 <= j < len && j < a.Length ==> b[j] == a[j]
  {
    b := new T[len](j reads a => if 0 <= j < a.Length then a[j] else fill);
  }

  /**
   * `memmove(a + i + 1, a + i, n - i)` when `i < n`, then `a[i] = x`:
   * the first `n + 1` slots hold the old first `n` with `x` at `i`.
   */
  method InsertAt<T>(a: array<T>, i: nat, n: nat, x: T)
    requires i <= n < a.Length
    modifies a
    ensures a[..n + 1] == old(a[..i]) + [x] + old(a[i..n])
    ensures a[n + 1..] == old(a[n + 1..])
  {
    if i < n {
      OpenGap(a, i, n);
    }
    a[i] := x;
    assert a[..n + 1] == old(a[..i]) + [x] + old(a[i..n]);
  }

  /**
   * `memmove(a + i, a + i + 1, n - i - 1)` when `i + 1 < n`: the first
   * `n - 1` slots hold the old first `n` without slot `i`.
   */
  method RemoveAt<T>(a: array<T>, i: nat, n: nat)
    requires i < n <= a.Length
    modifies a
    ensures a[..n - 1] == old(a[..i]) + old(a[i + 1..n])
    ensures a[n - 1..] == old(a[n - 1..])
  {
    if i + 1 < n {
      MoveDown(a, i, 1, n);
    }
  }

  /** `memcpy(a + at, src, |src|)`: the bytes of `src` land at `at`, nothing else changes. */
  method CopyIn<T>(a: array<T>, at: nat, src: seq<T>)
    requires at + |src| <= a.Length
    modifies a
    ensures a[..at] == old(a[..at])
    ensures a[at..at + |src|] == src
    ensures a[at + |src|..] == old(a[at + |src|..])
  {
    var k := 0;
    while k < |src|
      invariant k <= |src|
      invariant forall j :: 0 <= j < at ==> a[j] == old(a[j])
      invariant forall j :: 0 <= j < k ==> a[at + j] == src[j]
      invariant forall j :: at + k <= j < a.Length ==> a[j] == old(a[j])
    {
      a[at + k] := src[k];
      k := k + 1;
    }
    assert a[at..at + |src|] == src;
  }
}
