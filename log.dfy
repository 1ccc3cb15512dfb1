/**
 * The log sink broadcaster of log.c. Sinks are `struct log_node` records
 * at addresses of their own, chained through their `next` fields from
 * `log.head`; `log.tail` is the last sink, or the head slot itself when
 * the chain is empty. An optional hook is called with 1 before and 0
 * after each operation on the chain. Callbacks (the hook and each sink's
 * `exec`) are recorded in a trace and do not touch the logger.
 */
module Log {
  import ListRing

  /** A pointer; 0 is NULL. */
  type Addr = nat

  const NULL: Addr := 0

  /** An `unsigned int`. */
  type U32 = x: int | 0 <= x < 0x1_0000_0000

  /** The six filters log.c ships for a sink's `isok`. */
  datatype Filter = IsLt | IsGt | IsLe | IsGe | IsEq | IsNe

  /** `isok(level, lvl)`: does a message of `level` reach a sink set at `lvl`? */
  predicate Admits(f: Filter, level: U32, lvl: U32) {
    match f
    case IsLt => level < lvl
    case IsGt => level > lvl
    case IsLe => level <= lvl
    case IsGe => level >= lvl
    case IsEq => level == lvl
    case IsNe => level != lvl
  }

  /**
   * The filters come in complementary pairs and mirror each other: each
   * message reaches exactly one of `IsLt`/`IsGe`, `IsGt`/`IsLe` and
   * `IsEq`/`IsNe`; `IsLt` is `IsGt` with the levels swapped, and `IsLe`
   * is `IsLt` or `IsEq`.
   */
  lemma FilterAlgebra(level: U32, lvl: U32)
    ensures Admits(IsLt, level, lvl) <==> !Admits(IsGe, level, lvl)
    ensures Admits(IsGt, level, lvl) <==> !Admits(IsLe, level, lvl)
    ensures Admits(IsEq, level, lvl) <==> !Admits(IsNe, level, lvl)
    ensures Admits(IsLt, level, lvl) <==> Admits(IsGt, lvl, level)
    ensures Admits(IsLe, level, lvl) <==> Admits(IsLt, level, lvl) || Admits(IsEq, level, lvl)
    ensures Admits(IsGe, level, lvl) <==> Admits(IsLe, lvl, level)
  {
  }

  /** `struct log_node` of log.h without `next`: the chain is the logger's `next` map. */
  datatype Sink = Sink(isok: Filter, exec: Addr, time: Addr, level: U32, line: U32, file: Addr, data: Addr)

  /** `LOG_INIT`: a sink with no time, line 0 and no file yet. */
  function SinkInit(isok: Filter, level: U32, exec: Addr, data: Addr): (s: Sink)
    ensures s.isok == isok && s.level == level && s.exec == exec && s.data == data
    ensures s.time == NULL && s.line == 0 && s.file == NULL
  {
    Sink(isok, exec, NULL, level, 0, NULL, data)
  }

  /** A slot holding a `next` pointer: `log.head`, or the `next` field of a sink. */
  datatype Slot = Head | At(node: Addr)

  /** One callback call: the hook with 1 or 0, or a sink's `exec` seeing its record. */
  datatype Event = Hook(data: Addr, on: bool) | Deliver(sink: Addr, level: U32, file: Addr, line: U32)

  /** The hook calls around `body`: none without a hook, else 1 before and 0 after. */
  function Bracket(lock: Addr, data: Addr, body: seq<Event>): (r: seq<Event>)
    ensures lock == NULL ==> r == body
    ensures lock != NULL ==>
      |r| == |body| + 2 && r[0] == Hook(data, true) && r[1..|r| - 1] == body && r[|r| - 1] == Hook(data, false)
  {
    if lock == NULL then body else [Hook(data, true)] + body + [Hook(data, false)]
  }

  /** The hook calls around `body`, made one by one after `t`. */
  lemma BracketSplit(t: seq<Event>, lock: Addr, data: Addr, body: seq<Event>)
    ensures lock == NULL ==> t + Bracket(lock, data, body) == t + body
    ensures lock != NULL ==> t + Bracket(lock, data, body) == (t + [Hook(data, true)]) + body + [Hook(data, false)]
  {
  }

  /**
   * Following `next` pointers from `h` meets the sinks of `chain` in order
   * and then NULL.
   */
  ghost predicate Linked(h: Addr, next: map<Addr, Addr>, chain: seq<Addr>)
    decreases |chain|
  {
    if chain == [] then h == NULL
    else h == chain[0] && h != NULL && h in next && Linked(next[h], next, chain[1..])
  }

  /** Where `log.tail` stands for `chain`: its last sink, or the head slot when it is empty. */
  function TailOf(chain: seq<Addr>): (r: Slot)
    ensures r == Head <==> chain == []
    ensures r.At? ==> r.node == chain[|chain| - 1]
  {
    if chain == [] then Head else At(chain[|chain| - 1])
  }

  /**
   * The logger's invariant: the pointers from `head` run through `chain`,
   * the tail is its last sink, and every joined sink has a record. That
   * no sink is joined twice follows (LinkedNoDup).
   */
  ghost predicate Wf(head: Addr, tail: Slot, next: map<Addr, Addr>, chain: seq<Addr>, sinks: map<Addr, Sink>) {
    && Linked(head, next, chain) && tail == TailOf(chain)
    && (forall i {:trigger chain[i] in sinks} :: 0 <= i < |chain| ==> chain[i] in sinks)
  }

  /** No sink occurs twice in `chain`. */
  predicate NoDup(chain: seq<Addr>) {
    forall i, j :: 0 <= i < j < |chain| ==> chain[i] != chain[j]
  }

  /** The slot before `chain[k]`: the head slot for the first sink, else the sink before. */
  function SlotBefore(chain: seq<Addr>, k: nat): (r: Slot)
    requires k <= |chain|
    ensures r == Head <==> k == 0
    ensures r.At? ==> r.node == chain[k - 1]
  {
    if k == 0 then Head else At(chain[k - 1])
  }

  /** `chain` without the first occurrence of `x`. */
  function DropFirst(chain: seq<Addr>, x: Addr): (r: seq<Addr>)
    ensures x !in chain ==> r == chain
  {
    if chain == [] then []
    else if chain[0] == x then chain[1..]
    else [chain[0]] + DropFirst(chain[1..], x)
  }

  /** The sinks of `chain` a message of `level` reaches, in chain order. */
  function Reached(chain: seq<Addr>, sinks: map<Addr, Sink>, level: U32): (r: seq<Addr>)
    requires forall i :: 0 <= i < |chain| ==> chain[i] in sinks
    ensures |r| <= |chain|
  {
    if chain == [] then []
    else
      var id := chain[|chain| - 1];
      var rest := Reached(chain[..|chain| - 1], sinks, level);
      if Admits(sinks[id].isok, level, sinks[id].level) then rest + [id] else rest
  }

  /** The `exec` calls a message makes: each reached sink sees the message's level, file and line. */
  function Deliveries(ids: seq<Addr>, level: U32, file: Addr, line: U32): (r: seq<Event>)
    ensures |r| == |ids|
    ensures forall k :: 0 <= k < |r| ==> r[k] == Deliver(ids[k], level, file, line)
  {
    if ids == [] then []
    else Deliveries(ids[..|ids| - 1], level, file, line) + [Deliver(ids[|ids| - 1], level, file, line)]
  }

  /** The logger: the static `log` struct of log.c and the sink records it reaches. */
  class Logger {
    /** `log.tm`: the local time taken on the first join, NULL before. */
    var tm: Addr
    var head: Addr
    var tail: Slot
    var lock: Addr
    var data: Addr
    /** The `next` field of each sink record. */
    var next: map<Addr, Addr>
    /** The other fields of each sink record. */
    var sinks: map<Addr, Sink>
    /** The callbacks made so far, in order. */
    var trace: seq<Event>
    /** The joined sinks, from `head` on. */
    ghost var chain: seq<Addr>

    ghost predicate Valid()
      reads this
    {
      Wf(head, tail, next, chain, sinks)
    }

    /** The static initialiser: no sinks, the tail at the head slot, no hook. */
    constructor (records: map<Addr, Sink>, links: map<Addr, Addr>)
      ensures Valid() && chain == [] && head == NULL && tail == Head
      ensures tm == NULL && lock == NULL && data == NULL
      ensures sinks == records && next == links && trace == []
    {
      tm := NULL;
      head := NULL;
      tail := Head;
      lock := NULL;
      data := NULL;
      next := links;
      sinks := records;
      trace := [];
      chain := [];
    }

    /** The pointer a slot holds. */
    function NextOf(s: Slot): (r: Addr)
      reads this
      requires s.At? ==> s.node in next
      ensures s == Head ==> r == head
      ensures s.At? ==> r == next[s.node]
    {
      match s
      case Head => head
      case At(n) => next[n]
    }

    /** `log_lock`: install the hook and its argument. */
    method Lock(hook: Addr, arg: Addr)
      requires Valid()
      modifies this`lock, this`data
      ensures Valid() && lock == hook && data == arg
    {
      lock := hook;
      data := arg;
    }

    /** `log_init`: set a sink's filter, level, callback and data; its other fields stay. */
    method Init(node: Addr, isok: Filter, level: U32, exec: Addr, arg: Addr)
      requires Valid() && node in sinks
      modifies this`sinks
      ensures Valid()
      ensures sinks == old(sinks)[node := old(sinks)[node].(isok := isok, level := level, exec := exec, data := arg)]
    {
      sinks := sinks[node := sinks[node].(isok := isok, level := level, exec := exec, data := arg)];
    }

    /**
     * `log_join`: append a sink that is not joined yet at the tail. The
     * local time is taken (`now`) on the first join only and stamped on
     * the sink. The hook brackets the update; nothing calls back in between.
     */
    method Join(node: Addr, now: Addr)
      requires Valid() && node != NULL && node in sinks && node !in chain
      modifies this`tm, this`sinks, this`next, this`head, this`tail, this`trace, this`chain
      ensures Valid() && chain == old(chain) + [node] && tail == At(node)
      ensures tm == (if old(tm) == NULL then now else old(tm))
      ensures sinks == old(sinks)[node := old(sinks)[node].(time := tm)]
      ensures trace == old(trace) + Bracket(lock, data, [])
    {
      var stamp := if tm == NULL then now else tm;
      var next1 := next[node := NULL];
      var head1, next2 := head, next1;
      match tail {
        case Head => head1 := node;
        case At(t) => next2 := next1[t := node];
      }
      JoinKeepsWf(head, tail, next, chain, sinks, node, stamp);
      tm, sinks, next, head, tail := stamp, sinks[node := sinks[node].(time := stamp)], next2, head1, At(node);
      trace, chain := trace + Bracket(lock, data, []), chain + [node];
    }

    /**
     * `log_drop`: walk the slots from the head slot; at the slot pointing
     * to `node`, point it past `node` instead, and move the tail back to
     * that slot when `node` was last. A sink that is not joined changes
     * nothing; the dropped sink's own `next` is left as it was.
     */
    method Drop(node: Addr)
      requires Valid()
      modifies this`head, this`tail, this`next, this`trace, this`chain
      ensures Valid() && chain == DropFirst(old(chain), node) && node !in chain
      ensures trace == old(trace) + Bracket(lock, data, [])
    {
      var cur := Head;
      ghost var k := 0;
      DropWalk(head, next, chain, 0);
      while NextOf(cur) != NULL && NextOf(cur) != node
        invariant unchanged(this)
        invariant k <= |chain| && cur == SlotBefore(chain, k) && (cur.At? ==> cur.node in next)
        invariant NextOf(cur) == if k < |chain| then chain[k] else NULL
        invariant k < |chain| ==> chain[k] != NULL
        invariant forall j :: 0 <= j < k ==> chain[j] != node
        decreases |chain| - k
      {
        cur := At(NextOf(cur));
        k := k + 1;
        DropWalk(head, next, chain, k);
      }
      if NextOf(cur) != NULL {
        // `cur` is the slot pointing at `node`: point it past `node`
        DropKeepsWf(head, tail, next, chain, sinks, k);
        var after := next[node];
        var head1, next1 := head, next;
        match cur {
          case Head => head1 := after;
          case At(c) => next1 := next[c := after];
        }
        head, next, tail, chain := head1, next1, if after == NULL then cur else tail, ListRing.Without(chain, k);
      } else {
        assert forall j :: 0 <= j < |chain| ==> chain[j] != node;
      }
      trace := trace + Bracket(lock, data, []);
    }

    /**
     * `log_exec`: with the hook called with 1 before and 0 after, walk the
     * chain; each sink whose filter admits `level` against its own level
     * gets the message's level, file and line, has its `exec` called, and
     * gets its own level back.
     */
    method Exec(level: U32, file: Addr, line: U32)
      requires Valid()
      modifies this`sinks, this`trace
      ensures Valid() && sinks == Stamped(chain, old(sinks), level, file, line)
      ensures trace == old(trace) + Bracket(lock, data, Deliveries(Reached(chain, old(sinks), level), level, file, line))
    {
      if lock != NULL {
        trace := trace + [Hook(data, true)];
      }
      Walk(level, file, line);
      BracketSplit(old(trace), lock, data, Deliveries(Reached(chain, old(sinks), level), level, file, line));
      if lock != NULL {
        trace := trace + [Hook(data, false)];
      }
    }

    /** The walk of `log_exec` between the hook calls. */
    method Walk(level: U32, file: Addr, line: U32)
      requires Valid()
      modifies this`sinks, this`trace
      ensures Valid() && sinks == Stamped(chain, old(sinks), level, file, line)
      ensures trace == old(trace) + Deliveries(Reached(chain, old(sinks), level), level, file, line)
    {
      ghost var sinks0, trace0 := sinks, trace;
      ghost var h, tl, nx, ch := head, tail, next, chain;
      var cur := head;
      ghost var i := 0;
      ExecStart(h, tl, nx, ch, sinks0, level, file, line, trace0);
      while cur != NULL
        invariant Walked(h, tl, nx, ch, sinks0, level, file, line, trace0, i, cur, sinks, trace)
        decreases |ch| - i
      {
        ExecPre(h, tl, nx, ch, sinks0, level, file, line, trace0, i, cur, sinks, trace);
        ghost var sinks1, trace1 := sinks, trace;
        var rec := sinks[cur];
        if Admits(rec.isok, level, rec.level) {
          // the record as `exec` sees it, then with its own level back
          var seen := rec.(level := level, file := file, line := line);
          sinks, trace := sinks[cur := seen.(level := rec.level)], trace + [Deliver(cur, seen.level, seen.file, seen.line)];
        }
        ExecAdvance(h, tl, nx, ch, sinks0, level, file, line, trace0, i, cur, sinks1, trace1, sinks, trace);
        cur := next[cur];
        i := i + 1;
      }
      ExecDone(h, tl, nx, ch, sinks0, level, file, line, trace0, i, cur, sinks, trace);
    }
  }

  /** Changing the `next` field of a sink off the chain does not change the chain. */
  lemma {:induction false} LinkedFrame(h: Addr, next: map<Addr, Addr>, chain: seq<Addr>, y: Addr, v: Addr)
    requires Linked(h, next, chain) && y !in chain
    ensures Linked(h, next[y := v], chain)
    decreases |chain|
  {
    if chain != [] {
      LinkedFrame(next[h], next, chain[1..], y, v);
    }
  }

  /** The `next` field of the `k`-th sink holds the following sink, or NULL for the last. */
  lemma {:induction false} LinkedAt(h: Addr, next: map<Addr, Addr>, chain: seq<Addr>, k: nat)
    requires Linked(h, next, chain) && k < |chain|
    ensures chain[k] != NULL && chain[k] in next
    ensures next[chain[k]] == if k + 1 < |chain| then chain[k + 1] else NULL
    decreases k
  {
    if k > 0 {
      LinkedAt(next[h], next, chain[1..], k - 1);
    } else if |chain| > 1 {
      assert chain[1..][0] == chain[1];
    }
  }

  /** Two equal sinks of a chain have equal successors, as far as the chain goes. */
  lemma {:induction false} LinkedShift(h: Addr, next: map<Addr, Addr>, chain: seq<Addr>, i: nat, j: nat, d: nat)
    requires Linked(h, next, chain) && i < j && j + d < |chain| && chain[i] == chain[j]
    ensures chain[i + d] == chain[j + d]
    decreases d
  {
    if d > 0 {
      LinkedShift(h, next, chain, i, j, d - 1);
      LinkedAt(h, next, chain, i + d - 1);
      LinkedAt(h, next, chain, j + d - 1);
    }
  }

  /**
   * A chain of `next` pointers that ends in NULL passes no sink twice: a
   * repeated sink would repeat its successors up to the last one, whose
   * `next` is NULL, while the earlier copy still has a successor.
   */
  lemma LinkedNoDup(h: Addr, next: map<Addr, Addr>, chain: seq<Addr>)
    requires Linked(h, next, chain)
    ensures NoDup(chain)
  {
    forall i, j | 0 <= i < j < |chain|
      ensures chain[i] != chain[j]
    {
      if chain[i] == chain[j] {
        var d := |chain| - 1 - j;
        LinkedShift(h, next, chain, i, j, d);
        LinkedAt(h, next, chain, i + d);
        LinkedAt(h, next, chain, i + d + 1);
        LinkedAt(h, next, chain, j + d);
      }
    }
  }

  /**
   * `log_join`'s relinking: `x` gets a NULL `next` and the last sink (the
   * head, for an empty chain) points at it; the chain grows by `x`.
   */
  lemma {:induction false} JoinLinked(head: Addr, next: map<Addr, Addr>, chain: seq<Addr>, x: Addr)
    requires Linked(head, next, chain) && x != NULL && x !in chain
    ensures var next1 := next[x := NULL];
      Linked(if chain == [] then x else head,
             if chain == [] then next1 else next1[chain[|chain| - 1] := x], chain + [x])
    decreases |chain|
  {
    var next1 := next[x := NULL];
    if chain == [] {
      assert ([x])[1..] == [];
    } else {
      assert (chain + [x])[1..] == chain[1..] + [x];
      if |chain| == 1 {
        assert ([x])[1..] == [];
      } else {
        LinkedNoDup(head, next, chain);
        assert chain[1..][|chain| - 2] == chain[|chain| - 1];
        JoinLinked(next[head], next, chain[1..], x);
      }
    }
  }

  /** `log_join` keeps the invariant, whatever it stamps on the new sink's record. */
  lemma JoinKeepsWf(head: Addr, tail: Slot, next: map<Addr, Addr>, chain: seq<Addr>, sinks: map<Addr, Sink>,
                    x: Addr, stamp: Addr)
    requires Wf(head, tail, next, chain, sinks) && x != NULL && x in sinks && x !in chain
    ensures var next1 := next[x := NULL];
      Wf(if tail == Head then x else head, At(x),
         if tail == Head then next1 else next1[tail.node := x],
         chain + [x], sinks[x := sinks[x].(time := stamp)])
  {
    JoinLinked(head, next, chain, x);
    var chain1 := chain + [x];
    assert forall i :: 0 <= i < |chain| ==> chain1[i] == chain[i];
  }

  /** While the walk of `log_drop` is inside the chain, the slot it stands on points at `chain[k]`. */
  lemma DropWalk(head: Addr, next: map<Addr, Addr>, chain: seq<Addr>, k: nat)
    requires Linked(head, next, chain) && k <= |chain|
    ensures k < |chain| ==> chain[k] != NULL
    ensures var cur := SlotBefore(chain, k);
      (cur.At? ==> cur.node in next)
      && (if cur == Head then head else next[cur.node]) == (if k < |chain| then chain[k] else NULL)
  {
    if k > 0 {
      LinkedAt(head, next, chain, k - 1);
    }
    if k < |chain| {
      LinkedAt(head, next, chain, k);
    }
  }

  /** Pointing the slot before `chain[k]` past it unlinks exactly that sink. */
  lemma {:induction false} DropLinked(head: Addr, next: map<Addr, Addr>, chain: seq<Addr>, k: nat)
    requires Linked(head, next, chain) && k < |chain|
    ensures chain[k] in next
    ensures var cur, after := SlotBefore(chain, k), next[chain[k]];
      Linked(if cur == Head then after else head,
             if cur == Head then next else next[cur.node := after],
             ListRing.Without(chain, k))
    decreases k
  {
    LinkedAt(head, next, chain, k);
    var after := next[chain[k]];
    if k == 0 {
      assert ListRing.Without(chain, 0) == chain[1..];
    } else {
      var rest := chain[1..];
      LinkedNoDup(head, next, chain);
      assert ListRing.Without(chain, k) == [head] + ListRing.Without(rest, k - 1);
      if k == 1 {
        assert ListRing.Without(rest, 0) == rest[1..];
        assert head !in rest[1..];
        LinkedAt(head, next, chain, 1);
        LinkedFrame(after, next, rest[1..], head, after);
      } else {
        assert rest[k - 2] == chain[k - 1] && rest[k - 1] == chain[k];
        DropLinked(next[head], next, rest, k - 1);
        var next' := next[chain[k - 1] := after];
        assert SlotBefore(rest, k - 1) == SlotBefore(chain, k) == At(chain[k - 1]);
        assert head != chain[k - 1] && next'[head] == next[head];
        assert Linked(next'[head], next', ListRing.Without(rest, k - 1));
      }
    }
  }

  /**
   * `log_drop` keeps the invariant: pointing the slot before the first
   * occurrence of `chain[k]` past it, and moving the tail back to that slot
   * when `chain[k]` was last, drops exactly that occurrence and no copy of
   * the sink stays joined.
   */
  lemma DropKeepsWf(head: Addr, tail: Slot, next: map<Addr, Addr>, chain: seq<Addr>, sinks: map<Addr, Sink>, k: nat)
    requires Wf(head, tail, next, chain, sinks) && k < |chain|
    ensures chain[k] in next
    ensures var cur, after := SlotBefore(chain, k), next[chain[k]];
      Wf(if cur == Head then after else head,
         if after == NULL then cur else tail,
         if cur == Head then next else next[cur.node := after],
         ListRing.Without(chain, k), sinks)
    ensures DropFirst(chain, chain[k]) == ListRing.Without(chain, k)
    ensures chain[k] !in ListRing.Without(chain, k)
  {
    DropLinked(head, next, chain, k);
    DropTail(head, next, chain, k);
    DropRest(head, next, chain, k);
    var rest := ListRing.Without(chain, k);
    ListRing.WithoutIndex(chain, k);
    assert forall i :: 0 <= i < |rest| ==> rest[i] in chain;
  }

  /** The tail after `log_drop`: the slot before the dropped sink when it was last, else unchanged. */
  lemma DropTail(head: Addr, next: map<Addr, Addr>, chain: seq<Addr>, k: nat)
    requires Linked(head, next, chain) && k < |chain|
    ensures chain[k] in next
    ensures TailOf(ListRing.Without(chain, k)) ==
      if next[chain[k]] == NULL then SlotBefore(chain, k) else TailOf(chain)
  {
    LinkedAt(head, next, chain, k);
    if k + 1 < |chain| {
      LinkedAt(head, next, chain, k + 1);
    }
    ListRing.WithoutIndex(chain, k);
  }

  /** What stays joined after `log_drop`: the chain without its first `chain[k]`, no copy of it left. */
  lemma DropRest(head: Addr, next: map<Addr, Addr>, chain: seq<Addr>, k: nat)
    requires Linked(head, next, chain) && k < |chain|
    ensures DropFirst(chain, chain[k]) == ListRing.Without(chain, k)
    ensures chain[k] !in ListRing.Without(chain, k)
  {
    LinkedNoDup(head, next, chain);
    ListRing.WithoutIndex(chain, k);
    DropFirstAt(chain, k);
  }

  /** The first occurrence of `x` at `k`: dropping it is taking position `k` out. */
  lemma {:induction false} DropFirstAt(chain: seq<Addr>, k: nat)
    requires k < |chain| && forall j :: 0 <= j < k ==> chain[j] != chain[k]
    ensures DropFirst(chain, chain[k]) == ListRing.Without(chain, k)
  {
    if k > 0 {
      DropFirstAt(chain[1..], k - 1);
      assert ListRing.Without(chain, k) == [chain[0]] + ListRing.Without(chain[1..], k - 1);
    }
  }

  /** `log_drop` undoes `log_join`: appending a new sink and dropping it gives the chain back. */
  lemma {:induction false} JoinThenDrop(chain: seq<Addr>, x: Addr)
    requires x !in chain
    ensures DropFirst(chain + [x], x) == chain
  {
    if chain != [] {
      assert (chain + [x])[1..] == chain[1..] + [x];
      JoinThenDrop(chain[1..], x);
    }
  }

  /** The records after a message reached the sinks of `ids` that admit it: their file and line set. */
  function Stamped(ids: seq<Addr>, sinks: map<Addr, Sink>, level: U32, file: Addr, line: U32): (r: map<Addr, Sink>)
    requires forall i :: 0 <= i < |ids| ==> ids[i] in sinks
    ensures r.Keys == sinks.Keys
  {
    if ids == [] then sinks
    else
      var id := ids[|ids| - 1];
      var rest := Stamped(ids[..|ids| - 1], sinks, level, file, line);
      if Admits(sinks[id].isok, level, sinks[id].level) then rest[id := rest[id].(file := file, line := line)] else rest
  }

  /**
   * The state of `log_exec`'s walk after `i` sinks: it stands on
   * `chain[i]` (NULL past the end), and the records and the calls are
   * those of the message reaching the first `i` sinks.
   */
  ghost predicate Walked(head: Addr, tail: Slot, next: map<Addr, Addr>, chain: seq<Addr>, sinks0: map<Addr, Sink>,
                         level: U32, file: Addr, line: U32, trace0: seq<Event>,
                         i: nat, cur: Addr, sinks: map<Addr, Sink>, trace: seq<Event>)
  {
    && Wf(head, tail, next, chain, sinks0)
    && i <= |chain|
    && cur == (if i < |chain| then chain[i] else NULL)
    && sinks == Stamped(chain[..i], sinks0, level, file, line)
    && trace == trace0 + Deliveries(Reached(chain[..i], sinks0, level), level, file, line)
  }

  lemma ExecStart(head: Addr, tail: Slot, next: map<Addr, Addr>, chain: seq<Addr>, sinks0: map<Addr, Sink>,
                  level: U32, file: Addr, line: U32, trace0: seq<Event>)
    requires Wf(head, tail, next, chain, sinks0)
    ensures Walked(head, tail, next, chain, sinks0, level, file, line, trace0, 0, head, sinks0, trace0)
  {
    if chain != [] {
      LinkedAt(head, next, chain, 0);
    }
    assert chain[..0] == [];
  }

  /** The sink the walk stands on has a record and a `next` field, both as yet untouched. */
  lemma ExecPre(head: Addr, tail: Slot, next: map<Addr, Addr>, chain: seq<Addr>, sinks0: map<Addr, Sink>,
                level: U32, file: Addr, line: U32, trace0: seq<Event>,
                i: nat, cur: Addr, sinks: map<Addr, Sink>, trace: seq<Event>)
    requires Wf(head, tail, next, chain, sinks0)
    requires Walked(head, tail, next, chain, sinks0, level, file, line, trace0, i, cur, sinks, trace) && cur != NULL
    ensures i < |chain| && cur == chain[i] && cur in next && cur in sinks && sinks[cur] == sinks0[cur]
  {
    LinkedAt(head, next, chain, i);
    LinkedNoDup(head, next, chain);
    assert chain[i] !in chain[..i];
    StampedOthers(chain[..i], sinks0, level, file, line, chain[i]);
  }

  /**
   * One step of the walk: when the sink's filter admits the message, its
   * record gets the file and line and its `exec` is called; the walk moves
   * to the next sink.
   */
  lemma ExecAdvance(head: Addr, tail: Slot, next: map<Addr, Addr>, chain: seq<Addr>, sinks0: map<Addr, Sink>,
                    level: U32, file: Addr, line: U32, trace0: seq<Event>,
                    i: nat, cur: Addr, sinks: map<Addr, Sink>, trace: seq<Event>,
                    sinks': map<Addr, Sink>, trace': seq<Event>)
    requires Wf(head, tail, next, chain, sinks0)
    requires Walked(head, tail, next, chain, sinks0, level, file, line, trace0, i, cur, sinks, trace) && cur != NULL
    requires cur in sinks
    requires if Admits(sinks[cur].isok, level, sinks[cur].level)
      then sinks' == sinks[cur := sinks[cur].(file := file, line := line)]
           && trace' == trace + [Deliver(cur, level, file, line)]
      else sinks' == sinks && trace' == trace
    ensures cur in next
    ensures Walked(head, tail, next, chain, sinks0, level, file, line, trace0, i + 1, next[cur], sinks', trace')
  {
    ExecPre(head, tail, next, chain, sinks0, level, file, line, trace0, i, cur, sinks, trace);
    LinkedAt(head, next, chain, i);
    var pre := chain[..i];
    assert chain[..i + 1] == pre + [cur];
    StampedSnoc(pre, cur, sinks0, level, file, line);
    ReachedSnoc(pre, cur, sinks0, level);
    var r := Reached(pre, sinks0, level);
    if Admits(sinks0[cur].isok, level, sinks0[cur].level) {
      DeliveriesSnoc(r, cur, level, file, line);
    }
  }

  /** Stamping one more sink changes its record alone, and only if its filter admits the message. */
  lemma StampedSnoc(ids: seq<Addr>, x: Addr, sinks: map<Addr, Sink>, level: U32, file: Addr, line: U32)
    requires (forall i :: 0 <= i < |ids| ==> ids[i] in sinks) && x in sinks
    ensures var s := Stamped(ids, sinks, level, file, line);
      Stamped(ids + [x], sinks, level, file, line) ==
        if Admits(sinks[x].isok, level, sinks[x].level) then s[x := s[x].(file := file, line := line)] else s
  {
    assert (ids + [x])[..|ids|] == ids;
  }

  /** One more sink is reached exactly when its filter admits the message. */
  lemma ReachedSnoc(ids: seq<Addr>, x: Addr, sinks: map<Addr, Sink>, level: U32)
    requires (forall i :: 0 <= i < |ids| ==> ids[i] in sinks) && x in sinks
    ensures Reached(ids + [x], sinks, level) ==
      Reached(ids, sinks, level) + if Admits(sinks[x].isok, level, sinks[x].level) then [x] else []
  {
    assert (ids + [x])[..|ids|] == ids;
  }

  /** One more reached sink is one more `exec` call, made last. */
  lemma DeliveriesSnoc(ids: seq<Addr>, x: Addr, level: U32, file: Addr, line: U32)
    ensures Deliveries(ids + [x], level, file, line) == Deliveries(ids, level, file, line) + [Deliver(x, level, file, line)]
  {
    assert (ids + [x])[..|ids|] == ids;
  }

  /** At the end of the walk every joined sink was visited. */
  lemma ExecDone(head: Addr, tail: Slot, next: map<Addr, Addr>, chain: seq<Addr>, sinks0: map<Addr, Sink>,
                 level: U32, file: Addr, line: U32, trace0: seq<Event>,
                 i: nat, cur: Addr, sinks: map<Addr, Sink>, trace: seq<Event>)
    requires Wf(head, tail, next, chain, sinks0)
    requires Walked(head, tail, next, chain, sinks0, level, file, line, trace0, i, cur, sinks, trace) && cur == NULL
    ensures Wf(head, tail, next, chain, sinks)
    ensures sinks == Stamped(chain, sinks0, level, file, line)
    ensures trace == trace0 + Deliveries(Reached(chain, sinks0, level), level, file, line)
  {
    if i < |chain| {
      LinkedAt(head, next, chain, i);
    }
    assert chain[..i] == chain;
  }

  /** Stamping the sinks of `ids` leaves the record of a sink outside `ids` alone. */
  lemma {:induction false} StampedOthers(ids: seq<Addr>, sinks: map<Addr, Sink>, level: U32, file: Addr, line: U32, x: Addr)
    requires (forall i :: 0 <= i < |ids| ==> ids[i] in sinks) && x in sinks && x !in ids
    ensures Stamped(ids, sinks, level, file, line)[x] == sinks[x]
  {
    if ids != [] {
      StampedOthers(ids[..|ids| - 1], sinks, level, file, line, x);
    }
  }

  /**
   * After a message went out, exactly the joined sinks whose filter
   * admits it carry its file and line; every record has its own level
   * back and all else as before.
   */
  lemma {:induction false} StampedMembers(ids: seq<Addr>, sinks: map<Addr, Sink>, level: U32, file: Addr, line: U32)
    requires (forall i :: 0 <= i < |ids| ==> ids[i] in sinks) && NoDup(ids)
    ensures forall id :: id in sinks ==>
      Stamped(ids, sinks, level, file, line)[id] ==
        if id in ids && Admits(sinks[id].isok, level, sinks[id].level)
        then sinks[id].(file := file, line := line) else sinks[id]
  {
    if ids != [] {
      var init := ids[..|ids| - 1];
      StampedMembers(init, sinks, level, file, line);
      StampedOthers(init, sinks, level, file, line, ids[|ids| - 1]);
      assert ids == init + [ids[|ids| - 1]];
    }
  }

  /** A message reaches exactly the joined sinks whose filter admits it against their level. */
  lemma {:induction false} ReachedMembers(chain: seq<Addr>, sinks: map<Addr, Sink>, level: U32)
    requires forall i :: 0 <= i < |chain| ==> chain[i] in sinks
    ensures forall y :: y in Reached(chain, sinks, level) <==>
      y in chain && Admits(sinks[y].isok, level, sinks[y].level)
  {
    if chain != [] {
      ReachedMembers(chain[..|chain| - 1], sinks, level);
      assert chain == chain[..|chain| - 1] + [chain[|chain| - 1]];
    }
  }
}
