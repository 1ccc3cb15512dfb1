/**
 * The cooperative scheduler of timeslice.c. Task records live at
 * addresses of their own; the scheduler keeps the tasks it serves in a
 * list, in the order they joined, counts them, and remembers the task
 * `timeslice_exec` visited last. `timeslice_tick` counts timers down and
 * marks tasks pending; `timeslice_exec` runs each pending task's callback
 * once and retires one-shot tasks.
 *
 * The list is modelled by the order of its members: module ListRing shows
 * that the ring of timeslice.h holds exactly its members after the
 * sentinel (UsedIffMember), that `list_join` appends (JoinKeepsRing), that
 * `list_drop` removes one member (DropKeepsRing), and that `list_forsafe`
 * visits the members in order while the body drops some of them
 * (Links.ForsafeDrop).
 */
module Timeslice {
  import ListRing

  /** A pointer; 0 is NULL. */
  type Addr = nat

  const NULL: Addr := 0

  /** Bits of a task's `flag`. */
  const EXEC: bv32 := 1      // the task is pending
  const LOCK: bv32 := 16     // the task is locked (no operation sets it)
  const CRON: bv32 := 256    // a periodic task
  const ONCE: bv32 := 512    // a one-shot task

  /** `timeslice_s` without its list node: the node is the scheduler's list. */
  datatype Task = Task(slice: nat, timer: nat, exec: Addr, argv: Addr, flag: bv32)

  /** One call `exec(argv)` of a task's callback. */
  datatype Call = Call(exec: Addr, argv: Addr)

  /** `GET`: the bits of `flag` that `bit` selects. */
  function Get(flag: bv32, bit: bv32): (r: bv32)
    ensures r & !bit == 0
  {
    flag & bit
  }

  /** `SET`: `flag` with the bits of `bit` raised and every other bit kept. */
  function Set(flag: bv32, bit: bv32): (r: bv32)
    ensures r & bit == bit && r & !bit == flag & !bit
  {
    flag | bit
  }

  /** `CLR`: `flag` with the bits of `bit` cleared and every other bit kept. */
  function Clr(flag: bv32, bit: bv32): (r: bv32)
    ensures r & bit == 0 && r & !bit == flag & !bit
  {
    flag & !bit
  }

  predicate Pending(t: Task) {
    Get(t.flag, EXEC) != 0
  }

  predicate OneShot(t: Task) {
    Get(t.flag, ONCE) != 0
  }

  /**
   * Pending is one bit: raising it again changes nothing, and clearing it
   * leaves the task's type bits as they were.
   */
  lemma PendingBit(flag: bv32)
    ensures Set(Set(flag, EXEC), EXEC) == Set(flag, EXEC) && Get(Set(flag, EXEC), EXEC) != 0
    ensures Get(Clr(flag, EXEC), EXEC) == 0 && Get(Clr(flag, EXEC), ONCE) == Get(flag, ONCE)
    ensures Get(Set(flag, EXEC), ONCE) == Get(flag, ONCE)
  {
  }

  /** `TIMESLICE_CRON`: a static periodic task whose timer starts at its slice. */
  function CronInit(exec: Addr, argv: Addr, slice: nat): (t: Task)
    ensures t.timer == t.slice == slice && t.exec == exec && t.argv == argv
    ensures !Pending(t) && !OneShot(t) && t.flag & LOCK == 0 && t.flag & CRON != 0
  {
    Task(slice, slice, exec, argv, 1 << 8)
  }

  /** `TIMESLICE_ONCE`: a static one-shot task whose timer starts at its delay. */
  function OnceInit(exec: Addr, argv: Addr, delay: nat): (t: Task)
    ensures t.timer == t.slice == delay && t.exec == exec && t.argv == argv
    ensures !Pending(t) && OneShot(t) && t.flag & LOCK == 0 && t.flag & CRON == 0
  {
    Task(delay, delay, exec, argv, 1 << 9)
  }

  /** The callback argument `argv ? argv : ctx`. */
  function ArgOr(argv: Addr, ctx: Addr): (r: Addr)
    ensures r != NULL <== ctx != NULL
    ensures argv != NULL ==> r == argv
  {
    if argv != NULL then argv else ctx
  }

  /**
   * One tick of a served task: a running timer counts down, and when it
   * reaches zero it reloads from the slice and the task becomes pending.
   * A stopped timer (zero) stays as it is.
   */
  function TickTask(t: Task): (r: Task)
    ensures r.slice == t.slice && r.exec == t.exec && r.argv == t.argv
    ensures r.flag == t.flag || r.flag == Set(t.flag, EXEC)
    ensures Pending(t) ==> Pending(r)
  {
    PendingBit(t.flag);
    if t.timer != 0 then
      if t.timer - 1 == 0 then t.(timer := t.slice, flag := Set(t.flag, EXEC))
      else t.(timer := t.timer - 1)
    else t
  }

  /** A task after `k` ticks. */
  function Ticks(t: Task, k: nat): Task {
    if k == 0 then t else TickTask(Ticks(t, k - 1))
  }

  /** A stopped timer stays stopped: ticks change nothing. */
  lemma {:induction false} TicksStopped(t: Task, k: nat)
    requires t.timer == 0
    ensures Ticks(t, k) == t
  {
    if k > 0 {
      TicksStopped(t, k - 1);
    }
  }

  /** Before it runs out, a timer counts down by one per tick and nothing else changes. */
  lemma {:induction false} TicksCountdown(t: Task, k: nat)
    requires k < t.timer
    ensures Ticks(t, k) == t.(timer := t.timer - k)
  {
    if k > 0 {
      TicksCountdown(t, k - 1);
    }
  }

  /** The tick that takes a timer from 1 to 0 reloads it and raises the pending bit; every other tick leaves the flag alone. */
  lemma TickDue(t: Task)
    ensures TickTask(t).flag == if t.timer == 1 then Set(t.flag, EXEC) else t.flag
    ensures t.timer == 1 ==> TickTask(t).timer == t.slice
  {
  }

  /** However many times a task fires, its flag differs from the start at most by the pending bit. */
  lemma {:induction false} TicksFlag(t: Task, k: nat)
    ensures Ticks(t, k).flag == t.flag || Ticks(t, k).flag == Set(t.flag, EXEC)
    ensures Ticks(t, k).slice == t.slice && Ticks(t, k).exec == t.exec && Ticks(t, k).argv == t.argv
  {
    if k > 0 {
      TicksFlag(t, k - 1);
      PendingBit(t.flag);
    }
  }

  /** Division leaves one remainder: `q * s + r` with `0 <= r < s` has remainder `r`. */
  lemma ModUnique(n: nat, s: nat, q: nat, r: nat)
    requires s >= 1 && r < s && n == q * s + r
    ensures n % s == r
  {
    var q0, r0 := n / s, n % s;
    assert n == q0 * s + r0;
    if q > q0 {
      MulAtLeast(q - q0, s);
    } else if q < q0 {
      MulAtLeast(q0 - q, s);
    }
  }

  lemma MulAtLeast(d: nat, s: nat)
    requires d >= 1
    ensures d * s >= s
  {
    assert d * s == (d - 1) * s + s;
  }

  lemma ModNext(a: nat, s: nat)
    requires s >= 1
    ensures (a + 1) % s == if a % s == s - 1 then 0 else a % s + 1
  {
    var q, r := a / s, a % s;
    assert a == q * s + r;
    if r == s - 1 {
      ModUnique(a + 1, s, q + 1, 0);
    } else {
      ModUnique(a + 1, s, q, r + 1);
    }
  }

  /**
   * A periodic task whose timer starts at its slice `s` >= 1: after `k`
   * ticks its timer reads `s - k % s`, so the tick after the `k`-th fires
   * exactly when `k + 1` is a multiple of `s`: on the s-th, 2s-th, ... tick.
   */
  lemma TicksCadence(t: Task, k: nat)
    requires 1 <= t.timer == t.slice
    ensures Ticks(t, k).timer == t.slice - k % t.slice && Ticks(t, k).slice == t.slice
    ensures Ticks(t, k).timer == 1 <==> (k + 1) % t.slice == 0
  {
    TicksTimer(t, k);
    ModNext(k, t.slice);
  }

  /** The timer part of TicksCadence, by induction on the ticks. */
  lemma {:induction false} TicksTimer(t: Task, k: nat)
    requires 1 <= t.timer == t.slice
    ensures Ticks(t, k).timer == t.slice - k % t.slice && Ticks(t, k).slice == t.slice
  {
    if k > 0 {
      TicksTimer(t, k - 1);
      ModNext(k - 1, t.slice);
      TickTimer(Ticks(t, k - 1));
    }
  }

  /** One tick on the timer alone: a running timer counts down and reloads from the slice at zero. */
  lemma TickTimer(t: Task)
    ensures TickTask(t).timer == if t.timer == 0 then 0 else if t.timer == 1 then t.slice else t.timer - 1
  {
  }

  /** A task whose slice is 0 fires once when its timer runs out and never again: the timer stays at 0. */
  lemma {:induction false} TicksSliceZero(t: Task, k: nat)
    requires t.slice == 0 && t.timer <= k
    ensures Ticks(t, k) == Ticks(t, t.timer) && Ticks(t, k).timer == 0
  {
    if k > t.timer {
      TicksSliceZero(t, k - 1);
    } else if t.timer > 0 {
      TicksCountdown(t, k - 1);
    }
  }

  /** What `timeslice_exec` leaves of a served task: the pending bit cleared. */
  function Ran(t: Task): (r: Task)
    ensures !Pending(r) && OneShot(r) == OneShot(t)
    ensures r.slice == t.slice && r.timer == t.timer && r.exec == t.exec && r.argv == t.argv
    ensures !Pending(t) ==> r == t
  {
    PendingBit(t.flag);
    if Pending(t) then t.(flag := Clr(t.flag, EXEC)) else t
  }

  /**
   * The scheduler's invariant: NULL is no task, the count is the length of
   * the list, no task is linked twice and every linked task has a record.
   */
  ghost predicate Sound(service: seq<Addr>, counter: nat, tasks: map<Addr, Task>) {
    && NULL !in tasks
    && counter == |service|
    && ListRing.Distinct(service)
    && (forall id :: id in service ==> id in tasks)
  }

  /** Every member of `order` has a task record. */
  predicate Known(order: seq<Addr>, tasks: map<Addr, Task>) {
    forall i :: 0 <= i < |order| ==> order[i] in tasks
  }

  /** The members of `order` a `timeslice_exec` pass keeps: all but the pending one-shot tasks. */
  function Kept(order: seq<Addr>, tasks: map<Addr, Task>): (r: seq<Addr>)
    requires Known(order, tasks)
    ensures |r| <= |order|
  {
    if order == [] then []
    else
      var id := order[|order| - 1];
      var rest := Kept(order[..|order| - 1], tasks);
      if Pending(tasks[id]) && OneShot(tasks[id]) then rest else rest + [id]
  }

  /** The members of `order` that are pending, in order. */
  function Fired(order: seq<Addr>, tasks: map<Addr, Task>): (r: seq<Addr>)
    requires Known(order, tasks)
    ensures |r| <= |order| && forall k :: 0 <= k < |r| ==> r[k] in tasks
  {
    if order == [] then []
    else
      var id := order[|order| - 1];
      var rest := Fired(order[..|order| - 1], tasks);
      if Pending(tasks[id]) then rest + [id] else rest
  }

  /** The callbacks a `timeslice_exec` pass makes over `order`, in order. */
  function Callbacks(order: seq<Addr>, tasks: map<Addr, Task>): (r: seq<Call>)
    requires Known(order, tasks)
  {
    if order == [] then []
    else
      var id := order[|order| - 1];
      var rest := Callbacks(order[..|order| - 1], tasks);
      if Pending(tasks[id]) then rest + [Call(tasks[id].exec, tasks[id].argv)] else rest
  }

  /** `s` without `x`. */
  function Remove(s: seq<Addr>, x: Addr): (r: seq<Addr>)
    ensures |r| <= |s| && forall y :: y in r ==> y in s
  {
    if s == [] then []
    else if s[|s| - 1] == x then Remove(s[..|s| - 1], x)
    else Remove(s[..|s| - 1], x) + [s[|s| - 1]]
  }

  /** The scheduler state: `struct timeslice` and the task records it reaches. */
  class Scheduler {
    /** `timeslice.ctx`: the task `timeslice_exec` visited last, NULL before. */
    var cur: Addr
    /** The served tasks, from the sentinel's successor to its predecessor. */
    var service: seq<Addr>
    /** `timeslice.counter`. */
    var counter: nat
    /** The task records in memory, by address. */
    var tasks: map<Addr, Task>
    /** The callbacks made so far, in order. */
    var calls: seq<Call>

    ghost predicate Valid()
      reads this
    {
      Sound(service, counter, tasks)
    }

    /** The task an operation acts on: `ctx`, or the current one when `ctx` is NULL. */
    function Target(ctx: Addr): (r: Addr)
      reads this
      ensures ctx != NULL ==> r == ctx
      ensures ctx == NULL ==> r == cur
    {
      if ctx != NULL then ctx else cur
    }

    /** The static initialiser: nothing served, nothing current, the given task records. */
    constructor (memory: map<Addr, Task>)
      requires NULL !in memory
      ensures Valid() && cur == NULL && service == [] && counter == 0
      ensures tasks == memory && calls == []
    {
      cur := NULL;
      service := [];
      counter := 0;
      tasks := memory;
      calls := [];
    }

    /**
     * `timeslice_cron`: (re)initialise an unserved task as periodic, its
     * timer at its slice, its callback argument the task itself when
     * `argv` is NULL.
     */
    method Cron(ctx: Addr, exec: Addr, argv: Addr, slice: nat)
      requires Valid() && ctx != NULL && ctx !in service
      modifies this`tasks
      ensures Valid()
      ensures tasks == old(tasks)[ctx := Task(slice, slice, exec, ArgOr(argv, ctx), CRON)]
    {
      tasks := tasks[ctx := Task(slice, slice, exec, if argv != NULL then argv else ctx, CRON)];
    }

    /** `timeslice_once`: (re)initialise an unserved task as one-shot after `delay` ticks. */
    method Once(ctx: Addr, exec: Addr, argv: Addr, delay: nat)
      requires Valid() && ctx != NULL && ctx !in service
      modifies this`tasks
      ensures Valid()
      ensures tasks == old(tasks)[ctx := Task(delay, delay, exec, ArgOr(argv, ctx), ONCE)]
    {
      tasks := tasks[ctx := Task(delay, delay, exec, if argv != NULL then argv else ctx, ONCE)];
    }

    /** `timeslice_set_exec`. */
    method SetExec(ctx: Addr, exec: Addr)
      requires Valid() && Target(ctx) in tasks
      modifies this`tasks
      ensures Valid()
      ensures var c := old(Target(ctx)); tasks == old(tasks)[c := old(tasks)[c].(exec := exec)]
    {
      var c := Target(ctx);
      tasks := tasks[c := tasks[c].(exec := exec)];
    }

    /** `timeslice_set_argv`: NULL stands for the task itself. */
    method SetArgv(ctx: Addr, argv: Addr)
      requires Valid() && Target(ctx) in tasks
      modifies this`tasks
      ensures Valid()
      ensures var c := old(Target(ctx)); tasks == old(tasks)[c := old(tasks)[c].(argv := ArgOr(argv, c))]
    {
      var c := Target(ctx);
      tasks := tasks[c := tasks[c].(argv := if argv != NULL then argv else c)];
    }

    /** `timeslice_set_timer`. */
    method SetTimer(ctx: Addr, timer: nat)
      requires Valid() && Target(ctx) in tasks
      modifies this`tasks
      ensures Valid()
      ensures var c := old(Target(ctx)); tasks == old(tasks)[c := old(tasks)[c].(timer := timer)]
    {
      var c := Target(ctx);
      tasks := tasks[c := tasks[c].(timer := timer)];
    }

    /** `timeslice_set_slice`. */
    method SetSlice(ctx: Addr, slice: nat)
      requires Valid() && Target(ctx) in tasks
      modifies this`tasks
      ensures Valid()
      ensures var c := old(Target(ctx)); tasks == old(tasks)[c := old(tasks)[c].(slice := slice)]
    {
      var c := Target(ctx);
      tasks := tasks[c := tasks[c].(slice := slice)];
    }

    /** `timeslice_join`: an unserved task goes to the tail and is counted; a served one stays put. */
    method Join(ctx: Addr)
      requires Valid() && Target(ctx) in tasks
      modifies this`service, this`counter
      ensures Valid()
      ensures var c := old(Target(ctx));
        service == if c in old(service) then old(service) else old(service) + [c]
    {
      var c := Target(ctx);
      if c !in service {
        ListRing.DistinctAppend(service, c);
        service := service + [c];
        counter := counter + 1;
      }
    }

    /** `timeslice_drop`: a served task leaves the list and the count; an unserved one changes nothing. */
    method Drop(ctx: Addr)
      requires Valid() && Target(ctx) in tasks
      modifies this`service, this`counter
      ensures Valid()
      ensures service == Remove(old(service), old(Target(ctx)))
    {
      var c := Target(ctx);
      if c in service {
        RemoveDistinct(service, c);
        RemoveMembers(service, c);
        service := Remove(service, c);
        counter := counter - 1;
      } else {
        RemoveAbsent(service, c);
      }
    }

    /** `timeslice_exist`: the task is served. */
    function Exist(ctx: Addr): (r: bool)
      reads this
      requires Valid() && Target(ctx) in tasks
      ensures r <==> exists i :: 0 <= i < |service| && service[i] == Target(ctx)
    {
      Target(ctx) in service
    }

    /** `timeslice_timer`. */
    function Timer(ctx: Addr): (r: nat)
      reads this
      requires Valid() && Target(ctx) in tasks
      ensures r == tasks[Target(ctx)].timer
    {
      tasks[Target(ctx)].timer
    }

    /** `timeslice_slice`. */
    function Slice(ctx: Addr): (r: nat)
      reads this
      requires Valid() && Target(ctx) in tasks
      ensures r == tasks[Target(ctx)].slice
    {
      tasks[Target(ctx)].slice
    }

    /** `timeslice_count`: the number of served tasks. */
    function Count(): (r: nat)
      reads this
      requires Valid()
      ensures r == |service|
    {
      counter
    }

    /**
     * `timeslice_tick`: every served task ticks once; unserved tasks, the
     * list, the count and the current task do not change.
     */
    method Tick()
      requires Valid()
      modifies this`tasks
      ensures Valid() && tasks.Keys == old(tasks).Keys
      ensures forall id :: id in tasks ==>
        tasks[id] == if id in service then TickTask(old(tasks)[id]) else old(tasks)[id]
    {
      var i := 0;
      while i < |service|
        invariant i <= |service| && Valid()
        invariant tasks.Keys == old(tasks).Keys
        invariant forall id :: id in tasks ==>
          tasks[id] == if id in service[..i] then TickTask(old(tasks)[id]) else old(tasks)[id]
      {
        var id := service[i];
        ListRing.DistinctUnique(service, i);
        assert service[..i + 1] == service[..i] + [id];
        var t := tasks[id];
        if t.timer != 0 {
          t := t.(timer := t.timer - 1);
          if t.timer == 0 {
            t := t.(timer := t.slice, flag := Set(t.flag, EXEC));
          }
          tasks := tasks[id := t];
        }
        i := i + 1;
      }
      assert service[..i] == service;
    }

    /**
     * `timeslice_exec`: visit the served tasks in order, making each the
     * current task; a pending one has its bit cleared, then its callback
     * runs once, then a one-shot task leaves the list and the count.
     * Callbacks do not touch the scheduler, so the visit covers the list
     * as it was on entry (Links.ForsafeDrop).
     */
    method Exec()
      requires Valid()
      modifies this
      ensures Valid() && tasks.Keys == old(tasks).Keys
      ensures service == Kept(old(service), old(tasks))
      ensures calls == old(calls) + Callbacks(old(service), old(tasks))
      ensures forall id :: id in tasks ==>
        tasks[id] == if id in old(service) then Ran(old(tasks)[id]) else old(tasks)[id]
      ensures cur == if old(service) == [] then old(cur) else old(service)[|old(service)| - 1]
    {
      var order := service;
      ghost var tasks0, calls0 := tasks, calls;
      var i := 0;
      ExecStart(order, counter, tasks, calls);
      while i < |order|
        invariant i <= |order|
        invariant ExecAt(order, i, tasks0, calls0, service, counter, tasks, calls)
        invariant i == 0 ==> cur == old(cur)
        invariant i > 0 ==> cur == order[i - 1]
      {
        ExecPre(order, i, tasks0, calls0, service, counter, tasks, calls);
        ghost var service1, counter1, tasks1, calls1 := service, counter, tasks, calls;
        cur := order[i];
        Serve(cur);
        ExecAdvance(order, i, tasks0, calls0, service1, counter1, tasks1, calls1, service, counter, tasks, calls);
        i := i + 1;
      }
      ExecDone(order, tasks0, calls0, service, counter, tasks, calls);
    }

    /** The body of `timeslice_exec`'s loop for the current task `id` (Serves). */
    method Serve(id: Addr)
      requires id in tasks && counter > 0
      modifies this`tasks, this`calls, this`service, this`counter
      ensures Serves(id, old(service), old(counter), old(tasks), old(calls), service, counter, tasks, calls)
    {
      var t := tasks[id];
      if Get(t.flag, EXEC) != 0 {
        t := t.(flag := Clr(t.flag, EXEC));
        tasks := tasks[id := t];
        calls := calls + [Call(t.exec, t.argv)];
        if Get(t.flag, ONCE) != 0 {
          service := Remove(service, id);
          counter := counter - 1;
        }
      }
    }
  }

  /** Removing a node that is not there changes nothing. */
  lemma {:induction false} RemoveAbsent(s: seq<Addr>, x: Addr)
    requires x !in s
    ensures Remove(s, x) == s
  {
    if s != [] {
      RemoveAbsent(s[..|s| - 1], x);
      assert s == s[..|s| - 1] + [s[|s| - 1]];
    }
  }

  /** What `Remove` keeps: every other node, in order; the removed one no more. */
  lemma {:induction false} RemoveMembers(s: seq<Addr>, x: Addr)
    ensures x !in Remove(s, x)
    ensures forall y :: y != x ==> (y in Remove(s, x) <==> y in s)
  {
    if s != [] {
      RemoveMembers(s[..|s| - 1], x);
      assert s == s[..|s| - 1] + [s[|s| - 1]];
    }
  }

  lemma {:induction false} RemoveConcat(a: seq<Addr>, b: seq<Addr>, x: Addr)
    ensures Remove(a + b, x) == Remove(a, x) + Remove(b, x)
  {
    if b == [] {
      assert a + b == a;
    } else {
      assert (a + b)[..|a + b| - 1] == a + b[..|b| - 1];
      RemoveConcat(a, b[..|b| - 1], x);
    }
  }

  /**
   * On a list without duplicates, `Remove` is the unlinking of the one
   * member `list_drop` takes out (ListRing.DropKeepsRing): the list loses
   * that member and keeps every other, in order.
   */
  lemma RemoveIsWithout(s: seq<Addr>, k: nat)
    requires ListRing.Distinct(s) && k < |s|
    ensures Remove(s, s[k]) == ListRing.Without(s, k)
  {
    ListRing.DistinctUnique(s, k);
    assert s == s[..k] + [s[k]] + s[k + 1..];
    assert s[k] !in s[..k];
    assert s[k] !in s[k + 1..];
    RemoveConcat(s[..k] + [s[k]], s[k + 1..], s[k]);
    RemoveConcat(s[..k], [s[k]], s[k]);
    RemoveAbsent(s[..k], s[k]);
    RemoveAbsent(s[k + 1..], s[k]);
    assert Remove([s[k]], s[k]) == [];
  }

  /** Removing a member of a list without duplicates shortens it by one and keeps it free of duplicates. */
  lemma RemoveDistinct(s: seq<Addr>, x: Addr)
    requires ListRing.Distinct(s) && x in s
    ensures |Remove(s, x)| == |s| - 1 && ListRing.Distinct(Remove(s, x))
  {
    var k :| 0 <= k < |s| && s[k] == x;
    RemoveIsWithout(s, k);
    ListRing.DistinctWithout(s, k);
  }

  /** `Kept` picks a subsequence: every kept task was in the order. */
  lemma {:induction false} KeptSub(order: seq<Addr>, tasks: map<Addr, Task>)
    requires Known(order, tasks)
    ensures forall y :: y in Kept(order, tasks) ==> y in order
  {
    if order != [] {
      KeptSub(order[..|order| - 1], tasks);
      assert order == order[..|order| - 1] + [order[|order| - 1]];
    }
  }

  /** `Kept` of a list without duplicates has none either. */
  lemma {:induction false} KeptDistinct(order: seq<Addr>, tasks: map<Addr, Task>)
    requires Known(order, tasks)
    requires ListRing.Distinct(order)
    ensures ListRing.Distinct(Kept(order, tasks))
  {
    if order != [] {
      var init, id := order[..|order| - 1], order[|order| - 1];
      KeptDistinct(init, tasks);
      KeptSub(init, tasks);
      if !(Pending(tasks[id]) && OneShot(tasks[id])) {
        ListRing.DistinctAppend(Kept(init, tasks), id);
      }
    }
  }

  /** The task records after a `timeslice_exec` pass over `order`. */
  function RanAll(order: seq<Addr>, tasks: map<Addr, Task>): (r: map<Addr, Task>)
    requires Known(order, tasks)
    ensures r.Keys == tasks.Keys
  {
    if order == [] then tasks
    else
      var id := order[|order| - 1];
      RanAll(order[..|order| - 1], tasks)[id := Ran(tasks[id])]
  }

  /** A pass clears the pending bit of the tasks it visits and leaves the others alone. */
  lemma {:induction false} RanAllMembers(order: seq<Addr>, tasks: map<Addr, Task>)
    requires Known(order, tasks)
    ensures forall id :: id in tasks ==>
      RanAll(order, tasks)[id] == if id in order then Ran(tasks[id]) else tasks[id]
  {
    if order != [] {
      RanAllMembers(order[..|order| - 1], tasks);
      assert order == order[..|order| - 1] + [order[|order| - 1]];
    }
  }

  /**
   * The state of `timeslice_exec` after visiting the first `i` tasks of
   * `order`, the list on entry: their pending bits cleared, their callbacks
   * made, the pending one-shot ones among them unlinked.
   */
  ghost predicate ExecAt(order: seq<Addr>, i: nat, tasks0: map<Addr, Task>, calls0: seq<Call>,
                         service: seq<Addr>, counter: nat, tasks: map<Addr, Task>, calls: seq<Call>)
  {
    && i <= |order| && Known(order, tasks0) && ListRing.Distinct(order)
    && Sound(service, counter, tasks)
    && tasks == RanAll(order[..i], tasks0)
    && service == Kept(order[..i], tasks0) + order[i..]
    && calls == calls0 + Callbacks(order[..i], tasks0)
  }

  lemma ExecStart(order: seq<Addr>, counter: nat, tasks: map<Addr, Task>, calls: seq<Call>)
    requires Sound(order, counter, tasks)
    ensures ExecAt(order, 0, tasks, calls, order, counter, tasks, calls)
  {
    assert order[..0] == [] && order[0..] == order;
  }

  /** The task about to be visited has a record, not yet touched by the pass. */
  lemma ExecPre(order: seq<Addr>, i: nat, tasks0: map<Addr, Task>, calls0: seq<Call>,
                service: seq<Addr>, counter: nat, tasks: map<Addr, Task>, calls: seq<Call>)
    requires ExecAt(order, i, tasks0, calls0, service, counter, tasks, calls) && i < |order|
    ensures order[i] in tasks && tasks[order[i]] == tasks0[order[i]] && counter > 0
  {
    RanAllStep(order, i, tasks0);
    KeptStep(order, i, tasks0);
  }

  /** Visiting `order[i]` as `timeslice_exec` does moves the state on by one task. */
  /**
   * One visit of `timeslice_exec` to task `x`: when it is pending, its bit
   * is cleared and its callback called, and a one-shot task leaves the
   * list and the count; otherwise nothing changes.
   */
  ghost predicate Serves(x: Addr, service: seq<Addr>, counter: nat, tasks: map<Addr, Task>, calls: seq<Call>,
                         service': seq<Addr>, counter': nat, tasks': map<Addr, Task>, calls': seq<Call>)
    requires x in tasks
  {
    var t := tasks[x];
    if Pending(t) then
      var t' := t.(flag := Clr(t.flag, EXEC));
      && tasks' == tasks[x := t'] && calls' == calls + [Call(t'.exec, t'.argv)]
      && if Get(t'.flag, ONCE) != 0 then service' == Remove(service, x) && counter' + 1 == counter
         else service' == service && counter' == counter
    else tasks' == tasks && calls' == calls && service' == service && counter' == counter
  }

  lemma ExecAdvance(order: seq<Addr>, i: nat, tasks0: map<Addr, Task>, calls0: seq<Call>,
                    service: seq<Addr>, counter: nat, tasks: map<Addr, Task>, calls: seq<Call>,
                    service': seq<Addr>, counter': nat, tasks': map<Addr, Task>, calls': seq<Call>)
    requires ExecAt(order, i, tasks0, calls0, service, counter, tasks, calls) && i < |order|
    requires order[i] in tasks
    requires Serves(order[i], service, counter, tasks, calls, service', counter', tasks', calls')
    ensures ExecAt(order, i + 1, tasks0, calls0, service', counter', tasks', calls')
  {
    var x := order[i];
    var t := tasks[x];
    PendingBit(t.flag);
    RanAllStep(order, i, tasks0);
    CallbacksStep(order, i, tasks0);
    KeptStep(order, i, tasks0);
    if !Pending(t) {
      assert tasks' == tasks && calls' == calls && service' == service && counter' == counter;
    } else {
      assert tasks' == tasks[x := Ran(t)] && calls' == calls + [Call(t.exec, t.argv)];
      if OneShot(t) {
        assert service' == Remove(service, x) && counter' + 1 == counter;
        RemoveDistinct(service, x);
        RemoveMembers(service, x);
      } else {
        assert service' == service && counter' == counter;
      }
    }
  }

  /** At the end of the list the pass has done all it does. */
  lemma ExecDone(order: seq<Addr>, tasks0: map<Addr, Task>, calls0: seq<Call>,
                 service: seq<Addr>, counter: nat, tasks: map<Addr, Task>, calls: seq<Call>)
    requires ExecAt(order, |order|, tasks0, calls0, service, counter, tasks, calls)
    ensures Sound(service, counter, tasks) && tasks.Keys == tasks0.Keys
    ensures service == Kept(order, tasks0) && calls == calls0 + Callbacks(order, tasks0)
    ensures forall id :: id in tasks ==>
      tasks[id] == if id in order then Ran(tasks0[id]) else tasks0[id]
  {
    assert order[..|order|] == order && order[|order|..] == [];
    RanAllMembers(order, tasks0);
  }

  /** The step of `Exec` at position `i` on the task records. */
  lemma RanAllStep(order: seq<Addr>, i: nat, tasks: map<Addr, Task>)
    requires Known(order, tasks) && ListRing.Distinct(order) && i < |order|
    ensures var x, pre, post := order[i], order[..i], order[..i + 1];
      && x in tasks && RanAll(pre, tasks)[x] == tasks[x]
      && RanAll(post, tasks) == RanAll(pre, tasks)[x := Ran(tasks[x])]
      && (!Pending(tasks[x]) ==> RanAll(post, tasks) == RanAll(pre, tasks))
  {
    var x, pre, post := order[i], order[..i], order[..i + 1];
    assert post[..i] == pre && post[i] == x;
    ListRing.DistinctUnique(order, i);
    assert x !in pre;
    RanAllMembers(pre, tasks);
  }

  /** The step of `Exec` at position `i` on the callbacks. */
  lemma CallbacksStep(order: seq<Addr>, i: nat, tasks: map<Addr, Task>)
    requires Known(order, tasks) && i < |order|
    ensures var x, pre, post := order[i], order[..i], order[..i + 1];
      Callbacks(post, tasks) == Callbacks(pre, tasks) +
        (if Pending(tasks[x]) then [Call(tasks[x].exec, tasks[x].argv)] else [])
  {
    assert order[..i + 1][..i] == order[..i];
  }

  /** The step of `Exec` at position `i` on the list: the visited task is dropped or kept. */
  lemma KeptStep(order: seq<Addr>, i: nat, tasks: map<Addr, Task>)
    requires Known(order, tasks) && ListRing.Distinct(order) && i < |order|
    ensures var x, pre, post := order[i], order[..i], order[..i + 1];
      && x in Kept(pre, tasks) + order[i..]
      && (Pending(tasks[x]) && OneShot(tasks[x]) ==>
           Remove(Kept(pre, tasks) + order[i..], x) == Kept(post, tasks) + order[i + 1..])
      && (!(Pending(tasks[x]) && OneShot(tasks[x])) ==>
           Kept(pre, tasks) + order[i..] == Kept(post, tasks) + order[i + 1..])
  {
    var x, pre, post := order[i], order[..i], order[..i + 1];
    assert post[..i] == pre && post[i] == x;
    var kept := Kept(pre, tasks);
    assert order[i..] == [x] + order[i + 1..];
    assert (kept + order[i..])[|kept|] == x;
    if Pending(tasks[x]) && OneShot(tasks[x]) {
      KeptStepDrop(order, i, tasks, kept);
    } else {
      assert Kept(post, tasks) == kept + [x];
    }
  }

  /** Dropping the visited task from the list when it leaves. */
  lemma KeptStepDrop(order: seq<Addr>, i: nat, tasks: map<Addr, Task>, kept: seq<Addr>)
    requires Known(order, tasks) && ListRing.Distinct(order) && i < |order|
    requires kept == Kept(order[..i], tasks)
    ensures Remove(kept + order[i..], order[i]) == kept + order[i + 1..]
  {
    var x := order[i];
    ListRing.DistinctUnique(order, i);
    KeptSub(order[..i], tasks);
    assert x !in kept;
    assert x !in order[i + 1..];
    assert order[i..] == [x] + order[i + 1..];
    RemoveConcat(kept, order[i..], x);
    RemoveConcat([x], order[i + 1..], x);
    RemoveAbsent(kept, x);
    RemoveAbsent(order[i + 1..], x);
    assert Remove([x], x) == [];
  }

  /**
   * A `timeslice_exec` pass keeps exactly what `list_forsafe` over the
   * ring leaves when its body drops the pending one-shot tasks.
   */
  lemma {:induction false} KeptIsSurvivors(order: seq<Addr>, tasks: map<Addr, Task>, doomed: set<Addr>)
    requires Known(order, tasks)
    requires forall i :: 0 <= i < |order| ==>
      (order[i] in doomed <==> Pending(tasks[order[i]]) && OneShot(tasks[order[i]]))
    ensures Kept(order, tasks) == ListRing.Survivors(order, doomed)
  {
    if order != [] {
      KeptIsSurvivors(order[..|order| - 1], tasks, doomed);
    }
  }

  /** `Fired` holds each pending member once, and nothing else. */
  lemma {:induction false} FiredMembers(order: seq<Addr>, tasks: map<Addr, Task>)
    requires Known(order, tasks)
    ensures forall y :: y in Fired(order, tasks) <==> y in order && Pending(tasks[y])
  {
    if order != [] {
      FiredMembers(order[..|order| - 1], tasks);
      assert order == order[..|order| - 1] + [order[|order| - 1]];
    }
  }

  /** A pass keeps a served task exactly when it is not a pending one-shot task: periodic tasks always stay. */
  lemma {:induction false} KeptMembers(order: seq<Addr>, tasks: map<Addr, Task>)
    requires Known(order, tasks)
    ensures forall y :: y in Kept(order, tasks) <==> y in order && !(Pending(tasks[y]) && OneShot(tasks[y]))
  {
    if order != [] {
      KeptMembers(order[..|order| - 1], tasks);
      assert order == order[..|order| - 1] + [order[|order| - 1]];
    }
  }

  /** A task linked once fires at most once per pass, however many times its timer ran out. */
  lemma {:induction false} FiredDistinct(order: seq<Addr>, tasks: map<Addr, Task>)
    requires Known(order, tasks) && ListRing.Distinct(order)
    ensures ListRing.Distinct(Fired(order, tasks))
  {
    if order != [] {
      var init, id := order[..|order| - 1], order[|order| - 1];
      FiredDistinct(init, tasks);
      FiredMembers(init, tasks);
      if Pending(tasks[id]) {
        ListRing.DistinctAppend(Fired(init, tasks), id);
      }
    }
  }

  /** The callbacks of a pass are those of the pending tasks, in list order. */
  lemma {:induction false} CallbacksOfFired(order: seq<Addr>, tasks: map<Addr, Task>)
    requires Known(order, tasks)
    ensures var f := Fired(order, tasks);
      |Callbacks(order, tasks)| == |f|
      && forall k :: 0 <= k < |f| ==> Callbacks(order, tasks)[k] == Call(tasks[f[k]].exec, tasks[f[k]].argv)
  {
    if order != [] {
      CallbacksOfFired(order[..|order| - 1], tasks);
    }
  }
}
