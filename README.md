# yahboom-hat: a verified model of its core

yahboom-hat is a small C daemon for the Yahboom Raspberry Pi HAT. It reads a
configuration file, sets up the HAT's RGB LEDs and fan over I2C, and then
adjusts the fan speed to the CPU temperature once a second. This project
models the parts of it that are logic rather than I/O, and proves what they
promise:

- **strpool.c** — the interning string pool. A registry of string buffers is
  kept sorted by a comparator (insertion by backward scan and `memmove`,
  lookup by `bsearch`). A recycle list of released buffers is kept ascending
  by usable size, so a forward scan finds the best fit (`StrPool`).
- **strpool.h** — the inline helpers of the bump-arena `struct strpool` that
  header declares (`StrArena`).
- **pool_str.c / pool_str.h** — the bump string arena. One growable byte block
  holds NUL-terminated strings back to back. It supports append, undo of the
  last string, and cutting out a string in the middle (`PoolStr`).
- **timeslice.h** — the intrusive circular doubly linked list with a sentinel
  (`ListRing`).
- **timeslice.c** — the cooperative scheduler. `tick` counts timers down and
  marks tasks pending. `exec` runs the pending tasks and unlinks the one-shot
  ones. `counter` is the list length (`Timeslice`).
- **log.c** — the log sink broadcaster. It keeps a singly linked sink list
  with a tail pointer and six level filters. A lock hook brackets every
  operation (`Log`).
- **main.c and rgb.c**:
  - the `bkdr` hash and its keyword constants (`Hash`, `Keywords`);
  - `strtol` and `u8_parse` (`Strtol`, `U8Parse`);
  - fan bound normalisation and the fan speed rule (`FanControl`);
  - the keyword-to-register dispatch (`Dispatch`);
  - the HAT commands as a trace of register writes (`Rgb`);
  - the global `model` state with its load, init and exec steps (`App`).

Shared pieces:
- `CStrings`: bytes, C strings, `strlen` and `strcmp`.
- `Mem`: `memmove`, `memcpy` and `realloc` on arrays.
- `Wrappers`: `Option`.

Pointers are modelled by identities, offsets or `Option`. Lists and arrays
that the C code edits in place are class fields of type `array` or `seq`,
changed by methods. Each method is proved against specification functions,
and lemmas prove what those functions promise.

## Model

| member | source | states |
|---|---|---|
| StrPool.SmearBounds | strpool.c:42-48 | The or-shift cascade turns v into one less than a power of two, and the result lies between v and 2v - 1. |
| StrPool.RoundUpIsLeastPow2 | strpool.c:39-50 | For x >= 1, STRPOOL_ROUNDUP gives the least power of two that is >= x. |
| StrPool.WordRound | strpool.c:86 | The rounded request is a multiple of sizeof(size_t) and the least one >= the request, with 0 counted as 1. |
| StrPool.CmpZeroIff | strpool.c:157-165 | Both `strpool_compare` and `strpool_reverse` return 0 exactly when the two C strings are equal. |
| StrPool.CmpAntisymmetric | strpool.c:157-165 | Swapping the operands negates the comparison. |
| StrPool.CmpTransitive | strpool.c:157-165 | "Compares <= 0" is transitive for both comparators. |
| StrPool.OwnedDisjoint | strpool.c:224-235 | Under the ownership invariant, no buffer is both registered and recycled, and none is registered twice. |
| StrPool.FirstFit | strpool.c:88-91 | The scan stops within the recycle list. When it stops inside, that buffer is big enough. |
| StrPool.FirstFitSkips | strpool.c:89-91 | Every buffer before the first fit is too small. |
| StrPool.FirstFitUnique | strpool.c:88-95 | The first fit is the only index with all earlier buffers too small and itself fitting (or the end of the list). |
| StrPool.FirstFitIsBestFit | strpool.c:84-102 | On an ascending recycle list, the first buffer that fits is the smallest that fits. |
| StrPool.RemoveKeepsAscending | strpool.c:96-101 | Taking a buffer out of the recycle list keeps it ascending. |
| StrPool.DumpPos | strpool.c:119-127 | The insertion point of `strpool_pool_dump` comes right after a buffer no larger than the new one, or at the start. |
| StrPool.DumpPosSkips | strpool.c:119-127 | Every buffer from the insertion point on is strictly larger. |
| StrPool.DumpPosUnique | strpool.c:119-127 | The insertion point is the only index with both properties. |
| StrPool.DumpKeepsAscending | strpool.c:119-133 | Inserting a released buffer at that point keeps the recycle list ascending. |
| StrPool.LoadPos | strpool.c:199-207 | The insertion point of `strpool_load` comes right after an entry the new string compares >= to. |
| StrPool.LoadPosSkips | strpool.c:199-207 | Every entry from the insertion point on compares strictly above the new string, so equal strings keep insertion order. |
| StrPool.LoadPosUnique | strpool.c:199-207 | The insertion point is the only index with both properties. |
| StrPool.InsertKeepsSorted | strpool.c:208-213 | Inserting between entries that compare <= and >= the new string keeps the registry sorted. |
| StrPool.LoadKeepsSorted | strpool.c:184-214 | On a sorted registry, the load position has <= entries before it and > entries after it, and the insertion keeps the registry sorted. |
| StrPool.RemoveKeepsSorted | strpool.c:226-235 | Removing a registry entry keeps the registry sorted. |
| StrPool.BestFitExample | strpool.c:84-102 | A 10-byte request rounds to 16 and takes the 16-byte buffer from recycled buffers of 8, 16 and 32 bytes. |
| StrPool.OwnedTake | strpool.c:96-101 | A buffer taken off the recycle list is in neither list afterwards, and ownership holds. |
| StrPool.OwnedAdd | strpool.c:212-213 | Registering a buffer that neither list holds keeps ownership. |
| StrPool.OwnedMove | strpool.c:226-235 | Moving a registry entry to the recycle list keeps ownership. |
| StrPool.Overwrite | strpool.c:268-269 | After `memcpy` and the NUL, the buffer starts with the copied bytes and keeps what followed. |
| StrPool.FitIndex | strpool.c:88-91 | The scan loop returns FirstFit of the recycle list. |
| StrPool.DumpInto | strpool.c:119-133 | The backward scan and `memmove` leave the recycle list with the buffer inserted at DumpPos. |
| StrPool.LoadScan | strpool.c:199-207 | The backward scan returns LoadPos of the registry. |
| StrPool.LoadInto | strpool.c:199-213 | The scan and `memmove` leave the registry with the string inserted at LoadPos, and return that slot. |
| StrPool.Bsearch | strpool.c:255-258 | A found slot holds a string equal to the key. "Not found" on a sorted registry means no entry equals it. |
| StrPool.FreeFromLast | strpool.c:143-146 | The exit loops free the entries from the last to the first. |
| StrPool.PoolLoadKeepsInv | strpool.c:84-107 | `strpool_pool_load` keeps both lists' invariants. The block it hands out is in neither list afterwards. |
| StrPool.LoadKeepsInv | strpool.c:184-214 | `strpool_load` of a buffer no list holds keeps sortedness, ascent and ownership. |
| StrPool.DumpKeepsInv | strpool.c:217-236 | `strpool_dump` of a slot keeps sortedness, ascent and ownership. |
| StrPool.ExitFreesEachOnce | strpool.c:238-248 | `strpool_exit` frees no block twice. |
| StrPool.StrPool.constructor | strpool.c:167-182 | Both lists start empty with room for m rounded up to a power of two, or STRPOOL_INIT_MIN for 0. A NULL comparator selects `strpool_compare`. |
| StrPool.StrPool.PoolLoad | strpool.c:84-107 | Returns the first recycled block that fits and removes it, or a fresh block with the recycle list unchanged. The registry is unchanged. |
| StrPool.StrPool.GrowRecycle | strpool.c:113-118 | The recycle array doubles (STRPOOL_INIT_MIN from 0), rounds up to a power of two, and keeps its contents. |
| StrPool.StrPool.PoolDump | strpool.c:109-138 | The recycle list becomes the old one with the buffer inserted at DumpPos, growing first when full. |
| StrPool.StrPool.GrowRegistry | strpool.c:186-198 | The registry array rounds up and doubles (STRPOOL_INIT_MIN from 0) and keeps its contents. |
| StrPool.StrPool.Load | strpool.c:184-215 | The registry becomes the old one with the string inserted at LoadPos. The returned slot is that position. |
| StrPool.StrPool.Dump | strpool.c:217-236 | A slot inside the registry moves exactly that entry to the recycle list at DumpPos. Any other pointer changes nothing. |
| StrPool.StrPool.Exit | strpool.c:238-248 | Both lists end empty with zero capacities. Released blocks are the recycled ones, then the registered ones, each from the last. |
| StrPool.StrPool.PutN | strpool.c:265-271 | The bytes and a NUL go into a buffer of capacity >= num + 1, which is registered at LoadPos. The buffer is the first recycled one that fits, which leaves the recycle list and keeps the allocator, or a fresh block, which advances it. |
| StrPool.StrPool.Register | strpool.c:268-270 | The `memcpy`, the NUL and `strpool_load` of `strpool_putn`: the filled block is inserted at LoadPos, and the recycle list is unchanged. |
| StrPool.PutKeepsInv | strpool.c:265-271 | From any state in which the pool invariant holds, the state PutN promises satisfies it too: sorted registry, ascending recycle list, each block owned once. |
| StrPool.StrPool.PutNThenFind | strpool.c:255-271 | Interning round trip: on a consistent pool, `strpool_find` of the bytes just put finds an entry holding them, and the pool stays consistent. |
| StrPool.StrPool.PutS | strpool.c:260-263 | PutN of the C string at `str`, or of no bytes for NULL, with all of PutN's promises: the block, its load position, the recycle list and the allocator. |
| StrPool.StrPool.Find | strpool.c:255-258 | A found slot holds an equal string. On a consistent pool, "not found" means no registered string equals the key. |
| StrArena.Arena.Init | strpool.h:8 | STRPOOL_INIT: no block, capacity 0, nothing used. |
| StrArena.Arena.Addr | strpool.h:18 | `strpool_addr` is the start of the block. |
| StrArena.Arena.Size | strpool.h:20 | `strpool_size` is the capacity. |
| StrArena.Arena.UsedLen | strpool.h:22 | `strpool_used` is the length of the used region, at most the capacity. |
| StrArena.Arena.BufP | strpool.h:24 | `strpool_bufp` points at offset n. |
| StrArena.Arena.BufN | strpool.h:26 | `strpool_bufn` is m - n. |
| StrArena.Arena.Have | strpool.h:28-31 | `strpool_have(q)` holds exactly when q points into [p, p + n). |
| StrArena.Arena.Done | strpool.h:33-39 | `strpool_done(k)` writes a NUL at old n + k, advances n by k + 1, changes no other byte, and returns the old bufp. |
| StrArena.DoneHands | strpool.h:33-39 | After `strpool_done`, the returned pointer is inside the used region and the new bufp is not. The room shrank by k + 1. |
| PoolStr.GrownFirstFit | pool_str.c:17-24 | The grow loop doubles m at least once, fits n + need, and stops at the first doubling that fits. |
| PoolStr.AfterLastNul | pool_str.c:95-99 | The undo scan stops just past a NUL, or at 0. |
| PoolStr.AfterLastNulSkips | pool_str.c:95-99 | No NUL lies between the stopping point and the end. |
| PoolStr.AfterLastNulUnique | pool_str.c:95-99 | The stopping point is the only position with both properties. |
| PoolStr.UndoAfterPut | pool_str.c:39-101 | Round trip: putting a NUL-free string onto a terminated region and undoing restores n. |
| PoolStr.UndoKeepsTerminated | pool_str.c:90-101 | Undo of a terminated region leaves a terminated region. |
| PoolStr.CutAfterPut | pool_str.c:39-114 | Round trip: dropping the string just put gives back the region. |
| PoolStr.CutKeepsTerminated | pool_str.c:103-114 | Dropping a string that starts at a string boundary keeps every remaining string terminated. |
| PoolStr.StrLenAt | pool_str.c:109 | `strlen` inside the region stops at the first NUL before n. |
| PoolStr.PoolStr.Zero | pool_str.h:8 | POOL_STR_INIT: capacity 0, nothing used. |
| PoolStr.PoolStr.Init | pool_str.c:6-15 | A fresh block of m bytes, or BUFSIZ for 0, with n = 0. |
| PoolStr.PoolStr.Grow | pool_str.c:17-24 | m becomes the first doubling that fits n + need, at least twice the old m. The bytes are kept. |
| PoolStr.PoolStr.Exit | pool_str.c:26-32 | The block is released, and m and n are 0. |
| PoolStr.PoolStr.PutN | pool_str.c:39-52 | The region becomes the old region + the bytes + NUL. The result is the old n, n grows by num + 1, and m grows only when needed. |
| PoolStr.PoolStr.PutS | pool_str.c:34-37 | Appends the C string, or just a NUL for NULL. The result is the old n. |
| PoolStr.PoolStr.Undo | pool_str.c:90-101 | n becomes the start of the last string when the region ends in a NUL, and is unchanged otherwise. The result is the new n. |
| PoolStr.PoolStr.Drop | pool_str.c:103-114 | An offset in [0, n) cuts out the string there with its NUL and moves the rest down. Any other offset changes nothing. |
| PoolStr.PoolStr.BufP | pool_str.h:18-21 | `pool_str_bufp` is offset n, the end of the used region. |
| PoolStr.PoolStr.BufN | pool_str.h:23-26 | `pool_str_bufn` + n = m. |
| PoolStr.PoolStr.Have | pool_str.h:36-39 | `pool_str_have(q)` holds exactly when q is in [0, n). |
| PoolStr.PoolStr.Done | pool_str.h:28-34 | `pool_str_done(k)` writes a NUL at old n + k, advances n by k + 1, and returns the old bufp. |
| Mem.MoveDown | strpool.c:96-100 | `memmove` down by d: the slice [i + d, n) now starts at i, and the prefix and tail are kept. |
| Mem.OpenGap | strpool.c:128-131 | `memmove` up by one: [i, n) now starts at i + 1, and slot i and everything else are kept. |
| Mem.Realloc | strpool.c:117 | `realloc` gives a fresh array of the new length with the common prefix kept. |
| Mem.InsertAt | strpool.c:208-213 | Gap plus store: the array prefix becomes the old prefix with x inserted at i. |
| Mem.RemoveAt | strpool.c:230-234 | Slot i is removed and later slots shift down by one. |
| Mem.CopyIn | pool_str.c:48 | `memcpy` puts the source bytes at the offset and changes nothing else. |
| ListRing.RingStep | timeslice.h:18-21 | In a ring, every node's next and prev are its neighbours in ring order. |
| ListRing.MemberNotSelfLinked | timeslice.h:45-47 | A member is neither the sentinel nor self-linked, so `list_forsafe` does not stop early at it. |
| ListRing.UsedIffMember | timeslice.h:64 | On a ring, `list_used` holds exactly for the members other than the sentinel. |
| ListRing.InitKeepsRing | timeslice.h:70 | `list_init` of a node off the ring keeps the ring, and the node is not used afterwards. |
| ListRing.JoinKeepsRing | timeslice.h:88-92 | `list_join` of an unused node appends it at the tail. The ring stays a ring with every other node in order. |
| ListRing.DropKeepsRing | timeslice.h:98-101 | `list_drop` of a member leaves the ring without it, and the node is not used afterwards. |
| ListRing.Links.constructor | timeslice.h:12 | LIST_INIT: the sentinel linked to itself, forming a ring of one node. |
| ListRing.Links.Null | timeslice.h:56 | `list_null` is exactly the negation of `list_used`. |
| ListRing.Links.Used | timeslice.h:64 | `list_used` holds exactly when the successor links back. |
| ListRing.Links.Init | timeslice.h:70 | `list_init` makes the node self-linked in both directions and changes nothing else. |
| ListRing.Links.Link | timeslice.h:77-81 | `list_link` sets head.next and tail.prev and changes nothing else. |
| ListRing.Links.Join | timeslice.h:88-92 | The node is linked between the sentinel's old predecessor and the sentinel. On a ring it is appended at the tail. |
| ListRing.Links.Drop | timeslice.h:98-101 | The node's neighbours are linked to each other. The node's own fields are left stale. |
| ListRing.Links.Foreach | timeslice.h:36-37 | `list_foreach` visits the members from sentinel.next in ring order until it is back at the sentinel. |
| ListRing.Links.ForsafeDrop | timeslice.h:45-47 | `list_forsafe` that drops the current node when asked still visits every member once, in order, and leaves a ring of the survivors. |
| Timeslice.Get | timeslice.c:3 | GET keeps only the selected bits. |
| Timeslice.Set | timeslice.c:4 | SET raises the selected bits and keeps all others. |
| Timeslice.Clr | timeslice.c:5 | CLR clears the selected bits and keeps all others. |
| Timeslice.PendingBit | timeslice.c:35-39 | Pending is one bit: setting it twice is setting it once. Clearing or setting it keeps the ONCE bit. |
| Timeslice.CronInit | timeslice.h:110-111 | TIMESLICE_CRON: slice = timer = the given value, and only the CRON bit is set, so the task is not pending, not locked and not one-shot. |
| Timeslice.OnceInit | timeslice.h:112-113 | TIMESLICE_ONCE: slice = timer = the delay, and only the ONCE bit is set. |
| Timeslice.ArgOr | timeslice.c:67 | `argv ? argv : ctx` is argv when given, and otherwise the task itself. |
| Timeslice.TickTask | timeslice.c:53-57 | One tick changes only the timer and at most raises the pending bit. A pending task stays pending. |
| Timeslice.TicksStopped | timeslice.c:53 | A task with timer 0 is untouched by any number of ticks. |
| Timeslice.TicksCountdown | timeslice.c:53 | Before it runs out, the timer drops by one per tick and nothing else changes. |
| Timeslice.TickDue | timeslice.c:53-57 | The tick that takes the timer from 1 to 0 reloads it from the slice and raises the pending bit. Every other tick leaves the flag alone. |
| Timeslice.TicksFlag | timeslice.c:48-59 | After any number of ticks, the flag differs from the start at most by the pending bit. Slice, callback and argument are unchanged. |
| Timeslice.TicksCadence | timeslice.c:53-57 | A cron task with slice s >= 1 that starts at s has timer s - k mod s after k ticks, and its timer is 1 exactly before the s-th, 2s-th, ... tick, the ticks that make it pending (TickDue). |
| Timeslice.TicksTimer | timeslice.c:53-57 | After k ticks such a task's timer reads s - k mod s. |
| Timeslice.TicksSliceZero | timeslice.c:55 | With slice 0, the task fires when its timer runs out and never again: the timer stays 0. |
| Timeslice.Ran | timeslice.c:35-37 | A served task ends with its pending bit cleared and everything else kept. |
| Timeslice.Scheduler.Target | timeslice.c:28 | TIMESLICE(ctx) is ctx, or the task being run by `exec` when ctx is NULL. |
| Timeslice.Scheduler.constructor | timeslice.c:22-27 | The static `timeslice`: an empty list, counter 0, no current task. |
| Timeslice.Scheduler.Cron | timeslice.c:61-69 | The task record becomes slice = timer = slice, the callback, argv or the task itself, flag CRON. |
| Timeslice.Scheduler.Once | timeslice.c:71-79 | The task record becomes slice = timer = delay, the callback, argv or the task itself, flag ONCE. |
| Timeslice.Scheduler.SetExec | timeslice.c:81-84 | Only the target's callback changes. |
| Timeslice.Scheduler.SetArgv | timeslice.c:85-89 | Only the target's argument changes, to the target itself for NULL. |
| Timeslice.Scheduler.SetTimer | timeslice.c:90-93 | Only the target's timer changes. |
| Timeslice.Scheduler.SetSlice | timeslice.c:94-97 | Only the target's slice changes. |
| Timeslice.Scheduler.Join | timeslice.c:99-107 | An unlinked task is appended at the tail and counted. A linked one stays put. The counter equals the list length. |
| Timeslice.Scheduler.Drop | timeslice.c:109-117 | A linked task leaves the list and the count. An unlinked one changes nothing. |
| Timeslice.Scheduler.Exist | timeslice.c:119-122 | `timeslice_exist` holds exactly when the target is in the list. |
| Timeslice.Scheduler.Timer | timeslice.c:124-127 | Returns the target's timer. |
| Timeslice.Scheduler.Slice | timeslice.c:128-131 | Returns the target's slice. |
| Timeslice.Scheduler.Count | timeslice.c:132-135 | Returns the number of linked tasks. |
| Timeslice.Scheduler.Tick | timeslice.c:48-59 | Every linked task ticks once (TickTask). Unlinked tasks and the list are unchanged. |
| Timeslice.Scheduler.Exec | timeslice.c:30-46 | The list becomes Kept (the pending one-shot tasks leave). The callbacks are those of the pending tasks in list order. Visited tasks have their pending bit cleared. |
| Timeslice.Scheduler.Serve | timeslice.c:34-44 | One visit: a pending task has its bit cleared before its single callback, and a pending one-shot task is then unlinked and uncounted. |
| Timeslice.RemoveMembers | timeslice.c:109-117 | Unlinking removes that task and keeps every other. |
| Timeslice.RemoveDistinct | timeslice.c:112-116 | Unlinking a linked task shortens the list by one, matching the counter's decrement. |
| Timeslice.KeptDistinct | timeslice.c:39-43 | The list after an exec pass has no duplicates. |
| Timeslice.RanAllMembers | timeslice.c:35-37 | An exec pass clears the pending bit of the visited tasks and leaves the others alone. |
| Timeslice.KeptIsSurvivors | timeslice.c:32-43 | The exec pass is the `list_forsafe` walk that drops the pending one-shot tasks. |
| Timeslice.FiredMembers | timeslice.c:35 | The fired tasks are exactly the linked pending ones. |
| Timeslice.KeptMembers | timeslice.c:39-43 | A task stays linked exactly when it is not a pending one-shot task, so cron tasks always stay. |
| Timeslice.FiredDistinct | timeslice.c:35-38 | On a list without duplicates, no task fires twice in one pass. |
| Timeslice.CallbacksOfFired | timeslice.c:38 | The callbacks of a pass are exec(argv) of the fired tasks, in list order. |
| Log.FilterAlgebra | log.c:23-28 | The six filters are <, >, <=, >=, == and != on (incoming level, sink level): lt/ge, gt/le and eq/ne are complements, and lt and ge mirror gt and le. |
| Log.SinkInit | log.h:8-11 | LOG_INIT sets filter, level, callback and data, with no time, no file and line 0. |
| Log.Logger.constructor | log.c:8-21 | The static `log`: no sinks, the tail at the head slot, no hook, no time. |
| Log.Logger.Lock | log.c:30-34 | `log_lock` replaces the hook and its data and nothing else. |
| Log.Logger.Init | log.c:36-43 | `log_init` sets isok, level, exec and data of the sink and no other field. |
| Log.Logger.Join | log.c:45-64 | The sink is appended at the tail with next = NULL, and the tail points at it. The time is taken on the first join only. The hook brackets the update. |
| Log.Logger.Drop | log.c:66-89 | The first occurrence of the sink is unlinked, and the tail moves back when it was last. A sink not joined leaves the list unchanged. The hook brackets the update. |
| Log.Logger.Exec | log.c:91-117 | The sinks whose filter admits the level receive the message in list order. They keep its file and line and get their own level back. The hook brackets the walk. |
| Log.Logger.Walk | log.c:99-112 | The delivery loop between the hook calls: the sinks become Stamped, and the trace gains one delivery per reached sink, in list order. |
| Log.LinkedAt | log.c:56-59 | The next field of the k-th joined sink holds the following sink, or NULL for the last. |
| Log.LinkedNoDup | log.c:99 | A chain reached from the head never repeats a sink. |
| Log.JoinLinked | log.c:56-59 | Writing the new sink after the tail extends the chain by exactly that sink. |
| Log.JoinKeepsWf | log.c:56-59 | `log_join` keeps the list invariant: the chain from the head, the tail, and a record for every joined sink. |
| Log.DropWalk | log.c:73-76 | While the walk is inside the chain, the slot it stands on points at the k-th sink. |
| Log.DropLinked | log.c:75-77 | Pointing the slot before the k-th sink past it unlinks exactly that sink. |
| Log.DropKeepsWf | log.c:73-84 | `log_drop` keeps the list invariant and removes the first occurrence. |
| Log.DropTail | log.c:78-81 | The tail moves back to the slot before the dropped sink when that sink was last, and stays otherwise. |
| Log.DropRest | log.c:73-84 | No copy of the dropped sink stays joined. |
| Log.JoinThenDrop | log.c:45-89 | Round trip: joining a new sink and dropping it gives back the chain. |
| Log.StampedOthers | log.c:99-112 | A sink outside the chain keeps its record. |
| Log.StampedMembers | log.c:101-110 | After delivery, every sink keeps its level. Reached sinks carry the message's file and line, and all others are untouched. |
| Log.ReachedMembers | log.c:99-102 | A message reaches exactly the joined sinks whose filter admits it against their level. |
| CStrings.CStr | pool_str.c:109 | The C string at the start of a block is its NUL-free prefix up to the first NUL. |
| CStrings.CStrOfTerminated | strpool.c:268-269 | A NUL-free string followed by a NUL is its own C string. |
| CStrings.CStrOfWritten | strpool.c:268-269 | A block that starts with the bytes and a NUL holds exactly that C string, whatever follows. |
| CStrings.StrLenInside | pool_str.c:109 | In a block holding a NUL, `strlen` stays inside the block. |
| CStrings.LexCmp | strpool.c:159 | The sign of `strcmp`, as -1, 0 or 1. |
| CStrings.LexCmpZeroIff | strpool.c:159 | `strcmp` is 0 exactly for equal strings. |
| CStrings.LexCmpAntisymmetric | strpool.c:159 | Swapping the operands negates `strcmp`. |
| CStrings.LexCmpTransitive | strpool.c:159 | `strcmp` <= 0 is transitive. |
| Hash.ToLower | main.c:113 | `tolower` changes only 'A'..'Z', mapping each to its lower-case letter. |
| Hash.Bkdr | main.c:106-117 | `bkdr(NULL)` is 0. Otherwise the loop computes the hash of the C string, folding each byte as val * 131 + tolower(byte) mod 2^32. |
| Hash.FoldEmpty | main.c:108-115 | `bkdr("")` is 0. |
| Hash.FoldIgnoresCase | main.c:113 | Strings that differ only in the case of ASCII letters hash equally. |
| Hash.FoldLower | main.c:113 | A string hashes like its lower-case copy. |
| Hash.FoldSnoc | main.c:113 | One more byte: the old hash times 131 plus the lower-cased byte, mod 2^32. |
| Hash.HashOfWord | main.c:106-117 | A text spelling a word in any mix of cases hashes as the word does. |
| Keywords.LedModeHashes | main.c:52-57 | Each LED mode constant is `bkdr` of its lower-case name. |
| Keywords.LedSpeedHashes | main.c:59-61 | Each LED speed constant is `bkdr` of its lower-case name. |
| Keywords.LedColorHashes | main.c:63-69 | Each colour constant is `bkdr` of its lower-case name. |
| Keywords.FanModeHashes | main.c:83-85 | Each fan mode constant is `bkdr` of its lower-case name. |
| Keywords.InterfaceHashes | main.c:421-430 | The interface hashes `get_ip` matches are `bkdr("eth0")` and `bkdr("wlan0")`. |
| Strtol.StrToL | main.c:141 | `strtol(s, &end, 0)` stays within the range of long and consumes at most the string. Consuming nothing gives 0. |
| Strtol.StrToLInside | main.c:139-146 | `strtol` never consumes the terminating NUL. |
| Strtol.StrToLAtDigit | main.c:141 | Starting at a digit, `strtol` consumes at least one byte. |
| Strtol.StrToLDecimal | main.c:300 | Decimal digits without a leading zero, not followed by another digit and within LONG_MAX, are read as their value, consuming exactly them. |
| U8Parse.U8 | main.c:141 | `(uint8_t)` keeps the value mod 256 and is the identity on 0..255. |
| U8Parse.SkipNonDigits | main.c:146-148 | The skip loop stops at a digit or at the end of the string. |
| U8Parse.After | main.c:141 | `endptr` is at or after the start and within the string. |
| U8Parse.Progress | main.c:139-149 | Each round of `u8_parse` moves strictly on and stays inside the string, so the loop ends. |
| U8Parse.Parsed | main.c:134-152 | The stored bytes number at most num and at most the bytes of the string. None are stored exactly when num is 0 or the string is empty. |
| U8Parse.Parse | main.c:134-152 | NULL ptr, num 0 or NULL text returns 0 and writes nothing. Otherwise the first `parsed` bytes are the numbers read, and the rest of the buffer is kept. |
| U8Parse.Fill | main.c:139-149 | The loop stores exactly Parsed(text, 0, num) and leaves the rest of the buffer alone. |
| U8Parse.Skip | main.c:146-148 | The skip loop returns SkipNonDigits. |
| Rgb.LedByte | rgb.c:7-10 | The LED number is sent as given for 0..2 and as 0xFF for 3 and up. |
| Rgb.FanByte | rgb.c:47-59 | The fan byte is 0 exactly for speed 0 and 1 exactly for speeds above 8, and at most 9. |
| Rgb.FanSpeed | rgb.c:47-59 | The speed a fan byte stands for, at most 9. |
| Rgb.FanByteRoundTrip | rgb.c:47-59 | Round trip: the byte of speed s gives s back for s <= 9, and 9 for faster speeds. |
| Rgb.FanByteInjective | rgb.c:47-59 | Distinct speeds in 0..9 are sent as distinct bytes. |
| Rgb.Hat.Set | rgb.c:5-15 | `rgb_set` appends writes of num (0xFF for >= 3), R, G and B to registers 0x00..0x03, in that order. |
| Rgb.Hat.Effect | rgb.c:17-23 | `rgb_effect` appends one write to 0x04 only when the effect is <= 4. |
| Rgb.Hat.Speed | rgb.c:25-31 | `rgb_speed` appends one write to 0x05 only when the speed is 1..3. |
| Rgb.Hat.Color | rgb.c:33-39 | `rgb_color` appends one write to 0x06 only when the colour is <= 6. |
| Rgb.Hat.Off | rgb.c:41-45 | `rgb_off` appends a write of 0 to 0x07. |
| Rgb.Hat.Fan | rgb.c:47-59 | `rgb_fan` appends a write of FanByte(speed) to 0x08. |
| Dispatch.EffectOf | main.c:462-481 | A known mode word selects its effect number 0..4, which `rgb_effect` accepts. Any other hash selects none. |
| Dispatch.LedSpeedOf | main.c:482-494 | slow selects 1 and fast selects 3. Anything else selects 2, always a speed `rgb_speed` accepts. |
| Dispatch.ColorOf | main.c:495-519 | A known colour word selects its number 0..6. Anything else selects green (1). |
| Dispatch.EffectOfInverse | main.c:462-481 | Each effect number is selected by its word's hash. |
| Dispatch.LedSpeedOfInverse | main.c:482-494 | Each speed number is selected by its word's hash. |
| Dispatch.ColorOfInverse | main.c:495-519 | Each colour number is selected by its word's hash. |
| Dispatch.EffectWords | main.c:462-481 | water..colorful select effects 0..4, and disable selects none. |
| Dispatch.LedSpeedWords | main.c:482-494 | slow, middle and fast select 1, 2 and 3. |
| Dispatch.ColorWords | main.c:495-519 | red..white select 0..6. |
| Dispatch.StartColor | main.c:98 | The static colour value (the graded hash) is no colour word and selects green. |
| Dispatch.ColorWordAnyCase | main.c:235 | A text whose C string lower-cases to "blue" ("Blue", "BLUE", ...) selects blue (2). |
| FanControl.Clamp | main.c:300-304 | A parsed 0 keeps the bound. Any other value replaces it, capped at 65. |
| FanControl.Normalise | main.c:314-323 | Equal bounds lower the lower one by one as a uint8_t. Distinct bounds come out as the same two values in ascending order. |
| FanControl.Bounds | main.c:299-323 | From a lower bound <= 65 and an upper bound in 1..65, the result satisfies lower < upper <= 65. |
| FanControl.BoundsKeep | main.c:299-323 | A bound text without numbers keeps ordered bounds. |
| FanControl.BoundsGiven | main.c:299-323 | Two distinct numbers in 1..65 are taken as given, in ascending order. |
| FanControl.BoundNumbersParsed | main.c:300-309 | The two bound reads agree with `u8_parse(ptr, 2, text)`, with 0 for a missing number. |
| FanControl.SpeedCap | main.c:329-333 | The configured speed is kept as a byte and capped at 9. |
| FanControl.SpeedCapWraps | main.c:329 | The `uint8_t` conversion counts: 265 reads as 9, 256 as 0, -1 as full speed. |
| FanControl.Graded | main.c:543-547 | Corrected graded speed: within the band it is at most 9, and it reaches 9 at the upper bound. |
| FanControl.GradedStartsAtZero | main.c:543-547 | The corrected graded speed is 0 through the first ninth of the band. |
| FanControl.GradedScale | main.c:545-546 | The graded speed as written, divided by 1000, is the corrected one. |
| FanControl.GradedAsWrittenTooFast | main.c:545-546 | As written, every temperature in the band at least 2 millidegrees per degree of band width above the lower bound asks for more than full speed. |
| FanControl.FanTarget | main.c:534-557 | Direct mode keeps the current speed. Any other mode gives a speed in 0..9 when the configured one is. |
| FanControl.FanTargetAsWritten | main.c:534-557 | The speed as written: the millidegree-over-degree quotient in graded mode within the band, and FanTarget everywhere else. |
| FanControl.FanTargetThresholds | main.c:535-556 | Outside direct mode, above the band gives 9 and at or below it gives 0. In between, single mode gives the configured speed. |
| FanControl.FanTargetMonotone | main.c:534-557 | With ordered bounds, a warmer CPU never slows the fan. |
| FanControl.FanTargetSettles | main.c:558-562 | The target is a fixed point: fed back as the current speed it gives itself again, so a second pass at the same temperature sends nothing. |
| FanControl.GradedAsWrittenExample | main.c:545-546 | At 50 degrees between 45 and 60, the written formula gives 3000 instead of 3. Stored as 184, that is sent as full speed, and the value is re-sent on every pass. |
| App.SetRegs | main.c:452-455 | The `rgb_set` loop, seen register by register: LED numbers to 0x00 and each colour column to its register. |
| App.LedWritesRegs | main.c:456-520 | The LED commands, seen register by register. |
| App.InitRegsAt | main.c:452-524 | Everything `model_init` sends, per register: rows, then LED commands, then the direct fan speed. |
| App.InitNumberRegs | main.c:452-455 | The LED number register receives 0, 1 and 2, in that order. |
| App.InitColumnRegs | main.c:452-455 | The red, green and blue registers receive the matching column of the rows, LED 0 first. |
| App.InitLedRegs | main.c:456-520 | disable sends only 0 to the off register. Otherwise the effect (if known), speed and colour registers receive the dispatched values. |
| App.InitFanRegs | main.c:521-524 | The fan register receives FanByte of the configured speed, in direct mode only. |
| App.Model.constructor | main.c:92-104 | The static `model`: dark rows, disable / middle / the graded hash as colour, bounds 45..60, single mode at speed 9, no raw write. |
| App.Model.LoadDevice | main.c:119-132 | The descriptor is what opening the bus device returned. |
| App.Model.LoadLed | main.c:154-266 | Each colour row holds the `u8_parse` of its text over the old bytes. Mode, speed and colour are the `bkdr` hashes of their words. The fan invariant is kept. |
| App.Model.LoadWords | main.c:183-235 | The three `bkdr` calls of `model_load_led`. |
| App.Model.LoadRow | main.c:162-163 | One `u8_parse(rgb[k], 3, text)`. |
| App.Model.LoadFan | main.c:268-338 | The mode is the hash of its word, the bounds are Bounds of the text, and the speed is SpeedCap. lower < upper <= 65 and speed <= 9 are kept. |
| App.Model.CapSpeed | main.c:329-333 | The speed is SpeedCap of the configured number. |
| App.Model.ReadBounds | main.c:299-323 | The bounds become Bounds(old bounds, text) and stay strictly ordered and at most 65. |
| App.Model.ReadNumbers | main.c:300-309 | The two `strtol` reads with the skip between them return BoundNumbers. |
| App.Model.Order | main.c:314-323 | The bounds become Normalise of the old bounds. |
| App.Model.OptionI2c | main.c:594-596 | `--i2c` stores `u8_parse(i2c, 8, arg)` and toggles the raw-write flag. |
| App.Model.Init | main.c:440-529 | A negative descriptor fails with nothing sent. The raw write sends i2c[1] to register i2c[0] at 0x0D. Otherwise InitWrites is sent, and the current speed is what the HAT reports. |
| App.Model.Start | main.c:452-525 | The running part of `model_init` sends exactly InitWrites and records the speed read back. |
| App.Model.SendRows | main.c:452-455 | The `rgb_set` loop sends SetWrites of the rows, LED 0 first. |
| App.Model.SendLed | main.c:456-520 | Sends `rgb_off` for disable, and otherwise the effect, speed and colour commands. |
| App.Model.SendEffect | main.c:462-481 | Sends the effect of a known mode word, and nothing for any other. |
| App.Model.SendSpeed | main.c:482-494 | Sends LedSpeedOf of the speed hash. |
| App.Model.SendColor | main.c:495-519 | Sends ColorOf of the colour hash. |
| App.Model.Exec | main.c:531-562 | The temperature is recorded and the speed becomes FanTarget. `rgb_fan` is sent only when the speed changes. Outside direct mode the speed stays <= 9. |

## Left out

- I/O is outside the model, and its results become parameters:
  - `ini_gets` and `ini_getl` of the configuration file: the texts and numbers are parameters of LoadLed and LoadFan;
  - `open` of the bus device: the descriptor is a parameter of LoadDevice;
  - the CPU temperature read from sysfs: a parameter of Exec;
  - the `i2c_read` of the current fan speed: a parameter of Init.
- Not modelled at all: the `/proc/stat` CPU usage (floating point), `statfs` and `sysinfo`, `getifaddrs` and `inet_ntop`, the SSD1306 display (main.c:526-528, 563-577), `getopt_long` apart from `--i2c`, and the `sleep` loop.
- The time and verbose switches are not modelled; the verbose switch only prints.
- i2c.c is not part of this model. `i2c_write` is modelled as appending one (descriptor, address, register, byte) record to the HAT's write trace. HAT_I2C_ADDR is the trace's `addr`.
- `strpool_putv`, `strpool_putf`, `pool_str_putv` and `pool_str_putf` depend on `vsnprintf`.
- `strpool_sort`: `qsort` hands the comparator two element pointers, but `strpool_compare` reads its first argument as the string itself, so no ordering is claimed for it.
- `strpool_size` and `malloc_usable_size`: a buffer's usable size is a parameter of PoolLoad, PutN and PutS, at least the rounded request.
- `malloc` and `realloc` always succeed.
- STRPOOL_INIT_MIN is not defined in the repository's files. It is 8 here.
- StrPool.StrPool.PutN, StrPool.StrPool.PutS: the pool invariant (Consistent) is not an `ensures` of the methods. The methods state the new lists and allocator exactly, and StrPool.PutKeepsInv proves the invariant of that state, as StrPool.StrPool.PutNThenFind shows.
- Only the two shipped comparators, `strpool_compare` and `strpool_reverse`, are modelled. A caller-supplied comparator is not.
- The 32-bit STRPOOL_ROUNDUP variant (strpool.c:52-62) is not modelled. The model is the 64-bit one, on unbounded naturals, so the wrap of 0 and of values above 2^63 is not modelled.
- Sizes (`size_t` counters and capacities) are unbounded naturals: overflow of `n + num + 1`, of doubling and of `counter` is not modelled.
- PoolStr.PoolStr.PutN, PoolStr.PoolStr.PutS: require a positive capacity when growth is needed. The grow loop never ends from capacity 0, as after POOL_STR_INIT.
- PoolStr.PoolStr.Drop: requires a NUL between the offset and n. `strlen` would otherwise read past the used region.
- Timeslice.Scheduler.Exec: callbacks are modelled as not touching the scheduler. The C code would misbehave if a callback dropped a task:
  - a one-shot task that drops itself is unlinked twice and `counter` is decremented twice (timeslice.c:39-43);
  - dropping the next task does not stop `list_forsafe` from visiting it.
- Timeslice.Scheduler.Cron, Timeslice.Scheduler.Once: require the task not to be linked. Re-initialising a linked node in C corrupts the list.
- The task list is a sequence of task addresses. The pointer layout (`list_entry`, the node-to-task cast) is not modelled. ListRing models the list nodes themselves as next/prev maps.
- Log.Logger.Join: requires the sink not to be joined yet. Joining it twice makes the C list cyclic.
- Log.Logger.Join: `localtime` is a parameter (`now`), and taking the time is not modelled otherwise.
- The lock hook is modelled only by the calls it receives. Its locking effect and concurrency are not modelled.
- `log_exec`'s callbacks do not touch the logger, and the format arguments are not modelled: each delivery records the sink, level, file and line.
- Strtol.StrToL: `long` is taken as 64 bits (LP64, as on 64-bit Raspberry Pi OS). Under a 32-bit `long` (ILP32, such as armhf builds), saturation happens at 2^31 - 1, so "4294967296" in a configuration field reads as (uint8_t)LONG_MAX = 255 there, where the model gives 0. The C library's `strtol` (base 0, C locale) is modelled from the C standard. Overflow saturates at LONG_MIN/LONG_MAX as the standard says, and `errno` is not modelled.
- App.Model.Init: the program's exits are modelled as the returned Outcome.
- App.Model.Exec: uses the corrected graded speed (FanControl.Graded). The formula as written is modelled separately (see Findings).

## Findings

| source | as written | input that shows it | evidently intended | confidence | as-written member | corrected member |
|---|---|---|---|---|---|---|
| main.c:545-546 | The graded speed divides the climb above the lower bound, in millidegrees, by the band width in degrees, so the result is 1000 times too large. It is then truncated into the `uint8_t` current speed. | temp 50000 (50 °C), bounds 45..60: the formula gives 3000 instead of 3. The current speed stores 184, and `rgb_fan` sends byte 1 (full speed) instead of 4. Because 184 never equals 3000, the command is re-sent on every pass. | The climb and the band in the same unit, giving a speed of 0..9 that rises across the band. | not executed | FanControl.GradedAsWrittenExample | FanControl.Graded |
