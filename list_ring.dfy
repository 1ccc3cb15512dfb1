/**
 * The intrusive circular doubly linked list of timeslice.h. Every node has
 * a `next` and a `prev` link; the nodes of the memory the list lives in are
 * the keys of two maps. A ring `r` starts at its sentinel `r[0]`, goes
 * through the members `r[1..]` in order and closes back at the sentinel; a
 * node off the ring is self-linked or stale, and then its successor does
 * not link back to it.
 */
module ListRing {

  /** The address of a `list_s`. */
  type Node = nat

  /** `list_used` on link maps: the successor links back to the node. */
  predicate UsedIn(next: map<Node, Node>, prev: map<Node, Node>, x: Node) {
    x in next && next[x] in prev && next[x] != x && prev[next[x]] == x
  }

  /** Both link maps hold every node of `r`. */
  predicate Holds(next: map<Node, Node>, prev: map<Node, Node>, r: seq<Node>) {
    && (forall i {:trigger r[i] in next} :: 0 <= i < |r| ==> r[i] in next)
    && (forall i {:trigger r[i] in prev} :: 0 <= i < |r| ==> r[i] in prev)
  }

  /** No node occurs twice in `r`: the last is not among the others, which are distinct too. */
  predicate Distinct(r: seq<Node>) {
    r == [] || (r[|r| - 1] !in r[..|r| - 1] && Distinct(r[..|r| - 1]))
  }

  /** The node at position `k` of `r` occurs nowhere else in `r`. */
  predicate Unique(r: seq<Node>, k: nat)
    requires k < |r|
  {
    forall i :: 0 <= i < |r| && i != k ==> r[i] != r[k]
  }

  /** Consecutive nodes of `r` link to each other both ways. */
  ghost predicate Chained(next: map<Node, Node>, prev: map<Node, Node>, r: seq<Node>) {
    && Holds(next, prev, r)
    && (forall i {:trigger next[r[i]]} :: 0 <= i < |r| - 1 ==> next[r[i]] == r[i + 1])
    && (forall i {:trigger prev[r[i]]} :: 0 < i < |r| ==> prev[r[i]] == r[i - 1])
  }

  /** The last node of `r` links back to the first, both ways. */
  predicate Closes(next: map<Node, Node>, prev: map<Node, Node>, r: seq<Node>) {
    r != [] && r[|r| - 1] in next && r[0] in prev
    && next[r[|r| - 1]] == r[0] && prev[r[0]] == r[|r| - 1]
  }

  /** No node of the maps outside `r` is used. */
  ghost predicate OffUnused(next: map<Node, Node>, prev: map<Node, Node>, r: seq<Node>) {
    forall y {:trigger UsedIn(next, prev, y)} :: y in next && y !in r ==> !UsedIn(next, prev, y)
  }

  /**
   * `next` and `prev` link the nodes of `r` into a ring, sentinel `r[0]`
   * first: each node once, consecutive nodes linked both ways, the last
   * linked back to the sentinel, and no node off the ring used.
   */
  ghost predicate Ring(next: map<Node, Node>, prev: map<Node, Node>, r: seq<Node>) {
    Chained(next, prev, r) && Distinct(r) && Closes(next, prev, r) && OffUnused(next, prev, r)
  }

  /** In a distinct sequence every position holds a node found nowhere else. */
  lemma {:induction false} DistinctUnique(r: seq<Node>, k: nat)
    requires Distinct(r) && k < |r|
    ensures Unique(r, k)
  {
    var init := r[..|r| - 1];
    if k < |r| - 1 {
      DistinctUnique(init, k);
      assert init[k] == r[k];
      forall i | 0 <= i < |r| && i != k
        ensures r[i] != r[k]
      {
        if i < |r| - 1 {
          assert init[i] == r[i];
        }
      }
    } else {
      forall i | 0 <= i < |r| && i != k
        ensures r[i] != r[k]
      {
        assert init[i] == r[i];
      }
    }
  }

  /** The successor and predecessor of the node at position `k` of a ring. */
  lemma RingStep(next: map<Node, Node>, prev: map<Node, Node>, r: seq<Node>, k: nat)
    requires Ring(next, prev, r) && k < |r|
    ensures r[k] in next && r[k] in prev
    ensures next[r[k]] == (if k + 1 < |r| then r[k + 1] else r[0])
    ensures prev[r[k]] == (if k == 0 then r[|r| - 1] else r[k - 1])
  {
    if k + 1 < |r| {
      assert next[r[k]] == r[k + 1];
    }
    if k > 0 {
      assert prev[r[k]] == r[k - 1];
    }
  }

  /** A member of a ring is not the sentinel and not its own successor. */
  lemma MemberNotSelfLinked(next: map<Node, Node>, prev: map<Node, Node>, r: seq<Node>, k: nat)
    requires Ring(next, prev, r) && 0 < k < |r|
    ensures r[k] != r[0] && r[k] in next && next[r[k]] != r[k]
  {
    DistinctUnique(r, k);
    RingStep(next, prev, r, k);
  }

  /** On a ring, `list_used` holds exactly for the members other than the sentinel. */
  lemma UsedIffMember(next: map<Node, Node>, prev: map<Node, Node>, r: seq<Node>, x: Node)
    requires Ring(next, prev, r) && x in next && x != r[0]
    ensures UsedIn(next, prev, x) <==> x in r[1..]
  {
    if x in r {
      var k :| 0 <= k < |r| && r[k] == x;
      MemberNotSelfLinked(next, prev, r, k);
      RingStep(next, prev, r, k);
      RingStep(next, prev, r, if k + 1 < |r| then k + 1 else 0);
      assert r[1..][k - 1] == x;
    } else {
      assert x !in r[1..];
    }
  }

  /** `list_init` of a node off the ring keeps the ring and leaves that node unused. */
  lemma InitKeepsRing(next: map<Node, Node>, prev: map<Node, Node>, r: seq<Node>, x: Node)
    requires Ring(next, prev, r) && x !in r
    ensures Ring(next[x := x], prev[x := x], r)
    ensures !UsedIn(next[x := x], prev[x := x], x)
  {
    var n', p' := next[x := x], prev[x := x];
    forall i {:trigger n'[r[i]]} | 0 <= i < |r| - 1
      ensures n'[r[i]] == r[i + 1]
    {
      assert r[i] != x && next[r[i]] == r[i + 1];
    }
    forall i {:trigger p'[r[i]]} | 0 < i < |r|
      ensures p'[r[i]] == r[i - 1]
    {
      assert r[i] != x && prev[r[i]] == r[i - 1];
    }
    assert r[|r| - 1] != x && r[0] != x;
    forall y | y in n' && y !in r
      ensures !UsedIn(n', p', y)
    {
      if y != x && next[y] != x {
        assert !UsedIn(next, prev, y);
      }
    }
  }

  lemma DistinctAppend(r: seq<Node>, x: Node)
    requires Distinct(r) && x !in r
    ensures Distinct(r + [x])
  {
    assert (r + [x])[..|r|] == r;
  }

  /** Appending `x` after the last node of a chain keeps it a chain that closes. */
  lemma JoinChained(next: map<Node, Node>, prev: map<Node, Node>, r: seq<Node>, x: Node)
    requires Chained(next, prev, r) && r != [] && x !in r && x in next && x in prev
    requires Unique(r, 0) && Unique(r, |r| - 1)
    ensures var last, s := r[|r| - 1], r[0];
      Chained(next[last := x][x := s], prev[x := last][s := x], r + [x])
  {
    var last, s := r[|r| - 1], r[0];
    var n', p' := next[last := x][x := s], prev[x := last][s := x];
    var r' := r + [x];
    forall i | 0 <= i < |r'|
      ensures r'[i] in n' && r'[i] in p'
    {
      if i < |r| {
        assert r'[i] == r[i];
      }
    }
    forall i {:trigger n'[r'[i]]} | 0 <= i < |r'| - 1
      ensures n'[r'[i]] == r'[i + 1]
    {
      if i + 1 < |r| {
        assert r'[i] == r[i] && r'[i + 1] == r[i + 1];
        assert r[i] != last && next[r[i]] == r[i + 1];
      }
    }
    forall i {:trigger p'[r'[i]]} | 0 < i < |r'|
      ensures p'[r'[i]] == r'[i - 1]
    {
      if i < |r| {
        assert r'[i] == r[i] && r'[i - 1] == r[i - 1];
        assert r[i] != s && prev[r[i]] == r[i - 1];
      }
    }
  }

  lemma JoinOffUnused(next: map<Node, Node>, prev: map<Node, Node>, r: seq<Node>, x: Node)
    requires OffUnused(next, prev, r) && Holds(next, prev, r) && r != [] && x !in r
    ensures var last, s := r[|r| - 1], r[0];
      OffUnused(next[last := x][x := s], prev[x := last][s := x], r + [x])
  {
    var last, s := r[|r| - 1], r[0];
    var n', p' := next[last := x][x := s], prev[x := last][s := x];
    forall y | y in n' && y !in r + [x]
      ensures !UsedIn(n', p', y)
    {
      assert y !in r && y != x;
      assert y != last && y in next;
      assert !UsedIn(next, prev, y);
      if next[y] == s {
        assert p'[s] == x;
      } else if next[y] == x {
        assert p'[x] == last;
      }
    }
  }

  /**
   * `list_join` of a node off the ring appends it at the tail: the
   * sentinel's old predecessor and the sentinel are relinked around it.
   */
  lemma JoinKeepsRing(next: map<Node, Node>, prev: map<Node, Node>, r: seq<Node>, x: Node)
    requires Ring(next, prev, r) && x in next && x in prev && x !in r
    ensures var s := r[0]; var last := prev[s];
      Ring(next[last := x][x := s], prev[x := last][s := x], r + [x])
  {
    RingStep(next, prev, r, 0);
    DistinctUnique(r, 0);
    DistinctUnique(r, |r| - 1);
    JoinChained(next, prev, r, x);
    JoinOffUnused(next, prev, r, x);
    DistinctAppend(r, x);
  }

  /** `r` without its element at position `k`. */
  function Without(r: seq<Node>, k: nat): (r': seq<Node>)
    requires k < |r|
    ensures |r'| == |r| - 1
  {
    r[..k] + r[k + 1..]
  }

  /** Where the elements of `Without(r, k)` come from. */
  lemma WithoutIndex(r: seq<Node>, k: nat)
    requires k < |r|
    ensures forall j :: 0 <= j < k ==> Without(r, k)[j] == r[j]
    ensures forall j :: k <= j < |r| - 1 ==> Without(r, k)[j] == r[j + 1]
  {
  }

  lemma {:induction false} DistinctWithout(r: seq<Node>, k: nat)
    requires Distinct(r) && k < |r|
    ensures Distinct(Without(r, k)) && r[k] !in Without(r, k)
  {
    var init, last := r[..|r| - 1], r[|r| - 1];
    if k == |r| - 1 {
      assert Without(r, k) == init;
    } else {
      DistinctWithout(init, k);
      assert Without(r, k) == Without(init, k) + [last];
      assert init[k] == r[k];
      assert last !in Without(init, k) by {
        forall j | 0 <= j < |init| - 1
          ensures Without(init, k)[j] in init
        {
          WithoutIndex(init, k);
        }
      }
      assert Without(r, k)[..|init| - 1] == Without(init, k);
    }
  }

  /**
   * Unlinking the node at position `k` of a chain links its neighbours
   * `a` and `b`; when it was last, `b` is the first node.
   */
  lemma DropChained(next: map<Node, Node>, prev: map<Node, Node>, r: seq<Node>, k: nat)
    requires Chained(next, prev, r) && 0 < k < |r|
    requires Unique(r, k - 1) && Unique(r, if k + 1 < |r| then k + 1 else 0)
    ensures var a, b := r[k - 1], if k + 1 < |r| then r[k + 1] else r[0];
      Chained(next[a := b], prev[b := a], Without(r, k))
  {
    var a, b := r[k - 1], if k + 1 < |r| then r[k + 1] else r[0];
    var n', p' := next[a := b], prev[b := a];
    var r' := Without(r, k);
    WithoutIndex(r, k);
    forall i | 0 <= i < |r'|
      ensures r'[i] in n' && r'[i] in p'
    {
      if i < k {
        assert r'[i] == r[i];
      } else {
        assert r'[i] == r[i + 1];
      }
    }
    forall i {:trigger n'[r'[i]]} | 0 <= i < |r'| - 1
      ensures n'[r'[i]] == r'[i + 1]
    {
      if i + 1 < k {
        assert r'[i] == r[i] && r'[i + 1] == r[i + 1];
        assert r[i] != a && next[r[i]] == r[i + 1];
      } else if i + 1 == k {
        assert r'[i] == a && r'[i + 1] == b;
      } else {
        assert r'[i] == r[i + 1] && r'[i + 1] == r[i + 2];
        assert r[i + 1] != a && next[r[i + 1]] == r[i + 2];
      }
    }
    forall i {:trigger p'[r'[i]]} | 0 < i < |r'|
      ensures p'[r'[i]] == r'[i - 1]
    {
      if i < k {
        assert r'[i] == r[i] && r'[i - 1] == r[i - 1];
        assert r[i] != b && prev[r[i]] == r[i - 1];
      } else if i == k {
        assert r'[i] == b && r'[i - 1] == a;
      } else {
        assert r'[i] == r[i + 1] && r'[i - 1] == r[i];
        assert r[i + 1] != b && prev[r[i + 1]] == r[i];
      }
    }
  }

  lemma DropOffUnused(next: map<Node, Node>, prev: map<Node, Node>, r: seq<Node>, k: nat, b: Node)
    requires OffUnused(next, prev, r) && Holds(next, prev, r) && Distinct(r) && 0 < k < |r|
    requires b in r && b != r[k] && next[r[k]] == b
    ensures var a := r[k - 1];
      OffUnused(next[a := b], prev[b := a], Without(r, k))
  {
    var a, x := r[k - 1], r[k];
    var n', p' := next[a := b], prev[b := a];
    var r' := Without(r, k);
    DistinctWithout(r, k);
    WithoutIndex(r, k);
    assert a in r' by {
      assert r'[k - 1] == a;
    }
    assert b in r' by {
      var j :| 0 <= j < |r| && r[j] == b;
      if j < k {
        assert r'[j] == b;
      } else {
        assert r'[j - 1] == b;
      }
    }
    forall y | y in n' && y !in r'
      ensures !UsedIn(n', p', y)
    {
      if y != x {
        assert y != a && y in next;
        assert !UsedIn(next, prev, y);
      } else {
        assert n'[x] == b && p'[b] == a && a != x;
      }
    }
  }

  /**
   * `list_drop` of the member at position `k` links its neighbours to each
   * other: the ring loses exactly that member, which is then not used
   * while its own links stay as they were.
   */
  lemma DropKeepsRing(next: map<Node, Node>, prev: map<Node, Node>, r: seq<Node>, k: nat)
    requires Ring(next, prev, r) && 0 < k < |r|
    ensures var x := r[k];
      && x in next && x in prev
      && Ring(next[prev[x] := next[x]], prev[next[x] := prev[x]], Without(r, k))
      && !UsedIn(next[prev[x] := next[x]], prev[next[x] := prev[x]], x)
  {
    var x := r[k];
    RingStep(next, prev, r, k);
    DistinctUnique(r, k);
    DistinctUnique(r, k - 1);
    DistinctUnique(r, if k + 1 < |r| then k + 1 else 0);
    var a, b := prev[x], next[x];
    var r' := Without(r, k);
    var n', p' := next[a := b], prev[b := a];
    DistinctWithout(r, k);
    DropChained(next, prev, r, k);
    DropOffUnused(next, prev, r, k, b);
    WithoutIndex(r, k);
    assert r'[0] == r[0];
    assert r'[|r'| - 1] == if k + 1 < |r| then r[|r| - 1] else a;
  }

  /** The members of `order` that `doomed` does not hold, in order. */
  function Survivors(order: seq<Node>, doomed: set<Node>): (r: seq<Node>)
    ensures |r| <= |order|
  {
    if order == [] then []
    else if order[|order| - 1] in doomed then Survivors(order[..|order| - 1], doomed)
    else Survivors(order[..|order| - 1], doomed) + [order[|order| - 1]]
  }

  /**
   * How the ring a `list_forsafe` walk leaves behind splits at the cursor:
   * the sentinel, the members kept so far, then the members not yet
   * visited, the first of which is the cursor.
   */
  lemma CursorStep(r: seq<Node>, visited: seq<Node>, kept: seq<Node>, s: Node)
    requires |visited| + 1 < |r| && visited == r[1..|visited| + 1]
    ensures var it, rest, cur := r[|visited| + 1], r[|visited| + 2..], [s] + kept + r[|visited| + 1..];
      && r[1..|visited| + 2] == visited + [it]
      && (visited + [it])[..|visited|] == visited
      && |kept| + 1 < |cur| && cur[|kept| + 1] == it
      && Without(cur, |kept| + 1) == [s] + kept + rest
      && cur == [s] + (kept + [it]) + rest
  {
    var it, rest, cur := r[|visited| + 1], r[|visited| + 2..], [s] + kept + r[|visited| + 1..];
    assert r[|visited| + 1..] == [it] + rest;
    assert cur == [s] + kept + [it] + rest;
  }

  /**
   * Where a `list_forsafe` walk over ring `r` that drops the `doomed`
   * members stands: `visited` are the members met so far, the ring now
   * holds the survivors among them followed by the members still ahead,
   * and the cursor `it` is the next member, or the sentinel at the end.
   */
  ghost predicate Walk(next: map<Node, Node>, prev: map<Node, Node>, s: Node, r: seq<Node>,
                       doomed: set<Node>, visited: seq<Node>, it: Node) {
    && |visited| < |r| && visited == r[1..|visited| + 1]
    && Ring(next, prev, [s] + Survivors(visited, doomed) + r[|visited| + 1..])
    && it in next
    && it == (if |visited| + 1 < |r| then r[|visited| + 1] else s)
    && (|visited| + 1 < |r| ==> it != s && next[it] != it)
  }

  lemma WalkStart(next: map<Node, Node>, prev: map<Node, Node>, s: Node, r: seq<Node>, doomed: set<Node>)
    requires Ring(next, prev, r) && r[0] == s
    ensures s in next && Walk(next, prev, s, r, doomed, [], next[s])
  {
    RingStep(next, prev, r, 0);
    assert [s] + Survivors([], doomed) + r[1..] == r;
    if 1 < |r| {
      MemberNotSelfLinked(next, prev, r, 1);
    }
  }

  /** Keeping the member at the cursor moves the cursor to its successor. */
  lemma WalkKeep(next: map<Node, Node>, prev: map<Node, Node>, s: Node, r: seq<Node>,
                 doomed: set<Node>, visited: seq<Node>, it: Node)
    requires Walk(next, prev, s, r, doomed, visited, it) && it != s && it !in doomed
    ensures Walk(next, prev, s, r, doomed, visited + [it], next[it])
  {
    var kept := Survivors(visited, doomed);
    var cur := [s] + kept + r[|visited| + 1..];
    var p := |kept| + 1;
    CursorStep(r, visited, kept, s);
    assert Survivors(visited + [it], doomed) == kept + [it];
    RingStep(next, prev, cur, p);
    if |visited| + 2 < |r| {
      assert cur[p + 1] == r[|visited| + 2];
      MemberNotSelfLinked(next, prev, cur, p + 1);
    }
  }

  /**
   * Dropping the member at the cursor takes it out of the ring and moves
   * the cursor to the successor it had.
   */
  lemma WalkDrop(next: map<Node, Node>, prev: map<Node, Node>, s: Node, r: seq<Node>,
                 doomed: set<Node>, visited: seq<Node>, it: Node)
    requires Walk(next, prev, s, r, doomed, visited, it) && it != s && it in doomed
    ensures it in prev
    ensures Walk(next[prev[it] := next[it]], prev[next[it] := prev[it]], s, r, doomed, visited + [it], next[it])
  {
    var kept := Survivors(visited, doomed);
    var cur := [s] + kept + r[|visited| + 1..];
    var p := |kept| + 1;
    CursorStep(r, visited, kept, s);
    assert Survivors(visited + [it], doomed) == kept;
    RingStep(next, prev, cur, p);
    DropKeepsRing(next, prev, cur, p);
    var cur' := Without(cur, p);
    var n', p' := next[prev[it] := next[it]], prev[next[it] := prev[it]];
    if |visited| + 2 < |r| {
      assert cur'[p] == r[|visited| + 2] == next[it];
      MemberNotSelfLinked(n', p', cur', p);
    }
  }

  /** A walk whose cursor is back at the sentinel has visited every member. */
  lemma WalkDone(next: map<Node, Node>, prev: map<Node, Node>, s: Node, r: seq<Node>,
                 doomed: set<Node>, visited: seq<Node>, it: Node)
    requires Walk(next, prev, s, r, doomed, visited, it) && (it == s || it == next[it])
    ensures visited == r[1..] && Ring(next, prev, [s] + Survivors(r[1..], doomed))
  {
    assert r[|visited| + 1..] == [];
    assert [s] + Survivors(visited, doomed) + [] == [s] + Survivors(visited, doomed);
  }

  /** The `list_s` nodes of one memory, as their two link fields. */
  class Links {
    var next: map<Node, Node>
    var prev: map<Node, Node>

    /** `LIST_INIT` of the sentinel: the only node, linked to itself. */
    constructor (s: Node)
      ensures next == map[s := s] && prev == map[s := s]
      ensures Ring(next, prev, [s])
    {
      next := map[s := s];
      prev := map[s := s];
    }

    /** `list_null`: the node is self-linked or its successor does not link back. */
    function Null(x: Node): (r: bool)
      reads this
      requires x in next && next[x] in prev
      ensures r <==> !Used(x)
    {
      next[x] == x || prev[next[x]] != x
    }

    /** `list_used`: the node's successor links back to it. */
    function Used(x: Node): (r: bool)
      reads this
      requires x in next && next[x] in prev
      ensures r <==> UsedIn(next, prev, x)
    {
      next[x] != x && prev[next[x]] == x
    }

    /** `list_init`: link the node to itself. */
    method Init(x: Node)
      modifies this
      ensures next == old(next)[x := x] && prev == old(prev)[x := x]
    {
      next := next[x := x];
      prev := prev[x := x];
    }

    /** `list_link`: `head->next = tail; tail->prev = head`. */
    method Link(head: Node, tail: Node)
      modifies this
      ensures next == old(next)[head := tail] && prev == old(prev)[tail := head]
    {
      next := next[head := tail];
      prev := prev[tail := head];
    }

    /** `list_join`: link `x` between the sentinel's predecessor and the sentinel. */
    method Join(s: Node, x: Node)
      requires s in prev
      modifies this
      ensures var last := old(prev)[s];
        next == old(next)[last := x][x := s] && prev == old(prev)[x := last][s := x]
    {
      Link(prev[s], x);
      Link(x, s);
    }

    /** `list_drop`: link the node's predecessor and successor to each other. */
    method Drop(x: Node)
      requires x in next && x in prev
      modifies this
      ensures next == old(next)[old(prev)[x] := old(next)[x]]
      ensures prev == old(prev)[old(next)[x] := old(prev)[x]]
    {
      Link(prev[x], next[x]);
    }

    /** `list_foreach`: the nodes met from `s->next` until the walk is back at `s`. */
    method Foreach(s: Node, ghost r: seq<Node>) returns (visited: seq<Node>)
      requires Ring(next, prev, r) && r[0] == s
      ensures visited == r[1..]
    {
      RingStep(next, prev, r, 0);
      if 1 < |r| {
        MemberNotSelfLinked(next, prev, r, 1);
      }
      var it := next[s];
      visited := [];
      while it != s
        invariant |visited| < |r| && visited == r[1..|visited| + 1]
        invariant it == if |visited| + 1 < |r| then r[|visited| + 1] else s
        invariant |visited| + 1 < |r| ==> it != s
        decreases |r| - |visited|
      {
        var k := |visited| + 1;
        RingStep(next, prev, r, k);
        visited := visited + [it];
        it := next[it];
        if k + 1 < |r| {
          MemberNotSelfLinked(next, prev, r, k + 1);
        }
      }
    }

    /**
     * `list_forsafe` whose body drops each visited node that `doomed`
     * holds: the successor is read before the body runs, so every member
     * is visited once, in order, and the ring ends up without the doomed
     * ones.
     */
    method ForsafeDrop(s: Node, ghost r: seq<Node>, doomed: set<Node>) returns (visited: seq<Node>)
      requires Ring(next, prev, r) && r[0] == s
      modifies this
      ensures visited == r[1..]
      ensures Ring(next, prev, [s] + Survivors(r[1..], doomed))
    {
      WalkStart(next, prev, s, r, doomed);
      var it := next[s];
      var at := next[it];
      visited := [];
      while it != s && it != next[it]
        invariant Walk(next, prev, s, r, doomed, visited, it)
        invariant at == next[it]
        decreases |r| - |visited|
      {
        if it in doomed {
          WalkDrop(next, prev, s, r, doomed, visited, it);
          Drop(it);
        } else {
          WalkKeep(next, prev, s, r, doomed, visited, it);
        }
        visited := visited + [it];
        it := at;
        at := next[it];
      }
      WalkDone(next, prev, s, r, doomed, visited, it);
    }
  }
}
