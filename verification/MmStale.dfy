/** From a new manager to a block made of a node with a stale free bit
    (drm_mm.c:51-74, 125-147, 252-263): eight operations, the last of which
    leaves the allocator broken. */
module MmStale {
  import opened MmState
  import opened MmAlloc
  import opened MmPlace
  import opened MmRuns
  import opened MmHistory

  /** The list, the pool, and which listed nodes are free. */
  ghost predicate Looks(s: State, order: seq<Node>, unused: seq<Node>, free: set<Node>) {
    Valid(s) && s.order == order && s.unused == unused && forall n :: n in order && n in s.info ==> (s.info[n].free <==> n in free)
  }

  /** A block of one unit from the hole `h`. */
  function One(h: Node, got: Node?): Op { Get(h, 0, 1, null, got) }

  lemma {:induction false} RunCons(s: State, op: Op, ops: seq<Op>, t: State)
    requires Allowed(s, op) && Run(Do(s, op), ops, t)
    ensures Run(s, [op] + ops, t)
  {
    var all := [op] + ops;
    assert all[0] == op && all[1..] == ops;
  }

  /** A block taken from the last node, a hole, is linked in before it. */
  lemma GetNew(s: State, pre: seq<Node>, h: Node, got: Node)
    requires Looks(s, pre + [h], [], {h}) && s.info[h].size > 1 && got !in s.info
    ensures Allowed(s, One(h, got))
    ensures var t := Do(s, One(h, got));
      && Looks(t, pre + [got, h], [], {h}) && t.info[h].size == s.info[h].size - 1 && t.info.Keys == s.info.Keys + {got}
      && t.lo == s.lo && t.hi == s.hi && t.stack == s.stack && t.info[got].size == 1
      && forall n :: n in pre ==> n in t.info && t.info[n] == s.info[n]
  {
    var i := |pre|;
    assert s.order[i] == h;
    assert forall n :: n in pre ==> n in s.order && n != h by {
      forall k | 0 <= k < |pre| ensures pre[k] in s.order && pre[k] != h { assert s.order[k] == pre[k]; }
    }
    PosUnique(s.order, i);
    StepKeepsValid(s, One(h, got));
    NewIs(s, i, got);
    assert s.order[..i] + [got] + s.order[i..] == pre + [got, h];
  }

  lemma NewIs(s: State, i: nat, got: Node)
    requires Valid(s) && i < |s.order| && s.info[s.order[i]].size > 1 && got !in s.info
    ensures var t := GetAt(s, i, 0, 1, null, got).0;
      && t.order == s.order[..i] + [got] + s.order[i..] && t.unused == s.unused && t.info.Keys == s.info.Keys + {got}
      && t.info[s.order[i]].size == s.info[s.order[i]].size - 1 && !t.info[got].free && t.info[got].size == 1
      && t.stack == s.stack
      && forall n :: n in s.order ==> n in t.info && t.info[n].free == s.info[n].free && (n != s.order[i] ==> t.info[n] == s.info[n])
  {
    assert s.order[i] in s.order;
  }

  /** A block returned between allocated neighbours. */
  lemma GiveAlone(s: State, i: nat, free: set<Node>)
    requires Looks(s, s.order, [], free) && i < |s.order| && !FreeAt(s, i) && !FreeAt(s, i - 1) && !FreeAt(s, i + 1)
    ensures Allowed(s, Give(s.order[i]))
    ensures var t := Do(s, Give(s.order[i]));
      && Looks(t, s.order, [], free + {s.order[i]}) && t.lo == s.lo && t.hi == s.hi && t.stack == [s.order[i]] + s.stack
      && forall n :: n in s.order ==> n in t.info && n in s.info && t.info[n].size == s.info[n].size
  {
    PosUnique(s.order, i);
    StepKeepsValid(s, Give(s.order[i]));
    PutAlone(s, i);
  }

  /** A block returned before a hole. */
  lemma GiveBefore(s: State, i: nat, rest: seq<Node>, free: set<Node>)
    requires Looks(s, s.order, [], free) && i < |s.order| && !FreeAt(s, i) && !FreeAt(s, i - 1) && FreeAt(s, i + 1)
    requires rest == s.order[..i] + s.order[i + 1..]
    ensures Allowed(s, Give(s.order[i]))
    ensures var t := Do(s, Give(s.order[i])); Looks(t, rest, [s.order[i]], free) && t.lo == s.lo && t.hi == s.hi
  {
    PosUnique(s.order, i);
    StepKeepsValid(s, Give(s.order[i]));
    BeforeIs(s, i, rest);
  }

  lemma BeforeIs(s: State, i: nat, rest: seq<Node>)
    requires Known(s) && NoDup(s.order) && s.unused == [] && i < |s.order| && !FreeAt(s, i - 1) && FreeAt(s, i + 1)
    requires rest == s.order[..i] + s.order[i + 1..]
    ensures var t := PutAt(s, i);
      t.order == rest && t.unused == [s.order[i]] && forall n :: n in rest ==> n in s.info && n in t.info && t.info[n].free == s.info[n].free
  {
    PutIntoNext(s, i);
    UnlinkAt(s.order, i);
    assert forall n :: n in rest ==> n in s.order;
  }

  /** A block returned between two holes: the second one's node is retired with its free bit set. */
  lemma GiveBetween(s: State, p: Node, cur: Node, q: Node, rest: seq<Node>)
    requires Looks(s, [p, cur, q], rest, {p, q}) && |rest| == 1
    ensures Allowed(s, Give(cur))
    ensures var t := Do(s, Give(cur));
      && Looks(t, [p], [cur, q] + rest, {p}) && !t.info[cur].free && t.info[q].free && t.info[p].size == s.hi - s.lo
      && t.lo == s.lo && t.hi == s.hi
  {
    assert s.order[1] == cur;
    PosUnique(s.order, 1);
    StepKeepsValid(s, Give(cur));
    BetweenIs(s, p, cur, q, rest);
    assert Cells(Do(s, Give(cur)))[0] == CellOf(Do(s, Give(cur)), p);
  }

  lemma BetweenIs(s: State, p: Node, cur: Node, q: Node, rest: seq<Node>)
    requires Known(s) && NoDup(s.order) && s.order == [p, cur, q] && s.unused == rest && |rest| == 1
    requires FreeAt(s, 0) && !FreeAt(s, 1) && FreeAt(s, 2)
    ensures var t := PutAt(s, 1);
      && t.order == [p] && t.unused == [cur, q] + rest
      && cur in t.info && q in t.info && p in t.info && !t.info[cur].free && t.info[q].free && t.info[p].free
  {
    assert s.order[0] == p && s.order[1] == cur && s.order[2] == q;
    PutBetween(s, 1);
    UnlinkTwo(s.order, 1);
  }

  /** Without memory, a block is made of the head of the pool. */
  lemma GetPooled(s: State, h: Node, n: Node, stale: Node, rest: seq<Node>)
    requires Looks(s, [h], [n, stale] + rest, {h}) && s.info[h].size > 2 && !s.info[n].free && s.info[stale].free
    ensures Allowed(s, One(h, null))
    ensures var t := Do(s, One(h, null));
      Looks(t, [n, h], [stale] + rest, {h}) && t.info[stale].free && t.info[h].size == s.info[h].size - 1
  {
    assert s.order[0] == h && s.unused[0] == n && s.unused[1] == stale;
    PosUnique(s.order, 0);
    StepKeepsValid(s, One(h, null));
    assert s.unused[1..] == [stale] + rest;
    var t := Do(s, One(h, null));
    assert t.order == [n, h];
  }

  /** And breaks the allocator if that is the stale one. */
  lemma GetStale(s: State, n: Node, h: Node, stale: Node, rest: seq<Node>)
    requires Looks(s, [n, h], [stale] + rest, {h}) && s.info[stale].free && s.info[h].size > 1
    ensures Allowed(s, One(h, null)) && !Sound(s, One(h, null)) && !Valid(Do(s, One(h, null)))
  {
    assert s.order[1] == h && s.unused[0] == stale;
    PosUnique(s.order, 1);
    StepKeepsValid(s, One(h, null));
  }

  /** The run ends well formed, where one more block makes that end. */
  ghost predicate Ends(s: State, ops: seq<Op>, t: State, last: Op) {
    Run(s, ops, t) && Allowed(t, last) && !Sound(t, last) && !Valid(Do(t, last))
  }

  lemma EndsCons(s: State, op: Op, ops: seq<Op>, t: State, last: Op)
    requires Allowed(s, op) && Ends(Do(s, op), ops, t, last)
    ensures Ends(s, [op] + ops, t, last)
  {
    RunCons(s, op, ops, t);
  }

  /** Three blocks of one unit are taken, the first and the third returned, then
      the second; then a block is taken while kzalloc fails. */
  function Steps(h: Node, g1: Node, g2: Node, g3: Node): seq<Op> {
    [One(h, g1)] + ([One(h, g2)] + ([One(h, g3)] + Returns(g1, g2, g3)))
  }

  function Returns(g1: Node, g2: Node, g3: Node): seq<Op> {
    [Give(g1)] + ([Give(g3)] + ([Give(g2)] + ([One(g1, null)] + [])))
  }

  lemma FromTwoHoles(s: State, h: Node, g1: Node, g2: Node, g3: Node) returns (t: State)
    requires Looks(s, [g1, g2, h], [g3], {g1, h}) && s.hi - s.lo >= 4
    ensures Ends(s, [Give(g2)] + ([One(g1, null)] + []), t, One(g1, null))
  {
    GiveBetween(s, g1, g2, h, [g3]);
    var u := Do(s, Give(g2));
    GetPooled(u, g1, g2, h, [g3]);
    t := Do(u, One(g1, null));
    GetStale(t, g2, g1, h, [g3]);
    EndsCons(u, One(g1, null), [], t, One(g1, null));
    EndsCons(s, Give(g2), [One(g1, null)] + [], t, One(g1, null));
  }

  lemma FromOneHole(s: State, h: Node, g1: Node, g2: Node, g3: Node) returns (t: State)
    requires Looks(s, [g1, g2, g3, h], [], {g1, h}) && s.hi - s.lo >= 4
    ensures Ends(s, [Give(g3)] + ([Give(g2)] + ([One(g1, null)] + [])), t, One(g1, null))
  {
    assert s.order[1] == g2 && s.order[2] == g3 && s.order[3] == h;
    GiveBefore(s, 2, [g1, g2, h], {g1, h});
    var u := Do(s, Give(g3));
    t := FromTwoHoles(u, h, g1, g2, g3);
    EndsCons(s, Give(g3), [Give(g2)] + ([One(g1, null)] + []), t, One(g1, null));
  }

  lemma FromThreeBlocks(s: State, h: Node, g1: Node, g2: Node, g3: Node) returns (t: State)
    requires Looks(s, [g1, g2, g3, h], [], {h}) && s.hi - s.lo >= 4
    ensures Ends(s, Returns(g1, g2, g3), t, One(g1, null))
  {
    assert s.order[0] == g1 && s.order[1] == g2 && s.order[3] == h;
    GiveAlone(s, 0, {h});
    var u := Do(s, Give(g1));
    assert {h} + {g1} == {g1, h};
    t := FromOneHole(u, h, g1, g2, g3);
    EndsCons(s, Give(g1), [Give(g3)] + ([Give(g2)] + ([One(g1, null)] + [])), t, One(g1, null));
  }

  /** From a new manager: after these steps a block taken while kzalloc still
      fails is made of a stale node, and the allocator is no longer well formed. */
  lemma StaleIsReached(s: State, g1: Node, g2: Node, g3: Node) returns (t: State)
    requires Valid(s) && WholeRangeFree(s) && s.unused == [] && s.hi - s.lo >= 4
    requires g1 !in s.info && g2 !in s.info && g3 !in s.info && g1 != g2 && g1 != g3 && g2 != g3
    ensures Ends(s, Steps(s.order[0], g1, g2, g3), t, One(g1, null))
  {
    var h := s.order[0];
    assert Cells(s)[0] == CellOf(s, h);
    assert s.order == [] + [h];
    GetNew(s, [], h, g1);
    var u := Do(s, One(h, g1));
    assert u.order == [g1] + [h];
    t := FromOneBlock(u, h, g1, g2, g3);
    EndsCons(s, One(h, g1), [One(h, g2)] + ([One(h, g3)] + Returns(g1, g2, g3)), t, One(g1, null));
  }

  lemma FromOneBlock(s: State, h: Node, g1: Node, g2: Node, g3: Node) returns (t: State)
    requires Looks(s, [g1] + [h], [], {h}) && s.hi - s.lo >= 4 && s.info[h].size > 2
    requires g2 !in s.info && g3 !in s.info && g2 != g3
    ensures Ends(s, [One(h, g2)] + ([One(h, g3)] + Returns(g1, g2, g3)), t, One(g1, null))
  {
    GetNew(s, [g1], h, g2);
    var u := Do(s, One(h, g2));
    assert [g1] + [g2, h] == [g1, g2] + [h];
    t := FromTwoBlocks(u, h, g1, g2, g3);
    EndsCons(s, One(h, g2), [One(h, g3)] + Returns(g1, g2, g3), t, One(g1, null));
  }

  lemma FromTwoBlocks(s: State, h: Node, g1: Node, g2: Node, g3: Node) returns (t: State)
    requires Looks(s, [g1, g2] + [h], [], {h}) && s.hi - s.lo >= 4 && s.info[h].size > 1 && g3 !in s.info
    ensures Ends(s, [One(h, g3)] + Returns(g1, g2, g3), t, One(g1, null))
  {
    GetNew(s, [g1, g2], h, g3);
    var u := Do(s, One(h, g3));
    assert [g1, g2] + [g3, h] == [g1, g2, g3, h];
    t := FromThreeBlocks(u, h, g1, g2, g3);
    EndsCons(s, One(h, g3), Returns(g1, g2, g3), t, One(g1, null));
  }
}
