/** Every run of the range allocator, and three things its comments or names
    promise that the code does not quite do (drm_mm.c:470-472, 531-579). */
module MmHistory {
  import opened MmState
  import opened MmAlloc
  import opened MmPlace
  import opened MmScan
  import opened MmRuns
  import opened MmEvict
  import opened MmOrder
  import opened MmPool

  /** What a caller may do: take a block out of a hole that has room for it, give
      one back, or go through a scan, in which the blocks of `added` go on the
      scan list, and come off it from the end of `removed`, or fill the pool. Evictions
      are gives after a scan. */
  datatype Op =
    | Get(hole: Node, wasted: int, size: int, got1: Node?, got2: Node?)
    | Give(block: Node)
    | Scan(size: int, alignment: nat, added: seq<Node>, removed: seq<Node>)
    | Prepare(got: seq<Node>)

  ghost predicate Allowed(s: State, op: Op) {
    Valid(s) &&
    match op
    case Get(hole, wasted, size, got1, got2) => hole in s.order && CanGet(s, Pos(s.order, hole), wasted, size, got1, got2)
    case Give(block) => block in s.order && block in s.info && !s.info[block].free
    case Scan(size, alignment, added, removed) => CanScan(InitScan(s, size, alignment), added, removed)
    case Prepare(got) => CanPreGet(s, got)
  }

  /** The blocks are allocated, and the order of their removal is one that can be carried out. */
  ghost predicate CanScan(s: State, added: seq<Node>, removed: seq<Node>) {
    ScanShape(s) && Allocated(s, added) && Reorders(removed, added) && ComesOff(AddAll(s, added), removed)
  }

  /** The state once all of `xs`, the last first, are off the scan list. */
  ghost function Unwound(t: State, xs: seq<Node>): State
    requires ComesOff(t, xs)
    decreases |xs|
  {
    if xs == [] then t else Unwound(Remove(t, xs[|xs| - 1]).0, xs[..|xs| - 1])
  }

  /** The operation does not make a block of a node with a stale free bit. */
  ghost predicate Sound(s: State, op: Op)
    requires Allowed(s, op)
  {
    match op
    case Get(hole, wasted, size, got1, got2) => !BlockStale(s, Pos(s.order, hole), wasted, size, got1, got2)
    case Give(_) => true
    case Scan(_, _, _, _) => true
    case Prepare(_) => true
  }

  ghost function Do(s: State, op: Op): State
    requires Allowed(s, op)
  {
    match op
    case Get(hole, wasted, size, got1, got2) => GetAt(s, Pos(s.order, hole), wasted, size, got1, got2).0
    case Give(block) => PutAt(s, Pos(s.order, block))
    case Scan(size, alignment, added, removed) => Unwound(AddAll(InitScan(s, size, alignment), added), removed)
    case Prepare(got) => PreGet(s, got)
  }

  /** `t` is reached from `s` by the operations, each on a well formed allocator. */
  ghost predicate Run(s: State, ops: seq<Op>, t: State)
    decreases |ops|
  {
    if ops == [] then t == s
    else Allowed(s, ops[0]) && Run(Do(s, ops[0]), ops[1..], t)
  }

  /** No get of the run makes a block of a stale node. */
  ghost predicate AllSound(s: State, ops: seq<Op>)
    decreases |ops|
  {
    ops == [] || (Allowed(s, ops[0]) && Sound(s, ops[0]) && AllSound(Do(s, ops[0]), ops[1..]))
  }

  lemma StepKeepsValid(s: State, op: Op)
    requires Allowed(s, op)
    ensures Valid(Do(s, op)) <==> Sound(s, op)
    ensures Do(s, op).lo == s.lo && Do(s, op).hi == s.hi
  {
    match op {
      case Get(hole, wasted, size, got1, got2) => GetStep(s, Pos(s.order, hole), wasted, size, got1, got2);
      case Give(block) => GiveStep(s, Pos(s.order, block));
      case Scan(size, alignment, added, removed) => ScanStep(s, size, alignment, added, removed);
      case Prepare(got) => PreGetIs(s, got);
    }
  }

  lemma {:induction false} UnwoundIs(t: State, xs: seq<Node>, u: State, evict: set<Node>)
    requires Unwinds(t, xs, u, evict) && ComesOff(t, xs)
    ensures Unwound(t, xs) == u
    decreases |xs|
  {
    if xs != [] {
      var k := |xs| - 1;
      UnwoundIs(Remove(t, xs[k]).0, xs[..k], u, evict - {xs[k]});
    }
  }

  /** A scan leaves nothing but its parameters and its hit. */
  lemma ScanLeaves(s: State, added: seq<Node>, removed: seq<Node>, t: State)
    requires CanScan(s, added, removed) && t == AddAll(s, added)
    ensures Unwound(t, removed) == WithHit(s, t.hitStart, t.hitSize)
  {
    assert t == WithHit(t, t.hitStart, t.hitSize);
    AnyOrder(s, added, removed, t.hitStart, t.hitSize, t);
    UnwoundIs(t, removed, WithHit(s, t.hitStart, t.hitSize), Inside(s, added, t.hitStart, t.hitSize));
  }

  lemma ScanStep(s: State, size: int, alignment: nat, added: seq<Node>, removed: seq<Node>)
    requires Valid(s) && CanScan(InitScan(s, size, alignment), added, removed)
    ensures var u := Unwound(AddAll(InitScan(s, size, alignment), added), removed);
      Valid(u) && Cells(u) == Cells(s) && u.stack == s.stack && u.lo == s.lo && u.hi == s.hi
  {
    var s', t := InitScan(s, size, alignment), AddAll(InitScan(s, size, alignment), added);
    ScanLeaves(s', added, removed, t);
    CellsAgree(s, s');
    InitScanShape(s, size, alignment);
    WithHitValid(s', t.hitStart, t.hitSize);
  }

  lemma GetStep(s: State, i: nat, wasted: int, size: int, got1: Node?, got2: Node?)
    requires CanGet(s, i, wasted, size, got1, got2)
    ensures var t := GetAt(s, i, wasted, size, got1, got2).0;
      (Valid(t) <==> !BlockStale(s, i, wasted, size, got1, got2)) && t.lo == s.lo && t.hi == s.hi
  {
    GetPlaces(s, i, wasted, size, got1, got2);
    GetKeepsBounds(s, i, wasted, size, got1, got2);
  }

  lemma GetKeepsBounds(s: State, i: nat, wasted: int, size: int, got1: Node?, got2: Node?)
    requires Known(s) && PoolKnown(s) && i < |s.order|
    ensures var t := GetAt(s, i, wasted, size, got1, got2).0; t.lo == s.lo && t.hi == s.hi
  {
    if wasted == 0 {
      TakeKeepsBounds(s, i, size, got2);
    } else {
      var (t, pre) := SplitAt(s, i, wasted, got1);
      SplitKeepsBounds(s, i, wasted, got1);
      if pre != null {
        TakeKeepsBounds(t, i + 1, size, got2);
      }
    }
  }

  lemma SplitKeepsBounds(s: State, i: nat, size: int, got: Node?)
    requires Known(s) && PoolKnown(s) && i < |s.order|
    ensures var (t, child) := SplitAt(s, i, size, got);
      t.lo == s.lo && t.hi == s.hi && (child != null ==> Known(t) && PoolKnown(t) && i + 1 < |t.order|)
  {
  }

  lemma TakeKeepsBounds(s: State, i: nat, size: int, got: Node?)
    requires Known(s) && PoolKnown(s) && i < |s.order|
    ensures var t := TakeAt(s, i, size, got).0; t.lo == s.lo && t.hi == s.hi
  {
    SplitKeepsBounds(s, i, size, got);
  }

  lemma GiveStep(s: State, i: nat)
    requires Valid(s) && i < |s.order| && !s.info[s.order[i]].free
    ensures var t := PutAt(s, i); Valid(t) && t.lo == s.lo && t.hi == s.hi
  {
    PutKeepsValid(s, i);
  }

  /** The pool never holds more than four nodes. */
  lemma {:induction false} PoolStaysSmall(s: State, ops: seq<Op>, t: State)
    requires Valid(s) && Run(s, ops, t) && Valid(t) && |s.unused| <= UNUSED_TARGET
    ensures |t.unused| <= UNUSED_TARGET
    decreases |ops|
  {
    if ops != [] {
      RunKeepsValid(s, ops, t);
      StepKeepsValid(s, ops[0]);
      StepKeepsPool(s, ops[0]);
      PoolStaysSmall(Do(s, ops[0]), ops[1..], t);
    }
  }

  lemma StepKeepsPool(s: State, op: Op)
    requires Allowed(s, op) && Sound(s, op) && |s.unused| <= UNUSED_TARGET
    ensures |Do(s, op).unused| <= UNUSED_TARGET
  {
    match op {
      case Get(hole, wasted, size, got1, got2) => GetFails(s, Pos(s.order, hole), wasted, size, got1, got2);
      case Give(block) => var _ := PutFillsPool(s, Pos(s.order, block));
      case Scan(size, alignment, added, removed) =>
        var s' := InitScan(s, size, alignment);
        ScanLeaves(s', added, removed, AddAll(s', added));
      case Prepare(got) => PreGetIs(s, got);
    }
  }

  /** The allocator invariant over every run of gets, puts, whole scans and preparations. A run ends with the nodes tiling
      the range in address order, no two neighbours free, and the free stack
      holding exactly the free nodes, once each, if and only if no get on the way
      made a block of a stale node. */
  lemma {:induction false} RunKeepsValid(s: State, ops: seq<Op>, t: State)
    requires Valid(s) && Run(s, ops, t)
    ensures Valid(t) <==> AllSound(s, ops)
    ensures t.lo == s.lo && t.hi == s.hi
    decreases |ops|
  {
    if ops != [] {
      var u := Do(s, ops[0]);
      StepKeepsValid(s, ops[0]);
      if Valid(u) {
        RunKeepsValid(u, ops[1..], t);
      }
    }
  }

  /** Whatever the run, if it ends well formed, returning every block
      afterwards, in any order, leaves one free node over the original range,
      and takedown's test passes. */
  lemma NothingIsLost(s: State, ops: seq<Op>, t: State, ns: seq<Node>)
    requires Valid(s) && Run(s, ops, t) && Valid(t) && Allocated(t, ns)
    requires forall n :: n in t.order && n in t.info && !t.info[n].free ==> n in ns
    ensures WholeRangeFree(PutAll(t, ns)) && PutAll(t, ns).lo == s.lo && PutAll(t, ns).hi == s.hi
  {
    RunKeepsValid(s, ops, t);
    AllReturned(t, ns);
  }

  /** Getting the whole range of a manager with nothing allocated leaves one
      node, allocated: drm_mm_clean then holds, without any memory asked for. */
  lemma WholeIsTaken(s: State)
    requires Valid(s) && WholeRangeFree(s)
    ensures Allowed(s, Get(s.order[0], 0, s.hi - s.lo, null, null))
    ensures var t := Do(s, Get(s.order[0], 0, s.hi - s.lo, null, null));
      Valid(t) && |t.order| == 1 && WholeRangeTaken(t) && !NothingAllocated(t)
  {
    var n := s.order[0];
    var op := Get(n, 0, s.hi - s.lo, null, null);
    assert n in s.order && Cells(s)[0] == CellOf(s, n);
    StepKeepsValid(s, op);
    TakenWhole(s, n);
    CleanIs(Do(s, op));
  }

  lemma TakenWhole(s: State, n: Node)
    requires Valid(s) && s.order == [n] && s.info[n].size == s.hi - s.lo
    ensures var t := GetAt(s, 0, 0, s.hi - s.lo, null, null).0; t.order == [n] && n in t.info && !t.info[n].free
  {
  }

  /** Takedown's test, exactly: the last node is the only free one. It passes
      with blocks still allocated before it. */
  lemma TakedownExact(s: State)
    requires Valid(s)
    ensures TakedownPasses(s) <==>
      Cells(s)[|s.order| - 1].free && forall k :: 0 <= k < |s.order| - 1 ==> !Cells(s)[k].free
  {
    var last := s.order[|s.order| - 1];
    if TakedownPasses(s) {
      forall k | 0 <= k < |s.order| - 1 ensures !Cells(s)[k].free {
        assert s.order[k] in s.order && s.order[k] !in s.stack;
      }
      assert last in s.stack;
    } else if Cells(s)[|s.order| - 1].free && forall k :: 0 <= k < |s.order| - 1 ==> !Cells(s)[k].free {
      assert last in s.order && last in s.stack;
      forall k | 0 <= k < |s.stack| ensures s.stack[k] == last {
        assert s.stack[k] in s.stack && s.stack[k] in s.order;
        var j := Pos(s.order, s.stack[k]);
        assert Cells(s)[j].free;
      }
      PosUnique(s.stack, 0);
      PosUnique(s.stack, |s.stack| - 1);
      assert false;
    }
  }

  /** Where removal in the order of addition fails: a block next to a hole, and
      its other neighbour added after it. The first is then no longer on the
      list, and neither is the hole it absorbed, which its removal is to link in
      next to it. MmSameOrder says when that order works. */
  lemma SameOrderLosesBlock(s: State, i: nat)
    requires ScanShape(s) && FreeAt(s, i - 1) && i + 1 < |s.order|
    requires !s.info[s.order[i]].free && !s.info[s.order[i + 1]].free
    ensures var hole, first, second, t := s.order[i - 1], s.order[i], s.order[i + 1], AddAt(s, i).0;
      && i < |t.order| && t.order[i] == second && Known(t)
      && (var u := AddAt(t, i).0;
          first !in u.order && hole !in u.order && first in u.info && u.info[first].savedPrev == hole)
  {
    var hole, first, t := s.order[i - 1], s.order[i], AddAt(s, i).0;
    FirstAdded(s, i);
    AddMembers(s, i, hole);
    AddMembers(t, i, hole);
    AddMembers(t, i, first);
  }

  lemma FirstAdded(s: State, i: nat)
    requires ScanShape(s) && FreeAt(s, i - 1) && i + 1 < |s.order|
    requires !s.info[s.order[i]].free && !s.info[s.order[i + 1]].free
    ensures var t := AddAt(s, i).0;
      && Known(t) && NoDup(t.order) && i < |t.order| && t.order[i] == s.order[i + 1] && t.order[i - 1] == s.order[i]
      && t.info[s.order[i]].free && t.info[s.order[i]].savedPrev == s.order[i - 1] && FreeAt(t, i - 1)
  {
    AddKeepsShape(s, i);
  }

  /** How a stale node gets into the pool: a block returned between two holes
      retires the second hole's node with its free bit set, second in line. */
  lemma PoolTurnsStale(s: State, i: nat)
    requires Valid(s) && i < |s.order| && FreeAt(s, i - 1) && FreeAt(s, i + 1) && |s.unused| + 1 < UNUSED_TARGET
    ensures var t := PutAt(s, i);
      |t.unused| > 1 && t.unused[1] == s.order[i + 1] && t.info[t.unused[1]].free
      && Stale(t.(unused := t.unused[1..]), null)
  {
  }
}
