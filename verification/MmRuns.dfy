/** Whole runs of the range allocator: returning blocks in any order, and
    scanning and unwinding (drm_mm.c:226-284, 378-579). */
module MmRuns {
  import opened MmState
  import opened MmAlloc
  import opened MmCoarse

  /** The nodes are distinct and allocated. */
  ghost predicate Allocated(s: State, ns: seq<Node>) {
    NoDup(ns) && forall n :: n in ns ==> n in s.order && n in s.info && !s.info[n].free
  }

  lemma AllocatedPrefix(s: State, ns: seq<Node>, k: nat)
    requires Allocated(s, ns) && k <= |ns|
    ensures Allocated(s, ns[..k]) && (k < |ns| ==> ns[k] !in ns[..k])
  {
  }

  /** Which cells belong to the nodes. */
  function Marks(cs: seq<Cell>, ns: seq<Node>): seq<bool> {
    seq(|cs|, k requires 0 <= k < |cs| => cs[k].node in ns)
  }

  lemma MarksSnoc(cs: seq<Cell>, ns: seq<Node>, n: Node, k0: nat)
    requires k0 < |cs| && cs[k0].node == n && forall k :: 0 <= k < |cs| && k != k0 ==> cs[k].node != n
    ensures Marks(cs, ns + [n]) == Marks(cs, ns)[k0 := true]
  {
  }

  // --- Returning blocks ---

  /** drm_mm_put_block on each node in turn. */
  ghost function PutAll(s: State, ns: seq<Node>): (t: State)
    requires Valid(s) && Allocated(s, ns)
    ensures Valid(t) && t.lo == s.lo && t.hi == s.hi
    ensures forall n :: n in s.order && n in s.info && !s.info[n].free && n !in ns ==>
      n in t.order && n in t.info && t.info[n] == s.info[n]
  {
    if ns == [] then s else
      var k := |ns| - 1;
      AllocatedPrefix(s, ns, k);
      var t := PutAll(s, ns[..k]);
      var i := Pos(t.order, ns[k]);
      PutKeepsValid(t, i);
      PutFrame(t, i);
      PutAt(t, i)
  }

  lemma PutFrame(s: State, i: nat)
    requires Valid(s) && i < |s.order|
    ensures forall n :: n in s.order && n in s.info && !s.info[n].free && n != s.order[i] ==>
      n in PutAt(s, i).order && n in PutAt(s, i).info && PutAt(s, i).info[n] == s.info[n]
  {
    forall n | n in s.order && n in s.info && !s.info[n].free && n != s.order[i]
      ensures n in PutAt(s, i).order && n in PutAt(s, i).info && PutAt(s, i).info[n] == s.info[n]
    {
      PutMembers(s, i, n);
    }
  }

  /** The position of an allocated node among the original cells. */
  lemma OriginalCell(s: State, n: Node) returns (k: nat)
    requires Shape(s) && n in s.order
    ensures k < |s.order| && Cells(s)[k] == CellOf(s, n) && s.order[k] == n
    ensures forall l :: 0 <= l < |s.order| && l != k ==> Cells(s)[l].node != n
  {
    k := Pos(s.order, n);
  }

  /** However blocks have been returned, the list is the original one coarsened by what was returned. */
  lemma PutAllCoarse(s: State, ns: seq<Node>) returns (own: seq<int>)
    requires Valid(s) && Allocated(s, ns)
    ensures Coarse(Cells(s), Marks(Cells(s), ns), own, Cells(PutAll(s, ns)))
  {
    var cs := Cells(s);
    if ns == [] {
      CoarseInit(cs, s.lo, s.hi);
      own := seq(|cs|, k => k);
      assert Marks(cs, ns) == seq(|cs|, k => false);
    } else {
      var n, pre := ns[|ns| - 1], ns[..|ns| - 1];
      assert ns == pre + [n];
      AllocatedPrefix(s, ns, |pre|);
      var own0 := PutAllCoarse(s, pre);
      own := CoarseSnoc(s, pre, n, PutAll(s, pre), own0);
      PutAllLast(s, ns, |pre|);
    }
  }

  /** One more block returned, in terms of marks. */
  lemma CoarseSnoc(s: State, pre: seq<Node>, n: Node, t: State, own0: seq<int>) returns (own: seq<int>)
    requires Shape(s) && n in s.order && !s.info[n].free && n !in pre
    requires Valid(t) && Coarse(Cells(s), Marks(Cells(s), pre), own0, Cells(t))
    ensures n in t.order
    ensures Known(PutAt(t, Pos(t.order, n)))
    ensures Coarse(Cells(s), Marks(Cells(s), pre + [n]), own, Cells(PutAt(t, Pos(t.order, n))))
  {
    var k0 := OriginalCell(s, n);
    MarksSnoc(Cells(s), pre, n, k0);
    own := PutCoarse(Cells(s), Marks(Cells(s), pre), own0, t, k0);
  }

  lemma PutAllLast(s: State, ns: seq<Node>, m: nat)
    requires Valid(s) && Allocated(s, ns) && |ns| == m + 1 && Allocated(s, ns[..m])
    ensures var t := PutAll(s, ns[..m]);
      ns[m] in t.order && PutAll(s, ns) == PutAt(t, Pos(t.order, ns[m]))
  {
  }

  /** One more block returned. */
  lemma PutCoarse(cs: seq<Cell>, f: seq<bool>, own: seq<int>, t: State, k0: nat) returns (own': seq<int>)
    requires Valid(t) && Coarse(cs, f, own, Cells(t)) && k0 < |cs| && !Gone(cs, f, k0)
    ensures cs[k0].node in t.order && Known(PutAt(t, Pos(t.order, cs[k0].node)))
    ensures Coarse(cs, f[k0 := true], own', Cells(PutAt(t, Pos(t.order, cs[k0].node))))
  {
    assert Cells(t)[own[k0]] == cs[k0];
    SamePos(t, own[k0], cs[k0].node);
    var i := own[k0];
    PutCells(t, i);
    CoarseStep(cs, f, own, Cells(t), k0, t.order[Survivor(t, i)], t.lo, t.hi);
    own' := seq(|own|, k requires 0 <= k < |own| => Shift(Cells(t), i, own[k]));
  }

  lemma SamePos(t: State, j: nat, n: Node)
    requires Listed(t) && j < |t.order| && Cells(t)[j].node == n
    ensures n in t.order && Pos(t.order, n) == j
  {
    assert t.order[j] == n;
    PosUnique(t.order, j);
  }

  /** drm_mm_takedown's test: the free stack has one entry, and that is the last node. */
  predicate TakedownPasses(s: State) {
    |s.stack| == 1 && |s.order| > 0 && s.order[|s.order| - 1] == s.stack[0]
  }

  /** One free node over the whole range, and nothing else. */
  ghost predicate WholeRangeFree(t: State) {
    && |t.order| == 1 && Known(t) && Cells(t) == [Cell(t.order[0], t.lo, t.hi - t.lo, true)]
    && t.stack == t.order && TakedownPasses(t)
  }

  /** One allocated block over the whole range, and no hole. */
  ghost predicate WholeRangeTaken(t: State) {
    && |t.order| == 1 && Known(t) && Cells(t) == [Cell(t.order[0], t.lo, t.hi - t.lo, false)] && t.stack == []
  }

  predicate NothingAllocated(t: State) {
    forall n :: n in t.order && n in t.info ==> t.info[n].free
  }

  /** The list has a single node if and only if nothing is allocated, or one
      block takes the whole range; nothing is allocated if and only if one free
      node covers the range. */
  lemma CleanIs(t: State)
    requires Valid(t)
    ensures |t.order| == 1 <==> WholeRangeFree(t) || WholeRangeTaken(t)
    ensures NothingAllocated(t) <==> WholeRangeFree(t)
  {
    if |t.order| == 1 {
      assert t.order[0] in t.order;
      if Cells(t)[0].free { OneNode(t); } else { NoHole(t); }
    }
    if |t.order| > 1 { SomeTaken(t); }
    if NothingAllocated(t) { assert t.order[0] in t.order; }
  }

  lemma SomeTaken(t: State)
    requires Valid(t) && |t.order| > 1
    ensures !NothingAllocated(t)
  {
    var k := if Cells(t)[0].free then 1 else 0;
    assert t.order[k] in t.order && !Cells(t)[k].free;
  }

  lemma NoHole(t: State)
    requires Valid(t) && |t.order| == 1 && !Cells(t)[0].free
    ensures t.stack == []
  {
    if t.stack != [] {
      HasFree(t);
      assert false;
    }
  }

  lemma HasFree(t: State)
    requires Valid(t) && t.stack != []
    ensures exists k :: 0 <= k < |t.order| && Cells(t)[k].free
  {
    assert t.stack[0] in t.stack && t.stack[0] in t.order;
    var k := Pos(t.order, t.stack[0]);
    assert Cells(t)[k].free;
  }

  /** Returning every allocated block, in any order, leaves one free node over the whole range. */
  lemma AllReturned(s: State, ns: seq<Node>)
    requires Valid(s) && Allocated(s, ns)
    requires forall n :: n in s.order && n in s.info && !s.info[n].free ==> n in ns
    ensures WholeRangeFree(PutAll(s, ns))
  {
    var own := PutAllCoarse(s, ns);
    AllMarked(s, ns);
    OneCell(Cells(s), Marks(Cells(s), ns), own, PutAll(s, ns));
  }

  lemma OneCell(cs: seq<Cell>, f: seq<bool>, own: seq<int>, t: State)
    requires Valid(t) && Tiling(cs, t.lo, t.hi) && Coarse(cs, f, own, Cells(t)) && forall k :: 0 <= k < |cs| ==> Gone(cs, f, k)
    ensures WholeRangeFree(t)
  {
    AllGoneOneCell(cs, f, own, Cells(t), t.lo, t.hi);
    OneNode(t);
  }

  lemma AllMarked(s: State, ns: seq<Node>)
    requires Known(s) && forall n :: n in s.order && n in s.info && !s.info[n].free ==> n in ns
    ensures forall k :: 0 <= k < |Cells(s)| ==> Gone(Cells(s), Marks(Cells(s), ns), k)
  {
    forall k | 0 <= k < |Cells(s)| ensures Gone(Cells(s), Marks(Cells(s), ns), k) { assert s.order[k] in s.order; }
  }

  lemma AllGoneOneCell(cs: seq<Cell>, f: seq<bool>, own: seq<int>, ds: seq<Cell>, lo: int, hi: int)
    requires Coarse(cs, f, own, ds) && Tiling(cs, lo, hi) && Settled(ds) && forall k :: 0 <= k < |cs| ==> Gone(cs, f, k)
    ensures |ds| == 1 && ds[0].free && ds[0].start == lo && ds[0].End() == hi
  {
    RegionIsCell(cs, f, own, ds, 0, |cs|, lo, hi);
    assert own[|cs| - 1] == own[0];
  }

  lemma OneNode(t: State)
    requires Valid(t) && |Cells(t)| == 1 && Cells(t)[0].free
    ensures t.stack == t.order && TakedownPasses(t)
  {
    var n := t.order[0];
    assert n in t.order && n in t.stack;
    forall k | 0 <= k < |t.stack| ensures t.stack[k] == n {
      assert t.stack[k] in t.stack && t.stack[k] in t.order;
    }
    PosUnique(t.stack, 0);
    PosUnique(t.stack, |t.stack| - 1);
  }
}
