/** Where the range allocator's comments and checks fall short, at states a caller
    can reach from a new manager (drm_mm.c:466-528, 552-564). */
module MmCases {
  import opened MmState
  import opened MmAlloc
  import opened MmFit
  import opened MmScan
  import opened MmRuns
  import opened MmEvict
  import opened MmHistory
  import opened MmStale

  /** After one get from a new manager takedown's test passes with the block still allocated. */
  lemma TakedownWithBlock(s: State, got: Node)
    requires Valid(s) && WholeRangeFree(s) && s.unused == [] && s.hi - s.lo > 1 && got !in s.info
    ensures Allowed(s, One(s.order[0], got))
    ensures var t := Do(s, One(s.order[0], got)); Valid(t) && TakedownPasses(t) && !NothingAllocated(t)
  {
    var h := s.order[0];
    assert Cells(s)[0] == CellOf(s, h) && s.order == [] + [h];
    GetNew(s, [], h, got);
    var t := Do(s, One(h, got));
    assert t.order[0] == got && t.order[1] == h && got in t.order;
    TakedownExact(t);
  }

  /** A block of no units at address 0 is to be evicted by any scan, without a hit. */
  lemma EmptyBlockIsEvicted(s: State, got: Node, size: int, alignment: nat) returns (t: State)
    requires Valid(s) && WholeRangeFree(s) && s.lo == 0 && 0 < s.hi < size && got !in s.info
    ensures Allowed(s, Get(s.order[0], 0, 0, null, got)) && t == InitScan(Do(s, Get(s.order[0], 0, 0, null, got)), size, alignment)
    ensures Valid(t) && ScanShape(t) && Allocated(t, [got]) && !AnyHit(t, [got]) && Unwinds(AddAll(t, [got]), [got], t, {got})
  {
    var h := s.order[0];
    assert h in s.order && Cells(s)[0] == CellOf(s, h);
    StepKeepsValid(s, Get(h, 0, 0, null, got));
    EmptyIs(s, h, got);
    t := InitScan(Do(s, Get(h, 0, 0, null, got)), size, alignment);
    InitScanShape(Do(s, Get(h, 0, 0, null, got)), size, alignment);
    EmptyGoes(t, h, got);
  }

  lemma EmptyGoes(t: State, h: Node, got: Node)
    requires Valid(t) && ScanShape(t) && t.order == [got, h] && !t.info[got].free && t.info[h].free && t.info[got].start == 0
    requires t.info[got].size == 0 && t.info[h].size < t.scanSize && t.hitStart == 0 && t.hitSize == 0
    ensures Allocated(t, [got]) && !AnyHit(t, [got]) && Unwinds(AddAll(t, [got]), [got], t, {got})
  {
    assert t.order[1] == h && h in t.order && 0 <= Cells(t)[1].size;
    EmptyMisses(t, h, got);
    NoHitNoEviction(t, [got]);
    assert EmptyAtZero(t, [got]) == {got};
  }

  lemma EmptyIs(s: State, h: Node, got: Node)
    requires Valid(s) && s.order == [h] && s.info[h].size == s.hi && s.info[h].start == 0 && 0 < s.hi && got !in s.info && s.info[h].free
    ensures var t := GetAt(s, 0, 0, 0, null, got).0;
      && t.order == [got, h] && got in t.info && h in t.info && !t.info[got].free && t.info[h].free
      && t.info[got].start == 0 && t.info[got].size == 0 && t.info[h].start == 0 && t.info[h].size == s.hi
  {
  }

  lemma EmptyMisses(t: State, h: Node, got: Node)
    requires ScanShape(t) && t.order == [got, h] && !t.info[got].free && t.info[h].free && t.info[got].start == 0
    requires t.info[got].size == 0 && t.info[h].size < t.scanSize
    ensures Allocated(t, [got]) && !AnyHit(t, [got])
  {
    assert t.order[0] == got && t.order[1] == h;
    PosUnique(t.order, 0);
    assert [got][..0] == [];
    AnyHitOne(t, got);
  }

  /** A scan of a single block. */
  lemma AnyHitOne(t: State, n: Node)
    requires ScanShape(t) && Allocated(t, [n]) && n in t.order
    ensures AnyHit(t, [n]) == AddAt(t, Pos(t.order, n)).1 && AddAll(t, [n]) == AddAt(t, Pos(t.order, n)).0
  {
    assert [n][..0] == [];
    AllocatedPrefix(t, [n], 0);
    AddAllLast(t, [n], 0);
  }

  // --- An evicted block that is not on top of the free stack ---

  /** Four nodes of one unit, the outer two free, the first of them freed last. */
  ghost predicate Four(t: State, g1: Node, g2: Node, g3: Node, h: Node) {
    && Looks(t, [g1, g2, g3, h], [], {g1, h}) && t.stack == [g1, h]
    && Ones(t, t.order)
  }

  predicate Ones(t: State, ns: seq<Node>) {
    forall n :: n in ns ==> n in t.info && t.info[n].size == 1
  }

  /** Three blocks taken from a new manager of four units, and the first returned. */
  lemma FourIsReached(s: State, g1: Node, g2: Node, g3: Node) returns (t: State)
    requires Valid(s) && WholeRangeFree(s) && s.unused == [] && s.hi - s.lo == 4
    requires g1 !in s.info && g2 !in s.info && g3 !in s.info && g1 != g2 && g1 != g3 && g2 != g3
    ensures var h := s.order[0];
      Run(s, [One(h, g1)] + ([One(h, g2)] + ([One(h, g3)] + ([Give(g1)] + []))), t) && Four(t, g1, g2, g3, h)
  {
    var h := s.order[0];
    assert Cells(s)[0] == CellOf(s, h) && s.order == [] + [h];
    GetNew(s, [], h, g1);
    var u := Do(s, One(h, g1));
    assert [] + [g1, h] == [g1] + [h];
    t := FourFromOne(u, g1, g2, g3, h);
    RunCons(s, One(h, g1), [One(h, g2)] + ([One(h, g3)] + ([Give(g1)] + [])), t);
  }

  lemma FourFromOne(s: State, g1: Node, g2: Node, g3: Node, h: Node) returns (t: State)
    requires Looks(s, [g1] + [h], [], {h}) && s.info[h].size == 3 && Ones(s, [g1]) && s.stack == [h]
    requires g2 !in s.info && g3 !in s.info && g2 != g3
    ensures Run(s, [One(h, g2)] + ([One(h, g3)] + ([Give(g1)] + [])), t) && Four(t, g1, g2, g3, h)
  {
    GetNew(s, [g1], h, g2);
    var u := Do(s, One(h, g2));
    assert [g1] + [g2, h] == [g1, g2] + [h] && g1 in [g1] && Ones(u, [g1, g2]);
    t := FourFromTwo(u, g1, g2, g3, h);
    RunCons(s, One(h, g2), [One(h, g3)] + ([Give(g1)] + []), t);
  }

  lemma FourFromTwo(s: State, g1: Node, g2: Node, g3: Node, h: Node) returns (t: State)
    requires Looks(s, [g1, g2] + [h], [], {h}) && s.info[h].size == 2 && Ones(s, [g1, g2])
    requires s.stack == [h] && g3 !in s.info
    ensures Run(s, [One(h, g3)] + ([Give(g1)] + []), t) && Four(t, g1, g2, g3, h)
  {
    GetNew(s, [g1, g2], h, g3);
    var u := Do(s, One(h, g3));
    assert [g1, g2] + [g3, h] == [g1, g2, g3, h] && g1 in [g1, g2] && g2 in [g1, g2];
    assert Ones(u, [g1, g2, g3, h]);
    t := FourFromThree(u, g1, g2, g3, h);
    RunCons(s, One(h, g3), [Give(g1)] + [], t);
  }

  lemma FourFromThree(s: State, g1: Node, g2: Node, g3: Node, h: Node) returns (t: State)
    requires Looks(s, [g1, g2, g3, h], [], {h}) && s.stack == [h] && Ones(s, s.order)
    ensures Run(s, [Give(g1)] + [], t) && Four(t, g1, g2, g3, h)
  {
    GiveFirst(s, g1, g2, g3, h);
    t := Do(s, Give(g1));
    RunCons(s, Give(g1), [], t);
  }

  lemma GiveFirst(s: State, g1: Node, g2: Node, g3: Node, h: Node)
    requires Looks(s, [g1, g2, g3, h], [], {h}) && s.stack == [h] && Ones(s, s.order)
    ensures Allowed(s, Give(g1)) && Four(Do(s, Give(g1)), g1, g2, g3, h)
  {
    FirstAlone(s, g1, g2, g3, h);
    GiveAlone(s, 0, {h});
    assert {h} + {g1} == {g1, h} && [g1] + [h] == [g1, h];
  }

  lemma FirstAlone(s: State, g1: Node, g2: Node, g3: Node, h: Node)
    requires Looks(s, [g1, g2, g3, h], [], {h})
    ensures s.order[0] == g1 && !FreeAt(s, 0) && !FreeAt(s, 1)
  {
    assert s.order[0] == g1 && s.order[1] == g2 && s.order[3] == h;
  }

  predicate FourAt(cs: seq<Cell>, lo: int, g1: Node, g2: Node, g3: Node, h: Node) {
    cs == [Cell(g1, lo, 1, true), Cell(g2, lo + 1, 1, false), Cell(g3, lo + 2, 1, false), Cell(h, lo + 3, 1, true)]
  }

  lemma FourCells(s: State, g1: Node, g2: Node, g3: Node, h: Node)
    requires Four(s, g1, g2, g3, h)
    ensures FourAt(Cells(s), s.lo, g1, g2, g3, h)
    ensures g1 != g2 && g1 != g3 && g1 != h && g2 != g3 && g2 != h && g3 != h
  {
    var cs := Cells(s);
    assert s.order[0] == g1 && s.order[1] == g2 && s.order[2] == g3 && s.order[3] == h;
    assert forall i :: 0 <= i < 4 ==> s.order[i] in s.order && cs[i] == CellOf(s, s.order[i]);
    assert cs[0].End() == cs[1].start && cs[1].End() == cs[2].start && cs[2].End() == cs[3].start;
  }

  /** The scan for two units that chooses the third node. */
  lemma FourScan(s: State, g1: Node, g2: Node, g3: Node, h: Node, u: State, t: State)
    requires Four(s, g1, g2, g3, h) && u == InitScan(s, 2, 0)
    ensures ScanShape(u) && Valid(u) && Allocated(u, [g3]) && FourAt(Cells(u), s.lo, g1, g2, g3, h)
    ensures t == AddAll(u, [g3]) ==> AnyHit(u, [g3]) && t.hitStart == s.lo + 2 && t.hitSize == 2
  {
    InitScanShape(s, 2, 0);
    CellsAgree(s, u);
    FourCells(s, g1, g2, g3, h);
    assert u.order[2] == g3 && Cells(u)[2] == CellOf(u, g3);
    if t == AddAll(u, [g3]) { FourHit(u, s.lo, g1, g2, g3, h); }
  }

  lemma FourHit(u: State, lo: int, g1: Node, g2: Node, g3: Node, h: Node)
    requires ScanShape(u) && Allocated(u, [g3]) && u.order == [g1, g2, g3, h] && FourAt(Cells(u), lo, g1, g2, g3, h)
    requires u.scanSize == 2 && u.scanAlign == 0
    ensures AnyHit(u, [g3]) && AddAll(u, [g3]).hitStart == lo + 2 && AddAll(u, [g3]).hitSize == 2
  {
    assert u.order[2] == g3 && u.order[3] == h && u.order[1] == g2;
    assert Cells(u)[1] == CellOf(u, g2) && Cells(u)[2] == CellOf(u, g3) && Cells(u)[3] == CellOf(u, h);
    PosUnique(u.order, 2);
    AnyHitOne(u, g3);
  }

  /** After that eviction the node over the hit, which absorbed the block, is still the second on the
      free stack; the search finds it, as no other node fits. */
  lemma EvictedBelowTop(s: State, g1: Node, g2: Node, g3: Node, h: Node, u: State, t: State, w: State)
    requires Four(s, g1, g2, g3, h) && u == InitScan(s, 2, 0) && ScanShape(u) && Allocated(u, [g3]) && t == AddAll(u, [g3])
    requires w == WithHit(u, t.hitStart, t.hitSize)
    ensures AnyHit(u, [g3]) && Unwinds(t, [g3], w, {g3}) && Valid(w) && Allocated(w, [g3])
    ensures PutAll(w, [g3]).stack == [g1, h] && OnlyOffered(PutAll(w, [g3]), h, 2, 0)
  {
    FourScan(s, g1, g2, g3, h, u, t);
    FourInside(u, s.lo, g1, g2, g3, h);
    FourEvicted(u, s.lo, g1, g2, g3, h, t, w);
  }

  lemma FourEvicted(u: State, lo: int, g1: Node, g2: Node, g3: Node, h: Node, t: State, w: State)
    requires Valid(u) && ScanShape(u) && Allocated(u, [g3]) && u.scanSize == 2 && u.scanAlign == 0 && AnyHit(u, [g3])
    requires t == AddAll(u, [g3]) && w == WithHit(u, t.hitStart, t.hitSize) && t.hitStart == lo + 2 && t.hitSize == 2
    requires u.order == [g1, g2, g3, h] && u.stack == [g1, h] && FourAt(Cells(u), lo, g1, g2, g3, h)
    requires Inside(u, [g3], lo + 2, 2) == {g3} && Lists([g3], {g3})
    ensures Unwinds(t, [g3], w, {g3}) && Valid(w) && Allocated(w, [g3])
    ensures PutAll(w, [g3]).stack == [g1, h] && OnlyOffered(PutAll(w, [g3]), h, 2, 0)
  {
    var n := OneEvicted(u, g3, t, w);
    FourFits(Cells(u), lo, g1, g2, g3, h);
    FourPut(w, lo, g1, g2, g3, h);
    SecondOfTwo(PutAll(w, [g3]), n, g1, h, lo);
  }

  /** The scan of a single block, which lies in its hit, when what fitted before does so too. */
  lemma OneEvicted(u: State, g: Node, t: State, w: State) returns (n: Node)
    requires Valid(u) && ScanShape(u) && Allocated(u, [g]) && 0 < u.scanSize && AnyHit(u, [g]) && t == AddAll(u, [g])
    requires w == WithHit(u, t.hitStart, t.hitSize) && Lists([g], Inside(u, [g], t.hitStart, t.hitSize))
    ensures Unwinds(t, [g], w, Inside(u, [g], t.hitStart, t.hitSize)) && Valid(w) && Allocated(w, [g]) && Cells(w) == Cells(u)
    ensures HoleOver(PutAll(w, [g]), n, t.hitStart, t.hitSize)
    ensures FitsOnlyIn(Cells(u), t.hitStart, t.hitStart + t.hitSize, u.scanSize, u.scanAlign) ==>
      OnlyOffered(PutAll(w, [g]), n, u.scanSize, u.scanAlign)
  {
    WithHitValid(u, t.hitStart, t.hitSize);
    n := EvictionMakesHole(u, [g], [g], t, w);
    EvictedIsFound(u, [g], [g], t, w, n);
  }

  lemma SecondOfTwo(v: State, n: Node, g1: Node, h: Node, lo: int)
    requires v.stack == [g1, h] && HoleOver(v, n, lo + 2, 2) && g1 in v.info && v.info[g1].start == lo
    ensures n == h
  {
  }

  lemma FourFits(cs: seq<Cell>, lo: int, g1: Node, g2: Node, g3: Node, h: Node)
    requires FourAt(cs, lo, g1, g2, g3, h)
    ensures FitsOnlyIn(cs, lo + 2, lo + 2 + 2, 2, 0)
  {
  }

  lemma FourInside(u: State, lo: int, g1: Node, g2: Node, g3: Node, h: Node)
    requires Known(u) && u.order == [g1, g2, g3, h] && FourAt(Cells(u), lo, g1, g2, g3, h)
    ensures Inside(u, [g3], lo + 2, 2) == {g3} && Lists([g3], {g3})
  {
    assert u.order[2] == g3 && Cells(u)[2] == CellOf(u, g3);
  }

  lemma FourPut(w: State, lo: int, g1: Node, g2: Node, g3: Node, h: Node)
    requires Valid(w) && Allocated(w, [g3]) && w.order == [g1, g2, g3, h] && w.stack == [g1, h] && FourAt(Cells(w), lo, g1, g2, g3, h)
    ensures var v := PutAll(w, [g3]); v.stack == [g1, h] && g1 in v.info && v.info[g1].start == lo
  {
    assert w.order[0] == g1 && w.order[1] == g2 && w.order[2] == g3 && w.order[3] == h;
    assert Cells(w)[0] == CellOf(w, g1) && Cells(w)[1] == CellOf(w, g2) && Cells(w)[3] == CellOf(w, h);
    PosUnique(w.order, 2);
    PosUnique(w.order, 3);
    PosUnique(w.order, 0);
    assert [g3][..0] == [];
    AllocatedPrefix(w, [g3], 0);
    PutAllLast(w, [g3], 0);
    PutIntoNext(w, 2);
  }
}
