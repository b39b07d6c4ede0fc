/** Scanning any number of blocks, unwinding, and evicting what the scan chose
    (drm_mm.c:378-528). */
module MmEvict {
  import opened MmState
  import opened MmAlloc
  import opened MmFit
  import opened MmScan
  import opened MmCoarse
  import opened MmRuns

  /** drm_mm_scan_add_block on each node in turn. */
  ghost function AddAll(s: State, ns: seq<Node>): (t: State)
    requires ScanShape(s) && Allocated(s, ns)
    ensures ScanShape(t) && t.lo == s.lo && t.hi == s.hi && t.scanSize == s.scanSize && t.scanAlign == s.scanAlign
    ensures forall n :: n in s.order && n in s.info && !s.info[n].free && n !in ns ==>
      n in t.order && n in t.info && t.info[n] == s.info[n]
  {
    if ns == [] then s else
      var k := |ns| - 1;
      AllocatedPrefix(s, ns, k);
      var t := AddAll(s, ns[..k]);
      var i := Pos(t.order, ns[k]);
      AddKeepsShape(t, i);
      AddFrame(t, i);
      AddAt(t, i).0
  }

  lemma AddFrame(s: State, i: nat)
    requires ScanShape(s) && i < |s.order|
    ensures forall n :: n in s.order && n in s.info && !s.info[n].free && n != s.order[i] ==>
      n in AddAt(s, i).0.order && n in AddAt(s, i).0.info && AddAt(s, i).0.info[n] == s.info[n]
  {
    forall n | n in s.order && n in s.info && !s.info[n].free && n != s.order[i]
      ensures n in AddAt(s, i).0.order && n in AddAt(s, i).0.info && AddAt(s, i).0.info[n] == s.info[n]
    {
      AddMembers(s, i, n);
      AddInfoElsewhere(s, i, n);
    }
  }

  lemma AddInfoElsewhere(s: State, i: nat, n: Node)
    requires Known(s) && i < |s.order| && n in s.info && !s.info[n].free && n != s.order[i]
    ensures n in AddInfo(s, i) && AddInfo(s, i)[n] == s.info[n]
  {
  }

  /** Whether any of the additions reported a hole. */
  ghost predicate AnyHit(s: State, ns: seq<Node>)
    requires ScanShape(s) && Allocated(s, ns)
  {
    ns != [] &&
    var k := |ns| - 1;
    AllocatedPrefix(s, ns, k);
    var t := AddAll(s, ns[..k]);
    AnyHit(s, ns[..k]) || AddAt(t, Pos(t.order, ns[k])).1
  }

  /** `t` with the blocks taken off the scan list, the last of `ns` first, is
      `u`, and `evict` are the blocks whose removal returned 1. */
  ghost predicate Unwinds(t: State, ns: seq<Node>, u: State, evict: set<Node>)
    decreases |ns|
  {
    if ns == [] then u == t && evict == {}
    else
      var k := |ns| - 1;
      && Removable(t, ns[k])
      && Remove(t, ns[k]).1 == (ns[k] in evict)
      && Unwinds(Remove(t, ns[k]).0, ns[..k], u, evict - {ns[k]})
  }

  /** The blocks that lie inside the recorded hit. */
  ghost function Inside(s: State, ns: seq<Node>, start: int, size: int): set<Node> {
    set n | n in ns && n in s.info && start <= s.info[n].start && s.info[n].End() <= start + size
  }

  /** Scan undo: adding distinct allocated blocks and removing them in reverse
      restores the list, every field of every node and the scan count; removal
      returns 1 exactly for the blocks inside the last recorded hit. */
  lemma {:induction false} ScanUndo(s: State, ns: seq<Node>, start: int, size: int)
    requires ScanShape(s) && Allocated(s, ns)
    ensures Unwinds(WithHit(AddAll(s, ns), start, size), ns, WithHit(s, start, size), Inside(s, ns, start, size))
    decreases |ns|
  {
    if ns != [] {
      var k := |ns| - 1;
      var n, pre := ns[k], ns[..k];
      assert ns == pre + [n];
      AllocatedPrefix(s, ns, k);
      ScanUndo(s, pre, start, size);
      UndoSnoc(s, pre, n, start, size, AddAll(s, pre));
      AddAllLast(s, ns, k);
    }
  }

  lemma UndoSnoc(s: State, pre: seq<Node>, n: Node, start: int, size: int, t: State)
    requires n !in pre && n in s.info && ScanShape(t) && n in t.order && !t.info[n].free && t.info[n] == s.info[n]
    requires Unwinds(WithHit(t, start, size), pre, WithHit(s, start, size), Inside(s, pre, start, size))
    ensures Unwinds(WithHit(AddAt(t, Pos(t.order, n)).0, start, size), pre + [n], WithHit(s, start, size),
                    Inside(s, pre + [n], start, size))
  {
    var inside := start <= s.info[n].start && s.info[n].End() <= start + size;
    InsideSnoc(s, pre, n, start, size, inside);
    UnwindLast(t, pre, n, start, size, WithHit(s, start, size), Inside(s, pre, start, size), inside);
  }

  lemma InsideSnoc(s: State, ns: seq<Node>, n: Node, start: int, size: int, inside: bool)
    requires n in s.info && n !in ns
    requires inside == (start <= s.info[n].start && s.info[n].End() <= start + size)
    ensures Inside(s, ns + [n], start, size) == Inside(s, ns, start, size) + if inside then {n} else {}
    ensures n !in Inside(s, ns, start, size)
  {
  }

  /** One block more to take off, before the others. */
  lemma UnwindSnoc(t: State, ns: seq<Node>, n: Node, t': State, u: State, evict: set<Node>)
    requires Removable(t, n) && Remove(t, n) == (t', n in evict) && Unwinds(t', ns, u, evict - {n})
    ensures Unwinds(t, ns + [n], u, evict)
  {
    var xs := ns + [n];
    assert xs[..|xs| - 1] == ns && xs[|xs| - 1] == n;
  }

  lemma UnwindLast(t: State, ns: seq<Node>, n: Node, start: int, size: int, u: State, evict: set<Node>, inside: bool)
    requires ScanShape(t) && n in t.order && !t.info[n].free && n !in evict
    requires Unwinds(WithHit(t, start, size), ns, u, evict)
    requires inside == (start <= t.info[n].start && t.info[n].End() <= start + size)
    ensures Unwinds(WithHit(AddAt(t, Pos(t.order, n)).0, start, size), ns + [n], u, evict + if inside then {n} else {})
  {
    var more := evict + if inside then {n} else {};
    assert more - {n} == evict;
    UndoLast(t, n, start, size);
    UnwindSnoc(WithHit(AddAt(t, Pos(t.order, n)).0, start, size), ns, n, WithHit(t, start, size), u, more);
  }

  lemma UndoLast(t: State, n: Node, start: int, size: int)
    requires ScanShape(t) && n in t.order && !t.info[n].free
    ensures var u := WithHit(AddAt(t, Pos(t.order, n)).0, start, size);
      && n in u.order && Removable(u, n)
      && Remove(u, n) == (WithHit(t, start, size), start <= t.info[n].start && t.info[n].End() <= start + size)
  {
    var i := Pos(t.order, n);
    RemoveUndoesAdd(t, i, start, size);
    AddMembers(t, i, n);
    var u := WithHit(AddAt(t, i).0, start, size);
    PosUnique(u.order, Left(t, i));
  }

  // --- The hit region ---

  /** The recorded hit is a maximal run of free or scanned blocks, and has room for the wanted one. */
  ghost predicate Roomy(cs: seq<Cell>, f: seq<bool>, start: int, end: int, size: int, alignment: nat) {
    IsRegion(cs, f, start, end) && FreeHole(start, end, size, alignment)
  }

  ghost predicate IsRegion(cs: seq<Cell>, f: seq<bool>, start: int, end: int) {
    exists a, b :: Region(cs, f, a, b, start, end)
  }

  ghost predicate HitOk(cs: seq<Cell>, f: seq<bool>, t: State) {
    Roomy(cs, f, t.hitStart, t.hitStart + t.hitSize, t.scanSize, t.scanAlign)
  }

  /** One more block on the scan list. */
  lemma AddCoarse(cs: seq<Cell>, f: seq<bool>, own: seq<int>, t: State, k0: nat) returns (own': seq<int>)
    requires ScanShape(t) && Coarse(cs, f, own, Cells(t)) && k0 < |cs| && !Gone(cs, f, k0)
    ensures own[k0] < |t.order| && t.order[own[k0]] == cs[k0].node && Cells(t)[own[k0]] == cs[k0]
    ensures cs[k0].node in t.order && Pos(t.order, cs[k0].node) == own[k0]
    ensures var u := AddAt(t, own[k0]).0;
      && Known(u) && Coarse(cs, f[k0 := true], own', Cells(u))
      && 0 <= own'[k0] < |Cells(u)|
      && Cells(u)[own'[k0]] == Cell(cs[k0].node, t.info[t.order[Left(t, own[k0])]].start, FusedSize(t, own[k0]), true)
  {
    assert Cells(t)[own[k0]] == cs[k0];
    SamePos(t, own[k0], cs[k0].node);
    own' := AddCoarseAt(cs, f, own, t, k0, own[k0]);
  }

  lemma AddCoarseAt(cs: seq<Cell>, f: seq<bool>, own: seq<int>, t: State, k0: nat, i: nat) returns (own': seq<int>)
    requires ScanShape(t) && Coarse(cs, f, own, Cells(t)) && k0 < |cs| && !Gone(cs, f, k0)
    requires i < |t.order| && own[k0] == i && Cells(t)[i] == cs[k0]
    ensures var u := AddAt(t, i).0;
      && Known(u) && Coarse(cs, f[k0 := true], own', Cells(u))
      && 0 <= own'[k0] < |Cells(u)|
      && Cells(u)[own'[k0]] == Cell(cs[k0].node, t.info[t.order[Left(t, i)]].start, FusedSize(t, i), true)
  {
    own' := AddCoarseOwn(cs, f, own, t, k0, i);
    AddedCell(t, i);
  }

  lemma AddCoarseOwn(cs: seq<Cell>, f: seq<bool>, own: seq<int>, t: State, k0: nat, i: nat) returns (own': seq<int>)
    requires ScanShape(t) && Coarse(cs, f, own, Cells(t)) && k0 < |cs| && !Gone(cs, f, k0)
    requires i < |t.order| && own[k0] == i && Cells(t)[i] == cs[k0]
    ensures Known(AddAt(t, i).0) && Coarse(cs, f[k0 := true], own', Cells(AddAt(t, i).0))
    ensures own' == seq(|own|, k requires 0 <= k < |own| => Shift(Cells(t), i, own[k]))
  {
    var ds := Cells(t);
    AddCells(t, i);
    assert Tiling(ds, t.lo, t.hi) && Settled(ds);
    CoarseStep(cs, f, own, ds, k0, t.order[i], t.lo, t.hi);
    own' := seq(|own|, k requires 0 <= k < |own| => Shift(ds, i, own[k]));
  }

  /** Where the added block went, and what it is there. */
  lemma AddedCell(t: State, i: nat)
    requires Known(t) && NoDup(t.order) && i < |t.order| && !Cells(t)[i].free && Known(AddAt(t, i).0)
    ensures var u := AddAt(t, i).0;
      && Shift(Cells(t), i, i) == Left(t, i) < |Cells(u)|
      && Cells(u)[Left(t, i)] == Cell(t.order[i], t.info[t.order[Left(t, i)]].start, FusedSize(t, i), true)
  {
    Neighbourhood(t, i);
    AddCellAt(t, i, Left(t, i));
  }

  /** A region stays one unless a block next to it is freed. */
  lemma RegionSurvives(cs: seq<Cell>, f: seq<bool>, a: int, b: int, start: int, end: int, k0: nat)
    requires Region(cs, f, a, b, start, end) && k0 < |cs| && !Gone(cs, f, k0) && k0 != a - 1 && k0 != b
    ensures Region(cs, f[k0 := true], a, b, start, end)
  {
    var f' := f[k0 := true];
    forall k | a <= k < b ensures Gone(cs, f', k) { assert Gone(cs, f, k); }
    assert a > 0 ==> !Gone(cs, f', a - 1);
    assert b < |cs| ==> !Gone(cs, f', b);
  }

  /** A block next to a region joins it. */
  lemma RegionJoins(cs: seq<Cell>, f: seq<bool>, a: int, b: int, start: int, end: int, k0: nat,
                    a': int, b': int, start': int, end': int, lo: int, hi: int)
    requires Tiling(cs, lo, hi) && Region(cs, f, a, b, start, end) && k0 < |cs| && (k0 == a - 1 || k0 == b)
    requires a' <= k0 < b' && Region(cs, f[k0 := true], a', b', start', end')
    ensures start' <= start && end <= end'
  {
    var f' := f[k0 := true];
    forall k | a <= k < b ensures Gone(cs, f', k) { assert Gone(cs, f, k); }
    assert Gone(cs, f', k0);
    assert a' > 0 ==> !Gone(cs, f', a' - 1);
    assert b' < |cs| ==> !Gone(cs, f', b');
    assert a' <= a && b <= b';
    StartsGrow(cs, lo, hi, a', a);
    StartsGrow(cs, lo, hi, b - 1, b' - 1);
  }

  /** Freeing a block that makes no room keeps the room there is. */
  lemma RoomySurvives(cs: seq<Cell>, f: seq<bool>, own': seq<int>, ds: seq<Cell>, k0: nat, start: int, end: int,
                      size: int, alignment: nat, lo: int, hi: int)
    requires Tiling(cs, lo, hi) && 0 <= lo && k0 < |cs| && |f| == |cs| && !Gone(cs, f, k0) && 0 <= size
    requires Coarse(cs, f[k0 := true], own', ds) && Settled(ds) && Roomy(cs, f, start, end, size, alignment)
    requires !FreeHole(ds[own'[k0]].start, ds[own'[k0]].End(), size, alignment)
    ensures Roomy(cs, f[k0 := true], start, end, size, alignment)
  {
    var a', b' := CellIsRegion(cs, f[k0 := true], own', ds, k0);
    var cell := ds[own'[k0]];
    var a, b :| Region(cs, f, a, b, start, end);
    if k0 == a - 1 || k0 == b {
      RegionJoins(cs, f, a, b, start, end, k0, a', b', cell.start, cell.End(), lo, hi);
      StartsGrow(cs, lo, hi, a', a');
      FreeHoleGrows(start, end, cell.start, cell.End(), size, alignment);
      assert false;
    }
    RegionSurvives(cs, f, a, b, start, end, k0);
  }

  lemma HitStep(cs: seq<Cell>, f: seq<bool>, own: seq<int>, t: State, k0: nat) returns (own': seq<int>)
    requires ScanShape(t) && Coarse(cs, f, own, Cells(t)) && k0 < |cs| && !Gone(cs, f, k0)
    requires Tiling(cs, t.lo, t.hi) && 0 <= t.scanSize
    ensures cs[k0].node in t.order
    ensures var u := AddAt(t, Pos(t.order, cs[k0].node)).0;
      Known(u) && Coarse(cs, f[k0 := true], own', Cells(u)) && HitKept(cs, f, f[k0 := true], t, Pos(t.order, cs[k0].node))
  {
    own' := AddCoarse(cs, f, own, t, k0);
    AddShape(t, own[k0], cs[k0]);
    var (u, hit) := AddAt(t, own[k0]);
    HitCore(cs, f, own', t, u, hit, k0);
  }

  lemma HitCore(cs: seq<Cell>, f: seq<bool>, own': seq<int>, t: State, u: State, hit: bool, k0: nat)
    requires k0 < |cs| == |f| && !Gone(cs, f, k0) && Tiling(cs, t.lo, t.hi) && 0 <= t.scanSize && 0 <= t.lo
    requires Known(u) && Coarse(cs, f[k0 := true], own', Cells(u)) && Settled(Cells(u))
    requires u.scanSize == t.scanSize && u.scanAlign == t.scanAlign
    requires var c := Cells(u)[own'[k0]];
      && hit == FreeHole(c.start, c.End(), t.scanSize, t.scanAlign)
      && (u.hitStart, u.hitSize) == if hit then (c.start, c.size) else (t.hitStart, t.hitSize)
    ensures hit || HitOk(cs, f, t) ==> HitOk(cs, f[k0 := true], u)
  {
    if hit {
      var a', b' := CellIsRegion(cs, f[k0 := true], own', Cells(u), k0);
      assert Region(cs, f[k0 := true], a', b', u.hitStart, u.hitStart + u.hitSize);
    } else if HitOk(cs, f, t) {
      RoomySurvives(cs, f, own', Cells(u), k0, t.hitStart, t.hitStart + t.hitSize, t.scanSize, t.scanAlign, t.lo, t.hi);
    }
  }

  lemma AddShape(t: State, i: nat, c: Cell)
    requires ScanShape(t) && i < |t.order| && Cells(t)[i] == c && !c.free
    ensures Known(AddAt(t, i).0) && Settled(Cells(AddAt(t, i).0)) && 0 <= t.lo
  {
    AddKeepsShape(t, i);
  }

  /** A hit is recorded, and a hit on record stays good, when the block at `i` is added. */
  ghost predicate HitKept(cs: seq<Cell>, f: seq<bool>, f': seq<bool>, t: State, i: nat)
    requires i < |t.order| && Known(t)
  {
    var (u, hit) := AddAt(t, i);
    && (hit || HitOk(cs, f, t) ==> HitOk(cs, f', u))
    && (!hit ==> u.hitStart == t.hitStart && u.hitSize == t.hitSize)
  }

  /** The list after freeing the cells in `f`, and what the recorded hit is worth. */
  ghost predicate Outcome(s: State, f: seq<bool>, own: seq<int>, t: State, hit: bool)
    requires Known(s) && |f| == |s.order|
  {
    && Known(t) && Coarse(Cells(s), f, own, Cells(t))
    && (hit ==> Roomy(Cells(s), f, t.hitStart, t.hitStart + t.hitSize, s.scanSize, s.scanAlign))
    && (!hit ==> t.hitStart == s.hitStart && t.hitSize == s.hitSize)
  }

  lemma OutcomeStep(s: State, f: seq<bool>, own: seq<int>, t: State, hit: bool, k0: nat) returns (own': seq<int>)
    requires Known(s) && |f| == |s.order| && k0 < |f| && ScanShape(t) && Outcome(s, f, own, t, hit)
    requires Tiling(Cells(s), t.lo, t.hi) && 0 <= t.scanSize && !Gone(Cells(s), f, k0)
    requires t.scanSize == s.scanSize && t.scanAlign == s.scanAlign
    ensures s.order[k0] in t.order
    ensures var (u, more) := AddAt(t, Pos(t.order, s.order[k0])); Outcome(s, f[k0 := true], own', u, hit || more)
  {
    own' := HitStep(Cells(s), f, own, t, k0);
  }

  /** The list while blocks are scanned: a hit stays on record, and good, whatever is added after it. */
  lemma AddAllOutcome(s: State, ns: seq<Node>) returns (own: seq<int>)
    requires ScanShape(s) && Allocated(s, ns) && 0 <= s.scanSize
    ensures Outcome(s, Marks(Cells(s), ns), own, AddAll(s, ns), AnyHit(s, ns))
    decreases |ns|
  {
    var cs := Cells(s);
    if ns == [] {
      CoarseInit(cs, s.lo, s.hi);
      own := seq(|cs|, k => k);
      assert Marks(cs, ns) == seq(|cs|, k => false);
    } else {
      var m := |ns| - 1;
      var n, pre := ns[m], ns[..m];
      assert ns == pre + [n];
      AllocatedPrefix(s, ns, m);
      var own0 := AddAllOutcome(s, pre);
      own := OutcomeSnoc(s, pre, n, own0, AddAll(s, pre), AnyHit(s, pre));
      AddAllLast(s, ns, m);
    }
  }

  /** One more block on the scan list, in terms of marks. */
  lemma OutcomeSnoc(s: State, pre: seq<Node>, n: Node, own0: seq<int>, t: State, hit: bool) returns (own: seq<int>)
    requires Shape(s) && n in s.order && !s.info[n].free && n !in pre && 0 <= s.scanSize
    requires ScanShape(t) && t.lo == s.lo && t.hi == s.hi && t.scanSize == s.scanSize && t.scanAlign == s.scanAlign
    requires Outcome(s, Marks(Cells(s), pre), own0, t, hit)
    ensures n in t.order
    ensures var (u, more) := AddAt(t, Pos(t.order, n)); Outcome(s, Marks(Cells(s), pre + [n]), own, u, hit || more)
  {
    var k0 := OriginalCell(s, n);
    MarksSnoc(Cells(s), pre, n, k0);
    own := OutcomeStep(s, Marks(Cells(s), pre), own0, t, hit, k0);
  }

  lemma AddAllLast(s: State, ns: seq<Node>, m: nat)
    requires ScanShape(s) && Allocated(s, ns) && |ns| == m + 1 && Allocated(s, ns[..m])
    ensures var t := AddAll(s, ns[..m]);
      ns[m] in t.order && AddAll(s, ns) == AddAt(t, Pos(t.order, ns[m])).0
      && AnyHit(s, ns) == (AnyHit(s, ns[..m]) || AddAt(t, Pos(t.order, ns[m])).1)
  {
  }

  // --- Evicting ---

  /** drm_mm_init_scan starts a scan for what its caller asks, with nothing found. */
  lemma InitScanShape(s: State, size: int, alignment: nat)
    requires Valid(s)
    ensures ScanShape(InitScan(s, size, alignment)) && Valid(InitScan(s, size, alignment))
    ensures var t := InitScan(s, size, alignment);
      t.scanSize == size && t.scanAlign == alignment && t.scanned == 0 && t.hitStart == 0 && t.hitSize == 0
      && Cells(t) == Cells(s) && t.stack == s.stack && t.unused == s.unused
  {
    CellsAgree(s, InitScan(s, size, alignment));
  }

  lemma WithHitValid(s: State, start: int, size: int)
    requires Valid(s)
    ensures Valid(WithHit(s, start, size)) && Cells(WithHit(s, start, size)) == Cells(s)
  {
    CellsAgree(s, WithHit(s, start, size));
  }

  /** Freeing only the scanned blocks inside the hit region keeps it a region. */
  lemma RegionOfInside(cs: seq<Cell>, f: seq<bool>, g: seq<bool>, a: int, b: int, start: int, end: int, lo: int, hi: int)
    requires Tiling(cs, lo, hi) && Region(cs, f, a, b, start, end) && |g| == |cs|
    requires forall k :: 0 <= k < |cs| ==> (g[k] <==> f[k] && start <= cs[k].start && cs[k].End() <= end)
    ensures Region(cs, g, a, b, start, end)
  {
    forall k | a <= k < b ensures Gone(cs, g, k) {
      assert Gone(cs, f, k);
      StartsGrow(cs, lo, hi, a, k);
      StartsGrow(cs, lo, hi, k, b - 1);
    }
    assert a > 0 ==> !Gone(cs, g, a - 1);
    assert b < |cs| ==> !Gone(cs, g, b);
  }

  /** `es` lists the blocks in `evict`, in some order. */
  ghost predicate Lists(es: seq<Node>, evict: set<Node>) {
    NoDup(es) && (forall n :: n in es ==> n in evict) && (forall n :: n in evict ==> n in es)
  }

  /** The marks of the evicted blocks. */
  lemma InsideMarks(s: State, ns: seq<Node>, es: seq<Node>, start: int, size: int)
    requires Shape(s) && Allocated(s, ns) && Lists(es, Inside(s, ns, start, size))
    ensures Allocated(s, es)
    ensures forall k :: 0 <= k < |s.order| ==>
      (Marks(Cells(s), es)[k] <==> Marks(Cells(s), ns)[k] && start <= Cells(s)[k].start && Cells(s)[k].End() <= start + size)
  {
    forall k | 0 <= k < |s.order|
      ensures Marks(Cells(s), es)[k] <==> Marks(Cells(s), ns)[k] && start <= Cells(s)[k].start && Cells(s)[k].End() <= start + size
    {
      assert s.order[k] in es <==> s.order[k] in Inside(s, ns, start, size);
    }
  }

  /** A free node over exactly [start, start + size). */
  ghost predicate HoleOver(t: State, n: Node, start: int, size: int) {
    n in t.stack && n in t.order && n in t.info && t.info[n].start == start && t.info[n].size == size
  }

  lemma CellInStack(t: State, j: nat)
    requires Valid(t) && j < |t.order| && Cells(t)[j].free
    ensures HoleOver(t, t.order[j], Cells(t)[j].start, Cells(t)[j].size)
  {
    assert t.order[j] in t.order;
  }

  /** Evicting a region: once the blocks of `es` are back, in whatever order, one hole covers it. */
  lemma RegionBecomesHole(s: State, es: seq<Node>, a: int, b: int, start: int, end: int) returns (n: Node)
    requires Valid(s) && Allocated(s, es) && Region(Cells(s), Marks(Cells(s), es), a, b, start, end)
    ensures HoleOver(PutAll(s, es), n, start, end - start)
  {
    var own := PutAllCoarse(s, es);
    RegionIsCell(Cells(s), Marks(Cells(s), es), own, Cells(PutAll(s, es)), a, b, start, end);
    CellInStack(PutAll(s, es), own[a]);
    n := PutAll(s, es).order[own[a]];
  }

  /** The scan of `ns` unwinds to the state before it, but for the hit on record. */
  lemma ScanUnwinds(s: State, ns: seq<Node>, t: State)
    requires ScanShape(s) && Allocated(s, ns) && t == AddAll(s, ns)
    ensures Unwinds(t, ns, WithHit(s, t.hitStart, t.hitSize), Inside(s, ns, t.hitStart, t.hitSize))
  {
    ScanUndo(s, ns, t.hitStart, t.hitSize);
    assert t == WithHit(t, t.hitStart, t.hitSize);
  }

  /** What the scan recorded, in terms of the blocks before it. */
  lemma HitIsRoomy(s: State, ns: seq<Node>, t: State)
    requires ScanShape(s) && Allocated(s, ns) && 0 <= s.scanSize && AnyHit(s, ns) && t == AddAll(s, ns)
    ensures Roomy(Cells(s), Marks(Cells(s), ns), t.hitStart, t.hitStart + t.hitSize, s.scanSize, s.scanAlign)
  {
    var own := AddAllOutcome(s, ns);
    OutcomeRoomy(s, Marks(Cells(s), ns), own, t, AnyHit(s, ns));
  }

  lemma OutcomeRoomy(s: State, f: seq<bool>, own: seq<int>, t: State, hit: bool)
    requires Known(s) && |f| == |s.order| && hit && Outcome(s, f, own, t, hit)
    ensures Roomy(Cells(s), f, t.hitStart, t.hitStart + t.hitSize, s.scanSize, s.scanAlign)
  {
  }

  /** Eviction soundness. If some addition to the scan list reported a hole,
      then unwinding and returning exactly the blocks whose removal returned 1,
      in any order, leaves one hole over the whole recorded region, and that
      hole passes the test the search makes. */
  lemma EvictionMakesHole(s: State, ns: seq<Node>, es: seq<Node>, t: State, u: State) returns (n: Node)
    requires Valid(s) && ScanShape(s) && Allocated(s, ns) && 0 <= s.scanSize && AnyHit(s, ns) && t == AddAll(s, ns)
    requires Lists(es, Inside(s, ns, t.hitStart, t.hitSize)) && u == WithHit(s, t.hitStart, t.hitSize)
    ensures Unwinds(t, ns, u, Inside(s, ns, t.hitStart, t.hitSize))
    ensures Valid(u) && Allocated(u, es) && Evicted(u, es, n, s.scanSize, s.scanAlign)
  {
    WithHitValid(s, t.hitStart, t.hitSize);
    ScanUnwinds(s, ns, t);
    HitIsRoomy(s, ns, t);
    HitOnRecord(s, ns, es, t, u);
    n := EvictListed(u, ns, es);
  }

  /** Between the scan and the eviction: the hit on record is one of the blocks of `ns`, and `es` are those inside it. */
  ghost predicate ToEvict(u: State, ns: seq<Node>, es: seq<Node>) {
    && Valid(u) && Allocated(u, ns) && Lists(es, Inside(u, ns, u.hitStart, u.hitSize))
    && Roomy(Cells(u), Marks(Cells(u), ns), u.hitStart, u.hitStart + u.hitSize, u.scanSize, u.scanAlign)
  }

  lemma HitOnRecord(s: State, ns: seq<Node>, es: seq<Node>, t: State, u: State)
    requires Valid(s) && Allocated(s, ns) && Valid(u) && u == WithHit(s, t.hitStart, t.hitSize) && Cells(u) == Cells(s)
    requires Roomy(Cells(s), Marks(Cells(s), ns), t.hitStart, t.hitStart + t.hitSize, s.scanSize, s.scanAlign)
    requires Lists(es, Inside(s, ns, t.hitStart, t.hitSize))
    ensures ToEvict(u, ns, es)
  {
  }

  /** Returning `es` leaves the node `n` as one hole over the recorded hit, with room for the wanted block. */
  ghost predicate Evicted(u: State, es: seq<Node>, n: Node, size: int, alignment: nat)
    requires Valid(u) && Allocated(u, es)
  {
    HoleOver(PutAll(u, es), n, u.hitStart, u.hitSize) && FreeHole(u.hitStart, u.hitStart + u.hitSize, size, alignment)
  }

  lemma EvictListed(u: State, ns: seq<Node>, es: seq<Node>) returns (n: Node)
    requires ToEvict(u, ns, es)
    ensures Allocated(u, es) && Evicted(u, es, n, u.scanSize, u.scanAlign)
  {
    var a, b := EvictedRegion(u, ns, es);
    n := RegionBecomesHole(u, es, a, b, u.hitStart, u.hitStart + u.hitSize);
  }

  /** The marked cells lie in [start, end). */
  ghost predicate WithinHit(cs: seq<Cell>, g: seq<bool>, start: int, end: int) {
    |g| == |cs| && forall l :: 0 <= l < |cs| && g[l] ==> start <= cs[l].start && cs[l].End() <= end
  }

  /** The evicted blocks make up the same region. */
  lemma EvictedRegion(u: State, ns: seq<Node>, es: seq<Node>) returns (a: int, b: int)
    requires ToEvict(u, ns, es)
    ensures Allocated(u, es) && Region(Cells(u), Marks(Cells(u), es), a, b, u.hitStart, u.hitStart + u.hitSize)
    ensures WithinHit(Cells(u), Marks(Cells(u), es), u.hitStart, u.hitStart + u.hitSize)
  {
    a, b := RegionInside(u, ns, es, u.hitStart, u.hitSize);
  }

  lemma RegionInside(s: State, ns: seq<Node>, es: seq<Node>, start: int, size: int) returns (a: int, b: int)
    requires Valid(s) && Allocated(s, ns) && Lists(es, Inside(s, ns, start, size))
    requires IsRegion(Cells(s), Marks(Cells(s), ns), start, start + size)
    ensures Allocated(s, es) && Region(Cells(s), Marks(Cells(s), es), a, b, start, start + size)
    ensures WithinHit(Cells(s), Marks(Cells(s), es), start, start + size)
  {
    var cs := Cells(s);
    a, b :| Region(cs, Marks(cs, ns), a, b, start, start + size);
    InsideMarks(s, ns, es, start, size);
    RegionOfInside(cs, Marks(cs, ns), Marks(cs, es), a, b, start, start + size, s.lo, s.hi);
  }

  // --- The search after eviction ---

  /** A region of freed cells beside the hit, none of which reaches out of the
      hit's addresses, is empty, or covers what one hole covered before. */
  ghost predicate OldRange(cs: seq<Cell>, start: int, end: int) {
    start == end || exists h :: 0 <= h < |cs| && cs[h].free && cs[h].start == start && cs[h].End() == end
  }

  lemma RightOfHit(cs: seq<Cell>, g: seq<bool>, b: nat, hit: int, a': int, b': int, start: int, end: int, lo: int, hi: int)
    requires Tiling(cs, lo, hi) && Settled(cs) && Region(cs, g, a', b', start, end) && 0 < b <= a' && hit == cs[b - 1].End()
    requires forall k :: 0 <= k < |cs| && g[k] ==> cs[k].End() <= hit
    ensures OldRange(cs, start, end)
  {
    var last := b' - 1;
    StartsGrow(cs, lo, hi, b - 1, a');
    StartsGrow(cs, lo, hi, a', last);
    StartsAfter(cs, lo, hi, b - 1, a');
    assert Gone(cs, g, last);
    if !g[last] && last > a' {
      assert Gone(cs, g, last - 1) && cs[last - 1].End() == cs[last].start && g[last - 1];
      StartsGrow(cs, lo, hi, a', last - 1);
    }
  }

  lemma LeftOfHit(cs: seq<Cell>, g: seq<bool>, a: nat, hit: int, a': int, b': int, start: int, end: int, lo: int, hi: int)
    requires Tiling(cs, lo, hi) && Settled(cs) && Region(cs, g, a', b', start, end) && b' <= a < |cs| && hit == cs[a].start
    requires forall k :: 0 <= k < |cs| && g[k] ==> hit <= cs[k].start
    ensures OldRange(cs, start, end)
  {
    StartsGrow(cs, lo, hi, a', b' - 1);
    StartsAfter(cs, lo, hi, b' - 1, a);
    assert Gone(cs, g, a');
    if !g[a'] && a' + 1 < b' {
      assert Gone(cs, g, a' + 1) && cs[a'].End() == cs[a' + 1].start && g[a' + 1];
      StartsGrow(cs, lo, hi, a' + 1, b' - 1);
    }
  }

  lemma StartsAfter(cs: seq<Cell>, lo: int, hi: int, a: nat, b: nat)
    requires Tiling(cs, lo, hi) && a < b < |cs|
    ensures cs[a].End() <= cs[b].start
  {
    assert cs[a].End() == cs[a + 1].start;
    StartsGrow(cs, lo, hi, a + 1, b);
  }

  /** A free cell of the list after eviction is the one over the hit, or covers nothing more than a hole did before. */
  lemma HitOrOld(cs: seq<Cell>, g: seq<bool>, own: seq<int>, ds: seq<Cell>, a: int, b: int, start: int, end: int, k: nat, lo: int, hi: int)
    requires Tiling(cs, lo, hi) && Settled(cs) && Coarse(cs, g, own, ds) && Settled(ds) && Region(cs, g, a, b, start, end)
    requires WithinHit(cs, g, start, end)
    requires k < |cs| && ds[own[k]].free
    ensures (ds[own[k]].start == start && ds[own[k]].End() == end) || OldRange(cs, ds[own[k]].start, ds[own[k]].End())
  {
    if a <= k < b {
      RegionIsCell(cs, g, own, ds, a, b, start, end);
    } else {
      var a', b' := CellIsRegion(cs, g, own, ds, k);
      if k >= b {
        assert a' > b by { assert b <= k && !Gone(cs, g, b); }
        RightOfHit(cs, g, b, end, a', b', ds[own[k]].start, ds[own[k]].End(), lo, hi);
      } else {
        assert b' < a by { assert !Gone(cs, g, a - 1); }
        LeftOfHit(cs, g, a, start, a', b', ds[own[k]].start, ds[own[k]].End(), lo, hi);
      }
    }
  }

  /** Every cell of the list comes from one before. */
  lemma {:induction false} OwnHits(cs: seq<Cell>, f: seq<bool>, own: seq<int>, ds: seq<Cell>, j: nat) returns (k: nat)
    requires Coarse(cs, f, own, ds) && j < |ds|
    ensures k < |cs| && own[k] == j
    decreases j
  {
    if j == 0 { k := 0; }
    else {
      var k0 := OwnHits(cs, f, own, ds, j - 1);
      k := k0;
      while own[k] != j
        invariant k0 <= k < |cs| && j - 1 <= own[k] <= j
        decreases |cs| - k
      {
        assert k + 1 < |cs|;
        assert Step(cs, f, own, ds, k, k + 1);
        k := k + 1;
      }
    }
  }

  /** Every hole of the list that fits lies in [start, end). */
  ghost predicate FitsOnlyIn(cs: seq<Cell>, start: int, end: int, size: int, alignment: nat) {
    forall h :: 0 <= h < |cs| && cs[h].free && FreeHole(cs[h].start, cs[h].End(), size, alignment) ==>
      start <= cs[h].start && cs[h].End() <= end
  }

  lemma OldFitsInside(cs: seq<Cell>, start: int, end: int, from: int, to: int, size: int, alignment: nat)
    requires OldRange(cs, from, to) && FitsOnlyIn(cs, start, end, size, alignment) && 0 < size
    requires FreeHole(from, to, size, alignment)
    ensures start <= from && to <= end
  {
  }

  /** What fits after the blocks of `es` have been returned lies at the hit, if what fitted before did. */
  lemma FitsAtHit(s: State, es: seq<Node>, a: int, b: int, start: int, end: int, size: int, alignment: nat, j: nat)
    requires Valid(s) && Allocated(s, es) && Region(Cells(s), Marks(Cells(s), es), a, b, start, end)
    requires WithinHit(Cells(s), Marks(Cells(s), es), start, end)
    requires FitsOnlyIn(Cells(s), start, end, size, alignment) && 0 < size
    requires var ds := Cells(PutAll(s, es)); j < |ds| && ds[j].free && FreeHole(ds[j].start, ds[j].End(), size, alignment)
    ensures var ds := Cells(PutAll(s, es)); start <= ds[j].start < ds[j].End() <= end
  {
    var own := PutAllCoarse(s, es);
    var ds := Cells(PutAll(s, es));
    var k := OwnHits(Cells(s), Marks(Cells(s), es), own, ds, j);
    HitOrOld(Cells(s), Marks(Cells(s), es), own, ds, a, b, start, end, k, s.lo, s.hi);
    if OldRange(Cells(s), ds[j].start, ds[j].End()) {
      OldFitsInside(Cells(s), start, end, ds[j].start, ds[j].End(), size, alignment);
    }
  }

  /** A hole that fitted before still lies in one that fits. */
  lemma StillFits(s: State, es: seq<Node>, h: nat, size: int, alignment: nat) returns (j: nat)
    requires Valid(s) && Allocated(s, es) && 0 < size && h < |s.order| && Cells(s)[h].free
    requires FreeHole(Cells(s)[h].start, Cells(s)[h].End(), size, alignment)
    ensures var ds := Cells(PutAll(s, es));
      && j < |ds| && ds[j].free && FreeHole(ds[j].start, ds[j].End(), size, alignment)
      && ds[j].start <= Cells(s)[h].start && Cells(s)[h].End() <= ds[j].End()
  {
    var cs, ds := Cells(s), Cells(PutAll(s, es));
    var own := PutAllCoarse(s, es);
    j := own[h];
    var a, b := CellIsRegion(cs, Marks(cs, es), own, ds, h);
    StartsGrow(cs, s.lo, s.hi, a, h);
    StartsGrow(cs, s.lo, s.hi, h, b - 1);
    FreeHoleGrows(cs[h].start, cs[h].End(), ds[j].start, ds[j].End(), size, alignment);
  }

  /** The node covers some addresses in [start, start + size). */
  ghost predicate HoleIn(t: State, m: Node, start: int, size: int) {
    m in t.order && m in t.info && start <= t.info[m].start < t.info[m].End() <= start + size
  }

  /** Two nodes on the list over common addresses are one. */
  lemma SamePlace(t: State, m: Node, n: Node, start: int, size: int)
    requires Valid(t) && HoleIn(t, m, start, size) && HoleOver(t, n, start, size)
    ensures m == n
  {
    var i, j := Pos(t.order, m), Pos(t.order, n);
    assert Cells(t)[i] == CellOf(t, m) && Cells(t)[j] == CellOf(t, n);
    if i < j { StartsAfter(Cells(t), t.lo, t.hi, i, j); }
    if j < i { StartsAfter(Cells(t), t.lo, t.hi, j, i); }
  }

  /** A search would accept the node. */
  ghost predicate OnOffer(v: State, m: Node, size: int, alignment: nat) {
    m in v.stack && m in v.info && FreeHole(v.info[m].start, v.info[m].End(), size, alignment)
  }

  /** The search accepts no other node. */
  ghost predicate OnlyOffered(v: State, n: Node, size: int, alignment: nat) {
    OnOffer(v, n, size, alignment) && forall m :: m in v.stack && OnOffer(v, m, size, alignment) ==> m == n
  }

  /** The search that follows. After eviction the node over the recorded hit
      is the only one on the free stack that fits, so that the search returns
      it wherever on the stack it is, if and only if every hole that fitted
      before the scan lies in the hit. */
  lemma EvictedIsFound(s: State, ns: seq<Node>, es: seq<Node>, t: State, u: State, n: Node)
    requires Valid(s) && ScanShape(s) && Allocated(s, ns) && 0 < s.scanSize && AnyHit(s, ns) && t == AddAll(s, ns)
    requires Lists(es, Inside(s, ns, t.hitStart, t.hitSize)) && u == WithHit(s, t.hitStart, t.hitSize)
    requires Valid(u) && Allocated(u, es) && Evicted(u, es, n, s.scanSize, s.scanAlign)
    ensures OnlyOffered(PutAll(u, es), n, s.scanSize, s.scanAlign) <==>
      FitsOnlyIn(Cells(s), t.hitStart, t.hitStart + t.hitSize, s.scanSize, s.scanAlign)
  {
    WithHitValid(s, t.hitStart, t.hitSize);
    HitIsRoomy(s, ns, t);
    HitOnRecord(s, ns, es, t, u);
    OfferedIffInside(u, ns, es, n);
  }

  lemma OfferedIffInside(u: State, ns: seq<Node>, es: seq<Node>, n: Node)
    requires ToEvict(u, ns, es) && Allocated(u, es) && 0 < u.scanSize && Evicted(u, es, n, u.scanSize, u.scanAlign)
    ensures OnlyOffered(PutAll(u, es), n, u.scanSize, u.scanAlign) <==>
      FitsOnlyIn(Cells(u), u.hitStart, u.hitStart + u.hitSize, u.scanSize, u.scanAlign)
  {
    if FitsOnlyIn(Cells(u), u.hitStart, u.hitStart + u.hitSize, u.scanSize, u.scanAlign) {
      OnlyOffer(u, ns, es, n);
    }
    if OnlyOffered(PutAll(u, es), n, u.scanSize, u.scanAlign) {
      OfferedInside(u, es, n);
    }
  }

  lemma OnlyOffer(u: State, ns: seq<Node>, es: seq<Node>, n: Node)
    requires ToEvict(u, ns, es) && Allocated(u, es) && 0 < u.scanSize && Evicted(u, es, n, u.scanSize, u.scanAlign)
    requires FitsOnlyIn(Cells(u), u.hitStart, u.hitStart + u.hitSize, u.scanSize, u.scanAlign)
    ensures OnlyOffered(PutAll(u, es), n, u.scanSize, u.scanAlign)
  {
    var v := PutAll(u, es);
    HitOffered(v, n, u.hitStart, u.hitSize, u.scanSize, u.scanAlign);
    forall m | m in v.stack && OnOffer(v, m, u.scanSize, u.scanAlign) ensures m == n {
      FoundAtHit(u, ns, es, m);
      SamePlace(v, m, n, u.hitStart, u.hitSize);
    }
  }

  lemma HitOffered(v: State, n: Node, start: int, hit: int, size: int, alignment: nat)
    requires HoleOver(v, n, start, hit) && FreeHole(start, start + hit, size, alignment)
    ensures OnOffer(v, n, size, alignment)
  {
  }

  lemma OfferedInside(u: State, es: seq<Node>, n: Node)
    requires Valid(u) && Allocated(u, es) && 0 < u.scanSize && HoleOver(PutAll(u, es), n, u.hitStart, u.hitSize)
    requires OnlyOffered(PutAll(u, es), n, u.scanSize, u.scanAlign)
    ensures FitsOnlyIn(Cells(u), u.hitStart, u.hitStart + u.hitSize, u.scanSize, u.scanAlign)
  {
    forall h | 0 <= h < |u.order| && Cells(u)[h].free && FreeHole(Cells(u)[h].start, Cells(u)[h].End(), u.scanSize, u.scanAlign)
      ensures u.hitStart <= Cells(u)[h].start && Cells(u)[h].End() <= u.hitStart + u.hitSize
    {
      OfferedAt(u, es, n, h, u.scanSize, u.scanAlign, PutAll(u, es));
    }
  }

  lemma OfferedAt(u: State, es: seq<Node>, n: Node, h: nat, size: int, alignment: nat, v: State)
    requires Valid(u) && Allocated(u, es) && 0 < size && v == PutAll(u, es) && HoleOver(v, n, u.hitStart, u.hitSize)
    requires OnlyOffered(v, n, size, alignment) && h < |u.order| && Cells(u)[h].free
    requires FreeHole(Cells(u)[h].start, Cells(u)[h].End(), size, alignment)
    ensures u.hitStart <= Cells(u)[h].start && Cells(u)[h].End() <= u.hitStart + u.hitSize
  {
    var j := StillFits(u, es, h, size, alignment);
    CellOffered(v, j, size, alignment);
    assert v.order[j] == n && Cells(v)[j] == CellOf(v, n);
  }

  lemma CellOffered(v: State, j: nat, size: int, alignment: nat)
    requires Valid(v) && j < |v.order| && Cells(v)[j].free && FreeHole(Cells(v)[j].start, Cells(v)[j].End(), size, alignment)
    ensures OnOffer(v, v.order[j], size, alignment)
  {
    CellInStack(v, j);
  }

  lemma FoundAtHit(u: State, ns: seq<Node>, es: seq<Node>, m: Node)
    requires ToEvict(u, ns, es) && Allocated(u, es) && 0 < u.scanSize
    requires FitsOnlyIn(Cells(u), u.hitStart, u.hitStart + u.hitSize, u.scanSize, u.scanAlign)
    requires OnOffer(PutAll(u, es), m, u.scanSize, u.scanAlign)
    ensures HoleIn(PutAll(u, es), m, u.hitStart, u.hitSize)
  {
    var a, b := EvictedRegion(u, ns, es);
    OnOfferAtHit(u, es, a, b, u.hitStart, u.hitSize, u.scanSize, u.scanAlign, m);
  }

  lemma CellOnOffer(v: State, m: Node, size: int, alignment: nat) returns (j: nat)
    requires Valid(v) && OnOffer(v, m, size, alignment)
    ensures m in v.order && j < |v.order| && Cells(v)[j] == CellOf(v, m) && Cells(v)[j].free
    ensures FreeHole(Cells(v)[j].start, Cells(v)[j].End(), size, alignment)
  {
    assert m in v.order;
    j := Pos(v.order, m);
  }

  lemma OnOfferAtHit(s: State, es: seq<Node>, a: int, b: int, start: int, hit: int, size: int, alignment: nat, m: Node)
    requires Valid(s) && Allocated(s, es) && Region(Cells(s), Marks(Cells(s), es), a, b, start, start + hit)
    requires WithinHit(Cells(s), Marks(Cells(s), es), start, start + hit)
    requires FitsOnlyIn(Cells(s), start, start + hit, size, alignment) && 0 < size && OnOffer(PutAll(s, es), m, size, alignment)
    ensures HoleIn(PutAll(s, es), m, start, hit)
  {
    var j := CellOnOffer(PutAll(s, es), m, size, alignment);
    FitsAtHit(s, es, a, b, start, start + hit, size, alignment, j);
  }

  /** Without a hit, removal returns 1 exactly for an empty block at address 0. */
  lemma NoHitNoEviction(s: State, ns: seq<Node>)
    requires Valid(s) && ScanShape(s) && Allocated(s, ns) && 0 <= s.scanSize && !AnyHit(s, ns)
    requires s.hitStart == 0 && s.hitSize == 0
    ensures Unwinds(AddAll(s, ns), ns, s, EmptyAtZero(s, ns))
  {
    ScanUndo(s, ns, 0, 0);
    var own := AddAllOutcome(s, ns);
    assert s == WithHit(s, 0, 0) && AddAll(s, ns) == WithHit(AddAll(s, ns), 0, 0);
    InsideNothing(s, ns);
  }

  ghost function EmptyAtZero(s: State, ns: seq<Node>): set<Node> {
    set n | n in ns && n in s.info && s.info[n].start == 0 && s.info[n].size == 0
  }

  lemma InsideNothing(s: State, ns: seq<Node>)
    requires Valid(s) && Allocated(s, ns)
    ensures Inside(s, ns, 0, 0) == EmptyAtZero(s, ns)
  {
    forall n | n in ns ensures 0 <= s.info[n].start && 0 <= s.info[n].size {
      var k := OriginalCell(s, n);
      StartsGrow(Cells(s), s.lo, s.hi, k, k);
    }
  }
}
