/** A whole scan as its caller sees it: what is asked of drm_mm_init_scan, when an
    addition reports a hole, and what is free after the eviction (drm_mm.c:378-528). */
module MmReclaim {
  import opened MmState
  import opened MmFit
  import opened MmScan
  import opened MmCoarse
  import opened MmRuns
  import opened MmEvict

  /** A block of `size` units has an aligned place in [start, end). */
  ghost predicate HasPlace(start: int, end: int, size: int, alignment: nat) {
    exists a :: PlaceAt(start, end, size, alignment, a)
  }

  /** The maximal run of cells that are free or marked in `f`, around cell `c`, covers [start, end). */
  ghost predicate RunIn(cs: seq<Cell>, f: seq<bool>, c: nat, start: int, end: int) {
    exists a, b :: a <= c < b && Region(cs, f, a, b, start, end)
  }

  /** The run of free or scanned cells that block `n` is in covers [start, end), with the blocks of `ns` on the scan list. */
  ghost predicate RunAround(cs: seq<Cell>, ns: seq<Node>, n: Node, start: int, end: int) {
    exists c :: 0 <= c < |cs| && cs[c].node == n && RunIn(cs, Marks(cs, ns), c, start, end)
  }

  /** With the blocks of `ns` up to the k-th scanned, the run the k-th is in has a place. */
  ghost predicate MakesRoom(cs: seq<Cell>, ns: seq<Node>, k: nat, size: int, alignment: nat)
    requires k < |ns|
  {
    exists start, end :: RunAround(cs, ns[..k + 1], ns[k], start, end) && HasPlace(start, end, size, alignment)
  }

  /** Some addition makes room. */
  ghost predicate SomeMakesRoom(cs: seq<Cell>, ns: seq<Node>, size: int, alignment: nat) {
    exists k :: 0 <= k < |ns| && MakesRoom(cs, ns, k, size, alignment)
  }

  lemma RegionUnique(cs: seq<Cell>, f: seq<bool>, c: nat, a: int, b: int, start: int, end: int, a': int, b': int, start': int, end': int)
    requires a <= c < b && Region(cs, f, a, b, start, end) && a' <= c < b' && Region(cs, f, a', b', start', end')
    ensures a == a' && b == b' && start == start' && end == end'
  {
    assert (a > 0 ==> !Gone(cs, f, a - 1)) && (a' > 0 ==> !Gone(cs, f, a' - 1));
    assert (b < |cs| ==> !Gone(cs, f, b)) && (b' < |cs| ==> !Gone(cs, f, b'));
  }

  lemma RunUnique(cs: seq<Cell>, f: seq<bool>, c: nat, start: int, end: int, start': int, end': int)
    requires RunIn(cs, f, c, start, end) && RunIn(cs, f, c, start', end')
    ensures start == start' && end == end'
  {
    var a, b :| a <= c < b && Region(cs, f, a, b, start, end);
    var a', b' :| a' <= c < b' && Region(cs, f, a', b', start', end');
    RegionUnique(cs, f, c, a, b, start, end, a', b', start', end');
  }

  lemma RunStartsLow(cs: seq<Cell>, f: seq<bool>, c: nat, start: int, end: int, lo: int, hi: int)
    requires Tiling(cs, lo, hi) && 0 <= lo && RunIn(cs, f, c, start, end)
    ensures 0 <= start
  {
    var a, b :| a <= c < b && Region(cs, f, a, b, start, end);
    StartsGrow(cs, lo, hi, a, a);
  }

  /** What an addition looks at: the run the block is then in. */
  lemma AddedRun(s: State, pre: seq<Node>, n: Node, t: State, own: seq<int>) returns (start: int, end: int)
    requires Shape(s) && n in s.order && !s.info[n].free && n !in pre
    requires ScanShape(t) && Coarse(Cells(s), Marks(Cells(s), pre), own, Cells(t))
    ensures n in t.order && RunAround(Cells(s), pre + [n], n, start, end)
    ensures AddAt(t, Pos(t.order, n)).1 <==> FreeHole(start, end, t.scanSize, t.scanAlign)
  {
    var k0 := OriginalCell(s, n);
    MarksSnoc(Cells(s), pre, n, k0);
    var own' := AddCoarse(Cells(s), Marks(Cells(s), pre), own, t, k0);
    AddShape(t, own[k0], Cells(s)[k0]);
    var u := AddAt(t, own[k0]).0;
    var a, b := CellIsRegion(Cells(s), Marks(Cells(s), pre + [n]), own', Cells(u), k0);
    start, end := Cells(u)[own'[k0]].start, Cells(u)[own'[k0]].End();
  }

  ghost predicate Distinct(cs: seq<Cell>) {
    forall c, d :: 0 <= c < d < |cs| ==> cs[c].node != cs[d].node
  }

  lemma AroundUnique(cs: seq<Cell>, ns: seq<Node>, n: Node, start: int, end: int, start': int, end': int)
    requires Distinct(cs) && RunAround(cs, ns, n, start, end) && RunAround(cs, ns, n, start', end')
    ensures start == start' && end == end'
  {
    var c :| 0 <= c < |cs| && cs[c].node == n && RunIn(cs, Marks(cs, ns), c, start, end);
    var c' :| 0 <= c' < |cs| && cs[c'].node == n && RunIn(cs, Marks(cs, ns), c', start', end');
    assert c == c';
    RunUnique(cs, Marks(cs, ns), c, start, end, start', end');
  }

  /** The run a block is in is the one its addition looks at. */
  lemma RoomIffPlace(cs: seq<Cell>, ns: seq<Node>, k: nat, start: int, end: int, size: int, alignment: nat, lo: int, hi: int)
    requires Tiling(cs, lo, hi) && 0 <= lo && Distinct(cs) && 0 <= size
    requires k < |ns| && RunAround(cs, ns[..k + 1], ns[k], start, end)
    ensures FreeHole(start, end, size, alignment) <==> MakesRoom(cs, ns, k, size, alignment)
  {
    var c :| 0 <= c < |cs| && cs[c].node == ns[k] && RunIn(cs, Marks(cs, ns[..k + 1]), c, start, end);
    RunStartsLow(cs, Marks(cs, ns[..k + 1]), c, start, end, lo, hi);
    FreeHoleExact(start, end, size, alignment);
    if FreeHole(start, end, size, alignment) {
      assert HasPlace(start, end, size, alignment);
    }
    if MakesRoom(cs, ns, k, size, alignment) {
      var x, y :| RunAround(cs, ns[..k + 1], ns[k], x, y) && HasPlace(x, y, size, alignment);
      AroundUnique(cs, ns[..k + 1], ns[k], x, y, start, end);
    }
  }

  lemma PrefixSnoc(ns: seq<Node>, k: nat)
    requires k < |ns|
    ensures ns[..k] + [ns[k]] == ns[..k + 1]
  {
  }

  /** An addition reports a hole if and only if it makes room for what the scan is for. */
  lemma ReportIs(s: State, ns: seq<Node>, k: nat)
    requires ScanShape(s) && 0 <= s.scanSize && Allocated(s, ns) && k < |ns| && Allocated(s, ns[..k])
    ensures var t := AddAll(s, ns[..k]);
      ns[k] in t.order && (AddAt(t, Pos(t.order, ns[k])).1 <==> MakesRoom(Cells(s), ns, k, s.scanSize, s.scanAlign))
  {
    AllocatedPrefix(s, ns, k);
    var start, end := AddedRunAll(s, ns[..k], ns[k], AddAll(s, ns[..k]));
    PrefixSnoc(ns, k);
    RoomInShape(s, ns, k, start, end, s.scanSize, s.scanAlign);
  }

  lemma RoomInShape(s: State, ns: seq<Node>, k: nat, start: int, end: int, size: int, alignment: nat)
    requires Shape(s) && 0 <= size && k < |ns| && RunAround(Cells(s), ns[..k + 1], ns[k], start, end)
    ensures FreeHole(start, end, size, alignment) <==> MakesRoom(Cells(s), ns, k, size, alignment)
  {
    RoomIffPlace(Cells(s), ns, k, start, end, size, alignment, s.lo, s.hi);
  }

  lemma AddedRunAll(s: State, pre: seq<Node>, n: Node, t: State) returns (start: int, end: int)
    requires Shape(s) && ScanShape(s) && 0 <= s.scanSize && Allocated(s, pre) && t == AddAll(s, pre)
    requires n in s.order && !s.info[n].free && n !in pre
    ensures n in t.order && RunAround(Cells(s), pre + [n], n, start, end)
    ensures AddAt(t, Pos(t.order, n)).1 <==> FreeHole(start, end, s.scanSize, s.scanAlign)
  {
    var own := AddAllOutcome(s, pre);
    start, end := AddedRun(s, pre, n, t, own);
  }

  lemma MakesRoomPrefix(cs: seq<Cell>, ns: seq<Node>, m: nat, k: nat, size: int, alignment: nat)
    requires k < m <= |ns|
    ensures MakesRoom(cs, ns[..m], k, size, alignment) <==> MakesRoom(cs, ns, k, size, alignment)
  {
    assert ns[..m][..k + 1] == ns[..k + 1] && ns[..m][k] == ns[k];
  }

  lemma SomeMakesRoomLast(cs: seq<Cell>, ns: seq<Node>, size: int, alignment: nat)
    requires ns != []
    ensures SomeMakesRoom(cs, ns, size, alignment) <==>
      SomeMakesRoom(cs, ns[..|ns| - 1], size, alignment) || MakesRoom(cs, ns, |ns| - 1, size, alignment)
  {
    var m := |ns| - 1;
    forall k | 0 <= k < m ensures MakesRoom(cs, ns[..m], k, size, alignment) <==> MakesRoom(cs, ns, k, size, alignment) {
      MakesRoomPrefix(cs, ns, m, k, size, alignment);
    }
    if k :| 0 <= k < m && MakesRoom(cs, ns[..m], k, size, alignment) { assert MakesRoom(cs, ns, k, size, alignment); }
    if k :| 0 <= k < m && MakesRoom(cs, ns, k, size, alignment) { assert MakesRoom(cs, ns[..m], k, size, alignment); }
  }

  lemma {:induction false} HitIffRoom(s: State, ns: seq<Node>)
    requires Shape(s) && ScanShape(s) && 0 <= s.scanSize && Allocated(s, ns)
    ensures AnyHit(s, ns) <==> SomeMakesRoom(Cells(s), ns, s.scanSize, s.scanAlign)
    decreases |ns|
  {
    if ns != [] {
      var m := |ns| - 1;
      AllocatedPrefix(s, ns, m);
      HitIffRoom(s, ns[..m]);
      ReportIs(s, ns, m);
      AddAllLast(s, ns, m);
      SomeMakesRoomLast(Cells(s), ns, s.scanSize, s.scanAlign);
    }
  }

  /** A scan for `size` units at `alignment` reports a hole if and only if some
      addition makes room for just that. So without such a run of free or scanned
      blocks at any stage nothing is reported. */
  lemma ScanReports(s: State, size: int, alignment: nat, ns: seq<Node>)
    requires Valid(s) && 0 <= size && Allocated(s, ns)
    ensures var s' := InitScan(s, size, alignment);
      && ScanShape(s') && Valid(s') && Allocated(s', ns)
      && (AnyHit(s', ns) <==> SomeMakesRoom(Cells(s), ns, size, alignment))
  {
    var s' := InitScan(s, size, alignment);
    InitScanShape(s, size, alignment);
    CellsAgree(s, s');
    HitIffRoom(s', ns);
  }

  /** The eviction, in the caller's terms. A scan for `size` units at `alignment`
      over the blocks of `ns`, none of which need be next to another, is taken
      apart in reverse, and the blocks whose removal returned 1 are returned in
      any order. If an addition made room, there is then a free node on the list
      with an aligned place for what was asked for. If none did, everything is as
      before, and removal returned 1 for empty blocks at address 0 only. */
  lemma ScanReclaims(s: State, size: int, alignment: nat, ns: seq<Node>, es: seq<Node>) returns (n: Node?, a: int)
    requires Valid(s) && 0 <= size && Allocated(s, ns) && ScanShape(InitScan(s, size, alignment)) && Allocated(InitScan(s, size, alignment), ns)
    requires var t := AddAll(InitScan(s, size, alignment), ns); Lists(es, Inside(s, ns, t.hitStart, t.hitSize))
    ensures var s', t := InitScan(s, size, alignment), AddAll(InitScan(s, size, alignment), ns);
      var u := WithHit(s', t.hitStart, t.hitSize);
      && Unwinds(t, ns, u, Inside(s, ns, t.hitStart, t.hitSize)) && Valid(u)
      && (SomeMakesRoom(Cells(s), ns, size, alignment) ==>
            && Allocated(u, es) && n != null && Offers(PutAll(u, es), n, size, alignment, a)
            && PutAll(u, es).info[n].start == t.hitStart)
      && (!SomeMakesRoom(Cells(s), ns, size, alignment) ==> u == s' && Inside(s, ns, t.hitStart, t.hitSize) == EmptyAtZero(s, ns))
  {
    var s', t := InitScan(s, size, alignment), AddAll(InitScan(s, size, alignment), ns);
    InitScanShape(s, size, alignment);
    ScanReports(s, size, alignment, ns);
    n, a := null, 0;
    ScanUnwinds(s', ns, t);
    WithHitValid(s', t.hitStart, t.hitSize);
    if AnyHit(s', ns) {
      n, a := Reclaimed(s', ns, es, t);
    } else {
      var own := AddAllOutcome(s', ns);
      InsideNothing(s', ns);
    }
  }

  /** The node is free, and the block has the place `a` in it. */
  ghost predicate Offers(v: State, n: Node, size: int, alignment: nat, a: int) {
    n in v.stack && n in v.order && n in v.info && PlaceAt(v.info[n].start, v.info[n].End(), size, alignment, a)
  }

  lemma Reclaimed(s: State, ns: seq<Node>, es: seq<Node>, t: State) returns (n: Node, a: int)
    requires Valid(s) && ScanShape(s) && Allocated(s, ns) && 0 <= s.scanSize && AnyHit(s, ns) && t == AddAll(s, ns)
    requires Lists(es, Inside(s, ns, t.hitStart, t.hitSize))
    ensures var u := WithHit(s, t.hitStart, t.hitSize);
      && Valid(u) && Allocated(u, es) && Offers(PutAll(u, es), n, s.scanSize, s.scanAlign, a) && PutAll(u, es).info[n].start == t.hitStart
  {
    var u := WithHit(s, t.hitStart, t.hitSize);
    n := EvictionMakesHole(s, ns, es, t, u);
    a := HolePlace(PutAll(u, es), n, t.hitStart, t.hitSize, s.scanSize, s.scanAlign);
  }

  lemma HolePlace(v: State, n: Node, start: int, hit: int, size: int, alignment: nat) returns (a: int)
    requires Valid(v) && HoleOver(v, n, start, hit) && FreeHole(start, start + hit, size, alignment) && 0 <= size
    ensures Offers(v, n, size, alignment, a)
  {
    var k := OriginalCell(v, n);
    StartsGrow(Cells(v), v.lo, v.hi, k, k);
    FreeHoleExact(start, start + hit, size, alignment);
    a := start + Waste(start, alignment);
  }
}
