/** The LRU scan (drm_mm.c:378-528): blocks are tentatively merged with their
    free neighbours, one after another, and taken apart again in reverse. */
module MmScan {
  import opened MmState
  import opened MmAlloc
  import opened MmFit

  /** drm_mm_init_scan */
  function InitScan(s: State, size: int, alignment: nat): State {
    s.(scanSize := size, scanAlign := alignment, scanned := 0, hitStart := 0, hitSize := 0)
  }

  function Neighbour(s: State, i: int): Node?
    requires Known(s)
  {
    if FreeAt(s, i) then s.order[i] else null
  }

  /** The node fields drm_mm_scan_add_block leaves behind. */
  function AddInfo(s: State, i: nat): map<Node, Info>
    requires i < |s.order| && Known(s)
  {
    var n, p, q := s.order[i], Neighbour(s, i - 1), Neighbour(s, i + 1);
    var merged := s.info[n].(start := s.info[s.order[Left(s, i)]].start, size := FusedSize(s, i), free := true,
                             block := true, savedPrev := p, savedNext := q);
    var m1 := s.info[n := merged];
    var m2 := if p != null then m1[p := s.info[p].(prevFree := true)] else m1;
    if q != null then m2[q := s.info[q].(nextFree := true)] else m2
  }

  /** drm_mm_scan_add_block on the node at `i`: the state, and whether a hole was found. */
  function AddAt(s: State, i: nat): (State, bool)
    requires i < |s.order| && Known(s)
  {
    var t := s.(order := Collapse(s.order, Left(s, i), i, Right(s, i)), info := AddInfo(s, i), scanned := s.scanned + 1);
    var start, size := s.info[s.order[Left(s, i)]].start, FusedSize(s, i);
    if FreeHole(start, start + size, s.scanSize, s.scanAlign)
    then (t.(hitStart := start, hitSize := size), true) else (t, false)
  }

  ghost predicate SavedKnown(s: State, n: Node) {
    && n in s.info
    && (s.info[n].savedPrev != null ==> s.info[n].savedPrev in s.info)
    && (s.info[n].savedNext != null ==> s.info[n].savedNext in s.info)
  }

  function Optional(n: Node?): seq<Node> { if n == null then [] else [n] }

  /** The node fields drm_mm_scan_remove_block leaves behind. */
  ghost function RemoveInfo(s: State, n: Node): map<Node, Info>
    requires SavedKnown(s, n)
  {
    var c := s.info[n];
    var p, q := c.savedPrev, c.savedNext;
    var start := if p != null then s.info[p].start + s.info[p].size else c.start;
    var size := c.size - (if p != null then s.info[p].size else 0) - (if q != null then s.info[q].size else 0);
    var m1 := s.info[n := c.(start := start, size := size, free := false, block := false, savedPrev := null, savedNext := null)];
    var m2 := if p != null then m1[p := s.info[p].(prevFree := false)] else m1;
    if q != null then m2[q := s.info[q].(nextFree := false)] else m2
  }

  /** drm_mm_scan_remove_block on the node at `i`: the state, and whether to evict it. */
  ghost function RemoveAt(s: State, i: nat): (State, bool)
    requires i < |s.order| && SavedKnown(s, s.order[i])
  {
    var n := s.order[i];
    var c := s.info[n];
    var t := s.(order := s.order[..i] + Optional(c.savedPrev) + [n] + Optional(c.savedNext) + s.order[i + 1..],
                info := RemoveInfo(s, n), scanned := s.scanned - 1);
    (t, InHit(t, n))
  }

  /** The node lies inside the recorded hit. */
  predicate InHit(t: State, n: Node) {
    n in t.info && t.info[n].start >= t.hitStart && t.info[n].End() <= t.hitStart + t.hitSize
  }

  /** A block that absorbed no neighbour. */
  predicate Bare(c: Info) { c.savedPrev == null && c.savedNext == null }

  /** No BUG_ON of drm_mm_scan_remove_block fires. */
  ghost predicate Flagged(s: State, n: Node)
    requires SavedKnown(s, n)
  {
    var c := s.info[n];
    && c.block
    && (c.savedPrev != null ==> s.info[c.savedPrev].prevFree)
    && (c.savedNext != null ==> s.info[c.savedNext].nextFree)
  }

  /** A block that another one has absorbed since is on no list. Removal links
      its own neighbours in next to it, which then is undefined; if it has none,
      removal does not look at its links. */
  ghost predicate Removable(s: State, n: Node) {
    SavedKnown(s, n) && Flagged(s, n) && (n in s.order || Bare(s.info[n]))
  }

  /** drm_mm_scan_remove_block on any block of the scan list. */
  ghost function Remove(s: State, n: Node): (State, bool)
    requires Removable(s, n)
  {
    if n in s.order then RemoveAt(s, Pos(s.order, n))
    else
      var t := s.(info := RemoveInfo(s, n), scanned := s.scanned - 1);
      (t, InHit(t, n))
  }

  // --- One step and its undoing ---

  /** Holds while blocks are on the scan list: no listed node is absorbed, and
      only listed free nodes can be on the scan list. */
  ghost predicate ScanShape(s: State) {
    Shape(s) && forall n :: n in s.order && n in s.info ==> FlagsOk(s.info[n])
  }

  function WithHit(s: State, start: int, size: int): State {
    s.(hitStart := start, hitSize := size)
  }

  lemma AddMembers(s: State, i: nat, n: Node)
    requires Known(s) && NoDup(s.order) && i < |s.order|
    ensures NoDup(AddAt(s, i).0.order)
    ensures n in AddAt(s, i).0.order <==>
      n in s.order && (FreeAt(s, i - 1) ==> n != s.order[i - 1]) && (FreeAt(s, i + 1) ==> n != s.order[i + 1])
  {
    var a, b := Left(s, i), Right(s, i);
    CollapseMembers(s.order, a, i, b);
    SliceMembers(s.order, a, i, b, n);
  }

  lemma AddCells(s: State, i: nat)
    requires Known(s) && NoDup(s.order) && i < |s.order|
    ensures Known(AddAt(s, i).0) && Cells(AddAt(s, i).0) == Fuse(Cells(s), i, s.order[i])
  {
    CollapseMembers(s.order, Left(s, i), i, Right(s, i));
    var t := AddAt(s, i).0;
    assert Known(t);
    var ds := Fuse(Cells(s), i, s.order[i]);
    assert |ds| == |t.order| by { Neighbourhood(s, i); }
    forall j | 0 <= j < |t.order| ensures Cells(t)[j] == ds[j] {
      AddCellAt(s, i, j);
      Neighbourhood(s, i);
    }
  }

  lemma AddCellAt(s: State, i: nat, j: nat)
    requires Known(s) && NoDup(s.order) && i < |s.order| && j < |AddAt(s, i).0.order|
    ensures var t, a, b := AddAt(s, i).0, Left(s, i), Right(s, i);
      t.order[j] in t.info && CellOf(t, t.order[j]) ==
        if j < a then Cells(s)[j] else if j > a then Cells(s)[j + b - a - 1]
        else Cell(s.order[i], Cells(s)[a].start, FusedSize(s, i), true)
  {
  }

  lemma AddListed(s: State, i: nat)
    requires Listed(s) && i < |s.order|
    ensures Listed(AddAt(s, i).0)
  {
    AddCells(s, i);
    AddMembers(s, i, s.order[i]);
    forall n | n in s.unused ensures n !in AddAt(s, i).0.order {
      AddMembers(s, i, n);
    }
  }

  lemma AddKeepsShape(s: State, i: nat)
    requires ScanShape(s) && i < |s.order| && !s.info[s.order[i]].free
    ensures ScanShape(AddAt(s, i).0)
  {
    AddListed(s, i);
    assert Shape(AddAt(s, i).0) by {
      AddCells(s, i);
      FuseKeepsShape(Cells(s), i, s.order[i], s.lo, s.hi);
    }
    forall n | n in AddAt(s, i).0.order ensures FlagsOk(AddAt(s, i).0.info[n]) {
      AddFlags(s, i, n);
    }
  }

  predicate FlagsOk(c: Info) {
    !c.prevFree && !c.nextFree && (!c.block ==> c.Quiet()) && (c.block ==> c.free)
  }

  lemma AddFlags(s: State, i: nat, n: Node)
    requires ScanShape(s) && i < |s.order| && n in AddAt(s, i).0.order
    ensures n in s.order && FlagsOk(AddAt(s, i).0.info[n])
  {
    AddMembers(s, i, n);
    assert s.order[i] in s.order;
  }

  /** Removing the block just added restores the list, every field of every
      node, and the scan count. Only the recorded hit stays. */
  lemma RemoveUndoesAdd(s: State, i: nat, start: int, size: int)
    requires ScanShape(s) && i < |s.order| && !s.info[s.order[i]].free
    ensures var t := WithHit(AddAt(s, i).0, start, size);
      && Left(s, i) < |t.order| && t.order[Left(s, i)] == s.order[i] && SavedKnown(t, s.order[i]) && Flagged(t, s.order[i])
      && RemoveAt(t, Left(s, i)).0 == WithHit(s, start, size)
  {
    var t := WithHit(AddAt(s, i).0, start, size);
    var a := Left(s, i);
    CollapseMembers(s.order, a, i, Right(s, i));
    UndoOrder(s, i);
    UndoInfo(s, i, t);
  }

  lemma UndoOrder(s: State, i: nat)
    requires Known(s) && i < |s.order|
    ensures var o := Collapse(s.order, Left(s, i), i, Right(s, i));
      o[..Left(s, i)] + Optional(Neighbour(s, i - 1)) + [s.order[i]] + Optional(Neighbour(s, i + 1)) + o[Left(s, i) + 1..] == s.order
  {
    var xs, a, b := s.order, Left(s, i), Right(s, i);
    var o := Collapse(xs, a, i, b);
    assert o[..a] == xs[..a] && o[a + 1..] == xs[b..];
    assert Optional(Neighbour(s, i - 1)) == xs[a..i] && Optional(Neighbour(s, i + 1)) == xs[i + 1..b];
    InFive(xs, a, i, b);
  }

  lemma InFive(xs: seq<Node>, a: nat, i: nat, b: nat)
    requires a <= i < b <= |xs|
    ensures xs[..a] + xs[a..i] + [xs[i]] + xs[i + 1..b] + xs[b..] == xs
  {
  }

  lemma UndoInfo(s: State, i: nat, t: State)
    requires ScanShape(s) && i < |s.order| && !s.info[s.order[i]].free && t.info == AddInfo(s, i)
    ensures SavedKnown(t, s.order[i]) && Flagged(t, s.order[i]) && RemoveInfo(t, s.order[i]) == s.info
  {
    var n := s.order[i];
    assert n in s.order;
    assert i > 0 ==> s.order[i - 1] in s.order && Cells(s)[i - 1].End() == Cells(s)[i].start;
    assert i + 1 < |s.order| ==> s.order[i + 1] in s.order;
    assert RemoveInfo(t, n).Keys == s.info.Keys;
    forall m | m in s.info ensures RemoveInfo(t, n)[m] == s.info[m] { }
  }
}
