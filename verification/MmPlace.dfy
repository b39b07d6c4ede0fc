/** drm_mm_get_block_generic and drm_mm_get_block_range_generic place the block
    where the search said, or put everything back (drm_mm.c:51-74, 125-219). */
module MmPlace {
  import opened MmState
  import opened MmAlloc

  // --- Splitting ---

  lemma SplitKnown(s: State, i: nat, size: int, got: Node?)
    requires Listed(s) && i < |s.order| && FreshFor(s, got)
    ensures SplitAt(s, i, size, got).1 == null ==> SplitAt(s, i, size, got).0 == s
    ensures Listed(SplitAt(s, i, size, got).0)
    ensures forall n :: n in s.info ==> n in SplitAt(s, i, size, got).0.info
  {
    var (t, child) := SplitAt(s, i, size, got);
    if child != null {
      assert child !in s.order;
      assert forall k :: 0 <= k < |t.order| ==> t.order[k] == if k < i then s.order[k] else if k == i then child else s.order[k - 1];
    }
  }

  lemma ChildIsNew(s: State, got: Node?)
    requires Listed(s) && FreshFor(s, got) && Kmalloc(s, got).1 != null
    ensures var child := Kmalloc(s, got).1; child !in s.order && child in Kmalloc(s, got).0.info
    ensures Kmalloc(s, got).0.info[Kmalloc(s, got).1].free == Stale(s, got)
  {
  }

  lemma CarveCells(s: State, i: nat, size: int, child: Node)
    requires Known(s) && NoDup(s.order) && i < |s.order| && child in s.info && child !in s.order
    ensures Known(Carve(s, i, size, child))
    ensures var c := Cells(s)[i];
      Cells(Carve(s, i, size, child)) ==
        Cells(s)[..i] + [Cell(child, c.start, size, s.info[child].free), Cell(c.node, c.start + size, c.size - size, c.free)]
        + Cells(s)[i + 1..]
  {
    var t, c := Carve(s, i, size, child), Cells(s)[i];
    var ds := Cells(s)[..i] + [Cell(child, c.start, size, s.info[child].free), Cell(c.node, c.start + size, c.size - size, c.free)]
              + Cells(s)[i + 1..];
    forall k | 0 <= k < |ds| ensures t.order[k] in t.info && Cells(t)[k] == ds[k] {
      assert t.order[k] == if k < i then s.order[k] else if k == i then child else s.order[k - 1];
    }
  }

  lemma SplitCells(s: State, i: nat, size: int, got: Node?)
    requires Listed(s) && i < |s.order| && FreshFor(s, got) && SplitAt(s, i, size, got).1 != null
    ensures Known(SplitAt(s, i, size, got).0)
    ensures var (t, child) := SplitAt(s, i, size, got); var c := Cells(s)[i];
      Cells(t) == Cells(s)[..i] + [Cell(child, c.start, size, Stale(s, got)), Cell(c.node, c.start + size, c.size - size, c.free)]
                  + Cells(s)[i + 1..]
  {
    var (t, child) := Kmalloc(s, got);
    ChildIsNew(s, got);
    CellsAgree(s, t);
    CarveCells(t, i, size, child);
  }

  /** What a split leaves alone. */
  lemma SplitFrame(s: State, i: nat, size: int, got: Node?)
    requires Listed(s) && i < |s.order| && FreshFor(s, got) && AllQuiet(s)
    ensures AllQuiet(SplitAt(s, i, size, got).0)
    ensures var (t, child) := SplitAt(s, i, size, got);
      && t.stack == s.stack
      && (child != null ==> child !in s.order && child !in t.unused && (got != null ==> child == got))
      && (forall n :: n in t.unused ==> n in s.unused)
      && (forall n :: n in t.info && n != child && n != s.order[i] ==> n in s.info && t.info[n] == s.info[n])
      && (forall n :: n in t.order <==> n in s.order || (n == child && child != null))
  {
    var (t, child) := SplitAt(s, i, size, got);
    SplitKnown(s, i, size, got);
    if child != null {
      assert s.order[i] in s.order;
      assert t.order == s.order[..i] + [child] + s.order[i..];
      assert s.order == s.order[..i] + s.order[i..];
    }
  }

  // --- Taking the block out of the hole at `i` ---

  /** What takes the place of the hole `c` when `block` is cut from its start. */
  function Cut(c: Cell, size: int, block: Node, free: bool): seq<Cell> {
    [Cell(block, c.start, size, free)]
    + if c.size == size then [] else [Cell(c.node, c.start + size, c.size - size, c.free)]
  }

  /** Kmalloc is asked for a node, and the one it has is stale. */
  ghost predicate TakesStale(s: State, i: nat, size: int, got: Node?)
    requires i < |s.order| && Known(s)
  {
    s.info[s.order[i]].size != size && Stale(s, got)
  }

  lemma ClaimCells(s: State, i: nat)
    requires Listed(s) && AllQuiet(s) && i < |s.order|
    ensures Listed(Claim(s, i)) && AllQuiet(Claim(s, i))
    ensures var c := Cells(s)[i];
      Cells(Claim(s, i)) == Cells(s)[..i] + [Cell(c.node, c.start, c.size, false)] + Cells(s)[i + 1..]
  {
  }

  lemma TakeCells(s: State, i: nat, size: int, got: Node?)
    requires Listed(s) && AllQuiet(s) && i < |s.order| && FreshFor(s, got)
    ensures Listed(TakeAt(s, i, size, got).0) && AllQuiet(TakeAt(s, i, size, got).0)
    ensures TakeAt(s, i, size, got).1 == null ==> TakeAt(s, i, size, got).0 == s && s.info[s.order[i]].size != size
    ensures var (t, block) := TakeAt(s, i, size, got);
      block != null ==>
        Cells(t) == Cells(s)[..i] + Cut(Cells(s)[i], size, block, TakesStale(s, i, size, got)) + Cells(s)[i + 1..]
  {
    var (t, block) := TakeAt(s, i, size, got);
    var c := Cells(s)[i];
    if s.info[s.order[i]].size == size {
      ClaimCells(s, i);
      assert Cut(c, size, block, false) == [Cell(c.node, c.start, c.size, false)];
    } else {
      SplitFrame(s, i, size, got);
      SplitKnown(s, i, size, got);
      if block != null {
        SplitCells(s, i, size, got);
        assert Cut(c, size, block, Stale(s, got)) ==
          [Cell(block, c.start, size, Stale(s, got)), Cell(c.node, c.start + size, c.size - size, c.free)];
      }
    }
  }

  lemma TakeStack(s: State, i: nat, size: int, got: Node?, x: Node?)
    requires Listed(s) && AllQuiet(s) && i < |s.order| && FreshFor(s, got)
    requires StackExactBut(s, x) && s.order[i] != x && s.info[s.order[i]].free && !TakesStale(s, i, size, got)
    ensures StackExactBut(TakeAt(s, i, size, got).0, x)
  {
    assert s.order[i] in s.order;
    if s.info[s.order[i]].size != size {
      SplitFrame(s, i, size, got);
    }
  }

  // --- Theorems ---

  /** The hole `c` after a block of `size` units is placed `wasted` units into it. */
  function Placed(c: Cell, wasted: int, size: int, pre: Node, block: Node): seq<Cell> {
    (if wasted == 0 then [] else [Cell(pre, c.start, wasted, true)])
    + Cut(Cell(c.node, c.start + wasted, c.size - wasted, true), size, block, false)
  }

  /** The split that makes the block takes a stale node from the pool. */
  ghost predicate BlockStale(s: State, i: nat, wasted: int, size: int, got1: Node?, got2: Node?)
    requires Listed(s) && i < |s.order|
  {
    if wasted == 0 then TakesStale(s, i, size, got2)
    else
      var (t, pre) := SplitAt(s, i, wasted, got1);
      pre != null && Known(t) && TakesStale(t, i + 1, size, got2)
  }

  lemma SpliceShape(cs: seq<Cell>, i: nat, mid: seq<Cell>, lo: int, hi: int)
    requires Tiling(cs, lo, hi) && Settled(cs) && i < |cs| && cs[i].free
    requires Tiling(mid, cs[i].start, cs[i].End()) && Settled(mid)
    ensures Tiling(cs[..i] + mid + cs[i + 1..], lo, hi) && Settled(cs[..i] + mid + cs[i + 1..])
  {
    var ds := cs[..i] + mid + cs[i + 1..];
    forall x, y | 0 <= x && y == x + 1 < |ds| ensures ds[x].End() == ds[y].start && !(ds[x].free && ds[y].free) {
      if x >= i + |mid| { assert ds[x] == cs[x - |mid| + 1] && ds[y] == cs[y - |mid| + 1]; }
      else if i <= x && y < i + |mid| { assert ds[x] == mid[x - i] && ds[y] == mid[y - i]; }
      else if i <= x { assert ds[x] == mid[|mid| - 1] && ds[y] == cs[i + 1]; }
    }
  }

  /** The hole at `i` can hold the block, and the nodes handed out by kzalloc are new. */
  ghost predicate CanGet(s: State, i: nat, wasted: int, size: int, got1: Node?, got2: Node?) {
    && Valid(s) && i < |s.order| && s.info[s.order[i]].free
    && 0 <= wasted && 0 <= size && wasted + size <= s.info[s.order[i]].size
    && FreshFor(s, got1) && FreshFor(s, got2) && (got1 != null ==> got1 != got2)
  }

  /** `t` is `s` with the first `wasted` units of the hole at `i` split off into `pre`. */
  ghost predicate HasPre(s: State, i: nat, wasted: int, t: State, pre: Node)
    requires Known(s) && i < |s.order|
  {
    && Listed(t) && AllQuiet(t) && StackExactBut(t, pre) && t.lo == s.lo && t.hi == s.hi
    && i + 1 < |t.order| && t.order[i] == pre && t.order[i + 1] == s.order[i] && pre != s.order[i]
    && Cells(t)[..i] == Cells(s)[..i] && Cells(t)[i + 2..] == Cells(s)[i + 1..]
    && Cells(t)[i].start == Cells(s)[i].start && Cells(t)[i].size == wasted
    && Cells(t)[i + 1] == Cell(s.order[i], Cells(s)[i].start + wasted, Cells(s)[i].size - wasted, true)
  }

  lemma FirstSplit(s: State, i: nat, wasted: int, size: int, got1: Node?, got2: Node?)
    requires CanGet(s, i, wasted, size, got1, got2) && wasted > 0 && SplitAt(s, i, wasted, got1).1 != null
    ensures HasPre(s, i, wasted, SplitAt(s, i, wasted, got1).0, SplitAt(s, i, wasted, got1).1)
    ensures FreshFor(SplitAt(s, i, wasted, got1).0, got2)
  {
    SplitKnown(s, i, wasted, got1);
    SplitFrame(s, i, wasted, got1);
    SplitCells(s, i, wasted, got1);
    assert s.order[i] in s.order;
  }

  /** A block taken without a first split: the hole is replaced by the block and what is left. */
  lemma GetDirect(s: State, i: nat, size: int, got: Node?)
    requires CanGet(s, i, 0, size, null, got) && TakeAt(s, i, size, got).1 != null && !TakesStale(s, i, size, got)
    ensures var (t, block) := TakeAt(s, i, size, got);
      Valid(t) && Cells(t) == Cells(s)[..i] + Placed(Cells(s)[i], 0, size, block, block) + Cells(s)[i + 1..]
  {
    var c := Cells(s)[i];
    var block := TakeAt(s, i, size, got).1;
    assert c.free && c == Cell(c.node, c.start + 0, c.size - 0, true);
    var mid := Cut(c, size, block, false);
    assert Placed(c, 0, size, block, block) == mid;
    CutShape(c, size, block);
    TakeCells(s, i, size, got);
    SpliceShape(Cells(s), i, mid, s.lo, s.hi);
    TakeExact(s, i, size, got);
  }

  lemma TakeExact(s: State, i: nat, size: int, got: Node?)
    requires CanGet(s, i, 0, size, null, got) && !TakesStale(s, i, size, got)
    ensures StackExact(TakeAt(s, i, size, got).0)
  {
    TakeStack(s, i, size, got, null);
  }

  lemma LoneFuse(cs: seq<Cell>, j: nat)
    requires j < |cs| && !PrevFree(cs, j) && !NextFree(cs, j)
    ensures Fuse(cs, j, cs[j].node) == cs[..j] + [Cell(cs[j].node, cs[j].start, cs[j].size, true)] + cs[j + 1..]
  {
  }

  /** A block taken after a first split: the part before it goes back as a hole of its own. */
  lemma GetAfterSplit(s: State, i: nat, wasted: int, t: State, pre: Node, size: int, got: Node?)
    requires Valid(s) && i < |s.order| && s.info[s.order[i]].free && HasPre(s, i, wasted, t, pre)
    requires 0 < wasted && 0 <= size && wasted + size <= s.info[s.order[i]].size && FreshFor(t, got)
    requires TakeAt(t, i + 1, size, got).1 != null && !TakesStale(t, i + 1, size, got)
    ensures var (u, block) := TakeAt(t, i + 1, size, got);
      && Valid(PutAt(u, i))
      && Cells(PutAt(u, i)) == Cells(s)[..i] + Placed(Cells(s)[i], wasted, size, pre, block) + Cells(s)[i + 1..]
  {
    var (u, block) := TakeAt(t, i + 1, size, got);
    SecondTake(s, i, wasted, t, pre, size, got);
    PlacedIs(Cells(s)[i], wasted, size, pre, block, Cells(t)[i + 1]);
    CutShape(Cells(t)[i + 1], size, block);
    AfterPut(s, i, wasted, u, pre, block, Cells(t)[i], Cut(Cells(t)[i + 1], size, block, false));
  }

  lemma PlacedIs(c: Cell, wasted: int, size: int, pre: Node, block: Node, rest: Cell)
    requires 0 < wasted && rest == Cell(c.node, c.start + wasted, c.size - wasted, true)
    ensures Placed(c, wasted, size, pre, block) == [Cell(pre, c.start, wasted, true)] + Cut(rest, size, block, false)
  {
  }

  lemma SecondTake(s: State, i: nat, wasted: int, t: State, pre: Node, size: int, got: Node?)
    requires Valid(s) && i < |s.order| && s.info[s.order[i]].free && HasPre(s, i, wasted, t, pre)
    requires 0 < wasted && 0 <= size && wasted + size <= s.info[s.order[i]].size && FreshFor(t, got)
    requires TakeAt(t, i + 1, size, got).1 != null && !TakesStale(t, i + 1, size, got)
    ensures var (u, block) := TakeAt(t, i + 1, size, got);
      && Listed(u) && AllQuiet(u) && StackExactBut(u, pre) && u.lo == s.lo && u.hi == s.hi
      && Cells(u) == Cells(s)[..i] + [Cells(t)[i]] + Cut(Cells(t)[i + 1], size, block, false) + Cells(s)[i + 1..]
  {
    TakeCells(t, i + 1, size, got);
    assert t.info[t.order[i + 1]].free == Cells(t)[i + 1].free;
    TakeStack(t, i + 1, size, got, pre);
    assert Cells(t)[..i + 1] == Cells(s)[..i] + [Cells(t)[i]];
  }

  lemma CutShape(c: Cell, size: int, block: Node)
    requires 0 <= size <= c.size && c.free
    ensures var cut := Cut(c, size, block, false);
      |cut| > 0 && !cut[0].free && Settled(cut) && Tiling(cut, c.start, c.End())
  {
  }

  /** The state `u` holds the part before the block as one more allocated node at
      `i`; returning it leaves a hole between allocated neighbours. */
  lemma AfterPut(s: State, i: nat, wasted: int, u: State, pre: Node, block: Node, preCell: Cell, cut: seq<Cell>)
    requires Valid(s) && i < |s.order| && s.info[s.order[i]].free && 0 < wasted
    requires Listed(u) && AllQuiet(u) && StackExactBut(u, pre) && u.lo == s.lo && u.hi == s.hi
    requires Cells(u) == Cells(s)[..i] + [preCell] + cut + Cells(s)[i + 1..]
    requires preCell.node == pre && preCell.start == Cells(s)[i].start && preCell.size == wasted
    requires |cut| > 0 && !cut[0].free && Settled(cut) && Tiling(cut, Cells(s)[i].start + wasted, Cells(s)[i].End())
    ensures Valid(PutAt(u, i))
    ensures Cells(PutAt(u, i)) == Cells(s)[..i] + ([Cell(pre, Cells(s)[i].start, wasted, true)] + cut) + Cells(s)[i + 1..]
  {
    var cs := Cells(s);
    var mid := [Cell(pre, cs[i].start, wasted, true)] + cut;
    AfterPutCells(cs, i, u, preCell, cut);
    assert Tiling(mid, cs[i].start, cs[i].End()) && Settled(mid);
    SpliceShape(cs, i, mid, s.lo, s.hi);
    PutKeepsPool(u, i);
    PutKeepsQuiet(u, i);
    PutKeepsStack(u, i);
  }

  lemma AfterPutCells(cs: seq<Cell>, i: nat, u: State, preCell: Cell, cut: seq<Cell>)
    requires i < |cs| && cs[i].free && Settled(cs) && Known(u) && NoDup(u.order)
    requires Cells(u) == cs[..i] + [preCell] + cut + cs[i + 1..] && |cut| > 0 && !cut[0].free
    ensures u.order[i] == preCell.node
    ensures Cells(PutAt(u, i)) == cs[..i] + ([preCell.(free := true)] + cut) + cs[i + 1..]
  {
    var us := Cells(u);
    assert us[i] == preCell && us[i + 1] == cut[0];
    assert i > 0 ==> us[i - 1] == cs[i - 1] && !cs[i - 1].free by { assert cs[i].free; }
    LoneFuse(us, i);
    PutCells(u, i);
    Neighbourhood(u, i);
  }

  /** When the second split finds no node, returning the part before the block
      restores the list, the free stack and every listed node. */
  lemma Rollback(s: State, i: nat, wasted: int, t: State, pre: Node)
    requires Valid(s) && i < |s.order| && s.info[s.order[i]].free && HasPre(s, i, wasted, t, pre) && t.stack == s.stack
    ensures Valid(PutAt(t, i)) && SameLists(s, PutAt(t, i))
  {
    var cs, ts := Cells(s), Cells(t);
    assert ts[i].node == pre && cs[i].free && cs[i].node == s.order[i];
    assert i > 0 ==> ts[i - 1] == ts[..i][i - 1] && cs[i - 1] == cs[..i][i - 1] && !cs[i - 1].free;
    Neighbourhood(t, i);
    PutCells(t, i);
    assert Cells(PutAt(t, i)) == cs by {
      FuseAt(ts, i, t.order[i + 1]);
      FuseBack(cs, ts, i);
    }
    PutKeepsPool(t, i);
    PutKeepsQuiet(t, i);
    PutKeepsStack(t, i);
    SameCells(s, PutAt(t, i));
  }

  lemma FuseBack(cs: seq<Cell>, ts: seq<Cell>, i: nat)
    requires i < |cs| && i + 1 < |ts| && cs[i].free && ts[i + 1].free && (i > 0 ==> !ts[i - 1].free)
    requires ts[..i] == cs[..i] && ts[i + 2..] == cs[i + 1..]
    requires ts[i].start == cs[i].start && ts[i].size + ts[i + 1].size == cs[i].size && ts[i + 1].node == cs[i].node
    ensures Fuse(ts, i, ts[i + 1].node) == cs
  {
    assert cs == cs[..i] + [cs[i]] + cs[i + 1..];
    assert [cs[i]] == [Cell(ts[i + 1].node, ts[i].start, ts[i].size + ts[i + 1].size, true)];
  }

  /** Same list, same free stack, same nodes. The pool may differ. */
  ghost predicate SameLists(s: State, t: State) {
    s.order == t.order && s.stack == t.stack && forall n :: n in s.order && n in s.info ==> n in t.info && t.info[n] == s.info[n]
  }

  lemma SameCells(s: State, t: State)
    requires Known(s) && Known(t) && Cells(s) == Cells(t) && AllQuiet(s) && AllQuiet(t)
    ensures s.order == t.order && forall n :: n in s.order && n in s.info ==> n in t.info && t.info[n] == s.info[n]
  {
    assert |Cells(s)| == |s.order| && |Cells(t)| == |t.order|;
    forall k | 0 <= k < |s.order| ensures s.order[k] == t.order[k] && t.info[s.order[k]] == s.info[s.order[k]] {
      assert Cells(s)[k] == Cells(t)[k];
      assert s.order[k] in s.order && t.order[k] in t.order;
    }
  }

  /** A stale block is free on the list, next to the rest of its hole. */
  lemma StaleBreaks(s: State, i: nat, size: int, got: Node?, j: nat)
    requires Listed(s) && AllQuiet(s) && i < |s.order| && FreshFor(s, got) && TakesStale(s, i, size, got)
    requires s.info[s.order[i]].free && (j == i || (j + 1 == i && !FreeAt(s, j - 1)))
    ensures var (t, block) := TakeAt(s, i, size, got);
      Known(t) && j < |t.order| && block != null && !Shape(if j == i then t else PutAt(t, j))
  {
    TakeCells(s, i, size, got);
    var (t, block) := TakeAt(s, i, size, got);
    var c, cs := Cells(s)[i], Cells(t);
    assert cs[i] == Cell(block, c.start, size, true) && cs[i + 1].free;
    if j != i {
      assert j > 0 ==> cs[j - 1] == Cells(s)[j - 1];
      assert NextFree(cs, j) && !PrevFree(cs, j);
      FuseAt(cs, j, t.order[Survivor(t, j)]);
      PutCells(t, j);
      assert Cells(PutAt(t, j))[j].free && Cells(PutAt(t, j))[j + 1].free;
    }
  }

  /** drm_mm_get_block_generic and its range variant. The block is exactly where
      `wasted` puts it, with the rest of the hole still free around it; or no
      node was to be had, and nothing listed has changed. The allocator stays
      well formed exactly if the block's node did not come stale from the pool. */
  lemma GetPlaces(s: State, i: nat, wasted: int, size: int, got1: Node?, got2: Node?)
    requires CanGet(s, i, wasted, size, got1, got2)
    ensures Valid(GetAt(s, i, wasted, size, got1, got2).0) <==> !BlockStale(s, i, wasted, size, got1, got2)
    ensures PlacedOrSame(s, i, wasted, size, GetAt(s, i, wasted, size, got1, got2).0, GetAt(s, i, wasted, size, got1, got2).1)
  {
    if wasted == 0 {
      TakeCells(s, i, size, got2);
      if TakesStale(s, i, size, got2) { StaleBreaks(s, i, size, got2, i); }
      else if TakeAt(s, i, size, got2).1 != null { GetDirect(s, i, size, got2); }
    } else if SplitAt(s, i, wasted, got1).1 != null {
      FirstSplit(s, i, wasted, size, got1, got2);
      var (t, pre) := SplitAt(s, i, wasted, got1);
      assert t.stack == s.stack by { SplitFrame(s, i, wasted, got1); }
      GetRest(s, i, wasted, t, pre, size, got2);
    }
  }

  /** Either the block is in its place, and the rest of the hole free around it, or nothing listed has changed. */
  ghost predicate PlacedOrSame(s: State, i: nat, wasted: int, size: int, t: State, block: Node?)
    requires Known(s) && i < |s.order|
  {
    && (block == null ==> SameLists(s, t) && Valid(t))
    && (block != null && Valid(t) ==>
         i < |t.order| && Cells(t) == Cells(s)[..i] + Placed(Cells(s)[i], wasted, size, t.order[i], block) + Cells(s)[i + 1..])
  }

  lemma GetRest(s: State, i: nat, wasted: int, t: State, pre: Node, size: int, got: Node?)
    requires Valid(s) && i < |s.order| && s.info[s.order[i]].free && HasPre(s, i, wasted, t, pre) && t.stack == s.stack
    requires 0 < wasted && 0 <= size && wasted + size <= s.info[s.order[i]].size && FreshFor(t, got)
    ensures var (u, block) := TakeAt(t, i + 1, size, got);
      && (Valid(PutAt(u, i)) <==> !TakesStale(t, i + 1, size, got))
      && PlacedOrSame(s, i, wasted, size, PutAt(u, i), block)
  {
    TakeCells(t, i + 1, size, got);
    if TakeAt(t, i + 1, size, got).1 == null { Rollback(s, i, wasted, t, pre); }
    else {
      GetSplit(s, i, wasted, t, pre, size, got);
      PreAt(s, i, wasted, size, pre, TakeAt(t, i + 1, size, got).1, PutAt(TakeAt(t, i + 1, size, got).0, i));
    }
  }

  lemma PreAt(s: State, i: nat, wasted: int, size: int, pre: Node, block: Node, u: State)
    requires Known(s) && i < |s.order| && 0 < wasted
    ensures Valid(u) && Cells(u) == Cells(s)[..i] + Placed(Cells(s)[i], wasted, size, pre, block) + Cells(s)[i + 1..] ==>
      i < |u.order| && u.order[i] == pre
  {
    if Valid(u) && Cells(u) == Cells(s)[..i] + Placed(Cells(s)[i], wasted, size, pre, block) + Cells(s)[i + 1..] {
      assert Cells(u)[i].node == pre;
    }
  }

  lemma GetSplit(s: State, i: nat, wasted: int, t: State, pre: Node, size: int, got: Node?)
    requires Valid(s) && i < |s.order| && s.info[s.order[i]].free && HasPre(s, i, wasted, t, pre)
    requires 0 < wasted && 0 <= size && wasted + size <= s.info[s.order[i]].size && FreshFor(t, got)
    requires TakeAt(t, i + 1, size, got).1 != null
    ensures var (u, block) := TakeAt(t, i + 1, size, got);
      && (Valid(PutAt(u, i)) <==> !TakesStale(t, i + 1, size, got))
      && (Valid(PutAt(u, i)) ==>
           Cells(PutAt(u, i)) == Cells(s)[..i] + Placed(Cells(s)[i], wasted, size, pre, block) + Cells(s)[i + 1..])
  {
    if TakesStale(t, i + 1, size, got) {
      assert Cells(t)[i + 1].free && Cells(s)[i].free;
      assert i > 0 ==> Cells(t)[i - 1] == Cells(t)[..i][i - 1] && Cells(s)[i - 1] == Cells(s)[..i][i - 1];
      StaleBreaks(t, i + 1, size, got, i);
    } else {
      GetAfterSplit(s, i, wasted, t, pre, size, got);
    }
  }

  /** A placed block is listed, allocated, and lies at its place in the hole. */
  lemma BlockAt(s: State, i: nat, wasted: int, size: int, t: State, block: Node)
    requires Known(s) && i < |s.order| && Valid(t) && PlacedOrSame(s, i, wasted, size, t, block)
    ensures block in t.order && block in t.info && !t.info[block].free
    ensures t.info[block].start == s.info[s.order[i]].start + wasted && t.info[block].size == size
  {
    var k := if wasted == 0 then i else i + 1;
    assert Cells(t)[k] == Cell(block, Cells(s)[i].start + wasted, size, false);
    assert t.order[k] in t.order;
  }
}
