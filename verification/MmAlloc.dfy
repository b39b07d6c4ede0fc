/** What drm_mm_get_block*, drm_mm_put_block and drm_mm_takedown do to the state
    (drm_mm.c:51-307, 531-579), and the theorems about them. */
module MmAlloc {
  import opened MmState

  const UNUSED_TARGET := 4

  // --- Node allocation ---

  /** drm_mm_kmalloc. `got` is what kzalloc returned, null when it failed;
      then the node comes from the pool, with the fields it was retired with. */
  function Kmalloc(s: State, got: Node?): (State, Node?)
  {
    if got != null then (s.(info := s.info[got := ZERO]), got)
    else if s.unused == [] then (s, null)
    else (s.(unused := s.unused[1..]), s.unused[0])
  }

  /** A node drm_mm_pre_get adds to the pool, last in line. */
  function AddSpare(s: State, got: Node): State {
    s.(unused := s.unused + [got], info := s.info[got := ZERO])
  }

  predicate PoolKnown(s: State) {
    forall i :: 0 <= i < |s.unused| ==> s.unused[i] in s.info
  }

  /** The node kmalloc would hand out still carries the free bit of its previous life. */
  ghost predicate Stale(s: State, got: Node?) {
    got == null && s.unused != [] && s.unused[0] in s.info && s.info[s.unused[0]].free
  }

  ghost predicate FreshFor(s: State, got: Node?) {
    got != null ==> got !in s.info
  }

  /** kfree, or back to the pool while it holds fewer than four nodes. */
  function Retire(unused: seq<Node>, n: Node): seq<Node> {
    if |unused| < UNUSED_TARGET then [n] + unused else unused
  }

  /** `child` takes the first `size` units of the node at `i`, and is linked in
      before it. It keeps whatever free bit it came with. */
  function Carve(s: State, i: nat, size: int, child: Node): State
    requires i < |s.order| && Known(s) && child in s.info
  {
    var p := s.info[s.order[i]];
    var c := s.info[child].(start := p.start, size := size, savedPrev := null, savedNext := null);
    s.(order := s.order[..i] + [child] + s.order[i..],
       info := s.info[child := c][s.order[i] := p.(start := p.start + size, size := p.size - size)])
  }

  /** drm_mm_split_at_start */
  function SplitAt(s: State, i: nat, size: int, got: Node?): (State, Node?)
    requires i < |s.order| && Known(s) && PoolKnown(s)
  {
    var (t, child) := Kmalloc(s, got);
    if child == null then (t, null) else (Carve(t, i, size, child), child)
  }

  // --- Giving a block back ---

  predicate FreeAt(s: State, i: int)
    requires Known(s)
  {
    0 <= i < |s.order| && s.info[s.order[i]].free
  }

  /** The neighbourhood a block at `i` merges with: from its free predecessor, if any, ... */
  function Left(s: State, i: nat): (a: nat)
    requires i < |s.order| && Known(s)
    ensures a <= i
  {
    if FreeAt(s, i - 1) then i - 1 else i
  }

  /** ... up to its free successor. */
  function Right(s: State, i: nat): (b: nat)
    requires i < |s.order| && Known(s)
    ensures i < b <= |s.order|
  {
    if FreeAt(s, i + 1) then i + 2 else i + 1
  }

  /** The position of the node that stands for the block at `i` once it has been
      put: the free neighbour that absorbs it, the earlier one first. */
  function Survivor(s: State, i: nat): (k: nat)
    requires i < |s.order| && Known(s)
    ensures Left(s, i) <= k < Right(s, i)
  {
    if FreeAt(s, i - 1) then i - 1 else if FreeAt(s, i + 1) then i + 1 else i
  }

  /** The positions from `a` to `b` give way to the one at `k`. */
  function Collapse(xs: seq<Node>, a: nat, k: nat, b: nat): (r: seq<Node>)
    requires a <= k < b <= |xs|
    ensures |r| == a + 1 + |xs| - b
    ensures forall j :: 0 <= j < |r| ==> r[j] == if j < a then xs[j] else if j == a then xs[k] else xs[j + b - a - 1]
  {
    xs[..a] + [xs[k]] + xs[b..]
  }

  lemma CollapseMembers(xs: seq<Node>, a: nat, k: nat, b: nat)
    requires a <= k < b <= |xs| && NoDup(xs)
    ensures NoDup(Collapse(xs, a, k, b))
    ensures forall n :: n in Collapse(xs, a, k, b) ==> n in xs && (n in xs[a..b] ==> n == xs[k])
    ensures forall n :: n in xs && (n in xs[a..b] ==> n == xs[k]) ==> n in Collapse(xs, a, k, b)
  {
    var r := Collapse(xs, a, k, b);
    forall n | n in xs && (n in xs[a..b] ==> n == xs[k]) ensures n in r {
      var j := Pos(xs, n);
      if j < a { assert r[j] == n; } else if j >= b { assert r[j - b + a + 1] == n; }
      else { assert xs[a..b][j - a] == n; assert r[a] == n; }
    }
  }

  /** The combined size of the block at `i` and its free neighbours. */
  function FusedSize(s: State, i: nat): int
    requires i < |s.order| && Known(s)
  {
    (if FreeAt(s, i - 1) then s.info[s.order[i - 1]].size else 0)
    + s.info[s.order[i]].size
    + (if FreeAt(s, i + 1) then s.info[s.order[i + 1]].size else 0)
  }

  function PutStack(s: State, cur: Node, i: nat): seq<Node>
    requires i < |s.order| && Known(s)
  {
    var p, q := FreeAt(s, i - 1), FreeAt(s, i + 1);
    if p && q then (if s.order[i + 1] in s.stack then Without(s.stack, s.order[i + 1]) else s.stack)
    else if p || q then s.stack else [cur] + s.stack
  }

  function PutUnused(s: State, cur: Node, i: nat): seq<Node>
    requires i < |s.order| && Known(s)
  {
    var p, q := FreeAt(s, i - 1), FreeAt(s, i + 1);
    if p && q then Retire(Retire(s.unused, s.order[i + 1]), cur)
    else if p || q then Retire(s.unused, cur) else s.unused
  }

  /** drm_mm_put_block: the block at `i` absorbs, or is absorbed by, the free
      neighbours it has; otherwise it goes on top of the free stack. */
  function PutAt(s: State, i: nat): State
    requires i < |s.order| && Known(s)
  {
    var keep := s.order[Survivor(s, i)];
    s.(order := Collapse(s.order, Left(s, i), Survivor(s, i), Right(s, i)),
       info := s.info[keep := s.info[keep].(start := s.info[s.order[Left(s, i)]].start, size := FusedSize(s, i), free := true)],
       stack := PutStack(s, s.order[i], i), unused := PutUnused(s, s.order[i], i))
  }

  function Put(s: State, cur: Node): State
    requires cur in s.order && Known(s)
  {
    PutAt(s, Pos(s.order, cur))
  }

  lemma PutKnown(s: State, i: nat)
    requires Known(s) && NoDup(s.order) && i < |s.order|
    ensures Known(PutAt(s, i)) && NoDup(PutAt(s, i).order)
  {
    CollapseMembers(s.order, Left(s, i), Survivor(s, i), Right(s, i));
  }

  /** The neighbourhood in terms of cells. */
  lemma Neighbourhood(s: State, i: nat)
    requires Known(s) && i < |s.order|
    ensures var cs := Cells(s);
      && Left(s, i) == (if PrevFree(cs, i) then i - 1 else i)
      && Right(s, i) == (if NextFree(cs, i) then i + 2 else i + 1)
      && FusedSize(s, i) == (if PrevFree(cs, i) then cs[i - 1].size else 0) + cs[i].size
                            + (if NextFree(cs, i) then cs[i + 1].size else 0)
  {
  }

  lemma PutCells(s: State, i: nat)
    requires Known(s) && NoDup(s.order) && i < |s.order|
    ensures Known(PutAt(s, i)) && Cells(PutAt(s, i)) == Fuse(Cells(s), i, s.order[Survivor(s, i)])
  {
    PutKnown(s, i);
    var ds, es := Fuse(Cells(s), i, s.order[Survivor(s, i)]), Cells(PutAt(s, i));
    assert |ds| == |es| by { Neighbourhood(s, i); }
    forall j | 0 <= j < |es| ensures es[j] == ds[j] {
      PutCellAt(s, i, j);
      Neighbourhood(s, i);
    }
  }

  lemma PutCellAt(s: State, i: nat, j: nat)
    requires Known(s) && NoDup(s.order) && i < |s.order| && j < |PutAt(s, i).order|
    ensures var t, a, b := PutAt(s, i), Left(s, i), Right(s, i);
      t.order[j] in t.info && CellOf(t, t.order[j]) ==
        if j < a then Cells(s)[j] else if j > a then Cells(s)[j + b - a - 1]
        else Cell(s.order[Survivor(s, i)], Cells(s)[a].start, FusedSize(s, i), true)
  {
    var a, k, b := Left(s, i), Survivor(s, i), Right(s, i);
    assert s.order[k] in s.info && s.order[a] in s.info;
  }

  /** The free stack is exact but for `cur` (null for none), which is not on it whatever its free bit says. */
  ghost predicate StackExactBut(s: State, cur: Node?)
  {
    && NoDup(s.stack) && cur !in s.stack
    && (forall n :: n in s.stack ==> n in s.order)
    && (forall n :: n in s.order && n in s.info && n != cur ==> (n in s.stack <==> s.info[n].free))
  }

  /** Which nodes stay on the list. */
  lemma PutMembers(s: State, i: nat, n: Node)
    requires Known(s) && NoDup(s.order) && i < |s.order|
    ensures n in PutAt(s, i).order <==>
      && n in s.order
      && (FreeAt(s, i - 1) || FreeAt(s, i + 1) ==> n != s.order[i])
      && (FreeAt(s, i - 1) && FreeAt(s, i + 1) ==> n != s.order[i + 1])
  {
    var a, k, b := Left(s, i), Survivor(s, i), Right(s, i);
    CollapseMembers(s.order, a, k, b);
    SliceMembers(s.order, a, i, b, n);
  }

  /** A stretch of at most three. */
  lemma SliceMembers(xs: seq<Node>, a: nat, i: nat, b: nat, n: Node)
    requires a <= i < b <= |xs| && i <= a + 1 && b <= i + 2
    ensures n in xs[a..b] <==> n == xs[a] || n == xs[i] || n == xs[b - 1]
  {
    assert xs[a] == xs[a..b][0] && xs[i] == xs[a..b][i - a] && xs[b - 1] == xs[a..b][b - 1 - a];
  }

  lemma PutKeepsStack(s: State, i: nat)
    requires Known(s) && NoDup(s.order) && i < |s.order| && StackExactBut(s, s.order[i])
    ensures StackExact(PutAt(s, i))
  {
    var t := PutAt(s, i);
    assert s.order[Left(s, i)] in s.order && s.order[Survivor(s, i)] in s.order;
    assert FreeAt(s, i + 1) ==> s.order[i + 1] in s.order && s.order[i + 1] in s.stack;
    forall n | n in t.stack ensures n in t.order {
      PutMembers(s, i, n);
    }
    forall n | n in t.order && n in t.info ensures n in t.stack <==> t.info[n].free {
      PutMembers(s, i, n);
    }
  }

  lemma PutKeepsValid(s: State, i: nat)
    requires Valid(s) && i < |s.order| && !s.info[s.order[i]].free
    ensures Valid(PutAt(s, i))
    ensures Cells(PutAt(s, i)) == Fuse(Cells(s), i, s.order[Survivor(s, i)])
  {
    PutKeepsPool(s, i);
    assert StackExact(PutAt(s, i)) by {
      assert s.order[i] in s.order;
      PutKeepsStack(s, i);
    }
    PutCells(s, i);
    assert Shape(PutAt(s, i)) by {
      FuseKeepsShape(Cells(s), i, s.order[Survivor(s, i)], s.lo, s.hi);
    }
    PutKeepsQuiet(s, i);
  }

  lemma PutKeepsQuiet(s: State, i: nat)
    requires Listed(s) && i < |s.order| && AllQuiet(s)
    ensures AllQuiet(PutAt(s, i))
  {
    PutKeepsPool(s, i);
    assert s.order[Survivor(s, i)] in s.order;
  }

  lemma PutKeepsPool(s: State, i: nat)
    requires Listed(s) && i < |s.order|
    ensures Listed(PutAt(s, i))
    ensures forall n :: n in PutAt(s, i).unused ==> n in s.unused || n in s.order
    ensures forall n :: n in PutAt(s, i).order ==> n in s.order
  {
    PutKnown(s, i);
    assert s.order[i] in s.order;
    assert i + 1 < |s.order| ==> s.order[i + 1] in s.order;
    forall n | n in PutAt(s, i).order ensures n in s.order {
      PutMembers(s, i, n);
    }
    forall n | n in PutAt(s, i).unused ensures n !in PutAt(s, i).order && n in s.info {
      PutMembers(s, i, n);
      PutPool(s, i, n);
    }
  }

  /** What the pool holds: what it held, and the nodes that left the list. */
  lemma PutPool(s: State, i: nat, n: Node)
    requires Listed(s) && i < |s.order| && n in PutUnused(s, s.order[i], i)
    ensures n in s.unused || (n == s.order[i] && (FreeAt(s, i - 1) || FreeAt(s, i + 1)))
                          || (FreeAt(s, i - 1) && FreeAt(s, i + 1) && n == s.order[i + 1])
  {
  }

  // --- Taking a block out of a hole ---

  /** The hole at `i` becomes the block. */
  function Claim(s: State, i: nat): State
    requires i < |s.order| && Known(s)
  {
    var n := s.order[i];
    s.(stack := if n in s.stack then Without(s.stack, n) else s.stack, info := s.info[n := s.info[n].(free := false)])
  }

  /** The common body of drm_mm_get_block_generic and drm_mm_get_block_range_generic,
      from the point where `wasted` is known. */
  function GetAt(s: State, i: nat, wasted: int, size: int, got1: Node?, got2: Node?): (State, Node?)
    requires i < |s.order| && Known(s) && PoolKnown(s)
  {
    if wasted == 0 then TakeAt(s, i, size, got2)
    else
      var (t, pre) := SplitAt(s, i, wasted, got1);
      if pre == null then (t, null) else
        assert Known(t) && PoolKnown(t);
        var (u, block) := TakeAt(t, i + 1, size, got2);
        assert Known(u);
        (PutAt(u, i), block)
  }

  function TakeAt(s: State, i: nat, size: int, got: Node?): (r: (State, Node?))
    requires i < |s.order| && Known(s) && PoolKnown(s)
    ensures Known(r.0) && i < |r.0.order|
  {
    if s.info[s.order[i]].size == size then (Claim(s, i), s.order[i]) else SplitAt(s, i, size, got)
  }

  // --- PutAt, case by case, as drm_mm_put_block goes about it ---

  /** list_del */
  function Unlink(xs: seq<Node>, n: Node): seq<Node> {
    if n in xs then Without(xs, n) else xs
  }

  lemma UnlinkAt(xs: seq<Node>, i: nat)
    requires NoDup(xs) && i < |xs|
    ensures Unlink(xs, xs[i]) == xs[..i] + xs[i + 1..]
  {
    PosUnique(xs, i);
  }

  lemma PutAlone(s: State, i: nat)
    requires Known(s) && i < |s.order| && !FreeAt(s, i - 1) && !FreeAt(s, i + 1)
    ensures var cur := s.order[i];
      PutAt(s, i) == s.(info := s.info[cur := s.info[cur].(free := true)], stack := [cur] + s.stack)
  {
  }

  lemma PutIntoPrev(s: State, i: nat)
    requires Known(s) && NoDup(s.order) && i < |s.order| && FreeAt(s, i - 1) && !FreeAt(s, i + 1)
    ensures var cur, prev := s.order[i], s.order[i - 1];
      PutAt(s, i) == s.(order := Unlink(s.order, cur), unused := Retire(s.unused, cur),
                        info := s.info[prev := s.info[prev].(size := s.info[prev].size + s.info[cur].size)])
  {
    UnlinkAt(s.order, i);
    assert s.order[..i] == s.order[..i - 1] + [s.order[i - 1]];
  }

  lemma PutIntoNext(s: State, i: nat)
    requires Known(s) && NoDup(s.order) && i < |s.order| && !FreeAt(s, i - 1) && FreeAt(s, i + 1)
    ensures var cur, next := s.order[i], s.order[i + 1];
      PutAt(s, i) == s.(order := Unlink(s.order, cur), unused := Retire(s.unused, cur),
                        info := s.info[next := s.info[next].(size := s.info[next].size + s.info[cur].size, start := s.info[cur].start)])
  {
    UnlinkFirst(s.order, i);
  }

  lemma UnlinkFirst(xs: seq<Node>, i: nat)
    requires NoDup(xs) && i + 1 < |xs|
    ensures Unlink(xs, xs[i]) == Collapse(xs, i, i + 1, i + 2)
  {
    UnlinkAt(xs, i);
    assert xs[i + 1..] == [xs[i + 1]] + xs[i + 2..];
  }

  lemma PutBetween(s: State, i: nat)
    requires Known(s) && NoDup(s.order) && i < |s.order| && FreeAt(s, i - 1) && FreeAt(s, i + 1)
    ensures var cur, prev, next := s.order[i], s.order[i - 1], s.order[i + 1];
      PutAt(s, i) == s.(order := Unlink(Unlink(s.order, next), cur), unused := Retire(Retire(s.unused, next), cur),
                        stack := Unlink(s.stack, next),
                        info := s.info[prev := s.info[prev].(size := s.info[prev].size + s.info[cur].size + s.info[next].size)])
  {
    UnlinkTwo(s.order, i);
  }

  /** The node at `i` and its successor leave the list. */
  lemma UnlinkTwo(xs: seq<Node>, i: nat)
    requires NoDup(xs) && 0 < i && i + 1 < |xs|
    ensures Unlink(Unlink(xs, xs[i + 1]), xs[i]) == Collapse(xs, i - 1, i - 1, i + 2)
  {
    UnlinkAt(xs, i + 1);
    var ys := Unlink(xs, xs[i + 1]);
    assert ys == xs[..i + 1] + xs[i + 2..] && ys[i] == xs[i];
    UnlinkAt(ys, i);
    assert ys[..i] == xs[..i - 1] + [xs[i - 1]] && ys[i + 1..] == xs[i + 2..];
  }

  /** The state when drm_mm_put_block has looked at both neighbours. */
  function Halfway(s: State, i: nat): State
    requires Known(s) && i < |s.order|
  {
    var cur, p, q := s.order[i], FreeAt(s, i - 1), FreeAt(s, i + 1);
    if p && q then
      var prev, next := s.order[i - 1], s.order[i + 1];
      s.(order := Unlink(s.order, next), stack := Unlink(s.stack, next), unused := Retire(s.unused, next),
         info := s.info[prev := s.info[prev].(size := s.info[prev].size + s.info[cur].size + s.info[next].size)])
    else if p then
      var prev := s.order[i - 1];
      s.(info := s.info[prev := s.info[prev].(size := s.info[prev].size + s.info[cur].size)])
    else if q then
      var next := s.order[i + 1];
      s.(info := s.info[next := s.info[next].(size := s.info[next].size + s.info[cur].size, start := s.info[cur].start)])
    else s
  }

  lemma PutFromHalfway(s: State, i: nat)
    requires Known(s) && NoDup(s.order) && i < |s.order|
    ensures var t, cur := Halfway(s, i), s.order[i];
      PutAt(s, i) ==
        if FreeAt(s, i - 1) || FreeAt(s, i + 1)
        then t.(order := Unlink(t.order, cur), unused := Retire(t.unused, cur))
        else s.(info := s.info[cur := s.info[cur].(free := true)], stack := [cur] + s.stack)
  {
    if FreeAt(s, i - 1) && FreeAt(s, i + 1) {
      FromBetween(s, i);
    } else if FreeAt(s, i - 1) {
      FromPrev(s, i);
    } else if FreeAt(s, i + 1) {
      FromNext(s, i);
    } else {
      PutAlone(s, i);
    }
  }

  lemma FromBetween(s: State, i: nat)
    requires Known(s) && NoDup(s.order) && i < |s.order| && FreeAt(s, i - 1) && FreeAt(s, i + 1)
    ensures var t, cur := Halfway(s, i), s.order[i];
      PutAt(s, i) == t.(order := Unlink(t.order, cur), unused := Retire(t.unused, cur))
  {
    PutBetween(s, i);
  }

  lemma FromPrev(s: State, i: nat)
    requires Known(s) && NoDup(s.order) && i < |s.order| && FreeAt(s, i - 1) && !FreeAt(s, i + 1)
    ensures var t, cur := Halfway(s, i), s.order[i];
      PutAt(s, i) == t.(order := Unlink(t.order, cur), unused := Retire(t.unused, cur))
  {
    PutIntoPrev(s, i);
  }

  lemma FromNext(s: State, i: nat)
    requires Known(s) && NoDup(s.order) && i < |s.order| && !FreeAt(s, i - 1) && FreeAt(s, i + 1)
    ensures var t, cur := Halfway(s, i), s.order[i];
      PutAt(s, i) == t.(order := Unlink(t.order, cur), unused := Retire(t.unused, cur))
  {
    PutIntoNext(s, i);
  }
}
