/** drm_mm.c as it runs: nodes relinked and rewritten in place. Every method is
    tied to the function on states that MmAlloc, MmPlace, MmRuns and MmEvict
    prove theorems about. */
module DrmMm {
  import opened MmState
  import opened MmFit
  import Alloc = MmAlloc
  import Place = MmPlace
  import Pool = MmPool
  import Scan = MmScan
  import Runs = MmRuns

  function InfoOf(n: Node): Info
    reads n
  {
    Info(n.start, n.size, n.free, n.block, n.prevFree, n.nextFree, n.savedPrev, n.savedNext)
  }

  /** struct drm_mm. num_unused is |unusedNodes|. `known` are the nodes ever
      handed to this manager; `lo` and `hi` bound the managed range. */
  class Mm {
    var freeStack: seq<Node>
    var nodeList: seq<Node>
    var unusedNodes: seq<Node>
    var scanAlignment: nat
    var scanSize: int
    var scanHitStart: int
    var scanHitSize: int
    var scannedBlocks: int
    ghost var known: set<Node>
    ghost var lo: int
    ghost var hi: int

    ghost function St(): State
      reads this, known
    {
      State(nodeList, freeStack, unusedNodes, map n | n in known :: InfoOf(n),
            scanSize, scanAlignment, scanHitStart, scanHitSize, scannedBlocks, lo, hi)
    }

    /** drm_mm_init, given that the node for the tail could be allocated. */
    constructor (start: int, size: int)
      requires 0 <= start && 0 <= size
      ensures Valid(St()) && fresh(known) && Runs.WholeRangeFree(St()) && lo == start && hi == start + size
      ensures unusedNodes == []
    {
      var child := new Node();
      child.free := true;
      child.size := size;
      child.start := start;
      nodeList, freeStack, unusedNodes := [child], [child], [];
      scanAlignment, scanSize, scanHitStart, scanHitSize, scannedBlocks := 0, 0, 0, 0, 0;
      known, lo, hi := {child}, start, start + size;
    }

    /** drm_mm_kmalloc; `ok` says whether kzalloc finds memory. */
    method Kmalloc(ok: bool) returns (child: Node?)
      modifies this
      ensures ok ==> child != null && fresh(child)
      ensures child == Alloc.Kmalloc(old(St()), if ok then child else null).1
      ensures St() == Alloc.Kmalloc(old(St()), if ok then child else null).0
      ensures known == old(known) + if ok then {child} else {}
    {
      if ok {
        child := new Node();
        known := known + {child};
        assert St().info == old(St()).info[child := ZERO];
      } else if unusedNodes == [] {
        child := null;
      } else {
        child := unusedNodes[0];
        unusedNodes := unusedNodes[1..];
      }
    }

    /** drm_mm_pre_get; `ok` says which calls of kzalloc find memory. Afterwards the pool has two nodes at least,
        or the result is an error. */
    method PreGet(ok: nat -> bool) returns (error: bool, ghost got: seq<Node>)
      requires Valid(St())
      modifies this, known
      ensures Pool.CanPreGet(old(St()), got) && St() == Pool.PreGet(old(St()), got) && forall n :: n in got ==> fresh(n)
      ensures forall j :: 0 <= j < |got| ==> ok(j)
      ensures |unusedNodes| < Alloc.UNUSED_TARGET ==> !ok(|got|)
      ensures error <==> |unusedNodes| < 2
    {
      got := [];
      error := false;
      var calls := 0;
      ghost var s, were := St(), known;
      while |unusedNodes| < Alloc.UNUSED_TARGET
        invariant calls == |got| && Filling(s, were, got) && fresh(known - were) && were <= known
        invariant forall j :: 0 <= j < |got| ==> ok(j)
        decreases Alloc.UNUSED_TARGET - |unusedNodes|
      {
        if !ok(calls) {
          error := |unusedNodes| < 2;
          return;
        }
        var node := Spare(s, were, got);
        got := got + [node];
        calls := calls + 1;
      }
    }

    /** The nodes `got` have been added to the pool of `s`, one after another. */
    ghost predicate Filling(s: State, were: set<Node>, got: seq<Node>)
      reads this, known
    {
      Pool.CanPreGet(s, got) && St() == Pool.PreGet(s, got) && |unusedNodes| == |s.unused| + |got|
      && forall n :: n in got ==> n in known && n !in were
    }

    /** A new node at the tail of the pool. */
    method Spare(ghost s: State, ghost were: set<Node>, ghost got: seq<Node>) returns (node: Node)
      requires Filling(s, were, got) && |unusedNodes| < Alloc.UNUSED_TARGET && s.info.Keys == were <= known
      modifies this
      ensures fresh(node) && known == old(known) + {node} && Filling(s, were, got + [node]) && |unusedNodes| == |old(unusedNodes)| + 1
    {
      node := new Node();
      unusedNodes := unusedNodes + [node];
      known := known + {node};
      assert St().info == old(St()).info[node := ZERO];
      OneMoreSpare(s, got, node);
    }

    static lemma OneMoreSpare(s: State, got: seq<Node>, node: Node)
      requires Pool.CanPreGet(s, got) && |got| < Pool.Room(s) && node !in got && node !in s.info
      ensures Pool.CanPreGet(s, got + [node]) && Pool.PreGet(s, got + [node]) == Alloc.AddSpare(Pool.PreGet(s, got), node)
    {
      assert (got + [node])[..|got|] == got;
    }

    /** The assignments a routine makes to the fields of one node. */
    method Assign(n: Node, c: Info)
      requires n in known
      modifies n
      ensures St() == old(St()).(info := old(St()).info[n := c])
      ensures InfoOf(n) == c
    {
      n.start, n.size, n.free := c.start, c.size, c.free;
      n.block, n.prevFree, n.nextFree := c.block, c.prevFree, c.nextFree;
      n.savedPrev, n.savedNext := c.savedPrev, c.savedNext;
      forall m | m in known ensures St().info[m] == old(St()).info[n := c][m] {
        assert m != n ==> InfoOf(m) == old(InfoOf(m));
      }
      assert St().info == old(St()).info[n := c];
    }

    /** The list operations a routine makes on node_list, free_stack and unused_nodes. */
    method Relink(order: seq<Node>, stack: seq<Node>, unused: seq<Node>)
      modifies this`nodeList, this`freeStack, this`unusedNodes
      ensures St() == old(St()).(order := order, stack := stack, unused := unused)
      ensures forall n :: n in known ==> InfoOf(n) == old(InfoOf(n))
    {
      nodeList, freeStack, unusedNodes := order, stack, unused;
      assert St().info == old(St()).info;
    }

    /** drm_mm_split_at_start once it has a node. */
    method Carve(parent: Node, size: int, child: Node)
      requires Known(St()) && parent in nodeList && child in known && child != parent
      modifies this`nodeList, this`freeStack, this`unusedNodes, parent, child
      ensures St() == Alloc.Carve(old(St()), Pos(old(nodeList), parent), size, child)
    {
      assert parent in St().info;
      Divide(parent, size, child);
      Relink(InsertBefore(nodeList, parent, child), freeStack, unusedNodes);
    }

    /** The addresses of the two parts. */
    method Divide(parent: Node, size: int, child: Node)
      requires parent in known && child in known && child != parent
      modifies parent, child
      ensures var s := old(St()); parent in s.info && child in s.info && St() == s.(info :=
        s.info[child := s.info[child].(start := s.info[parent].start, size := size, savedPrev := null, savedNext := null)]
              [parent := s.info[parent].(start := s.info[parent].start + size, size := s.info[parent].size - size)])
    {
      assert InfoOf(parent) == St().info[parent] && InfoOf(child) == St().info[child];
      Assign(child, InfoOf(child).(size := size, start := parent.start, savedPrev := null, savedNext := null));
      Assign(parent, InfoOf(parent).(size := parent.size - size, start := parent.start + size));
    }

    /** drm_mm_split_at_start */
    method SplitAtStart(parent: Node, size: int, ok: bool) returns (child: Node?, ghost got: Node?)
      requires Listed(St()) && parent in nodeList
      modifies this, known
      ensures (got != null <==> ok) && (got != null ==> fresh(got))
      ensures Alloc.PoolKnown(old(St())) && child == Alloc.SplitAt(old(St()), Pos(old(nodeList), parent), size, got).1
      ensures St() == Alloc.SplitAt(old(St()), Pos(old(nodeList), parent), size, got).0
      ensures known == old(known) + if ok then {got} else {}
    {
      assert parent in St().info;
      child := Kmalloc(ok);
      got := if ok then child else null;
      if child == null { return; }
      assert got == null ==> child in old(St()).unused && child in old(St()).info;
      Carve(parent, size, child);
    }

    /** drm_mm_put_block */
    method PutBlock(cur: Node)
      requires Listed(St()) && cur in nodeList && !cur.block && !cur.prevFree && !cur.nextFree
      modifies this`nodeList, this`freeStack, this`unusedNodes, nodeList
      ensures Known(old(St())) && St() == Alloc.PutAt(old(St()), Pos(old(nodeList), cur))
    {
      Alloc.PutFromHalfway(St(), Pos(nodeList, cur));
      var merged := MergeNeighbours(cur);
      if !merged {
        assert InfoOf(cur) == old(St()).info[cur];
        Assign(cur, InfoOf(cur).(free := true));
        Relink(nodeList, [cur] + freeStack, unusedNodes);
      } else {
        Relink(Alloc.Unlink(nodeList, cur), freeStack, Alloc.Retire(unusedNodes, cur));
      }
    }

    /** drm_mm_put_block up to the test of `merged`. */
    method MergeNeighbours(cur: Node) returns (merged: bool)
      requires Listed(St()) && cur in nodeList
      modifies this`nodeList, this`freeStack, this`unusedNodes, nodeList
      ensures Known(old(St()))
      ensures var i := Pos(old(nodeList), cur);
        && merged == (Alloc.FreeAt(old(St()), i - 1) || Alloc.FreeAt(old(St()), i + 1))
        && St() == Alloc.Halfway(old(St()), i) && (!merged ==> St() == old(St()))
    {
      ghost var s := St();
      var i := Pos(nodeList, cur);
      var prev := MergePrev(i, cur);
      merged := prev != null;
      if i + 1 < |nodeList| {
        var next := nodeList[i + 1];
        if next.free {
          if merged {
            MergeNext(s, i, prev, cur, next);
          } else {
            MergeNextOnly(i, cur, next);
            merged := true;
          }
        }
      }
    }

    /** The previous block, grown by `cur`, if it is free. */
    method MergePrev(i: nat, cur: Node) returns (prev: Node?)
      requires Listed(St()) && i < |nodeList| && cur == nodeList[i]
      modifies if i > 0 then {nodeList[i - 1]} else {}
      ensures Known(old(St())) && (prev != null <==> Alloc.FreeAt(old(St()), i - 1))
      ensures prev == null ==> St() == old(St())
      ensures prev != null ==> prev == nodeList[i - 1] && var s := old(St());
        St() == s.(info := s.info[prev := s.info[prev].(size := s.info[prev].size + s.info[cur].size)])
      ensures forall k :: 0 <= k < |nodeList| ==> nodeList[k] in St().info && InfoOf(nodeList[k]) == St().info[nodeList[k]]
    {
      assert forall k :: 0 <= k < |nodeList| ==> nodeList[k] in St().info && InfoOf(nodeList[k]) == St().info[nodeList[k]];
      prev := null;
      if i > 0 && nodeList[i - 1].free {
        prev := nodeList[i - 1];
        Grow(prev, cur.size);
      }
    }

    method Grow(n: Node, more: int)
      requires n in known
      modifies n
      ensures var s := old(St()); n in s.info && St() == s.(info := s.info[n := s.info[n].(size := s.info[n].size + more)])
    {
      assert InfoOf(n) == St().info[n];
      Assign(n, InfoOf(n).(size := n.size + more));
    }

    /** The branch of drm_mm_put_block that merges the next block alone. */
    method MergeNextOnly(ghost i: nat, cur: Node, next: Node)
      requires Listed(St()) && i + 1 < |nodeList| && cur == nodeList[i] && next == nodeList[i + 1]
      requires !Alloc.FreeAt(St(), i - 1) && Alloc.FreeAt(St(), i + 1)
      modifies next
      ensures Known(old(St())) && St() == Alloc.Halfway(old(St()), i)
    {
      assert InfoOf(next) == St().info[next] && InfoOf(cur) == St().info[cur];
      Assign(next, InfoOf(next).(size := next.size + cur.size, start := cur.start));
    }

    /** The branch of drm_mm_put_block that merges the next block as well. */
    method MergeNext(ghost s: State, ghost i: nat, prev: Node, ghost cur: Node, next: Node)
      requires Known(s) && i < |s.order| && Alloc.FreeAt(s, i - 1) && Alloc.FreeAt(s, i + 1) && prev != next
      requires prev == s.order[i - 1] && cur == s.order[i] && next == s.order[i + 1] && prev in known && next in known
      requires St() == s.(info := s.info[prev := s.info[prev].(size := s.info[prev].size + s.info[cur].size)])
      modifies this`nodeList, this`freeStack, this`unusedNodes, prev
      ensures St() == Alloc.Halfway(s, i)
    {
      assert InfoOf(next) == St().info[next] == s.info[next];
      Grow(prev, next.size);
      HalfwayBetween(s, i, prev, cur, next);
      Relink(Alloc.Unlink(nodeList, next), Alloc.Unlink(freeStack, next), Alloc.Retire(unusedNodes, next));
    }

    /** The hole becomes the block, or the block is split off its start. */
    method Take(node: Node, size: int, ok: bool) returns (block: Node?, ghost got: Node?)
      requires Listed(St()) && node in nodeList
      modifies this, known
      ensures (got != null ==> fresh(got)) && (got != null <==> ok && old(node.size) != size) && Alloc.PoolKnown(old(St()))
      ensures block == Alloc.TakeAt(old(St()), Pos(old(nodeList), node), size, got).1
      ensures St() == Alloc.TakeAt(old(St()), Pos(old(nodeList), node), size, got).0
      ensures old(known) <= known && fresh(known - old(known))
    {
      got := null;
      assert node in St().info && InfoOf(node) == St().info[node];
      if node.size == size {
        Relink(nodeList, Alloc.Unlink(freeStack, node), unusedNodes);
        Assign(node, InfoOf(node).(free := false));
        block := node;
      } else {
        block, got := SplitAtStart(node, size, ok);
      }
    }

    /** Take the block, then give back the part before it. */
    method TakeAfter(pre: Node, node: Node, size: int, ok: bool, ghost i: nat) returns (block: Node?, ghost got: Node?)
      requires Listed(St()) && AllQuiet(St()) && i + 1 < |nodeList| && nodeList[i] == pre && nodeList[i + 1] == node
      modifies this, known
      ensures (got != null ==> fresh(got)) && (got != null <==> ok && old(node.size) != size) && Alloc.PoolKnown(old(St()))
      ensures block == Alloc.TakeAt(old(St()), i + 1, size, got).1
      ensures St() == Alloc.PutAt(Alloc.TakeAt(old(St()), i + 1, size, got).0, i)
    {
      PosUnique(nodeList, i + 1);
      block, got := Take(node, size, ok);
      Place.TakeCells(old(St()), i + 1, size, got);
      PreStays(old(St()), i, size, got);
      assert pre in nodeList && InfoOf(pre) == St().info[pre];
      PutBlock(pre);
    }

    /** drm_mm_get_block_generic and drm_mm_get_block_range_generic from the point
        where `wasted` is known; `ok1` and `ok2` say whether kzalloc finds memory. */
    method GetWasted(node: Node, wasted: int, size: int, ok1: bool, ok2: bool)
      returns (block: Node?, ghost got1: Node?, ghost got2: Node?)
      requires Valid(St()) && node in nodeList && node.free && 0 <= wasted && 0 <= size && wasted + size <= node.size
      modifies this, known
      ensures Place.CanGet(old(St()), Pos(old(nodeList), node), wasted, size, got1, got2) && Alloc.PoolKnown(old(St()))
      ensures block == Alloc.GetAt(old(St()), Pos(old(nodeList), node), wasted, size, got1, got2).1
      ensures St() == Alloc.GetAt(old(St()), Pos(old(nodeList), node), wasted, size, got1, got2).0
      ensures Suffices(|old(unusedNodes)|, old(node.size), wasted, size, got1 != null, got2 != null) ==
        Suffices(|old(unusedNodes)|, old(node.size), wasted, size, ok1, ok2)
    {
      HoleAt(node);
      got1, got2 := null, null;
      if wasted == 0 {
        block, got2 := Take(node, size, ok2);
      } else {
        block, got1, got2 := GetBehind(node, wasted, size, ok1, ok2);
      }
    }

    /** With a part to skip: it is split off first, and given back last. */
    method GetBehind(node: Node, wasted: int, size: int, ok1: bool, ok2: bool)
      returns (block: Node?, ghost got1: Node?, ghost got2: Node?)
      requires Valid(St()) && node in nodeList && node.free && 0 < wasted && 0 <= size && wasted + size <= node.size
      modifies this, known
      ensures Place.CanGet(old(St()), Pos(old(nodeList), node), wasted, size, got1, got2) && Alloc.PoolKnown(old(St()))
      ensures block == Alloc.GetAt(old(St()), Pos(old(nodeList), node), wasted, size, got1, got2).1
      ensures St() == Alloc.GetAt(old(St()), Pos(old(nodeList), node), wasted, size, got1, got2).0
      ensures Suffices(|old(unusedNodes)|, old(node.size), wasted, size, got1 != null, got2 != null) ==
        Suffices(|old(unusedNodes)|, old(node.size), wasted, size, ok1, ok2)
    {
      ghost var i := Pos(nodeList, node);
      HoleAt(node);
      var pre;
      pre, got1 := SplitAtStart(node, wasted, ok1);
      if pre == null { return null, got1, null; }
      Place.FirstSplit(old(St()), i, wasted, size, got1, null);
      RestIs(i, old(St()), wasted, pre, node);
      block, got2 := TakeAfter(pre, node, size, ok2, i);
    }

    /** What is left of the hole after the first split. */
    lemma RestIs(i: nat, s: State, wasted: int, pre: Node, node: Node)
      requires Known(s) && i < |s.order| && s.order[i] == node && Place.HasPre(s, i, wasted, St(), pre)
      ensures node.size == s.info[node].size - wasted
    {
      assert Cells(St())[i + 1] == CellOf(St(), nodeList[i + 1]) && InfoOf(node) == St().info[node];
    }

    /** The same, in terms of what the caller sees. */
    method GetPlaced(node: Node, wasted: int, size: int, ok1: bool, ok2: bool)
      returns (block: Node?, ghost got1: Node?, ghost got2: Node?)
      requires Valid(St()) && node in nodeList && node.free && 0 <= wasted && 0 <= size && wasted + size <= node.size
      modifies this, known
      ensures Got(old(St()), Pos(old(nodeList), node), wasted, size, got1, got2, St(), block)
      ensures Valid(St()) ==> (block != null <==> Suffices(|old(unusedNodes)|, old(node.size), wasted, size, ok1, ok2))
      ensures block != null && Valid(St()) ==>
        block in nodeList && !block.free && block.start == old(node.start) + wasted && block.size == size
    {
      ghost var i := Pos(nodeList, node);
      HoleAt(node);
      block, got1, got2 := GetWasted(node, wasted, size, ok1, ok2);
      Place.GetPlaces(old(St()), i, wasted, size, got1, got2);
      if Valid(St()) { Pool.GetFails(old(St()), i, wasted, size, got1, got2); }
      if block != null && Valid(St()) {
        Place.BlockAt(old(St()), i, wasted, size, St(), block);
        HoleAt(block);
      }
    }

    /** The same, when `wasted` leads to an aligned place. */
    method GetThere(node: Node, wasted: int, size: int, alignment: nat, ok1: bool, ok2: bool)
      returns (block: Node?, ghost got1: Node?, ghost got2: Node?)
      requires Valid(St()) && node in nodeList && node.free && 0 <= wasted && 0 <= size && wasted + size <= node.size
      requires PlaceAt(node.start, node.start + node.size, size, alignment, node.start + wasted)
      modifies this, known
      ensures Got(old(St()), Pos(old(nodeList), node), wasted, size, got1, got2, St(), block)
      ensures Valid(St()) ==> (block != null <==> Suffices(|old(unusedNodes)|, old(node.size), wasted, size, ok1, ok2))
      ensures block != null && Valid(St()) ==>
        block in nodeList && !block.free && block.size == size && block.start == old(node.start) + wasted
        && PlaceAt(old(node.start), old(node.start + node.size), size, alignment, block.start)
    {
      block, got1, got2 := GetPlaced(node, wasted, size, ok1, ok2);
    }

    /** drm_mm_get_block_generic on a hole that passed the search's test. */
    method GetBlock(node: Node, size: int, alignment: nat, ok1: bool, ok2: bool)
      returns (block: Node?, ghost got1: Node?, ghost got2: Node?)
      requires Valid(St()) && node in nodeList && node.free && 0 <= node.start && 0 <= size
      requires FreeHole(node.start, node.start + node.size, size, alignment)
      modifies this, known
      ensures Got(old(St()), Pos(old(nodeList), node), Waste(old(node.start), alignment), size, got1, got2, St(), block)
      ensures Valid(St()) ==>
        (block != null <==> Suffices(|old(unusedNodes)|, old(node.size), Waste(old(node.start), alignment), size, ok1, ok2))
      ensures block != null && Valid(St()) ==>
        block in nodeList && !block.free && block.size == size
        && PlaceAt(old(node.start), old(node.start + node.size), size, alignment, block.start)
    {
      var wasted := Waste(node.start, alignment);
      HoleHolds(node.start, node.start + node.size, size, alignment, wasted);
      block, got1, got2 := GetThere(node, wasted, size, alignment, ok1, ok2);
    }

    /** drm_mm_get_block_range_generic on a hole that passed the range search's test. */
    method GetBlockRange(node: Node, size: int, alignment: nat, from: int, to: int, ok1: bool, ok2: bool)
      returns (block: Node?, ghost got1: Node?, ghost got2: Node?)
      requires Valid(St()) && node in nodeList && node.free && 0 <= node.start && 0 <= node.size && 0 <= size && 0 <= from
      requires RangeHole(node.start, node.start + node.size, size, alignment, from, to)
      modifies this, known
      ensures Got(old(St()), Pos(old(nodeList), node), RangeWaste(old(node.start), alignment, from), size, got1, got2, St(), block)
      ensures Valid(St()) ==>
        (block != null <==> Suffices(|old(unusedNodes)|, old(node.size), RangeWaste(old(node.start), alignment, from), size, ok1, ok2))
      ensures block != null && Valid(St()) ==>
        block in nodeList && !block.free && block.size == size && from <= block.start && block.start + size <= to
        && PlaceAt(old(node.start), old(node.start + node.size), size, alignment, block.start)
    {
      var wasted := RangeWaste(node.start, alignment, from);
      RangeHolePlaces(node.start, node.start + node.size, size, alignment, from, to);
      block, got1, got2 := GetThere(node, wasted, size, alignment, ok1, ok2);
    }

    /** drm_mm_search_free. With `bestMatch` a smallest hole that fits, without it
        the most recently freed; null if and only if no hole fits, or with `bestMatch`
        none of fewer than 2^64 - 1 units, the size that search starts from. */
    method SearchFree(size: int, alignment: nat, bestMatch: bool) returns (best: Node?)
      requires Valid(St()) && scannedBlocks == 0
      ensures best != null ==> best in freeStack && best in nodeList && best.free && Fits(best, size, alignment)
      ensures best == null <==> forall n :: n in freeStack && Fits(n, size, alignment) ==> bestMatch && n.size >= ULONG_MAX
      ensures best != null && bestMatch ==> best.size < ULONG_MAX
      ensures best != null && bestMatch ==> forall n :: n in freeStack && Fits(n, size, alignment) ==> best.size <= n.size
      ensures best != null && !bestMatch ==>
        exists k :: 0 <= k < |freeStack| && freeStack[k] == best && forall j :: 0 <= j < k ==> !Fits(freeStack[j], size, alignment)
    {
      best := null;
      var bestSize := ULONG_MAX;
      for k := 0 to |freeStack|
        invariant bestSize == (if best == null then ULONG_MAX else best.size) && bestSize <= ULONG_MAX
        invariant best != null ==> best in freeStack && Fits(best, size, alignment) && bestMatch && best.size < ULONG_MAX
        invariant forall j :: 0 <= j < k && Fits(freeStack[j], size, alignment) ==> bestMatch && bestSize <= freeStack[j].size
      {
        var entry := freeStack[k];
        if !FreeHole(entry.start, entry.start + entry.size, size, alignment) { continue; }
        if !bestMatch {
          OnStack(entry);
          return entry;
        }
        if entry.size < bestSize {
          best := entry;
          bestSize := entry.size;
        }
      }
      if best != null { OnStack(best); }
    }

    /** drm_mm_search_free_in_range, likewise for blocks that must lie in [from, to). */
    method SearchFreeInRange(size: int, alignment: nat, from: int, to: int, bestMatch: bool) returns (best: Node?)
      requires Valid(St()) && scannedBlocks == 0
      ensures best != null ==> best in freeStack && best in nodeList && best.free && FitsRange(best, size, alignment, from, to)
      ensures best == null <==>
        forall n :: n in freeStack && FitsRange(n, size, alignment, from, to) ==> bestMatch && n.size >= ULONG_MAX
      ensures best != null && bestMatch ==> best.size < ULONG_MAX
      ensures best != null && bestMatch ==>
        forall n :: n in freeStack && FitsRange(n, size, alignment, from, to) ==> best.size <= n.size
      ensures best != null && !bestMatch ==>
        exists k :: 0 <= k < |freeStack| && freeStack[k] == best
                    && forall j :: 0 <= j < k ==> !FitsRange(freeStack[j], size, alignment, from, to)
    {
      best := null;
      var bestSize := ULONG_MAX;
      for k := 0 to |freeStack|
        invariant bestSize == (if best == null then ULONG_MAX else best.size) && bestSize <= ULONG_MAX
        invariant best != null ==> best in freeStack && FitsRange(best, size, alignment, from, to) && bestMatch && best.size < ULONG_MAX
        invariant forall j :: 0 <= j < k && FitsRange(freeStack[j], size, alignment, from, to) ==>
          bestMatch && bestSize <= freeStack[j].size
      {
        var entry := freeStack[k];
        var adjStart := if entry.start < from then from else entry.start;
        var adjEnd := if entry.start + entry.size > to then to else entry.start + entry.size;
        if !FreeHole(adjStart, adjEnd, size, alignment) { continue; }
        if !bestMatch {
          OnStack(entry);
          return entry;
        }
        if entry.size < bestSize {
          best := entry;
          bestSize := entry.size;
        }
      }
      if best != null { OnStack(best); }
    }

    lemma OneHole()
      requires Runs.WholeRangeFree(St())
      ensures |freeStack| == 1 && freeStack[0] in known && freeStack[0].start == lo && freeStack[0].size == hi - lo
    {
      assert freeStack[0] in St().info && InfoOf(freeStack[0]) == St().info[freeStack[0]];
      assert Cells(St())[0] == CellOf(St(), freeStack[0]);
    }

    lemma OnStack(n: Node)
      requires Valid(St()) && n in freeStack
      ensures n in nodeList && n.free && n in known
    {
      assert n in St().info && InfoOf(n) == St().info[n];
    }

    /** drm_mm_init_scan */
    method InitScan(size: int, alignment: nat)
      modifies this`scanAlignment, this`scanSize, this`scannedBlocks, this`scanHitStart, this`scanHitSize
      ensures scanSize == size && scanAlignment == alignment && scannedBlocks == 0 && scanHitStart == 0 && scanHitSize == 0
      ensures St() == Scan.InitScan(old(St()), size, alignment)
    {
      scanAlignment, scanSize := alignment, size;
      scannedBlocks, scanHitStart, scanHitSize := 0, 0, 0;
      assert St().info == old(St()).info;
    }

    /** drm_mm_scan_add_block */
    method ScanAddBlock(node: Node) returns (hit: bool)
      requires Known(St()) && NoDup(nodeList) && node in nodeList && !node.free
      modifies this, nodeList
      ensures Known(old(St())) && hit == Scan.AddAt(old(St()), Pos(old(nodeList), node)).1
      ensures St() == Scan.AddAt(old(St()), Pos(old(nodeList), node)).0
    {
      var i := Pos(nodeList, node);
      var start, size := ScanMerge(i);
      MergedIsAdd(old(St()), i, St(), start, size);
      hit := FreeHole(start, start + size, scanSize, scanAlignment);
      Record(hit, start, size);
    }

    /** The list part of drm_mm_scan_add_block. */
    method ScanMerge(i: nat) returns (start: int, size: int)
      requires Known(St()) && NoDup(nodeList) && i < |nodeList|
      modifies this`nodeList, this`freeStack, this`unusedNodes, nodeList
      ensures Known(old(St())) && Merged(old(St()), i, St(), start, size)
    {
      var prevFree, nextFree, a, b;
      prevFree, nextFree, a, b, start, size := Neighbours(i);
      Absorb(i, nodeList[i], start, size, prevFree, nextFree);
      Relink(Alloc.Collapse(nodeList, a, i, b), freeStack, unusedNodes);
    }

    /** The free neighbours of the block at `i`, and the extent it has together with them. */
    method Neighbours(i: nat) returns (prevFree: Node?, nextFree: Node?, a: nat, b: nat, start: int, size: int)
      requires Known(St()) && NoDup(nodeList) && i < |nodeList|
      ensures NeighboursOf(St(), i, prevFree, nextFree, a, b, start, size)
    {
      assert forall k :: 0 <= k < |nodeList| ==> nodeList[k] in St().info && InfoOf(nodeList[k]) == St().info[nodeList[k]];
      prevFree, nextFree, a, b, start, size := null, null, i, i + 1, nodeList[i].start, nodeList[i].size;
      if i > 0 && nodeList[i - 1].free {
        prevFree := nodeList[i - 1];
        start, size, a := prevFree.start, size + prevFree.size, i - 1;
      }
      if i + 1 < |nodeList| && nodeList[i + 1].free {
        nextFree := nodeList[i + 1];
        size, b := size + nextFree.size, i + 2;
      }
    }

    /** The scan count, and the hit if there is one. */
    method Record(hit: bool, start: int, size: int)
      modifies this`scannedBlocks, this`scanHitStart, this`scanHitSize
      ensures var s := old(St()).(scanned := old(scannedBlocks) + 1);
        St() == if hit then s.(hitStart := start, hitSize := size) else s
    {
      scannedBlocks := scannedBlocks + 1;
      if hit {
        scanHitStart, scanHitSize := start, size;
      }
      assert St().info == old(St()).info;
    }

    /** The node fields drm_mm_scan_add_block writes. */
    method Absorb(ghost i: nat, node: Node, start: int, size: int, prevFree: Node?, nextFree: Node?)
      requires Known(St()) && NoDup(nodeList) && i < |nodeList| && node == nodeList[i]
      requires exists a, b :: NeighboursOf(St(), i, prevFree, nextFree, a, b, start, size)
      modifies node, prevFree, nextFree
      ensures St() == old(St()).(info := Scan.AddInfo(old(St()), i))
    {
      ghost var s := St();
      assert InfoOf(node) == s.info[node];
      Assign(node, InfoOf(node).(start := start, size := size, free := true, block := true,
                                 savedPrev := prevFree, savedNext := nextFree));
      if prevFree != null {
        assert InfoOf(prevFree) == s.info[prevFree];
        Assign(prevFree, InfoOf(prevFree).(prevFree := true));
      }
      if nextFree != null {
        assert InfoOf(nextFree) == s.info[nextFree];
        Assign(nextFree, InfoOf(nextFree).(nextFree := true));
      }
    }

    /** drm_mm_scan_remove_block: whether the block should be evicted. A block
        that was absorbed in the meantime is on no list; it may come off all the
        same, if it has no neighbours to link in. */
    method ScanRemoveBlock(node: Node) returns (evict: bool)
      requires Known(St()) && NoDup(nodeList) && Scan.Removable(St(), node)
      requires node != node.savedPrev && node != node.savedNext
      requires node.savedPrev != null ==> node.savedPrev != node.savedNext
      modifies this`nodeList, this`freeStack, this`unusedNodes, this`scannedBlocks, node, node.savedPrev, node.savedNext
      ensures evict == Scan.Remove(old(St()), node).1
      ensures St() == Scan.Remove(old(St()), node).0
    {
      ghost var s := St();
      assert InfoOf(node) == s.info[node];
      var prevNode, nextNode := node.savedPrev, node.savedNext;
      Unmerge(node, prevNode, nextNode);
      evict := CountDown(node);
      RemovedOrder(s, node, prevNode, nextNode);
    }

    /** The neighbours a block absorbed come back to the list, with their part of its size. */
    method Unmerge(node: Node, prevNode: Node?, nextNode: Node?)
      requires Scan.SavedKnown(St(), node) && prevNode == node.savedPrev && nextNode == node.savedNext
      requires node != prevNode && node != nextNode && (prevNode != null ==> prevNode != nextNode)
      requires node in nodeList || (prevNode == null && nextNode == null)
      modifies this`nodeList, this`freeStack, this`unusedNodes, node, prevNode, nextNode
      ensures St() == old(St()).(order := Linked(old(nodeList), node, prevNode, nextNode), info := Scan.RemoveInfo(old(St()), node))
    {
      Release(node, prevNode, nextNode);
      LinkIn(node, prevNode, nextNode);
    }

    /** The end of drm_mm_scan_remove_block. */
    method CountDown(node: Node) returns (evict: bool)
      requires node in known
      modifies this`scannedBlocks
      ensures St() == old(St()).(scanned := old(St()).scanned - 1) && evict == Scan.InHit(St(), node)
    {
      scannedBlocks := scannedBlocks - 1;
      assert InfoOf(node) == St().info[node];
      evict := node.start >= scanHitStart && node.start + node.size <= scanHitStart + scanHitSize;
    }

    /** The neighbours come back to the list on both sides of the node. */
    method LinkIn(node: Node, prevNode: Node?, nextNode: Node?)
      requires node in nodeList || (prevNode == null && nextNode == null)
      modifies this`nodeList, this`freeStack, this`unusedNodes
      ensures St() == old(St()).(order := Linked(old(nodeList), node, prevNode, nextNode)) && known == old(known)
    {
      if prevNode != null || nextNode != null {
        var i := Pos(nodeList, node);
        Relink(nodeList[..i] + Scan.Optional(prevNode) + [node] + Scan.Optional(nextNode) + nodeList[i + 1..], freeStack, unusedNodes);
      }
    }

    /** The node fields drm_mm_scan_remove_block writes. */
    method Release(node: Node, prevNode: Node?, nextNode: Node?)
      requires Scan.SavedKnown(St(), node) && prevNode == node.savedPrev && nextNode == node.savedNext
      requires node != prevNode && node != nextNode && (prevNode != null ==> prevNode != nextNode)
      modifies node, prevNode, nextNode
      ensures St() == old(St()).(info := Scan.RemoveInfo(old(St()), node))
    {
      ghost var s := St();
      assert InfoOf(node) == s.info[node];
      var start, size := node.start, node.size;
      if prevNode != null {
        assert InfoOf(prevNode) == s.info[prevNode];
        start, size := prevNode.start + prevNode.size, size - prevNode.size;
      }
      if nextNode != null {
        assert InfoOf(nextNode) == s.info[nextNode];
        size := size - nextNode.size;
      }
      Assign(node, InfoOf(node).(block := false, free := false, start := start, size := size, savedPrev := null, savedNext := null));
      if prevNode != null {
        Assign(prevNode, InfoOf(prevNode).(prevFree := false));
      }
      if nextNode != null {
        Assign(nextNode, InfoOf(nextNode).(nextFree := false));
      }
    }

    /** drm_mm_clean. It does not tell a manager with nothing allocated from one
        whose whole range is a single block. */
    method Clean() returns (clean: bool)
      requires Valid(St())
      ensures clean <==> Runs.WholeRangeFree(St()) || Runs.WholeRangeTaken(St())
      ensures Runs.NothingAllocated(St()) <==> Runs.WholeRangeFree(St())
      ensures clean && !Runs.NothingAllocated(St()) <==> Runs.WholeRangeTaken(St())
    {
      Runs.CleanIs(St());
      clean := |nodeList| == 1;
    }

    /** drm_mm_takedown: false for "not clean", leaving everything as it is. With an
        empty free stack the source tests the list heads themselves, and finds
        node_list not empty. */
    method Takedown() returns (done: bool)
      requires Valid(St())
      modifies this`nodeList, this`freeStack, this`unusedNodes
      ensures done <==> Runs.TakedownPasses(old(St()))
      ensures done ==> freeStack == [] && unusedNodes == [] && nodeList == old(nodeList)[..|old(nodeList)| - 1]
      ensures !done ==> St() == old(St())
    {
      done := |freeStack| == 1 && nodeList[|nodeList| - 1] == freeStack[0];
      if done {
        nodeList, freeStack, unusedNodes := nodeList[..|nodeList| - 1], [], [];
      }
    }

    lemma HoleAt(node: Node)
      requires Valid(St()) && node in nodeList
      ensures node in known && St().order[Pos(nodeList, node)] == node && InfoOf(node) == St().info[node]
    {
      assert node in St().info;
    }
  }

  /** A new manager of 2^64 - 1 units: the search for the best hole finds none for
      a single unit, the search for the first one does. */
  method HugeHoleIsMissed() returns (best: Node?, first: Node?)
    ensures best == null && first != null
  {
    var mm := new Mm(0, ULONG_MAX);
    mm.OneHole();
    best := mm.SearchFree(1, 0, true);
    first := mm.SearchFree(1, 0, false);
  }

  const ULONG_MAX := 0xFFFF_FFFF_FFFF_FFFF

  predicate Fits(n: Node, size: int, alignment: nat)
    reads n
  {
    FreeHole(n.start, n.start + n.size, size, alignment)
  }

  predicate FitsRange(n: Node, size: int, alignment: nat, from: int, to: int)
    reads n
  {
    RangeHole(n.start, n.start + n.size, size, alignment, from, to)
  }

  /** There are as many nodes in the pool as a get takes from it; two always are. */
  predicate Suffices(unused: nat, hole: int, wasted: int, size: int, memory1: bool, memory2: bool) {
    unused >= Pool.Drawn(hole, wasted, size, memory1, memory2)
  }

  /** The outcome of taking a block `wasted` units into the hole at `i`: well
      formed unless the block's node came stale from the pool, and either the
      block in place with the rest of the hole free around it, or nothing changed. */
  ghost predicate Got(s: State, i: nat, wasted: int, size: int, got1: Node?, got2: Node?, t: State, block: Node?)
    requires Listed(s) && i < |s.order|
  {
    && (Valid(t) <==> !Place.BlockStale(s, i, wasted, size, got1, got2))
    && Place.PlacedOrSame(s, i, wasted, size, t, block)
  }

  /** list_add_tail on a member's own link: `n` goes in before `at`. */
  function InsertBefore(xs: seq<Node>, at: Node, n: Node): seq<Node>
    requires at in xs
  {
    xs[..Pos(xs, at)] + [n] + xs[Pos(xs, at)..]
  }

  /** The free neighbours of the node at `i`, where they are, and what they make together. */
  ghost predicate NeighboursOf(s: State, i: nat, prevFree: Node?, nextFree: Node?, a: nat, b: nat, start: int, size: int)
    requires Known(s) && i < |s.order|
  {
    && prevFree == Scan.Neighbour(s, i - 1) && nextFree == Scan.Neighbour(s, i + 1)
    && a == Alloc.Left(s, i) && b == Alloc.Right(s, i)
    && start == s.info[s.order[a]].start && size == Alloc.FusedSize(s, i)
    && (prevFree != null ==> i > 0 && prevFree == s.order[i - 1] && prevFree in s.info)
    && (nextFree != null ==> i + 1 < |s.order| && nextFree == s.order[i + 1] && nextFree in s.info)
  }

  /** `t` is `s` with the node at `i` grown over its free neighbours. */
  ghost predicate Merged(s: State, i: nat, t: State, start: int, size: int)
    requires Known(s) && i < |s.order|
  {
    && start == s.info[s.order[Alloc.Left(s, i)]].start && size == Alloc.FusedSize(s, i)
    && t == s.(order := Alloc.Collapse(s.order, Alloc.Left(s, i), i, Alloc.Right(s, i)), info := Scan.AddInfo(s, i))
  }

  /** Both neighbours merged, one after the other. */
  lemma HalfwayBetween(s: State, i: nat, prev: Node, cur: Node, next: Node)
    requires Known(s) && i < |s.order| && Alloc.FreeAt(s, i - 1) && Alloc.FreeAt(s, i + 1)
    requires prev == s.order[i - 1] && cur == s.order[i] && next == s.order[i + 1]
    ensures var one := s.info[prev := s.info[prev].(size := s.info[prev].size + s.info[cur].size)];
      Alloc.Halfway(s, i) == s.(order := Alloc.Unlink(s.order, next), stack := Alloc.Unlink(s.stack, next),
                                unused := Alloc.Retire(s.unused, next),
                                info := one[prev := one[prev].(size := one[prev].size + s.info[next].size)])
  {
  }

  /** A hole that passed the test has room for the block behind what is skipped. */
  lemma HoleHolds(start: int, end: int, size: int, alignment: nat, wasted: int)
    requires FreeHole(start, end, size, alignment) && 0 <= start && 0 <= size && wasted == Waste(start, alignment)
    ensures 0 <= wasted && wasted + size <= end - start && PlaceAt(start, end, size, alignment, start + wasted)
  {
    WasteAligns(start, alignment);
    FreeHoleExact(start, end, size, alignment);
  }

  /** A list with neighbours linked in again on both sides of a node. */
  function Linked(order: seq<Node>, n: Node, p: Node?, q: Node?): seq<Node>
    requires n in order || (p == null && q == null)
  {
    if p == null && q == null then order
    else
      var i := Pos(order, n);
      order[..i] + Scan.Optional(p) + [n] + Scan.Optional(q) + order[i + 1..]
  }

  lemma RemovedOrder(s: State, n: Node, p: Node?, q: Node?)
    requires Scan.Removable(s, n) && p == s.info[n].savedPrev && q == s.info[n].savedNext
    ensures var t := s.(order := Linked(s.order, n, p, q), info := Scan.RemoveInfo(s, n), scanned := s.scanned - 1);
      Scan.Remove(s, n) == (t, Scan.InHit(t, n))
  {
    if n in s.order {
      var i := Pos(s.order, n);
      assert s.order[..i] + Scan.Optional(p) + [n] + Scan.Optional(q) + s.order[i + 1..] == Linked(s.order, n, p, q);
    }
  }

  lemma MergedIsAdd(s: State, i: nat, t: State, start: int, size: int)
    requires Known(s) && i < |s.order| && Merged(s, i, t, start, size)
    ensures var u := t.(scanned := s.scanned + 1);
      Scan.AddAt(s, i) ==
        if FreeHole(start, start + size, s.scanSize, s.scanAlign) then (u.(hitStart := start, hitSize := size), true) else (u, false)
  {
  }

  /** What Take leaves before the hole at `i + 1`. */
  lemma PreStays(t: State, i: nat, size: int, got: Node?)
    requires Listed(t) && i + 1 < |t.order| && Alloc.FreshFor(t, got)
    requires Listed(Alloc.TakeAt(t, i + 1, size, got).0)
    ensures var u := Alloc.TakeAt(t, i + 1, size, got).0;
      i < |u.order| && u.order[i] == t.order[i] && Pos(u.order, t.order[i]) == i
  {
    var u := Alloc.TakeAt(t, i + 1, size, got).0;
    assert u.order[i] == t.order[i];
    PosUnique(u.order, i);
  }
}
