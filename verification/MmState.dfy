/** The range allocator (drm_mm.c): its nodes, the state its lists and nodes
    make up, and what it means for that state to be well formed. */
module MmState {

  /** struct drm_mm_node. `scanned_block` is `block`. While a node is on the
      scan list the source keeps the two neighbours it absorbed in the unused
      links of free_stack; here those are `savedPrev` and `savedNext`. */
  class Node {
    var start: int
    var size: int
    var free: bool
    var block: bool
    var prevFree: bool
    var nextFree: bool
    var savedPrev: Node?
    var savedNext: Node?

    /** kzalloc */
    constructor ()
      ensures start == 0 && size == 0 && !free && !block && !prevFree && !nextFree
      ensures savedPrev == null && savedNext == null
    {
      start, size, free, block, prevFree, nextFree := 0, 0, false, false, false, false;
      savedPrev, savedNext := null, null;
    }
  }

  /** The fields of one node, as a value. */
  datatype Info = Info(start: int, size: int, free: bool, block: bool, prevFree: bool, nextFree: bool,
                       savedPrev: Node?, savedNext: Node?)
  {
    function End(): int { start + size }

    /** On no scan list, and absorbed by no node that is. */
    predicate Quiet() {
      !block && !prevFree && !nextFree && savedPrev == null && savedNext == null
    }
  }

  const ZERO := Info(0, 0, false, false, false, false, null, null)

  /** struct drm_mm with the nodes behind it. `order` is node_list, `stack` is
      free_stack, most recent first, `unused` is unused_nodes. `lo` and `hi` are
      the bounds of the managed range, which the source does not store. */
  datatype State = State(order: seq<Node>, stack: seq<Node>, unused: seq<Node>, info: map<Node, Info>,
                         scanSize: int, scanAlign: nat, hitStart: int, hitSize: int, scanned: int,
                         lo: int, hi: int)

  /** What the address-ordered list says about one node. */
  datatype Cell = Cell(node: Node, start: int, size: int, free: bool) {
    function End(): int { start + size }
  }

  predicate NoDup<T(==)>(xs: seq<T>) {
    forall i, j :: 0 <= i < j < |xs| ==> xs[i] != xs[j]
  }

  predicate Known(s: State) {
    forall i :: 0 <= i < |s.order| ==> s.order[i] in s.info
  }

  function CellOf(s: State, n: Node): Cell
    requires n in s.info
  {
    Cell(n, s.info[n].start, s.info[n].size, s.info[n].free)
  }

  function Cells(s: State): (cs: seq<Cell>)
    requires Known(s)
  {
    seq(|s.order|, i requires 0 <= i < |s.order| => CellOf(s, s.order[i]))
  }

  /** The cells cover [lo, hi) in address order, without gap or overlap. */
  ghost predicate Tiling(cs: seq<Cell>, lo: int, hi: int) {
    && |cs| > 0 && cs[0].start == lo && cs[|cs| - 1].End() == hi
    && (forall i :: 0 <= i < |cs| ==> 0 <= cs[i].size)
    && (forall i, j :: 0 <= i && j == i + 1 < |cs| ==> cs[i].End() == cs[j].start)
  }

  /** No two neighbours are both free. */
  ghost predicate Settled(cs: seq<Cell>) {
    forall i, j :: 0 <= i && j == i + 1 < |cs| ==> !(cs[i].free && cs[j].free)
  }

  ghost predicate Listed(s: State) {
    && Known(s)
    && NoDup(s.order)
    && NoDup(s.unused) && (forall n :: n in s.unused ==> n in s.info && n !in s.order)
  }

  /** Holds at all times, also while blocks are on the scan list. */
  ghost predicate Shape(s: State) {
    Listed(s) && 0 <= s.lo && Tiling(Cells(s), s.lo, s.hi) && Settled(Cells(s))
  }

  /** The free stack holds exactly the free nodes, once each. */
  ghost predicate StackExact(s: State) {
    && NoDup(s.stack)
    && (forall n :: n in s.stack ==> n in s.order)
    && (forall n :: n in s.order && n in s.info ==> (n in s.stack <==> s.info[n].free))
  }

  /** The state between operations, with the scan list empty. */
  ghost predicate Valid(s: State) {
    Shape(s) && StackExact(s) && AllQuiet(s)
  }

  /** No node on the list or in the pool has anything to do with the scan list. */
  ghost predicate AllQuiet(s: State) {
    && s.scanned == 0
    && (forall n :: n in s.order && n in s.info ==> s.info[n].Quiet())
    && (forall n :: n in s.unused && n in s.info ==> s.info[n].Quiet())
  }

  /** The position of a node, found by following the links from the list head. */
  function Pos(xs: seq<Node>, n: Node): (i: nat)
    requires n in xs
    ensures i < |xs| && xs[i] == n && n !in xs[..i]
  {
    if xs[0] == n then 0 else
      var k := Pos(xs[1..], n);
      assert xs[..k + 1] == [xs[0]] + xs[1..][..k];
      k + 1
  }

  /** list_del: the list without `n`. */
  function Without(xs: seq<Node>, n: Node): (r: seq<Node>)
    requires n in xs
    ensures forall m :: m in xs && m != n ==> m in r
    ensures NoDup(xs) ==> NoDup(r) && forall m :: m in r ==> m in xs && m != n
  {
    var i := Pos(xs, n);
    assert forall m :: m in xs ==> m == n || m in xs[..i] || m in xs[i + 1..];
    xs[..i] + xs[i + 1..]
  }

  lemma PosUnique(xs: seq<Node>, i: nat)
    requires NoDup(xs) && i < |xs|
    ensures Pos(xs, xs[i]) == i
  {
  }

  // --- The two ways a node list changes, on cells ---

  /** Whether the neighbour before (after) position `j` is free. */
  predicate PrevFree(cs: seq<Cell>, j: nat) requires j < |cs| { j > 0 && cs[j - 1].free }

  predicate NextFree(cs: seq<Cell>, j: nat) requires j < |cs| { j + 1 < |cs| && cs[j + 1].free }

  /** Cell `j` becomes free and absorbs its free neighbours; `keep` is the node that stands for the result. */
  ghost function Fuse(cs: seq<Cell>, j: nat, keep: Node): seq<Cell>
    requires j < |cs|
  {
    var p := PrevFree(cs, j);
    var q := NextFree(cs, j);
    var start := if p then cs[j - 1].start else cs[j].start;
    var size := (if p then cs[j - 1].size else 0) + cs[j].size + (if q then cs[j + 1].size else 0);
    cs[..if p then j - 1 else j] + [Cell(keep, start, size, true)] + cs[if q then j + 2 else j + 1..]
  }

  /** Fuse, cell by cell. */
  lemma FuseAt(cs: seq<Cell>, j: nat, keep: Node)
    requires j < |cs|
    ensures var ds := Fuse(cs, j, keep);
      var a := if PrevFree(cs, j) then j - 1 else j;
      var gap := (if PrevFree(cs, j) then 1 else 0) + (if NextFree(cs, j) then 1 else 0);
      && |ds| == |cs| - gap && a < |ds|
      && (forall i :: 0 <= i < a ==> ds[i] == cs[i])
      && (forall i :: a < i < |ds| ==> ds[i] == cs[i + gap])
      && ds[a].node == keep && ds[a].free && ds[a].start == cs[a].start
      && ds[a].size == (if PrevFree(cs, j) then cs[j - 1].size else 0) + cs[j].size
                       + (if NextFree(cs, j) then cs[j + 1].size else 0)
  {
  }

  lemma FusePair(cs: seq<Cell>, j: nat, keep: Node, lo: int, hi: int, x: nat)
    requires j < |cs| && !cs[j].free && Tiling(cs, lo, hi) && Settled(cs) && x + 1 < |Fuse(cs, j, keep)|
    ensures var ds := Fuse(cs, j, keep); ds[x].End() == ds[x + 1].start && !(ds[x].free && ds[x + 1].free)
  {
    var ds := Fuse(cs, j, keep);
    var a := if PrevFree(cs, j) then j - 1 else j;
    var gap := |cs| - |ds|;
    FuseAt(cs, j, keep);
    assert a > 0 ==> !cs[a - 1].free && cs[a - 1].End() == ds[a].start;
    assert a + 1 < |ds| ==> !cs[a + 1 + gap].free && ds[a].End() == cs[a + 1 + gap].start;
  }

  lemma FuseKeepsShape(cs: seq<Cell>, j: nat, keep: Node, lo: int, hi: int)
    requires j < |cs| && !cs[j].free && Tiling(cs, lo, hi) && Settled(cs)
    ensures Tiling(Fuse(cs, j, keep), lo, hi) && Settled(Fuse(cs, j, keep))
  {
    var ds := Fuse(cs, j, keep);
    var a := if PrevFree(cs, j) then j - 1 else j;
    var gap := |cs| - |ds|;
    assert ds[a].free;
    assert forall i :: 0 <= i < a ==> ds[i] == cs[i];
    assert forall i :: a < i < |ds| ==> ds[i] == cs[i + gap];
    forall x, y | 0 <= x && y == x + 1 < |ds|
      ensures ds[x].End() == ds[y].start && !(ds[x].free && ds[y].free)
    {
      FusePair(cs, j, keep, lo, hi, x);
    }
    assert ds[|ds| - 1].End() == hi by {
      if a < |ds| - 1 { assert ds[|ds| - 1] == cs[|cs| - 1]; }
    }
  }

  /** Two states with the same list and the same fields on it have the same cells. */
  lemma CellsAgree(s: State, t: State)
    requires Known(s) && s.order == t.order
    requires forall n :: n in s.order ==> n in t.info && CellOf(s, n) == CellOf(t, n)
    ensures Known(t) && Cells(s) == Cells(t)
  {
  }
}
