/** Where nodes come from and go to (drm_mm.c:51-98, 252-283), and in what order
    holes are on offer. */
module MmPool {
  import opened MmState
  import opened MmAlloc
  import opened MmPlace

  // --- The pool ---

  /** How many more nodes the pool takes. */
  function Room(s: State): nat {
    if |s.unused| >= UNUSED_TARGET then 0 else UNUSED_TARGET - |s.unused|
  }

  function Lesser(a: nat, b: nat): nat { if a < b then a else b }

  /** Nodes that leave the list go on top of the pool, as many as it takes; the others are freed. */
  lemma PutFillsPool(s: State, i: nat) returns (gone: seq<Node>)
    requires Listed(s) && i < |s.order|
    ensures var t := PutAt(s, i);
      && t.unused == gone + s.unused && (forall n :: n in gone ==> n in s.order && n !in t.order)
      && |t.order| <= |s.order| && |gone| == Lesser(|s.order| - |t.order|, Room(s))
  {
    gone := Fits(LeavesList(s, i), Room(s));
    forall n | n in gone ensures n in s.order && n !in PutAt(s, i).order { LeaversLeave(s, i, n); }
  }

  /** The nodes a put takes off the list, the last one first. */
  function LeavesList(s: State, i: nat): (xs: seq<Node>)
    requires Known(s) && i < |s.order|
    ensures |s.order| - |PutAt(s, i).order| == |xs| && PutAt(s, i).unused == Fits(xs, Room(s)) + s.unused
  {
    if !FreeAt(s, i - 1) && !FreeAt(s, i + 1) then []
    else if FreeAt(s, i - 1) && FreeAt(s, i + 1) then [s.order[i], s.order[i + 1]]
    else [s.order[i]]
  }

  /** The last ones of these, as many as there is room for. */
  function Fits(xs: seq<Node>, room: nat): (r: seq<Node>)
    ensures |r| == Lesser(|xs|, room) && forall n :: n in r ==> n in xs
  {
    xs[if |xs| <= room then 0 else |xs| - room..]
  }

  lemma LeaversLeave(s: State, i: nat, n: Node)
    requires Listed(s) && i < |s.order| && n in LeavesList(s, i)
    ensures n in s.order && n !in PutAt(s, i).order
  {
    PutMembers(s, i, n);
  }

  /** How many nodes a get takes from the pool, if it has them: one for what it skips and one for the block,
      unless there is memory, or nothing to skip, or nothing left of the hole. */
  function Drawn(hole: int, wasted: int, size: int, memory1: bool, memory2: bool): nat {
    (if wasted != 0 && !memory1 then 1 else 0) + (if wasted + size != hole && !memory2 then 1 else 0)
  }

  lemma SplitDraws(s: State, i: nat, size: int, got: Node?)
    requires i < |s.order| && Known(s) && PoolKnown(s)
    ensures var (t, child) := SplitAt(s, i, size, got); var k := if got == null then 1 else 0;
      && (child == null <==> |s.unused| < k) && (child == null ==> t == s)
      && (child != null ==> t.unused == s.unused[k..] && t.stack == s.stack)
      && (child != null ==> (if got != null then child == got else s.unused == [child] + t.unused))
  {
  }

  /** A get fails if and only if it needs more nodes than there is memory for and the pool has. It takes
      exactly those from the pool, first in line first. */
  lemma GetFails(s: State, i: nat, wasted: int, size: int, got1: Node?, got2: Node?)
    requires CanGet(s, i, wasted, size, got1, got2) && !BlockStale(s, i, wasted, size, got1, got2)
    ensures var (t, block) := GetAt(s, i, wasted, size, got1, got2); var k := Drawn(s.info[s.order[i]].size, wasted, size, got1 != null, got2 != null);
      && (block == null <==> |s.unused| < k)
      && (block != null ==> t.unused == s.unused[k..])
      && (block == null ==> t.unused == (if wasted != 0 && got1 != null then [got1] else []) + s.unused)
  {
    if wasted == 0 {
      SplitDraws(s, i, size, got2);
    } else {
      SplitDraws(s, i, wasted, got1);
      if SplitAt(s, i, wasted, got1).1 != null {
        var t, pre, u, block := BehindIs(s, i, wasted, size, got1, got2);
        SecondDraws(s, i, wasted, t, pre, size, got2);
        BothDraw(s, i, wasted, size, got1, got2, t, pre, PutAt(u, i).unused, block);
      }
    }
  }

  /** The parts of a get that skips something. */
  lemma BehindIs(s: State, i: nat, wasted: int, size: int, got1: Node?, got2: Node?) returns (t: State, pre: Node, u: State, block: Node?)
    requires CanGet(s, i, wasted, size, got1, got2) && wasted != 0 && SplitAt(s, i, wasted, got1).1 != null
    ensures (t, pre) == SplitAt(s, i, wasted, got1) && HasPre(s, i, wasted, t, pre) && FreshFor(t, got2) && t.stack == s.stack
    ensures (u, block) == TakeAt(t, i + 1, size, got2) && Known(u) && i < |u.order|
    ensures GetAt(s, i, wasted, size, got1, got2) == (PutAt(u, i), block)
  {
    FirstSplit(s, i, wasted, size, got1, got2);
    SplitDraws(s, i, wasted, got1);
    t, pre := SplitAt(s, i, wasted, got1).0, SplitAt(s, i, wasted, got1).1;
    u, block := TakeAt(t, i + 1, size, got2).0, TakeAt(t, i + 1, size, got2).1;
  }

  lemma BothDraw(s: State, i: nat, wasted: int, size: int, got1: Node?, got2: Node?, t: State, pre: Node, pool: seq<Node>, block: Node?)
    requires CanGet(s, i, wasted, size, got1, got2) && wasted != 0 && (t, pre) == SplitAt(s, i, wasted, got1)
    requires var k := if wasted + size != s.info[s.order[i]].size && got2 == null then 1 else 0;
      (block == null <==> |t.unused| < k) && (block != null ==> pool == t.unused[k..]) && (block == null ==> t.unused == [] && pool == [pre])
    ensures var k := Drawn(s.info[s.order[i]].size, wasted, size, got1 != null, got2 != null);
      && (block == null <==> |s.unused| < k) && (block != null ==> pool == s.unused[k..])
      && (block == null ==> pool == (if got1 != null then [got1] else []) + s.unused)
  {
    SplitDraws(s, i, wasted, got1);
    PoolAfter(s.unused, t.unused, pool, pre, block, got1, if wasted + size != s.info[s.order[i]].size && got2 == null then 1 else 0);
  }

  lemma PoolAfter(s: seq<Node>, t: seq<Node>, u: seq<Node>, pre: Node, block: Node?, got1: Node?, k: nat)
    requires k <= 1 && if got1 != null then pre == got1 && t == s else s == [pre] + t
    requires (block == null <==> |t| < k) && (block != null ==> u == t[k..]) && (block == null ==> t == [] && u == [pre])
    ensures var all := (if got1 == null then 1 else 0) + k;
      && (block == null <==> |s| < all) && (block != null ==> u == s[all..])
      && (block == null ==> u == (if got1 != null then [got1] else []) + s)
  {
  }

  lemma SecondDraws(s: State, i: nat, wasted: int, t: State, pre: Node, size: int, got: Node?)
    requires Valid(s) && i < |s.order| && s.info[s.order[i]].free && HasPre(s, i, wasted, t, pre) && t.stack == s.stack
    requires 0 < wasted && 0 <= size && wasted + size <= s.info[s.order[i]].size && FreshFor(t, got)
    requires !TakesStale(t, i + 1, size, got)
    ensures var (u, block) := TakeAt(t, i + 1, size, got); var k := if wasted + size != s.info[s.order[i]].size && got == null then 1 else 0;
      && i < |u.order| && Known(u) && (block == null <==> |t.unused| < k)
      && (block != null ==> PutAt(u, i).unused == t.unused[k..])
      && (block == null ==> t.unused == [] && PutAt(u, i).unused == [pre])
      && Recent(s.stack, PutAt(u, i).stack) && (block != null ==> PutAt(u, i).stack != [] && PutAt(u, i).stack[0] == pre)
  {
    assert Cells(t)[i + 1].size == t.info[t.order[i + 1]].size;
    var (u, block) := TakeAt(t, i + 1, size, got);
    TakeCells(t, i + 1, size, got);
    if block == null { MergesBack(s, i, wasted, t, pre); } else { GoesBack(s, i, wasted, t, pre, size, got); }
    var k := if wasted + size != s.info[s.order[i]].size && got == null then 1 else 0;
    assert block != null ==> u.unused == t.unused[k..];
  }

  /** The part before the block has no free neighbour. */
  lemma LonePre(s: State, i: nat, wasted: int, t: State, pre: Node, size: int, got: Node?)
    requires Valid(s) && i < |s.order| && s.info[s.order[i]].free && HasPre(s, i, wasted, t, pre)
    requires FreshFor(t, got) && !TakesStale(t, i + 1, size, got) && TakeAt(t, i + 1, size, got).1 != null
    ensures var u := TakeAt(t, i + 1, size, got).0;
      Known(u) && i + 1 < |u.order| && u.order[i] == pre && !FreeAt(u, i - 1) && !FreeAt(u, i + 1)
  {
    var (u, block) := TakeAt(t, i + 1, size, got);
    TakeCells(t, i + 1, size, got);
    var us, ts := Cells(u), Cells(t);
    assert us[i + 1] == Cell(block, ts[i + 1].start, size, false);
    assert us[..i + 1] == ts[..i + 1] && us[i].node == pre;
    assert i > 0 ==> us[i - 1] == ts[..i][i - 1] && Cells(s)[i - 1] == Cells(s)[..i][i - 1] && !Cells(s)[i - 1].free by { assert Cells(s)[i].free; }
  }

  /** So it goes on top of the stack. */
  lemma GoesBack(s: State, i: nat, wasted: int, t: State, pre: Node, size: int, got: Node?)
    requires Valid(s) && i < |s.order| && s.info[s.order[i]].free && HasPre(s, i, wasted, t, pre) && t.stack == s.stack
    requires FreshFor(t, got) && !TakesStale(t, i + 1, size, got) && TakeAt(t, i + 1, size, got).1 != null
    ensures var u := TakeAt(t, i + 1, size, got).0;
      && Known(u) && i + 1 < |u.order| && !FreeAt(u, i - 1) && !FreeAt(u, i + 1)
      && PutAt(u, i).unused == u.unused && PutAt(u, i).stack == [pre] + u.stack && Recent(s.stack, PutAt(u, i).stack)
  {
    LonePre(s, i, wasted, t, pre, size, got);
    PutAlone(TakeAt(t, i + 1, size, got).0, i);
    assert t.order[i + 1] in t.order && t.info[t.order[i + 1]].free by { assert Cells(t)[i + 1].free; }
    TakenIsRecent(t, i + 1, size, got, pre);
  }

  /** The hole goes from the stack if the block takes all of it. */
  lemma TakenIsRecent(t: State, k: nat, size: int, got: Node?, pre: Node)
    requires Known(t) && PoolKnown(t) && k < |t.order| && pre !in t.stack && t.order[k] in t.stack
    ensures Recent(t.stack, [pre] + TakeAt(t, k, size, got).0.stack)
  {
    SplitDraws(t, k, size, got);
    WithIsRecent(t.stack, pre);
    WithoutIsRecent(t.stack, pre, t.order[k]);
  }

  /** The part before the block merges into the hole it was cut from. */
  lemma MergesBack(s: State, i: nat, wasted: int, t: State, pre: Node)
    requires Valid(s) && i < |s.order| && s.info[s.order[i]].free && HasPre(s, i, wasted, t, pre) && t.stack == s.stack
    ensures !FreeAt(t, i - 1) && FreeAt(t, i + 1) && PutAt(t, i).stack == s.stack && PutAt(t, i).unused == Retire(t.unused, pre)
    ensures Recent(s.stack, PutAt(t, i).stack)
  {
    assert i > 0 ==> Cells(t)[i - 1] == Cells(t)[..i][i - 1] && Cells(s)[i - 1] == Cells(s)[..i][i - 1] && !Cells(s)[i - 1].free by { assert Cells(s)[i].free; }
    SameIsRecent(s.stack);
  }

  /** Two nodes in the pool are enough, whatever the block and however little memory there is. */
  lemma TwoAreEnough(s: State, i: nat, wasted: int, size: int, got1: Node?, got2: Node?)
    requires CanGet(s, i, wasted, size, got1, got2) && !BlockStale(s, i, wasted, size, got1, got2) && |s.unused| >= 2
    ensures GetAt(s, i, wasted, size, got1, got2).1 != null
  {
    GetFails(s, i, wasted, size, got1, got2);
  }

  /** drm_mm_pre_get, with the nodes kzalloc returned. */
  function PreGet(s: State, got: seq<Node>): State {
    if got == [] then s else AddSpare(PreGet(s, got[..|got| - 1]), got[|got| - 1])
  }

  /** There is memory for those, and the pool takes them. */
  ghost predicate CanPreGet(s: State, got: seq<Node>) {
    |got| <= Room(s) && NoDup(got) && forall n :: n in got ==> n !in s.info
  }

  /** They go to the pool, and nothing else changes; none of them is stale. */
  lemma {:induction false} PreGetIs(s: State, got: seq<Node>)
    requires Valid(s) && CanPreGet(s, got)
    ensures var t := PreGet(s, got);
      && Valid(t) && t.order == s.order && t.stack == s.stack && t.unused == s.unused + got && t.lo == s.lo && t.hi == s.hi
      && (forall n :: n in t.info <==> n in s.info || n in got) && (forall n :: n in s.info ==> t.info[n] == s.info[n])
      && (forall n :: n in got ==> t.info[n] == ZERO) && Cells(t) == Cells(s)
    decreases |got|
  {
    if got != [] {
      var k := |got| - 1;
      assert forall n :: n in got <==> n in got[..k] || n == got[k];
      assert got[k] !in got[..k];
      PreGetIs(s, got[..k]);
      SpareIs(PreGet(s, got[..k]), got[k]);
      assert got == got[..k] + [got[k]];
    }
  }

  lemma SpareIs(s: State, n: Node)
    requires Valid(s) && n !in s.info
    ensures Valid(AddSpare(s, n)) && Cells(AddSpare(s, n)) == Cells(s)
  {
    assert n !in s.order && n !in s.unused;
    CellsAgree(s, AddSpare(s, n));
  }

  // --- The free stack ---

  ghost predicate Before(xs: seq<Node>, a: Node, b: Node) {
    exists p, q :: 0 <= p < q < |xs| && xs[p] == a && xs[q] == b
  }

  /** Nodes new on the stack are on top of the others, and those are in the order they were in. */
  ghost predicate Recent(older: seq<Node>, newer: seq<Node>) {
    && (forall i, j :: 0 <= i < j < |newer| && newer[j] !in older ==> newer[i] !in older)
    && (forall i, j :: 0 <= i < j < |newer| && newer[i] in older && newer[j] in older ==> Before(older, newer[i], newer[j]))
  }

  lemma SameIsRecent(xs: seq<Node>)
    ensures Recent(xs, xs)
  {
  }

  lemma WithIsRecent(xs: seq<Node>, n: Node)
    requires n !in xs
    ensures Recent(xs, [n] + xs)
  {
    var ys := [n] + xs;
    forall i, j | 0 <= i < j < |ys| && ys[i] in xs && ys[j] in xs ensures Before(xs, ys[i], ys[j]) {
      assert i > 0 && ys[i] == xs[i - 1] && ys[j] == xs[j - 1];
    }
  }

  lemma LessIsRecent(xs: seq<Node>, m: Node)
    requires m in xs
    ensures Recent(xs, Without(xs, m)) && forall n :: n in Without(xs, m) ==> n in xs
  {
    var ys, p := Without(xs, m), Pos(xs, m);
    forall i, j | 0 <= i < j < |ys| ensures Before(xs, ys[i], ys[j]) {
      assert ys[i] == xs[if i < p then i else i + 1] && ys[j] == xs[if j < p then j else j + 1];
    }
  }

  lemma WithoutIsRecent(xs: seq<Node>, n: Node, m: Node)
    requires n !in xs && m in xs
    ensures Recent(xs, [n] + Without(xs, m))
  {
    LessIsRecent(xs, m);
    var ys := [n] + Without(xs, m);
    forall i, j | 0 <= i < j < |ys| && ys[i] in xs && ys[j] in xs ensures Before(xs, ys[i], ys[j]) {
      assert i > 0 && ys[i] == Without(xs, m)[i - 1] && ys[j] == Without(xs, m)[j - 1];
    }
  }

  /** A put leaves the holes there were in their order; a block that merges with none goes on top, where
      the search for the first hole looks first. */
  lemma PutIsRecent(s: State, i: nat)
    requires Valid(s) && i < |s.order| && !s.info[s.order[i]].free
    ensures Recent(s.stack, PutAt(s, i).stack)
    ensures !FreeAt(s, i - 1) && !FreeAt(s, i + 1) ==> PutAt(s, i).stack != [] && PutAt(s, i).stack[0] == s.order[i]
  {
    var p, q := FreeAt(s, i - 1), FreeAt(s, i + 1);
    assert s.order[i] in s.order;
    if p && q {
      assert s.order[i + 1] in s.order;
      LessIsRecent(s.stack, s.order[i + 1]);
    } else if p || q {
      SameIsRecent(s.stack);
    } else {
      WithIsRecent(s.stack, s.order[i]);
    }
  }

  /** So does a get; what it skips goes on top, and what is left of the hole stays where it was. */
  lemma GetIsRecent(s: State, i: nat, wasted: int, size: int, got1: Node?, got2: Node?)
    requires CanGet(s, i, wasted, size, got1, got2) && !BlockStale(s, i, wasted, size, got1, got2)
    ensures Recent(s.stack, GetAt(s, i, wasted, size, got1, got2).0.stack)
    ensures var (t, block) := GetAt(s, i, wasted, size, got1, got2);
      (block != null && wasted != 0 ==> t.stack != [] && i < |t.order| && t.stack[0] == t.order[i])
  {
    if wasted == 0 {
      SplitDraws(s, i, size, got2);
      assert s.order[i] in s.order;
      SameIsRecent(s.stack);
      LessIsRecent(s.stack, s.order[i]);
    } else {
      SplitDraws(s, i, wasted, got1);
      SameIsRecent(s.stack);
      if SplitAt(s, i, wasted, got1).1 != null {
        var t, pre, u, block := BehindIs(s, i, wasted, size, got1, got2);
        SecondDraws(s, i, wasted, t, pre, size, got2);
        if block != null { PreOnTop(s, i, wasted, t, pre, size, got2); }
      }
    }
  }

  lemma PreOnTop(s: State, i: nat, wasted: int, t: State, pre: Node, size: int, got: Node?)
    requires Valid(s) && i < |s.order| && s.info[s.order[i]].free && HasPre(s, i, wasted, t, pre) && t.stack == s.stack
    requires FreshFor(t, got) && !TakesStale(t, i + 1, size, got) && TakeAt(t, i + 1, size, got).1 != null
    ensures var u := TakeAt(t, i + 1, size, got).0; Known(u) && i < |u.order| && i < |PutAt(u, i).order| && PutAt(u, i).order[i] == pre
  {
    GoesBack(s, i, wasted, t, pre, size, got);
    var u := TakeAt(t, i + 1, size, got).0;
    PutAlone(u, i);
  }
}
