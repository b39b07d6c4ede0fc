/** Freeing blocks, for good (drm_mm_put_block) or tentatively
    (drm_mm_scan_add_block), only ever coarsens the list. The result is
    determined by which of the original cells have been freed, in any order. */
module MmCoarse {
  import opened MmState

  /** Cell `k` of `cs` is free or has been freed since. */
  predicate Gone(cs: seq<Cell>, f: seq<bool>, k: int)
    requires |f| == |cs| && 0 <= k < |cs|
  {
    cs[k].free || f[k]
  }

  /** The list `ds` after the cells marked in `f` have been freed in `cs`: cell
      `k` of `cs` lies in cell `own[k]` of `ds`. */
  ghost predicate Coarse(cs: seq<Cell>, f: seq<bool>, own: seq<int>, ds: seq<Cell>) {
    && |cs| == |f| == |own| && |cs| > 0 && |ds| > 0
    && own[0] == 0 && own[|cs| - 1] == |ds| - 1
    && ds[0].start == cs[0].start && ds[|ds| - 1].End() == cs[|cs| - 1].End()
    && (forall k :: 0 <= k < |cs| ==> 0 <= own[k] < |ds|)
    && (forall k :: 0 <= k < |cs| ==> (ds[own[k]].free <==> Gone(cs, f, k)))
    && (forall k :: 0 <= k < |cs| && !Gone(cs, f, k) ==> ds[own[k]] == cs[k])
    && (forall k, l :: 0 <= k && l == k + 1 < |cs| ==> Step(cs, f, own, ds, k, l))
  }

  /** Neighbouring cells share a cell of `ds`, which then is free, or lie in two neighbouring ones. */
  predicate Step(cs: seq<Cell>, f: seq<bool>, own: seq<int>, ds: seq<Cell>, k: int, l: int)
    requires |cs| == |f| == |own| && 0 <= k < |cs| && 0 <= l < |cs|
    requires 0 <= own[k] < |ds| && 0 <= own[l] < |ds|
  {
    if own[l] == own[k] then Gone(cs, f, k) && Gone(cs, f, l)
    else own[l] == own[k] + 1 && ds[own[l]].start == cs[l].start && ds[own[k]].End() == cs[k].End()
  }

  function Shift(ds: seq<Cell>, j: nat, o: int): int
    requires j < |ds|
  {
    o - (if PrevFree(ds, j) && o >= j then 1 else 0) - (if NextFree(ds, j) && o > j then 1 else 0)
  }

  lemma CoarseInit(cs: seq<Cell>, lo: int, hi: int)
    requires Tiling(cs, lo, hi)
    ensures Coarse(cs, seq(|cs|, k => false), seq(|cs|, k => k), cs)
  {
  }

  /** Cell `o` is one of those Fuse makes one. */
  predicate InFused(ds: seq<Cell>, j: nat, o: int)
    requires j < |ds|
  {
    o == j || (PrevFree(ds, j) && o == j - 1) || (NextFree(ds, j) && o == j + 1)
  }

  /** Where Fuse puts the cells. */
  lemma ShiftCell(ds: seq<Cell>, j: nat, keep: Node, o: int, lo: int, hi: int)
    requires j < |ds| && 0 <= o < |ds| && Tiling(ds, lo, hi)
    ensures var es, x := Fuse(ds, j, keep), Shift(ds, j, o);
      && |es| == Shift(ds, j, |ds| - 1) + 1 && 0 <= x < |es|
      && (!InFused(ds, j, o) ==> es[x] == ds[o])
      && (InFused(ds, j, o) ==> x == Shift(ds, j, j) && es[x].free)
      && (o == 0 || !InFused(ds, j, o - 1) || !InFused(ds, j, o) ==> es[x].start == ds[o].start)
      && (o + 1 == |ds| || !InFused(ds, j, o + 1) || !InFused(ds, j, o) ==> es[x].End() == ds[o].End())
  {
    FuseAt(ds, j, keep);
  }

  /** Freeing one more cell. */
  lemma CoarseStep(cs: seq<Cell>, f: seq<bool>, own: seq<int>, ds: seq<Cell>, k0: nat, keep: Node, lo: int, hi: int)
    requires Coarse(cs, f, own, ds) && Tiling(ds, lo, hi) && Settled(ds) && k0 < |cs| && !Gone(cs, f, k0)
    ensures var j := own[k0];
      Coarse(cs, f[k0 := true], seq(|own|, k requires 0 <= k < |own| => Shift(ds, j, own[k])), Fuse(ds, j, keep))
  {
    var j := own[k0];
    var f', es := f[k0 := true], Fuse(ds, j, keep);
    var own' := seq(|own|, k requires 0 <= k < |own| => Shift(ds, j, own[k]));
    ShiftCell(ds, j, keep, 0, lo, hi);
    ShiftCell(ds, j, keep, |ds| - 1, lo, hi);
    CoarseCells(cs, f, own, ds, k0, keep, lo, hi, f', own', es);
    forall k, l | 0 <= k && l == k + 1 < |cs| ensures Step(cs, f', own', es, k, l) {
      StepShift(cs, f, own, ds, k0, keep, lo, hi, k);
    }
  }

  lemma CoarseCells(cs: seq<Cell>, f: seq<bool>, own: seq<int>, ds: seq<Cell>, k0: nat, keep: Node, lo: int, hi: int,
                    f': seq<bool>, own': seq<int>, es: seq<Cell>)
    requires Coarse(cs, f, own, ds) && Tiling(ds, lo, hi) && k0 < |cs| && !Gone(cs, f, k0)
    requires f' == f[k0 := true] && |own'| == |own| && es == Fuse(ds, own[k0], keep)
    requires forall k :: 0 <= k < |own| ==> own'[k] == Shift(ds, own[k0], own[k])
    ensures forall k :: 0 <= k < |cs| ==> 0 <= own'[k] < |es|
    ensures forall k :: 0 <= k < |cs| ==> (es[own'[k]].free <==> Gone(cs, f', k))
    ensures forall k :: 0 <= k < |cs| && !Gone(cs, f', k) ==> es[own'[k]] == cs[k]
  {
    forall k | 0 <= k < |cs|
      ensures 0 <= own'[k] < |es| && (es[own'[k]].free <==> Gone(cs, f', k)) && (!Gone(cs, f', k) ==> es[own'[k]] == cs[k])
    {
      ShiftCell(ds, own[k0], keep, own[k], lo, hi);
      if k != k0 { OwnSingle(cs, f, own, ds, k0, k); }
    }
  }

  lemma StepShift(cs: seq<Cell>, f: seq<bool>, own: seq<int>, ds: seq<Cell>, k0: nat, keep: Node, lo: int, hi: int, k: nat)
    requires Coarse(cs, f, own, ds) && Tiling(ds, lo, hi) && k0 < |cs| && !Gone(cs, f, k0) && k + 1 < |cs|
    ensures var es, x, y := Fuse(ds, own[k0], keep), Shift(ds, own[k0], own[k]), Shift(ds, own[k0], own[k + 1]);
      && 0 <= x < |es| && 0 <= y < |es|
      && (if x == y then Gone(cs, f[k0 := true], k) && Gone(cs, f[k0 := true], k + 1)
          else y == x + 1 && es[y].start == cs[k + 1].start && es[x].End() == cs[k].End())
  {
    var j := own[k0];
    assert Step(cs, f, own, ds, k, k + 1);
    ShiftCell(ds, j, keep, own[k], lo, hi);
    ShiftCell(ds, j, keep, own[k + 1], lo, hi);
    if k != k0 { OwnSingle(cs, f, own, ds, k0, k); }
    if k + 1 != k0 { OwnSingle(cs, f, own, ds, k0, k + 1); }
  }

  lemma OwnMonotone(cs: seq<Cell>, f: seq<bool>, own: seq<int>, ds: seq<Cell>, k: nat, l: nat)
    requires Coarse(cs, f, own, ds) && k <= l < |cs|
    ensures own[k] <= own[l]
  {
    if k < l { OwnMonotone(cs, f, own, ds, k, l - 1); assert Step(cs, f, own, ds, l - 1, l); }
  }

  /** A cell that is not gone shares its cell of `ds` with no other. */
  lemma OwnSingle(cs: seq<Cell>, f: seq<bool>, own: seq<int>, ds: seq<Cell>, k: nat, l: nat)
    requires Coarse(cs, f, own, ds) && k < |cs| && l < |cs| && k != l && !Gone(cs, f, k)
    ensures own[k] != own[l]
  {
    if k < l {
      assert Step(cs, f, own, ds, k, k + 1);
      OwnMonotone(cs, f, own, ds, k + 1, l);
    } else {
      assert Step(cs, f, own, ds, k - 1, k);
      OwnMonotone(cs, f, own, ds, l, k - 1);
    }
  }

  /** The cells from `a` to `b` are gone, their neighbours are not, and they cover [start, end). */
  ghost predicate Region(cs: seq<Cell>, f: seq<bool>, a: int, b: int, start: int, end: int) {
    && |f| == |cs| && 0 <= a < b <= |cs| && cs[a].start == start && cs[b - 1].End() == end
    && (forall k :: a <= k < b ==> Gone(cs, f, k))
    && (a > 0 ==> !Gone(cs, f, a - 1)) && (b < |cs| ==> !Gone(cs, f, b))
  }

  /** A region of gone cells has become exactly one free cell. */
  lemma RegionIsCell(cs: seq<Cell>, f: seq<bool>, own: seq<int>, ds: seq<Cell>, a: int, b: int, start: int, end: int)
    requires Coarse(cs, f, own, ds) && Settled(ds) && Region(cs, f, a, b, start, end)
    ensures ds[own[a]].free && ds[own[a]].start == start && ds[own[a]].End() == end
    ensures forall k :: a <= k < b ==> own[k] == own[a]
  {
    forall k | a <= k < b ensures own[k] == own[a] {
      RegionShared(cs, f, own, ds, a, b, start, end, k);
    }
    if a > 0 { assert Step(cs, f, own, ds, a - 1, a); }
    if b < |cs| { assert Step(cs, f, own, ds, b - 1, b); }
  }

  lemma RegionShared(cs: seq<Cell>, f: seq<bool>, own: seq<int>, ds: seq<Cell>, a: int, b: int, start: int, end: int, k: int)
    requires Coarse(cs, f, own, ds) && Settled(ds) && Region(cs, f, a, b, start, end) && a <= k < b
    ensures own[k] == own[a]
    decreases k
  {
    if k > a {
      RegionShared(cs, f, own, ds, a, b, start, end, k - 1);
      assert Step(cs, f, own, ds, k - 1, k);
      assert Gone(cs, f, k - 1) && Gone(cs, f, k);
    }
  }

  /** Every free cell of `ds` is a region of `cs`. */
  lemma CellIsRegion(cs: seq<Cell>, f: seq<bool>, own: seq<int>, ds: seq<Cell>, k: nat) returns (a: int, b: int)
    requires Coarse(cs, f, own, ds) && Settled(ds) && k < |cs| && ds[own[k]].free
    ensures a <= k < b && Region(cs, f, a, b, ds[own[k]].start, ds[own[k]].End())
  {
    a := k;
    while a > 0 && own[a - 1] == own[k]
      invariant 0 <= a <= k && forall m :: a <= m <= k ==> own[m] == own[k]
    {
      a := a - 1;
    }
    b := k + 1;
    while b < |cs| && own[b] == own[k]
      invariant k < b <= |cs| && forall m :: a <= m < b ==> own[m] == own[k]
    {
      b := b + 1;
    }
    if a > 0 { assert Step(cs, f, own, ds, a - 1, a); }
    if b < |cs| { assert Step(cs, f, own, ds, b - 1, b); }
    EndsMeet(cs, f, own, ds, k, a, b);
  }

  lemma EndsMeet(cs: seq<Cell>, f: seq<bool>, own: seq<int>, ds: seq<Cell>, k: nat, a: int, b: int)
    requires Coarse(cs, f, own, ds) && 0 <= a <= k < b <= |cs|
    requires own[a] == own[k] == own[b - 1]
    requires (a > 0 ==> own[a - 1] != own[k]) && (b < |cs| ==> own[b] != own[k])
    ensures ds[own[k]].start == cs[a].start && ds[own[k]].End() == cs[b - 1].End()
  {
    if a > 0 { assert Step(cs, f, own, ds, a - 1, a); }
    if b < |cs| { assert Step(cs, f, own, ds, b - 1, b); }
  }

  lemma StartsGrow(cs: seq<Cell>, lo: int, hi: int, a: nat, b: nat)
    requires Tiling(cs, lo, hi) && a <= b < |cs|
    ensures lo <= cs[a].start <= cs[b].start && cs[a].End() <= cs[b].End() <= hi
  {
    if a < b { StartsGrow(cs, lo, hi, a, b - 1); }
    else if a > 0 { StartsGrow(cs, lo, hi, a - 1, a); }
    EndsBounded(cs, lo, hi, b);
  }

  lemma EndsBounded(cs: seq<Cell>, lo: int, hi: int, b: nat)
    requires Tiling(cs, lo, hi) && b < |cs|
    ensures cs[b].End() <= hi
    decreases |cs| - b
  {
    if b + 1 < |cs| { EndsBounded(cs, lo, hi, b + 1); }
  }
}
