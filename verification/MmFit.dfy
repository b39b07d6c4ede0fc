/** Which holes hold a block of a given size and alignment, and where in the hole
    it goes (drm_mm.c:150-167, 183-205, 288-307, 356-360). */
module MmFit {
  import opened Arith

  /** The units to skip so that a block starts at a multiple of `alignment`. */
  function Waste(start: int, alignment: nat): int {
    if alignment == 0 || start % alignment == 0 then 0 else alignment - start % alignment
  }

  /** The units drm_mm_get_block_range_generic skips to start at `from` or later. */
  function RangeWaste(start: int, alignment: nat, from: int): int {
    var wasted := if start < from then from - start else 0;
    wasted + Waste(start + wasted, alignment)
  }

  /** check_free_hole */
  predicate FreeHole(start: int, end: int, size: int, alignment: nat) {
    end - start >= size && end >= start + size + Waste(start, alignment)
  }

  predicate Aligned(a: int, alignment: nat) {
    alignment == 0 || a % alignment == 0
  }

  /** No aligned address lies between `start` and the place Waste leads to. */
  lemma WasteIsLeast(start: int, alignment: nat, a: int)
    requires 0 <= start <= a && Aligned(a, alignment)
    ensures 0 <= Waste(start, alignment) && Aligned(start + Waste(start, alignment), alignment)
    ensures start + Waste(start, alignment) <= a
  {
    if alignment != 0 && start % alignment != 0 {
      var q, k := start / alignment, a / alignment;
      assert start == q * alignment + start % alignment && a == k * alignment;
      MulOrder(q, k, alignment);
      MulOrder(k, q + 1, alignment);
      MultipleMod(q + 1, alignment);
      assert start + Waste(start, alignment) == (q + 1) * alignment;
    }
  }

  /** Waste leads to an aligned address. */
  lemma WasteAligns(start: int, alignment: nat)
    requires 0 <= start
    ensures 0 <= Waste(start, alignment) && Aligned(start + Waste(start, alignment), alignment)
  {
    if alignment != 0 {
      var q := start / alignment;
      assert start == q * alignment + start % alignment;
      MultipleMod(q + 1, alignment);
      assert start % alignment != 0 ==> start + Waste(start, alignment) == (q + 1) * alignment;
    }
  }

  ghost predicate PlaceAt(start: int, end: int, size: int, alignment: nat, a: int) {
    start <= a && a + size <= end && Aligned(a, alignment)
  }

  /** The hole test succeeds exactly when some aligned block fits into the hole;
      then the place Waste leads to is the lowest such. */
  lemma FreeHoleExact(start: int, end: int, size: int, alignment: nat)
    requires 0 <= start && 0 <= size
    ensures FreeHole(start, end, size, alignment) <==> exists a :: PlaceAt(start, end, size, alignment, a)
    ensures FreeHole(start, end, size, alignment) ==> PlaceAt(start, end, size, alignment, start + Waste(start, alignment))
  {
    WasteAligns(start, alignment);
    var least := start + Waste(start, alignment);
    assert FreeHole(start, end, size, alignment) ==> PlaceAt(start, end, size, alignment, least);
    forall a | PlaceAt(start, end, size, alignment, a) ensures FreeHole(start, end, size, alignment) {
      WasteIsLeast(start, alignment, a);
    }
  }

  /** A hole that contains one that passes the test passes it too. */
  lemma FreeHoleGrows(start: int, end: int, start': int, end': int, size: int, alignment: nat)
    requires 0 <= start' <= start && end <= end' && 0 <= size && FreeHole(start, end, size, alignment)
    ensures FreeHole(start', end', size, alignment)
  {
    FreeHoleExact(start, end, size, alignment);
    assert PlaceAt(start', end', size, alignment, start + Waste(start, alignment));
    FreeHoleExact(start', end', size, alignment);
  }

  /** The test the range search makes of a hole, after clipping it to [from, to). */
  predicate RangeHole(start: int, end: int, size: int, alignment: nat, from: int, to: int) {
    FreeHole(if start < from then from else start, if end > to then to else end, size, alignment)
  }

  /** A hole the range search accepts has room for what the range variant skips,
      and the block then lies in the range, aligned. A hole it refuses has no
      place for such a block. */
  lemma RangeHolePlaces(start: int, end: int, size: int, alignment: nat, from: int, to: int)
    requires 0 <= start <= end && 0 <= from && 0 <= size
    ensures RangeHole(start, end, size, alignment, from, to) <==>
      exists a :: PlaceAt(start, end, size, alignment, a) && PlaceAt(from, to, size, 0, a)
    ensures RangeHole(start, end, size, alignment, from, to) ==>
      var a := start + RangeWaste(start, alignment, from);
      0 <= a - start && PlaceAt(start, end, size, alignment, a) && PlaceAt(from, to, size, 0, a)
  {
    var lo, hi := if start < from then from else start, if end > to then to else end;
    FreeHoleExact(lo, hi, size, alignment);
    forall a | PlaceAt(start, end, size, alignment, a) && PlaceAt(from, to, size, 0, a)
      ensures PlaceAt(lo, hi, size, alignment, a) { }
    WasteAligns(lo, alignment);
    assert lo + Waste(lo, alignment) == start + RangeWaste(start, alignment, from);
  }
}
