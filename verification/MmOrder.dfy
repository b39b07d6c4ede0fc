/** In which orders blocks may come off the scan list (drm_mm.c:466-528). */
module MmOrder {
  import opened MmState
  import opened MmAlloc
  import opened MmScan
  import opened MmRuns
  import opened MmEvict

  // --- What a block has absorbed ---

  /** The neighbours `x` absorbed, and that its removal links in again. */
  ghost function Saved(s: State, x: Node): set<Node>
    requires x in s.info
  {
    (if s.info[x].savedPrev == null then {} else {s.info[x].savedPrev})
    + if s.info[x].savedNext == null then {} else {s.info[x].savedNext}
  }

  /** The block is on the scan list, and what it absorbed is on no list. */
  ghost predicate Holds(s: State, x: Node) {
    && SavedKnown(s, x) && Flagged(s, x) && x !in Saved(s, x)
    && (s.info[x].savedPrev != null ==> s.info[x].savedPrev != s.info[x].savedNext)
    && (forall m :: m in Saved(s, x) ==> m !in s.order)
  }

  /** The blocks on the scan list have absorbed distinct nodes. */
  ghost predicate Apart(s: State, bs: set<Node>) {
    && NoDup(s.order)
    && (forall x :: x in bs ==> Holds(s, x))
    && (forall x, y :: x in bs && y in bs && x != y ==> Saved(s, x) !! Saved(s, y))
  }

  lemma AddHolds(s: State, i: nat)
    requires ScanShape(s) && i < |s.order| && !s.info[s.order[i]].free
    ensures Holds(AddAt(s, i).0, s.order[i])
    ensures forall m :: m in Saved(AddAt(s, i).0, s.order[i]) ==> m in s.order
  {
    var t := AddAt(s, i).0;
    AddedInfo(s, i);
    forall m | m in Saved(t, s.order[i]) ensures m in s.order && m !in t.order {
      AddMembers(s, i, m);
    }
  }

  lemma AddedInfo(s: State, i: nat)
    requires Known(s) && NoDup(s.order) && i < |s.order|
    ensures var t, n, p, q := AddAt(s, i).0, s.order[i], Neighbour(s, i - 1), Neighbour(s, i + 1);
      && SavedKnown(t, n) && Flagged(t, n)
      && t.info[n].savedPrev == p && t.info[n].savedNext == q
      && (p != null ==> p == s.order[i - 1] && p != q && p != n) && (q != null ==> q == s.order[i + 1] && q != n)
  {
  }

  /** What a node absorbed, and whether it is on the scan list, is unchanged; flags set stay set. */
  predicate Same(c: Info, d: Info) {
    && d.savedPrev == c.savedPrev && d.savedNext == c.savedNext && d.block == c.block
    && (c.prevFree ==> d.prevFree) && (c.nextFree ==> d.nextFree)
  }

  lemma AddKeepsSaved(s: State, i: nat, x: Node)
    requires Known(s) && i < |s.order| && x in s.info && x != s.order[i]
    ensures x in AddInfo(s, i) && Same(s.info[x], AddInfo(s, i)[x])
  {
  }

  lemma StillHolds(s: State, t: State, x: Node)
    requires Holds(s, x) && x in t.info && Same(s.info[x], t.info[x])
    requires forall m :: m in Saved(s, x) ==> m in t.info && Same(s.info[m], t.info[m]) && m !in t.order
    ensures Holds(t, x) && Saved(t, x) == Saved(s, x)
  {
  }

  lemma AddStillHolds(s: State, i: nat, x: Node)
    requires ScanShape(s) && i < |s.order| && Holds(s, x) && x != s.order[i]
    ensures Holds(AddAt(s, i).0, x) && Saved(AddAt(s, i).0, x) == Saved(s, x)
  {
    assert s.order[i] in s.order;
    AddKeepsSaved(s, i, x);
    forall m | m in Saved(s, x)
      ensures m in AddInfo(s, i) && Same(s.info[m], AddInfo(s, i)[m]) && m !in AddAt(s, i).0.order
    {
      AddKeepsSaved(s, i, m);
      AddMembers(s, i, m);
    }
    StillHolds(s, AddAt(s, i).0, x);
  }

  lemma AddApart(s: State, i: nat, bs: set<Node>)
    requires ScanShape(s) && i < |s.order| && !s.info[s.order[i]].free && Apart(s, bs) && s.order[i] !in bs
    ensures Apart(AddAt(s, i).0, bs + {s.order[i]})
  {
    AddHolds(s, i);
    AddMembers(s, i, s.order[i]);
    forall x | x in bs ensures Holds(AddAt(s, i).0, x) && Saved(AddAt(s, i).0, x) == Saved(s, x) {
      AddStillHolds(s, i, x);
    }
  }

  function Set(ns: seq<Node>): set<Node> { set n | n in ns }

  /** After any additions. */
  lemma AddAllApart(s: State, ns: seq<Node>)
    requires ScanShape(s) && Allocated(s, ns)
    ensures Apart(AddAll(s, ns), Set(ns))
    decreases |ns|
  {
    if ns == [] {
      assert Set(ns) == {};
    } else {
      var k := |ns| - 1;
      var n, pre := ns[k], ns[..k];
      AllocatedPrefix(s, ns, k);
      AddAllApart(s, pre);
      AddApartSnoc(AddAll(s, pre), pre, n);
      assert ns == pre + [n];
      AddAllLast(s, ns, k);
    }
  }

  lemma AddApartSnoc(t: State, pre: seq<Node>, n: Node)
    requires ScanShape(t) && n in t.order && !t.info[n].free && n !in pre && Apart(t, Set(pre))
    ensures Apart(AddAt(t, Pos(t.order, n)).0, Set(pre + [n]))
  {
    AddApart(t, Pos(t.order, n), Set(pre));
    assert Set(pre + [n]) == Set(pre) + {n};
  }

  // --- Taking one block off ---

  /** A node with other nodes linked in on both sides. */
  function Relink(xs: seq<Node>, n: Node, p: seq<Node>, q: seq<Node>): seq<Node> {
    if n in xs then var i := Pos(xs, n); xs[..i] + p + [n] + q + xs[i + 1..] else xs
  }

  lemma RelinkNothing(xs: seq<Node>, n: Node)
    ensures Relink(xs, n, [], []) == xs
  {
  }

  lemma RemoveParts(s: State, n: Node)
    requires Removable(s, n)
    ensures var c := s.info[n];
      Remove(s, n).0 == s.(order := Relink(s.order, n, Optional(c.savedPrev), Optional(c.savedNext)),
                           info := RemoveInfo(s, n), scanned := s.scanned - 1)
  {
  }

  /** Removal clears one flag of each node it links in. */
  function Freed(c: Info, prev: bool, next: bool): Info {
    c.(prevFree := c.prevFree && !prev, nextFree := c.nextFree && !next)
  }

  /** The block as it was before it was added, but for the flags others put on it. */
  ghost function Restored(s: State, n: Node): Info
    requires SavedKnown(s, n)
  {
    var c := s.info[n];
    var p, q := c.savedPrev, c.savedNext;
    c.(start := if p != null then s.info[p].start + s.info[p].size else c.start,
       size := c.size - (if p != null then s.info[p].size else 0) - (if q != null then s.info[q].size else 0),
       free := false, block := false, savedPrev := null, savedNext := null)
  }

  lemma RemovedInfo(s: State, n: Node, m: Node)
    requires Holds(s, n) && m in s.info
    ensures m in RemoveInfo(s, n) && RemoveInfo(s, n)[m] ==
      if m == n then Restored(s, n) else Freed(s.info[m], m == s.info[n].savedPrev, m == s.info[n].savedNext)
  {
  }

  /** If one of two blocks has absorbed the other, that one has absorbed nothing. */
  ghost predicate Separate(s: State, n: Node, x: Node)
    requires n in s.info && x in s.info
  {
    n != x && Saved(s, n) !! Saved(s, x) && (n in Saved(s, x) ==> Bare(s.info[n])) && (x in Saved(s, n) ==> Bare(s.info[x]))
  }

  lemma RestoredAfter(s: State, n: Node, x: Node, u: State)
    requires Holds(s, n) && Holds(s, x) && Separate(s, n, x) && u.info == RemoveInfo(s, x)
    ensures SavedKnown(u, n)
    ensures Restored(u, n) == Freed(Restored(s, n), n == s.info[x].savedPrev, n == s.info[x].savedNext)
  {
    RemovedInfo(s, x, n);
    var p, q := s.info[n].savedPrev, s.info[n].savedNext;
    if p != null { RemovedInfo(s, x, p); }
    if q != null { RemovedInfo(s, x, q); }
  }

  /** What a block absorbed stays absorbed when another one is taken off. */
  lemma RemoveKeepsHeld(s: State, n: Node, x: Node, u: State)
    requires Holds(s, n) && Holds(s, x) && n != x && Saved(s, n) !! Saved(s, x) && u.info == RemoveInfo(s, x)
    requires forall m :: m in u.order ==> m in s.order || m in Saved(s, x)
    ensures Holds(u, n) && Saved(u, n) == Saved(s, n) && Bare(u.info[n]) == Bare(s.info[n])
  {
    RemovedInfo(s, x, n);
    forall m | m in Saved(s, n) ensures m in u.info && u.info[m].prevFree == (s.info[m].prevFree) {
      RemovedInfo(s, x, m);
    }
  }

  lemma InfoCommutes(s: State, n: Node, x: Node, t: State, u: State)
    requires Holds(s, n) && Holds(s, x) && Separate(s, n, x) && t.info == RemoveInfo(s, n) && u.info == RemoveInfo(s, x)
    requires Holds(t, x) && Holds(u, n) && Saved(t, x) == Saved(s, x) && Saved(u, n) == Saved(s, n)
    ensures RemoveInfo(t, x) == RemoveInfo(u, n)
  {
    assert RemoveInfo(t, x).Keys == s.info.Keys == RemoveInfo(u, n).Keys;
    forall m | m in s.info ensures RemoveInfo(t, x)[m] == RemoveInfo(u, n)[m] {
      CommutesAt(s, n, x, t, u, m);
    }
  }

  lemma CommutesAt(s: State, n: Node, x: Node, t: State, u: State, m: Node)
    requires Holds(s, n) && Holds(s, x) && Separate(s, n, x) && t.info == RemoveInfo(s, n) && u.info == RemoveInfo(s, x)
    requires Holds(t, x) && Holds(u, n) && m in s.info
    ensures m in t.info && m in u.info && RemoveInfo(t, x)[m] == RemoveInfo(u, n)[m]
  {
    RemovedInfo(s, n, m);
    RemovedInfo(s, x, m);
    RemovedInfo(t, x, m);
    RemovedInfo(u, n, m);
    RemovedInfo(s, n, x);
    RemovedInfo(s, x, n);
    RestoredAfter(s, n, x, u);
    RestoredAfter(s, x, n, t);
  }

  lemma RelinkSplit(xs: seq<Node>, a: seq<Node>, n: Node, b: seq<Node>, p: seq<Node>, q: seq<Node>)
    requires n !in a && xs == a + [n] + b
    ensures Relink(xs, n, p, q) == a + (p + [n] + q) + b
  {
    assert xs[|a|] == n;
    var i := Pos(xs, n);
    assert i >= |a| by { assert forall k :: 0 <= k < |a| ==> xs[k] == a[k]; }
    assert i <= |a| by { assert forall k :: 0 <= k < i ==> xs[..i][k] == xs[k]; }
    assert xs[..i] == a && xs[i + 1..] == b;
  }

  lemma RelinkFirst(a: seq<Node>, n: Node, b: seq<Node>, x: Node, c: seq<Node>,
                    p: seq<Node>, q: seq<Node>, v: seq<Node>, w: seq<Node>)
    requires n != x && n !in a && x !in a && x !in b && x !in p && x !in q
    ensures Relink(Relink(a + [n] + b + [x] + c, n, p, q), x, v, w) == a + (p + [n] + q) + b + (v + [x] + w) + c
  {
    var xs, m := a + [n] + b + [x] + c, p + [n] + q;
    assert xs == a + [n] + (b + [x] + c);
    RelinkSplit(xs, a, n, b + [x] + c, p, q);
    var ys := a + m + (b + [x] + c);
    assert ys == (a + m + b) + [x] + c;
    RelinkSplit(ys, a + m + b, x, c, v, w);
  }

  lemma RelinkSecond(a: seq<Node>, n: Node, b: seq<Node>, x: Node, c: seq<Node>,
                     p: seq<Node>, q: seq<Node>, v: seq<Node>, w: seq<Node>)
    requires n != x && n !in a && x !in a && x !in b
    ensures Relink(Relink(a + [n] + b + [x] + c, x, v, w), n, p, q) == a + (p + [n] + q) + b + (v + [x] + w) + c
  {
    var xs, m, k := a + [n] + b + [x] + c, p + [n] + q, v + [x] + w;
    RelinkSplit(xs, a + [n] + b, x, c, v, w);
    var ys := a + [n] + b + k + c;
    assert ys == a + [n] + (b + k + c);
    RelinkSplit(ys, a, n, b + k + c, p, q);
    assert a + m + (b + k + c) == a + m + b + k + c;
  }

  /** Two nodes get their neighbours back in either order. */
  lemma OrderCommutes(xs: seq<Node>, n: Node, x: Node, p: seq<Node>, q: seq<Node>, v: seq<Node>, w: seq<Node>)
    requires NoDup(xs) && n in xs && x in xs && n != x && x !in p && x !in q && n !in v && n !in w
    ensures Relink(Relink(xs, n, p, q), x, v, w) == Relink(Relink(xs, x, v, w), n, p, q)
  {
    var i, j := Pos(xs, n), Pos(xs, x);
    if i < j {
      assert xs == xs[..i] + [n] + xs[i + 1..j] + [x] + xs[j + 1..];
      RelinkFirst(xs[..i], n, xs[i + 1..j], x, xs[j + 1..], p, q, v, w);
      RelinkSecond(xs[..i], n, xs[i + 1..j], x, xs[j + 1..], p, q, v, w);
    } else {
      assert xs == xs[..j] + [x] + xs[j + 1..i] + [n] + xs[i + 1..];
      RelinkFirst(xs[..j], x, xs[j + 1..i], n, xs[i + 1..], v, w, p, q);
      RelinkSecond(xs[..j], x, xs[j + 1..i], n, xs[i + 1..], v, w, p, q);
    }
  }

  /** What is on the list after a removal. */
  lemma RemoveMembers(s: State, n: Node, m: Node)
    requires Removable(s, n)
    ensures m in Remove(s, n).0.order <==> m in s.order || (n in s.order && m in Saved(s, n))
  {
    if n in s.order {
      var i := Pos(s.order, n);
      assert s.order == s.order[..i] + [n] + s.order[i + 1..];
    }
  }

  /** Two blocks come off in either order, if both can come off now. */
  lemma RemovesCommute(s: State, n: Node, x: Node, t: State, u: State)
    requires NoDup(s.order) && Holds(s, n) && Holds(s, x) && n != x && Saved(s, n) !! Saved(s, x)
    requires Removable(s, n) && Removable(s, x) && t == Remove(s, n).0 && u == Remove(s, x).0
    ensures Removable(t, x) && Removable(u, n) && Remove(t, x).0 == Remove(u, n).0
  {
    assert Separate(s, n, x);
    RemoveParts(s, n);
    RemoveParts(s, x);
    StillRemovable(s, n, x, t);
    StillRemovable(s, x, n, u);
    RemoveParts(t, x);
    RemoveParts(u, n);
    InfoCommutes(s, n, x, t, u);
    OrdersCommute(s, n, x, t, u);
  }

  lemma StillRemovable(s: State, x: Node, n: Node, u: State)
    requires Holds(s, n) && Holds(s, x) && n != x && Saved(s, n) !! Saved(s, x)
    requires Removable(s, x) && u == Remove(s, x).0
    ensures Holds(u, n) && Saved(u, n) == Saved(s, n) && Bare(u.info[n]) == Bare(s.info[n])
    ensures u.info[n].savedPrev == s.info[n].savedPrev && u.info[n].savedNext == s.info[n].savedNext
    ensures Removable(s, n) ==> Removable(u, n)
  {
    forall m | m in u.order ensures m in s.order || m in Saved(s, x) { RemoveMembers(s, x, m); }
    RemoveKeepsHeld(s, n, x, u);
    RemovedInfo(s, x, n);
    RemoveMembers(s, x, n);
  }

  lemma OrdersCommute(s: State, n: Node, x: Node, t: State, u: State)
    requires NoDup(s.order) && Holds(s, n) && Holds(s, x) && Separate(s, n, x)
    requires Removable(s, n) && Removable(s, x)
    requires var c := s.info[n]; t.order == Relink(s.order, n, Optional(c.savedPrev), Optional(c.savedNext))
    requires var d := s.info[x]; u.order == Relink(s.order, x, Optional(d.savedPrev), Optional(d.savedNext))
    ensures var c, d := s.info[n], s.info[x];
      Relink(t.order, x, Optional(d.savedPrev), Optional(d.savedNext)) == Relink(u.order, n, Optional(c.savedPrev), Optional(c.savedNext))
  {
    var c, d := s.info[n], s.info[x];
    if Bare(c) {
      RelinkNothing(s.order, n);
      RelinkNothing(u.order, n);
    } else if Bare(d) {
      RelinkNothing(s.order, x);
      RelinkNothing(t.order, x);
    } else {
      OrderCommutes(s.order, n, x, Optional(c.savedPrev), Optional(c.savedNext), Optional(d.savedPrev), Optional(d.savedNext));
    }
  }

  lemma RemoveApart(s: State, n: Node, bs: set<Node>)
    requires Apart(s, bs) && n in bs && Removable(s, n)
    ensures Apart(Remove(s, n).0, bs - {n})
    ensures forall x :: x in bs && x != n ==> Saved(Remove(s, n).0, x) == Saved(s, x)
  {
    var t := Remove(s, n).0;
    forall x | x in bs && x != n ensures Holds(t, x) && Saved(t, x) == Saved(s, x) {
      StillRemovable(s, n, x, t);
    }
    RemoveNoDup(s, n);
  }

  lemma RemoveNoDup(s: State, n: Node)
    requires NoDup(s.order) && Holds(s, n) && Removable(s, n)
    ensures NoDup(Remove(s, n).0.order)
  {
    if n in s.order {
      var i := Pos(s.order, n);
      var p, q := Optional(s.info[n].savedPrev), Optional(s.info[n].savedNext);
      assert forall m :: m in p + q ==> m in Saved(s, n);
      NoDupJoin(s.order, i, p, q);
    }
  }

  lemma NoDupJoin(xs: seq<Node>, i: nat, p: seq<Node>, q: seq<Node>)
    requires NoDup(xs) && i < |xs| && NoDup(p + q) && forall m :: m in p + q ==> m !in xs
    ensures NoDup(xs[..i] + p + [xs[i]] + q + xs[i + 1..])
  {
    var a, m, b := xs[..i], [xs[i]], xs[i + 1..];
    forall k | 0 <= k < |p| ensures p[k] !in xs && p[k] !in q {
      assert p[k] == (p + q)[k];
      forall l | 0 <= l < |q| ensures p[k] != q[l] { assert q[l] == (p + q)[|p| + l]; }
    }
    forall k | 0 <= k < |q| ensures q[k] !in xs { assert q[k] == (p + q)[|p| + k]; }
    assert NoDup(p) by { assert forall k :: 0 <= k < |p| ==> p[k] == (p + q)[k]; }
    assert NoDup(q) by { assert forall k :: 0 <= k < |q| ==> q[k] == (p + q)[|p| + k]; }
    NoDupConcat(a, p);
    NoDupConcat(a + p, m);
    NoDupConcat(a + p + m, q);
    NoDupConcat(a + p + m + q, b);
  }

  lemma NoDupConcat(a: seq<Node>, b: seq<Node>)
    requires NoDup(a) && NoDup(b) && forall n :: n in a ==> n !in b
    ensures NoDup(a + b)
  {
    forall i, j | 0 <= i < j < |a + b| ensures (a + b)[i] != (a + b)[j] {
      if i < |a| <= j { assert a[i] in a && b[j - |a|] in b; }
    }
  }

  // --- Any order ---

  /** Block `a` absorbed `b`, which had absorbed a neighbour itself. */
  ghost predicate Covers(t: State, a: Node, b: Node) {
    a in t.info && b in Saved(t, a) && b in t.info && !Bare(t.info[b])
  }

  /** Taking `xs` off from its end comes to a block that covers another one
      before it comes to that one. */
  ghost predicate OrderOk(t: State, xs: seq<Node>) {
    forall i, j :: 0 <= i < |xs| && 0 <= j < |xs| && Covers(t, xs[i], xs[j]) ==> j < i
  }

  /** Each of `xs`, from the end, can be taken off without touching the links of a node that is on no list. */
  ghost predicate ComesOff(t: State, xs: seq<Node>)
    decreases |xs|
  {
    xs == [] || (Removable(t, xs[|xs| - 1]) && ComesOff(Remove(t, xs[|xs| - 1]).0, xs[..|xs| - 1]))
  }

  lemma {:induction false} UnwindsComesOff(t: State, xs: seq<Node>, u: State, evict: set<Node>)
    requires Unwinds(t, xs, u, evict)
    ensures ComesOff(t, xs)
    decreases |xs|
  {
    if xs != [] {
      var k := |xs| - 1;
      UnwindsComesOff(Remove(t, xs[k]).0, xs[..k], u, evict - {xs[k]});
    }
  }

  /** Any other order fails. */
  lemma {:induction false} OrderNeeded(t: State, xs: seq<Node>)
    requires NoDup(xs) && Apart(t, Set(xs)) && ComesOff(t, xs)
    ensures OrderOk(t, xs)
    decreases |xs|
  {
    if xs != [] {
      var k := |xs| - 1;
      var x, ys := xs[k], xs[..k];
      var t' := Remove(t, x).0;
      RemoveApart(t, x, Set(xs));
      assert Set(ys) == Set(xs) - {x};
      OrderNeeded(t', ys);
      forall i, j | 0 <= i < |xs| && 0 <= j < |xs| && Covers(t, xs[i], xs[j]) ensures j < i {
        assert xs[i] in Set(xs) && xs[j] in Set(xs) && x in Set(xs);
        if i < k && j < k {
          assert ys[i] == xs[i] && ys[j] == xs[j];
          StillRemovable(t, x, xs[j], t');
        }
      }
    }
  }

  /** What Unwinds says of the last two. */
  lemma UnwindTwo(t: State, xs: seq<Node>, z: Node, n: Node, u: State, evict: set<Node>)
    requires Unwinds(t, xs + [z] + [n], u, evict)
    ensures Removable(t, n) && Remove(t, n).1 == (n in evict)
    ensures Removable(Remove(t, n).0, z) && Remove(Remove(t, n).0, z).1 == (z in evict - {n})
    ensures Unwinds(Remove(Remove(t, n).0, z).0, xs, u, evict - {n} - {z})
  {
    var all := xs + [z] + [n];
    assert all[..|all| - 1] == xs + [z] && (xs + [z])[..|xs|] == xs;
  }

  /** `z` before `n` instead. */
  lemma PullOne(t: State, xs: seq<Node>, z: Node, n: Node, u: State, evict: set<Node>, bs: set<Node>)
    requires Apart(t, bs) && n in bs && z in bs && n != z && (z in Saved(t, n) ==> Bare(t.info[z]))
    requires Unwinds(t, xs + [z] + [n], u, evict)
    ensures Removable(t, z) && Remove(t, z).1 == (z in evict) && Unwinds(Remove(t, z).0, xs + [n], u, evict - {z})
  {
    UnwindTwo(t, xs, z, n, u, evict);
    var t1 := Remove(t, n).0;
    StillRemovable(t, n, z, t1);
    RemoveMembers(t, n, z);
    var t2 := Remove(t, z).0;
    RemovesCommute(t, n, z, t1, t2);
    SameVerdict(t, n, z, t1, t2);
    SameVerdict(t, z, n, t2, t1);
    assert evict - {n} - {z} == evict - {z} - {n};
    UnwindSnoc(t2, xs, n, Remove(t2, n).0, u, evict - {z});
  }

  lemma VerdictIs(s: State, n: Node)
    requires Removable(s, n)
    ensures Remove(s, n).1 == InHit(Remove(s, n).0, n)
  {
  }

  lemma HitKeptBy(t: State, x: Node, n: Node)
    requires Holds(t, x) && Removable(t, x) && n != x && n in t.info
    ensures InHit(Remove(t, x).0, n) == InHit(t, n)
  {
    RemovedInfo(t, x, n);
    RemoveParts(t, x);
  }

  /** Whether a block is to be evicted does not depend on the order. */
  lemma SameVerdict(s: State, n: Node, x: Node, t: State, u: State)
    requires Holds(s, n) && Holds(s, x) && n != x && Saved(s, n) !! Saved(s, x)
    requires Removable(s, n) && Removable(s, x) && t == Remove(s, n).0 && u == Remove(s, x).0
    requires Removable(u, n) && Removable(t, x) && Remove(t, x).0 == Remove(u, n).0
    ensures Remove(u, n).1 == Remove(s, n).1
  {
    StillRemovable(s, n, x, t);
    VerdictIs(s, n);
    VerdictIs(u, n);
    HitKeptBy(t, x, n);
  }

  /** `n` covers none of `zs`. */
  ghost predicate CoversNone(t: State, n: Node, zs: seq<Node>, bs: set<Node>) {
    && Apart(t, bs) && n in bs
    && (forall z :: z in zs ==> z in bs && z != n && (z in Saved(t, n) ==> Bare(t.info[z])))
  }

  /** If `n`, taken off first, works, so does taking off `zs` before it. */
  lemma {:induction false} Pull(t: State, ys: seq<Node>, n: Node, zs: seq<Node>, u: State, evict: set<Node>, bs: set<Node>)
    requires CoversNone(t, n, zs, bs) && NoDup(zs)
    requires Unwinds(t, ys + zs + [n], u, evict)
    ensures Unwinds(t, ys + [n] + zs, u, evict)
    decreases |zs|
  {
    if zs == [] {
      assert ys + zs + [n] == ys + [n] + zs;
    } else {
      var zs', z := SplitLast(ys, n, zs);
      PullStep(t, ys, zs', z, n, u, evict, bs);
      Pull(Remove(t, z).0, ys, n, zs', u, evict - {z}, bs - {z});
      UnwindSnoc(t, ys + [n] + zs', z, Remove(t, z).0, u, evict);
    }
  }

  lemma SplitLast(ys: seq<Node>, n: Node, zs: seq<Node>) returns (zs': seq<Node>, z: Node)
    requires zs != [] && NoDup(zs)
    ensures zs == zs' + [z] && z !in zs' && NoDup(zs')
    ensures ys + zs + [n] == ys + zs' + [z] + [n] && ys + [n] + zs == ys + [n] + zs' + [z]
  {
    zs', z := zs[..|zs| - 1], zs[|zs| - 1];
  }

  lemma PullStep(t: State, ys: seq<Node>, zs: seq<Node>, z: Node, n: Node, u: State, evict: set<Node>, bs: set<Node>)
    requires CoversNone(t, n, zs + [z], bs) && z !in zs
    requires Unwinds(t, ys + zs + [z] + [n], u, evict)
    ensures Removable(t, z) && Remove(t, z) == (Remove(t, z).0, z in evict)
    ensures CoversNone(Remove(t, z).0, n, zs, bs - {z})
    ensures Unwinds(Remove(t, z).0, ys + zs + [n], u, evict - {z})
  {
    assert z in zs + [z];
    PullOne(t, ys + zs, z, n, u, evict, bs);
    PullFrame(t, z, n, zs, Remove(t, z).0, bs);
  }

  lemma PullFrame(t: State, z: Node, n: Node, zs: seq<Node>, t': State, bs: set<Node>)
    requires CoversNone(t, n, zs, bs) && z in bs && z != n && z !in zs && Removable(t, z) && t' == Remove(t, z).0
    ensures CoversNone(t', n, zs, bs - {z})
  {
    RemoveApart(t, z, bs);
    forall x | x in zs && x in Saved(t', n) ensures Bare(t'.info[x]) {
      StillRemovable(t, z, x, t');
    }
  }

  /** The same blocks, once each, in some order. */
  ghost predicate Reorders(xs: seq<Node>, ns: seq<Node>) {
    NoDup(xs) && Set(xs) == Set(ns)
  }

  lemma OrderWithout(t: State, t0: State, ys: seq<Node>, n: Node, zs: seq<Node>)
    requires NoDup(ys + [n] + zs) && Apart(t, Set(ys + [n] + zs)) && OrderOk(t, ys + [n] + zs)
    requires Removable(t, n) && t0 == Remove(t, n).0
    ensures OrderOk(t0, ys + zs)
    ensures forall z :: z in zs && z in Saved(t, n) ==> Bare(t.info[z])
  {
    var xs, rest := ys + [n] + zs, ys + zs;
    assert xs[|ys|] == n;
    forall i, j | 0 <= i < |rest| && 0 <= j < |rest| && Covers(t0, rest[i], rest[j]) ensures j < i {
      var i', j' := if i < |ys| then i else i + 1, if j < |ys| then j else j + 1;
      assert xs[i'] == rest[i] && xs[j'] == rest[j] && xs[i'] != n && xs[j'] != n;
      assert xs[i'] in Set(xs) && xs[j'] in Set(xs);
      StillRemovable(t, n, rest[i], t0);
      StillRemovable(t, n, rest[j], t0);
    }
    forall z | z in zs && z in Saved(t, n) ensures Bare(t.info[z]) {
      var k :| 0 <= k < |zs| && zs[k] == z;
      assert xs[|ys| + 1 + k] == z && z in Set(xs);
    }
  }

  /** Taking off the block added last. */
  lemma LastOff(s: State, ns: seq<Node>, pre: seq<Node>, n: Node, start: int, size: int)
    requires ScanShape(s) && Allocated(s, ns) && ns == pre + [n] && Allocated(s, pre)
    ensures var t := WithHit(AddAll(s, ns), start, size);
      Removable(t, n) && Remove(t, n).0 == WithHit(AddAll(s, pre), start, size)
  {
    assert ns[..|pre|] == pre;
    AllocatedPrefix(s, ns, |pre|);
    AddAllLast(s, ns, |pre|);
    UndoLast(AddAll(s, pre), n, start, size);
  }

  lemma ApartAnyHit(s: State, ns: seq<Node>, start: int, size: int)
    requires ScanShape(s) && Allocated(s, ns)
    ensures Apart(WithHit(AddAll(s, ns), start, size), Set(ns))
  {
    AddAllApart(s, ns);
    ApartHit(AddAll(s, ns), Set(ns), start, size);
  }

  lemma ApartHit(t: State, bs: set<Node>, start: int, size: int)
    requires Apart(t, bs)
    ensures Apart(WithHit(t, start, size), bs)
  {
    forall x | x in bs ensures Holds(WithHit(t, start, size), x) { StillHolds(t, WithHit(t, start, size), x); }
  }

  /** Taking `xs` off undoes the additions. */
  ghost predicate Undone(s: State, ns: seq<Node>, xs: seq<Node>, start: int, size: int)
    requires ScanShape(s) && Allocated(s, ns)
  {
    Unwinds(WithHit(AddAll(s, ns), start, size), xs, WithHit(s, start, size), Inside(s, xs, start, size))
  }

  lemma {:induction false} OrderWorks(s: State, ns: seq<Node>, xs: seq<Node>, start: int, size: int)
    requires ScanShape(s) && Allocated(s, ns) && Reorders(xs, ns)
    requires OrderOk(WithHit(AddAll(s, ns), start, size), xs)
    ensures Undone(s, ns, xs, start, size)
    decreases |ns|
  {
    if ns == [] {
      SetEmpty(xs);
    } else {
      var pre, n := AllocatedSnoc(s, ns);
      var ys, zs := Around(xs, ns, n);
      OrderRest(s, pre, ys, n, zs, start, size);
      OrderWorks(s, pre, ys + zs, start, size);
      OrderJoin(s, pre, ys, n, zs, start, size);
    }
  }

  lemma AllocatedSnoc(s: State, ns: seq<Node>) returns (pre: seq<Node>, n: Node)
    requires Allocated(s, ns) && ns != []
    ensures ns == pre + [n] && Allocated(s, pre)
  {
    pre, n := ns[..|ns| - 1], ns[|ns| - 1];
    AllocatedPrefix(s, ns, |pre|);
  }

  lemma SetEmpty(xs: seq<Node>)
    requires Set(xs) == Set([])
    ensures xs == []
  {
    if xs != [] {
      SetFirst(xs);
      assert false;
    }
  }

  lemma SetFirst(xs: seq<Node>)
    requires xs != []
    ensures Set(xs) != Set([])
  {
    assert xs[0] in Set(xs);
  }

  lemma Around(xs: seq<Node>, ns: seq<Node>, n: Node) returns (ys: seq<Node>, zs: seq<Node>)
    requires n in ns && Set(xs) == Set(ns)
    ensures xs == ys + [n] + zs
  {
    assert n in Set(xs);
    var j := Pos(xs, n);
    ys, zs := xs[..j], xs[j + 1..];
  }

  /** The rest of the order is right for the blocks added before. */
  lemma OrderRest(s: State, pre: seq<Node>, ys: seq<Node>, n: Node, zs: seq<Node>, start: int, size: int)
    requires ScanShape(s) && Allocated(s, pre + [n]) && Allocated(s, pre) && Reorders(ys + [n] + zs, pre + [n])
    requires OrderOk(WithHit(AddAll(s, pre + [n]), start, size), ys + [n] + zs)
    ensures Reorders(ys + zs, pre) && OrderOk(WithHit(AddAll(s, pre), start, size), ys + zs)
  {
    LastOff(s, pre + [n], pre, n, start, size);
    ApartAnyHit(s, pre + [n], start, size);
    OrderWithout(WithHit(AddAll(s, pre + [n]), start, size), WithHit(AddAll(s, pre), start, size), ys, n, zs);
    DropOne(ys, n, zs);
    DropOne(pre, n, []);
    assert pre + [n] + [] == pre + [n] && pre + [] == pre;
  }

  lemma OrderJoin(s: State, pre: seq<Node>, ys: seq<Node>, n: Node, zs: seq<Node>, start: int, size: int)
    requires ScanShape(s) && Allocated(s, pre + [n]) && Allocated(s, pre) && Reorders(ys + [n] + zs, pre + [n])
    requires OrderOk(WithHit(AddAll(s, pre + [n]), start, size), ys + [n] + zs)
    requires Undone(s, pre, ys + zs, start, size)
    ensures Undone(s, pre + [n], ys + [n] + zs, start, size)
  {
    LastOff(s, pre + [n], pre, n, start, size);
    ApartAnyHit(s, pre + [n], start, size);
    DropOne(ys, n, zs);
    UndoAnyLast(s, pre, ys + zs, n, start, size);
    PullIn(WithHit(AddAll(s, pre + [n]), start, size), s, ys, n, zs, start, size);
  }

  lemma PullIn(t: State, s: State, ys: seq<Node>, n: Node, zs: seq<Node>, start: int, size: int)
    requires NoDup(ys + [n] + zs) && Apart(t, Set(ys + [n] + zs)) && OrderOk(t, ys + [n] + zs) && Removable(t, n)
    requires Unwinds(t, ys + zs + [n], WithHit(s, start, size), Inside(s, ys + zs + [n], start, size))
    ensures Unwinds(t, ys + [n] + zs, WithHit(s, start, size), Inside(s, ys + [n] + zs, start, size))
  {
    DropOne(ys, n, zs);
    OrderWithout(t, Remove(t, n).0, ys, n, zs);
    assert n in Set(ys + [n] + zs);
    assert Set(ys + zs + [n]) == Set(ys + [n] + zs);
    InsideSame(s, ys + zs + [n], ys + [n] + zs, start, size);
    Pull(t, ys, n, zs, WithHit(s, start, size), Inside(s, ys + [n] + zs, start, size), Set(ys + [n] + zs));
  }

  lemma UndoAnyLast(s: State, pre: seq<Node>, rest: seq<Node>, n: Node, start: int, size: int)
    requires ScanShape(s) && Allocated(s, pre + [n]) && Allocated(s, pre) && n !in rest
    requires Unwinds(WithHit(AddAll(s, pre), start, size), rest, WithHit(s, start, size), Inside(s, rest, start, size))
    ensures Unwinds(WithHit(AddAll(s, pre + [n]), start, size), rest + [n], WithHit(s, start, size),
                    Inside(s, rest + [n], start, size))
  {
    assert (pre + [n])[..|pre|] == pre;
    AllocatedPrefix(s, pre + [n], |pre|);
    AddAllLast(s, pre + [n], |pre|);
    UndoSnoc(s, rest, n, start, size, AddAll(s, pre));
  }

  lemma DropOne(ys: seq<Node>, n: Node, zs: seq<Node>)
    requires NoDup(ys + [n] + zs)
    ensures NoDup(ys + zs) && NoDup(zs) && n !in ys && n !in zs
    ensures Set(ys + zs) == Set(ys + [n] + zs) - {n}
    ensures forall z :: z in zs ==> z in Set(ys + [n] + zs)
  {
    var xs, rest := ys + [n] + zs, ys + zs;
    assert xs[|ys|] == n;
    forall k | 0 <= k < |ys| ensures ys[k] != n { assert xs[k] == ys[k]; }
    forall k | 0 <= k < |zs| ensures zs[k] != n { assert xs[|ys| + 1 + k] == zs[k]; }
    forall i, j | 0 <= i < j < |rest| ensures rest[i] != rest[j] {
      assert rest[i] == xs[if i < |ys| then i else i + 1] && rest[j] == xs[if j < |ys| then j else j + 1];
    }
    forall i, j | 0 <= i < j < |zs| ensures zs[i] != zs[j] {
      assert zs[i] == rest[|ys| + i] && zs[j] == rest[|ys| + j];
    }
  }

  /** Removal order. With any hit on record, and in any order `xs`, the blocks
      added can be taken off the scan list if and only if each block that
      covers another one goes first; then the state before the scan is back,
      and removal has returned 1 exactly for the blocks inside the hit. */
  lemma AnyOrder(s: State, ns: seq<Node>, xs: seq<Node>, start: int, size: int, t: State)
    requires ScanShape(s) && Allocated(s, ns) && Reorders(xs, ns) && t == WithHit(AddAll(s, ns), start, size)
    ensures ComesOff(t, xs) <==> OrderOk(t, xs)
    ensures ComesOff(t, xs) ==> Unwinds(t, xs, WithHit(s, start, size), Inside(s, ns, start, size))
  {
    ApartAnyHit(s, ns, start, size);
    InsideSame(s, xs, ns, start, size);
    if ComesOff(t, xs) {
      OrderNeeded(t, xs);
    }
    if OrderOk(t, xs) {
      OrderWorks(s, ns, xs, start, size);
      UnwindsComesOff(t, xs, WithHit(s, start, size), Inside(s, xs, start, size));
    }
  }

  lemma InsideSame(s: State, xs: seq<Node>, ns: seq<Node>, start: int, size: int)
    requires Set(xs) == Set(ns)
    ensures Inside(s, xs, start, size) == Inside(s, ns, start, size)
  {
    forall n ensures n in xs <==> n in ns { assert n in Set(xs) <==> n in Set(ns); }
  }
}
