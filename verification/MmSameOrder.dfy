/** Removal from the scan list in the order of addition, which the comment at
    drm_mm.c:470-472 asks for: when it works, in terms of the list before the scan. */
module MmSameOrder {
  import opened MmState
  import opened MmAlloc
  import opened MmScan
  import opened MmCoarse
  import opened MmRuns
  import opened MmEvict
  import opened MmOrder

  // --- Which cells a listed node stands for ---

  /** Two cells in a row lie in cell `p` of the list now. */
  predicate Shared(own: seq<int>, p: int) {
    exists k, l :: 0 <= k && l == k + 1 < |own| && own[k] == p && own[l] == p
  }

  /** A node that is still listed stands where its own cell lies. */
  predicate Home(cs: seq<Cell>, own: seq<int>, t: State) {
    && |own| == |cs|
    && forall k :: 0 <= k < |cs| && cs[k].node in t.order ==> 0 <= own[k] < |t.order| && t.order[own[k]] == cs[k].node
  }

  /** A listed node has absorbed something if and only if it stands for several cells. */
  predicate Wide(own: seq<int>, t: State)
    requires Known(t)
  {
    forall p :: 0 <= p < |t.order| ==> (Shared(own, p) <==> !Bare(t.info[t.order[p]]))
  }

  /** Where the cells go when the block at `i` absorbs its free neighbours. */
  function Moved(a: int, b: int, o: int): int {
    if o < a then o else if o < b then a else o - (b - a - 1)
  }

  lemma ShiftIs(t: State, i: nat, o: int)
    requires Known(t) && i < |t.order|
    ensures Shift(Cells(t), i, o) == Moved(Left(t, i), Right(t, i), o)
  {
    Neighbourhood(t, i);
  }

  lemma HomeStep(cs: seq<Cell>, own: seq<int>, t: State, i: nat, own': seq<int>)
    requires Known(t) && NoDup(t.order) && Home(cs, own, t) && i < |t.order| && |own'| == |own|
    requires forall k :: 0 <= k < |own| ==> own'[k] == Moved(Left(t, i), Right(t, i), own[k])
    ensures Home(cs, own', AddAt(t, i).0)
  {
    var u, a, b := AddAt(t, i).0, Left(t, i), Right(t, i);
    CollapseMembers(t.order, a, i, b);
    forall k | 0 <= k < |cs| && cs[k].node in u.order
      ensures 0 <= own'[k] < |u.order| && u.order[own'[k]] == cs[k].node
    {
      assert t.order[own[k]] == cs[k].node;
      if a <= own[k] < b { assert t.order[a..b][own[k] - a] == cs[k].node; }
    }
  }

  /** The cells beside `k0` lie beside it still. */
  lemma Beside(cs: seq<Cell>, f: seq<bool>, own: seq<int>, ds: seq<Cell>, k0: nat)
    requires Coarse(cs, f, own, ds) && k0 < |cs| && !Gone(cs, f, k0)
    ensures own[k0] > 0 <==> k0 > 0
    ensures k0 > 0 ==> own[k0 - 1] == own[k0] - 1
    ensures own[k0] + 1 < |ds| <==> k0 + 1 < |cs|
    ensures k0 + 1 < |cs| ==> own[k0 + 1] == own[k0] + 1
  {
    if k0 > 0 { assert Step(cs, f, own, ds, k0 - 1, k0); }
    if k0 + 1 < |cs| { assert Step(cs, f, own, ds, k0, k0 + 1); }
  }

  lemma WideStep(cs: seq<Cell>, f: seq<bool>, own: seq<int>, t: State, k0: nat, i: nat, own': seq<int>, p: nat)
    requires Known(t) && NoDup(t.order) && Coarse(cs, f, own, Cells(t)) && Wide(own, t)
    requires k0 < |cs| && !Gone(cs, f, k0) && own[k0] == i && |own'| == |own|
    requires forall k :: 0 <= k < |own| ==> own'[k] == Moved(Left(t, i), Right(t, i), own[k])
    requires Known(AddAt(t, i).0) && p < |AddAt(t, i).0.order|
    ensures Shared(own', p) <==> !Bare(AddAt(t, i).0.info[AddAt(t, i).0.order[p]])
  {
    if p == Left(t, i) {
      CollapseMembers(t.order, Left(t, i), i, Right(t, i));
      WideHere(cs, f, own, t, k0, i, own');
    } else {
      WideElsewhere(own, t, i, own', p, if p < Left(t, i) then p else p + (Right(t, i) - Left(t, i) - 1));
    }
  }

  lemma WideElsewhere(own: seq<int>, t: State, i: nat, own': seq<int>, p: nat, o: nat)
    requires Known(t) && NoDup(t.order) && i < |t.order| && |own'| == |own|
    requires forall k :: 0 <= k < |own| ==> own'[k] == Moved(Left(t, i), Right(t, i), own[k])
    requires Known(AddAt(t, i).0) && p < |AddAt(t, i).0.order| && p != Left(t, i)
    requires o == if p < Left(t, i) then p else p + (Right(t, i) - Left(t, i) - 1)
    requires o < |t.order| && (Shared(own, o) <==> !Bare(t.info[t.order[o]]))
    ensures Shared(own', p) <==> !Bare(AddAt(t, i).0.info[AddAt(t, i).0.order[p]])
  {
    SharedMoved(own, own', Left(t, i), Right(t, i), o);
    assert AddAt(t, i).0.order[p] == t.order[o] && t.order[o] != t.order[i];
    AddKeepsSaved(t, i, t.order[o]);
  }

  lemma SharedMoved(own: seq<int>, own': seq<int>, a: int, b: int, o: int)
    requires |own'| == |own| && a < b && (o < a || o >= b)
    requires forall k :: 0 <= k < |own| ==> own'[k] == Moved(a, b, own[k])
    ensures Shared(own', Moved(a, b, o)) <==> Shared(own, o)
  {
    if Shared(own, o) {
      var k, l :| 0 <= k && l == k + 1 < |own| && own[k] == o && own[l] == o;
      assert own'[k] == Moved(a, b, o) && own'[l] == Moved(a, b, o);
    }
    if Shared(own', Moved(a, b, o)) {
      var k, l :| 0 <= k && l == k + 1 < |own'| && own'[k] == Moved(a, b, o) && own'[l] == Moved(a, b, o);
      assert own[k] == o && own[l] == o;
    }
  }

  lemma WideHere(cs: seq<Cell>, f: seq<bool>, own: seq<int>, t: State, k0: nat, i: nat, own': seq<int>)
    requires Known(t) && NoDup(t.order) && Coarse(cs, f, own, Cells(t))
    requires k0 < |cs| && !Gone(cs, f, k0) && own[k0] == i && |own'| == |own|
    requires forall k :: 0 <= k < |own| ==> own'[k] == Moved(Left(t, i), Right(t, i), own[k])
    ensures Shared(own', Left(t, i)) <==> !Bare(AddInfo(t, i)[t.order[i]])
  {
    var a, b := Left(t, i), Right(t, i);
    Beside(cs, f, own, Cells(t), k0);
    if a == i && b == i + 1 {
      if Shared(own', a) {
        var k, l :| 0 <= k && l == k + 1 < |own'| && own'[k] == a && own'[l] == a;
        OwnSingle(cs, f, own, Cells(t), k0, if k == k0 then l else k);
        assert false;
      }
    } else if a < i {
      assert own'[k0 - 1] == a && own'[k0] == a;
    } else {
      assert own'[k0] == a && own'[k0 + 1] == a;
    }
  }

  // --- The whole scan ---

  /** What the list is after the blocks of `ns` have been added. */
  ghost predicate Track(s: State, ns: seq<Node>, own: seq<int>, t: State)
    requires Known(s)
  {
    && Known(t) && Coarse(Cells(s), Marks(Cells(s), ns), own, Cells(t))
    && Home(Cells(s), own, t) && Wide(own, t)
    && forall p :: 0 <= p < |t.order| && !Bare(t.info[t.order[p]]) ==> t.order[p] in ns
  }

  lemma TrackInit(s: State) returns (own: seq<int>)
    requires Valid(s)
    ensures Track(s, [], own, s)
  {
    own := seq(|s.order|, k => k);
    CoarseInit(Cells(s), s.lo, s.hi);
    assert Marks(Cells(s), []) == seq(|s.order|, k => false);
    forall p | 0 <= p < |s.order| ensures Bare(s.info[s.order[p]]) && !Shared(own, p) {
      assert s.order[p] in s.order;
    }
  }

  lemma TrackStep(s: State, pre: seq<Node>, n: Node, own0: seq<int>, t: State, k0: nat) returns (own: seq<int>)
    requires Shape(s) && k0 < |s.order| && s.order[k0] == n && !s.info[n].free && n !in pre && ScanShape(t)
    requires Track(s, pre, own0, t)
    ensures n in t.order && Track(s, pre + [n], own, AddAt(t, Pos(t.order, n)).0)
  {
    var cs, f := Cells(s), Marks(Cells(s), pre);
    assert Cells(t)[own0[k0]] == cs[k0];
    SamePos(t, own0[k0], n);
    var i: nat := own0[k0];
    MarksSnoc(cs, pre, n, k0);
    own := AddCoarseOwn(cs, f, own0, t, k0, i);
    forall k | 0 <= k < |own0| ensures own[k] == Moved(Left(t, i), Right(t, i), own0[k]) { ShiftIs(t, i, own0[k]); }
    HomeStep(cs, own0, t, i, own);
    forall p | 0 <= p < |AddAt(t, i).0.order|
      ensures Shared(own, p) <==> !Bare(AddAt(t, i).0.info[AddAt(t, i).0.order[p]])
    {
      WideStep(cs, f, own0, t, k0, i, own, p);
    }
    BlocksStep(t, pre, i);
  }

  lemma BlocksStep(t: State, pre: seq<Node>, i: nat)
    requires ScanShape(t) && i < |t.order| && forall p :: 0 <= p < |t.order| && !Bare(t.info[t.order[p]]) ==> t.order[p] in pre
    ensures var u := AddAt(t, i).0;
      forall p :: 0 <= p < |u.order| && u.order[p] in u.info && !Bare(u.info[u.order[p]]) ==> u.order[p] in pre + [t.order[i]]
  {
    var u := AddAt(t, i).0;
    forall p | 0 <= p < |u.order| && u.order[p] in u.info && !Bare(u.info[u.order[p]]) ensures u.order[p] in pre + [t.order[i]] {
      assert u.order[p] in u.order;
      AddMembers(t, i, u.order[p]);
      if u.order[p] != t.order[i] { AddKeepsSaved(t, i, u.order[p]); }
    }
  }

  lemma TrackAll(s: State, ns: seq<Node>) returns (own: seq<int>)
    requires Valid(s) && ScanShape(s) && Allocated(s, ns)
    ensures Track(s, ns, own, AddAll(s, ns))
    decreases |ns|
  {
    if ns == [] {
      own := TrackInit(s);
    } else {
      var n, pre := ns[|ns| - 1], ns[..|ns| - 1];
      assert ns == pre + [n];
      AllocatedPrefix(s, ns, |pre|);
      var own0 := TrackAll(s, pre);
      own := TrackStep(s, pre, n, own0, AddAll(s, pre), Pos(s.order, n));
      AddAllLast(s, ns, |pre|);
    }
  }

  // --- Two blocks in one run ---

  /** Nothing but free or scanned cells from `k` to `l`. */
  predicate Joined(cs: seq<Cell>, f: seq<bool>, k: int, l: int)
    requires |f| == |cs|
  {
    0 <= k <= l < |cs| && forall m :: k <= m <= l ==> Gone(cs, f, m)
  }

  /** No two of the marked blocks lie in one run of free or scanned cells. */
  predicate Alone(cs: seq<Cell>, f: seq<bool>)
    requires |f| == |cs|
  {
    forall k, l :: 0 <= k < l < |cs| && f[k] && f[l] ==> !Joined(cs, f, k, l)
  }

  lemma JoinedOwn(cs: seq<Cell>, f: seq<bool>, own: seq<int>, ds: seq<Cell>, k: int, l: int)
    requires Coarse(cs, f, own, ds) && Settled(ds) && Joined(cs, f, k, l)
    ensures own[k] == own[l]
    decreases l
  {
    if k < l {
      JoinedOwn(cs, f, own, ds, k, l - 1);
      assert Step(cs, f, own, ds, l - 1, l);
    }
  }

  lemma OwnShared(cs: seq<Cell>, f: seq<bool>, own: seq<int>, ds: seq<Cell>, k: int, l: int)
    requires Coarse(cs, f, own, ds) && 0 <= k < l < |cs| && own[k] == own[l]
    ensures Joined(cs, f, k, l) && Shared(own, own[k])
  {
    forall m | k <= m <= l ensures own[m] == own[k] {
      OwnMonotone(cs, f, own, ds, k, m);
      OwnMonotone(cs, f, own, ds, m, l);
    }
    forall m | k <= m <= l ensures Gone(cs, f, m) {
      if m < l { assert Step(cs, f, own, ds, m, m + 1); } else { assert Step(cs, f, own, ds, m - 1, m); }
    }
    assert own[k] == own[k + 1];
  }

  /** All blocks added are still listed if and only if no two of them lie in one run. */
  lemma ListedIsAlone(s: State, ns: seq<Node>, own: seq<int>, t: State)
    requires Valid(s) && Allocated(s, ns) && Track(s, ns, own, t) && Settled(Cells(t))
    requires NoDup(t.order) && forall m :: m in t.order ==> m in s.order
    ensures (forall n :: n in ns ==> n in t.order) <==> Alone(Cells(s), Marks(Cells(s), ns))
  {
    var cs, f := Cells(s), Marks(Cells(s), ns);
    if forall n :: n in ns ==> n in t.order {
      forall k, l | 0 <= k < l < |cs| && f[k] && f[l] ensures !Joined(cs, f, k, l) {
        assert s.order[k] in ns && s.order[l] in ns && s.order[k] != s.order[l];
        if Joined(cs, f, k, l) {
          JoinedOwn(cs, f, own, Cells(t), k, l);
          assert false;
        }
      }
    }
    if Alone(cs, f) {
      forall n | n in ns ensures n in t.order {
        AloneListed(s, ns, own, t, n);
      }
    }
  }

  lemma AloneListed(s: State, ns: seq<Node>, own: seq<int>, t: State, n: Node)
    requires Valid(s) && Allocated(s, ns) && Track(s, ns, own, t) && Settled(Cells(t)) && n in ns
    requires NoDup(t.order) && forall m :: m in t.order ==> m in s.order
    requires Alone(Cells(s), Marks(Cells(s), ns))
    ensures n in t.order
  {
    var cs, f := Cells(s), Marks(Cells(s), ns);
    var k := Pos(s.order, n);
    var p := own[k];
    var m := t.order[p];
    assert m in t.order;
    var l := Pos(s.order, m);
    assert cs[l].node == m && own[l] == p;
    if l != k {
      OwnShared(cs, f, own, Cells(t), if k < l then k else l, if k < l then l else k);
      assert false;
    }
  }

  // --- Blocks added beside a longer run ---

  /** The two cells before `k`, or the two after it, are free or scanned. */
  predicate Crowded(cs: seq<Cell>, f: seq<bool>, k: int)
    requires |f| == |cs|
  {
    (k >= 2 && k <= |cs| && Gone(cs, f, k - 1) && Gone(cs, f, k - 2))
    || (0 <= k && k + 2 < |cs| && Gone(cs, f, k + 1) && Gone(cs, f, k + 2))
  }

  lemma SharedBefore(cs: seq<Cell>, f: seq<bool>, own: seq<int>, ds: seq<Cell>, k: nat)
    requires Coarse(cs, f, own, ds) && Settled(ds) && 0 < k < |cs| && !Gone(cs, f, k)
    ensures Gone(cs, f, k - 1) && Shared(own, own[k - 1]) <==> k >= 2 && Gone(cs, f, k - 1) && Gone(cs, f, k - 2)
  {
    if k >= 2 && Gone(cs, f, k - 1) && Gone(cs, f, k - 2) {
      JoinedOwn(cs, f, own, ds, k - 2, k - 1);
    } else if Gone(cs, f, k - 1) && Shared(own, own[k - 1]) {
      var m, l :| 0 <= m && l == m + 1 < |own| && own[m] == own[k - 1] && own[l] == own[k - 1];
      if m >= k { OwnMonotone(cs, f, own, ds, k, m); }
      OwnSingle(cs, f, own, ds, k, k - 1);
      if l >= k { OwnMonotone(cs, f, own, ds, k, l); OwnMonotone(cs, f, own, ds, k - 1, k); }
      OwnMonotone(cs, f, own, ds, m, k - 2);
      OwnMonotone(cs, f, own, ds, k - 2, k - 1);
      OwnShared(cs, f, own, ds, k - 2, k - 1);
      assert false;
    }
  }

  lemma SharedAfter(cs: seq<Cell>, f: seq<bool>, own: seq<int>, ds: seq<Cell>, k: nat)
    requires Coarse(cs, f, own, ds) && Settled(ds) && k + 1 < |cs| && !Gone(cs, f, k)
    ensures Gone(cs, f, k + 1) && Shared(own, own[k + 1]) <==> k + 2 < |cs| && Gone(cs, f, k + 1) && Gone(cs, f, k + 2)
  {
    if k + 2 < |cs| && Gone(cs, f, k + 1) && Gone(cs, f, k + 2) {
      JoinedOwn(cs, f, own, ds, k + 1, k + 2);
    } else if Gone(cs, f, k + 1) && Shared(own, own[k + 1]) {
      var m, l :| 0 <= m && l == m + 1 < |own| && own[m] == own[k + 1] && own[l] == own[k + 1];
      OwnSingle(cs, f, own, ds, k, k + 1);
      if m <= k { OwnMonotone(cs, f, own, ds, m, k); OwnMonotone(cs, f, own, ds, k, k + 1); }
      OwnMonotone(cs, f, own, ds, k + 1, k + 2);
      OwnMonotone(cs, f, own, ds, k + 2, l);
      OwnShared(cs, f, own, ds, k + 1, k + 2);
      assert false;
    }
  }

  /** No block of `ns` covers another one. */
  ghost predicate Uncovered(t: State, ns: seq<Node>) {
    forall a, b :: a in ns && b in ns ==> !Covers(t, a, b)
  }

  /** The neighbours that the block at `i` comes to cover. */
  lemma CoversNow(t: State, i: nat, b: Node)
    requires ScanShape(t) && i < |t.order| && !t.info[t.order[i]].free
    ensures Covers(AddAt(t, i).0, t.order[i], b) <==>
      (FreeAt(t, i - 1) && b == t.order[i - 1] && !Bare(t.info[b])) || (FreeAt(t, i + 1) && b == t.order[i + 1] && !Bare(t.info[b]))
  {
    var n := t.order[i];
    assert b in Saved(AddAt(t, i).0, n) <==> b == Neighbour(t, i - 1) || b == Neighbour(t, i + 1);
    if b in Saved(AddAt(t, i).0, n) { AddKeepsSaved(t, i, b); }
  }

  lemma CoversBefore(t: State, i: nat, a: Node, b: Node)
    requires ScanShape(t) && i < |t.order| && Holds(t, a) && a != t.order[i]
    ensures Covers(AddAt(t, i).0, a, b) <==> Covers(t, a, b)
  {
    assert t.order[i] in t.order;
    AddStillHolds(t, i, a);
    if b in Saved(t, a) {
      assert b in t.info;
      AddKeepsSaved(t, i, b);
    }
  }

  lemma UncoveredStep(t: State, pre: seq<Node>, i: nat)
    requires ScanShape(t) && i < |t.order| && !t.info[t.order[i]].free && Apart(t, Set(pre)) && t.order[i] !in pre
    requires forall p :: 0 <= p < |t.order| && !Bare(t.info[t.order[p]]) ==> t.order[p] in pre
    ensures Uncovered(AddAt(t, i).0, pre + [t.order[i]]) <==>
      && Uncovered(t, pre)
      && !(FreeAt(t, i - 1) && !Bare(t.info[t.order[i - 1]])) && !(FreeAt(t, i + 1) && !Bare(t.info[t.order[i + 1]]))
  {
    var u, n := AddAt(t, i).0, t.order[i];
    forall a, b | a in pre ensures Covers(u, a, b) <==> Covers(t, a, b) {
      assert a in Set(pre);
      CoversBefore(t, i, a, b);
    }
    forall b ensures Covers(u, n, b) <==>
      (FreeAt(t, i - 1) && b == t.order[i - 1] && !Bare(t.info[b])) || (FreeAt(t, i + 1) && b == t.order[i + 1] && !Bare(t.info[b]))
    {
      CoversNow(t, i, b);
    }
    forall a | a in pre ensures !Covers(t, a, n) { assert a in Set(pre) && Holds(t, a) && n in t.order; }
  }

  /** What the new block covers is a matter of the cells beside it. */
  lemma CrowdedStep(s: State, pre: seq<Node>, own: seq<int>, t: State, k0: nat, i: nat)
    requires Known(s) && Track(s, pre, own, t) && Settled(Cells(t)) && k0 < |s.order| && own[k0] == i < |t.order|
    requires !Gone(Cells(s), Marks(Cells(s), pre), k0)
    ensures Crowded(Cells(s), Marks(Cells(s), pre), k0) <==>
      (FreeAt(t, i - 1) && !Bare(t.info[t.order[i - 1]])) || (FreeAt(t, i + 1) && !Bare(t.info[t.order[i + 1]]))
  {
    var cs, f := Cells(s), Marks(Cells(s), pre);
    Beside(cs, f, own, Cells(t), k0);
    if k0 > 0 { SharedBefore(cs, f, own, Cells(t), k0); }
    if k0 + 1 < |cs| { SharedAfter(cs, f, own, Cells(t), k0); }
  }

  /** Some block is added beside two cells in a row that are free or already scanned. */
  predicate AddsCrowded(cs: seq<Cell>, ns: seq<Node>) {
    exists k, c :: 0 <= k < |ns| && 0 <= c < |cs| && cs[c].node == ns[k] && Crowded(cs, Marks(cs, ns[..k]), c)
  }

  lemma AddsCrowdedSnoc(cs: seq<Cell>, pre: seq<Node>, n: Node, k0: nat)
    requires k0 < |cs| && cs[k0].node == n && forall k :: 0 <= k < |cs| && k != k0 ==> cs[k].node != n
    ensures AddsCrowded(cs, pre + [n]) <==> AddsCrowded(cs, pre) || Crowded(cs, Marks(cs, pre), k0)
  {
    var ns := pre + [n];
    assert ns[..|pre|] == pre && ns[|pre|] == n;
    assert forall k :: 0 <= k < |pre| ==> ns[..k] == pre[..k] && ns[k] == pre[k];
  }

  lemma {:induction false} UncoveredIs(s: State, ns: seq<Node>)
    requires Valid(s) && ScanShape(s) && Allocated(s, ns)
    ensures Uncovered(AddAll(s, ns), ns) <==> !AddsCrowded(Cells(s), ns)
    decreases |ns|
  {
    if ns != [] {
      var n, pre := ns[|ns| - 1], ns[..|ns| - 1];
      assert ns == pre + [n];
      AllocatedPrefix(s, ns, |pre|);
      UncoveredIs(s, pre);
      AddAllApart(s, pre);
      var own := TrackAll(s, pre);
      UncoveredSnoc(s, pre, n, own, AddAll(s, pre));
      AddAllLast(s, ns, |pre|);
    }
  }

  lemma UncoveredSnoc(s: State, pre: seq<Node>, n: Node, own: seq<int>, t: State)
    requires Shape(s) && n in s.order && !s.info[n].free && n !in pre && ScanShape(t) && Track(s, pre, own, t)
    requires Apart(t, Set(pre)) && n in t.order && !t.info[n].free
    requires Uncovered(t, pre) <==> !AddsCrowded(Cells(s), pre)
    ensures Uncovered(AddAt(t, Pos(t.order, n)).0, pre + [n]) <==> !AddsCrowded(Cells(s), pre + [n])
  {
    var k0 := OriginalCell(s, n);
    var i := Pos(t.order, n);
    assert Cells(t)[own[k0]] == Cells(s)[k0];
    SamePos(t, own[k0], n);
    UncoveredStep(t, pre, i);
    CrowdedStep(s, pre, own, t, k0, i);
    AddsCrowdedSnoc(Cells(s), pre, n, k0);
  }

  // --- Removal in the order of addition ---

  function Reverse(ns: seq<Node>): (r: seq<Node>)
    ensures |r| == |ns| && forall k :: 0 <= k < |r| ==> r[k] == ns[|ns| - 1 - k]
  {
    if ns == [] then [] else [ns[|ns| - 1]] + Reverse(ns[..|ns| - 1])
  }

  lemma ReverseReorders(ns: seq<Node>)
    requires NoDup(ns)
    ensures Reorders(Reverse(ns), ns)
  {
    var xs := Reverse(ns);
    forall n | n in ns ensures n in xs {
      var k := Pos(ns, n);
      assert xs[|ns| - 1 - k] == n;
    }
  }

  /** A block is only absorbed by one added later. */
  lemma {:induction false} AbsorbedLater(s: State, ns: seq<Node>)
    requires ScanShape(s) && Allocated(s, ns)
    ensures forall i, j :: 0 <= i <= j < |ns| ==> ns[i] in AddAll(s, ns).info && ns[j] !in Saved(AddAll(s, ns), ns[i])
    decreases |ns|
  {
    if ns != [] {
      var n, pre := ns[|ns| - 1], ns[..|ns| - 1];
      assert ns == pre + [n];
      AllocatedPrefix(s, ns, |pre|);
      AbsorbedLater(s, pre);
      AddAllApart(s, pre);
      LaterStep(AddAll(s, pre), pre, n);
      AddAllLast(s, ns, |pre|);
    }
  }

  lemma LaterStep(t: State, pre: seq<Node>, n: Node)
    requires ScanShape(t) && n in t.order && !t.info[n].free && Apart(t, Set(pre)) && n !in pre
    requires forall i, j :: 0 <= i <= j < |pre| ==> pre[i] in t.info && pre[j] !in Saved(t, pre[i])
    ensures var u, ns := AddAt(t, Pos(t.order, n)).0, pre + [n];
      forall i, j :: 0 <= i <= j < |ns| ==> ns[i] in u.info && ns[j] !in Saved(u, ns[i])
  {
    var u, ns := AddAt(t, Pos(t.order, n)).0, pre + [n];
    AddHolds(t, Pos(t.order, n));
    forall i, j | 0 <= i <= j < |ns| ensures ns[i] in u.info && ns[j] !in Saved(u, ns[i]) {
      if i < |pre| {
        assert pre[i] in Set(pre);
        AddStillHolds(t, Pos(t.order, n), pre[i]);
      }
    }
  }

  /** Each of `xs`, from the end, is on the list when it is removed. */
  ghost predicate AllFound(t: State, xs: seq<Node>)
    decreases |xs|
  {
    xs == [] || (Removable(t, xs[|xs| - 1]) && xs[|xs| - 1] in t.order && AllFound(Remove(t, xs[|xs| - 1]).0, xs[..|xs| - 1]))
  }

  lemma {:induction false} FoundIsListed(t: State, xs: seq<Node>)
    requires NoDup(xs) && Apart(t, Set(xs))
    requires forall i, j :: 0 <= i <= j < |xs| ==> xs[j] in t.info && xs[i] !in Saved(t, xs[j])
    ensures AllFound(t, xs) <==> forall x :: x in xs ==> x in t.order
    decreases |xs|
  {
    if xs != [] {
      var k := |xs| - 1;
      var x, ys := xs[k], xs[..k];
      assert x in xs && x in Set(xs);
      if x in t.order {
        var u := Remove(t, x).0;
        FoundStep(t, xs, x, ys, u);
        FoundIsListed(u, ys);
        assert forall y :: y in xs <==> y in ys || y == x;
      }
    }
  }

  lemma FoundStep(t: State, xs: seq<Node>, x: Node, ys: seq<Node>, u: State)
    requires NoDup(xs) && Apart(t, Set(xs)) && xs == ys + [x] && Removable(t, x) && u == Remove(t, x).0
    requires forall i, j :: 0 <= i <= j < |xs| ==> xs[j] in t.info && xs[i] !in Saved(t, xs[j])
    ensures NoDup(ys) && Apart(u, Set(ys))
    ensures forall i, j :: 0 <= i <= j < |ys| ==> ys[j] in u.info && ys[i] !in Saved(u, ys[j])
    ensures forall y :: y in ys ==> (y in u.order <==> y in t.order)
  {
    assert x in Set(xs) && xs[|ys|] == x;
    RemoveApart(t, x, Set(xs));
    assert forall k :: 0 <= k < |ys| ==> ys[k] == xs[k];
    assert x !in ys;
    assert Set(ys) == Set(xs) - {x};
    forall i, j | 0 <= i <= j < |ys| ensures ys[j] in u.info && ys[i] !in Saved(u, ys[j]) {
      assert ys[i] == xs[i] && ys[j] == xs[j] && ys[j] in Set(ys);
      StillRemovable(t, x, ys[j], u);
    }
    forall i | 0 <= i < |ys| ensures ys[i] in u.order <==> ys[i] in t.order {
      assert ys[i] == xs[i];
      RemoveMembers(t, x, ys[i]);
    }
  }

  /** The order the comment asks for. Taking blocks off in the order of addition
      can be done if and only if none was added beside two cells in a row that
      were free or scanned by then; it finds every block on the list if and only
      if no two blocks lie in one run of free or scanned cells. Whenever it can
      be done it restores the state before the scan. */
  lemma SameOrder(s: State, ns: seq<Node>, start: int, size: int, t: State)
    requires Valid(s) && ScanShape(s) && Allocated(s, ns) && t == WithHit(AddAll(s, ns), start, size)
    ensures ComesOff(t, Reverse(ns)) <==> !AddsCrowded(Cells(s), ns)
    ensures AllFound(t, Reverse(ns)) <==> Alone(Cells(s), Marks(Cells(s), ns))
    ensures ComesOff(t, Reverse(ns)) ==> Unwinds(t, Reverse(ns), WithHit(s, start, size), Inside(s, ns, start, size))
  {
    ReverseReorders(ns);
    AnyOrder(s, ns, Reverse(ns), start, size, t);
    AbsorbedLater(s, ns);
    SameOrderOk(s, ns, start, size, t);
    SameOrderFound(s, ns, start, size, t);
  }

  lemma SameOrderOk(s: State, ns: seq<Node>, start: int, size: int, t: State)
    requires Valid(s) && ScanShape(s) && Allocated(s, ns) && t == WithHit(AddAll(s, ns), start, size)
    requires forall i, j :: 0 <= i <= j < |ns| ==> ns[i] in AddAll(s, ns).info && ns[j] !in Saved(AddAll(s, ns), ns[i])
    ensures OrderOk(t, Reverse(ns)) <==> !AddsCrowded(Cells(s), ns)
  {
    UncoveredIs(s, ns);
    ReverseOk(AddAll(s, ns), t, ns);
  }

  lemma ReverseOk(t0: State, t: State, ns: seq<Node>)
    requires t0.info == t.info
    requires forall i, j :: 0 <= i <= j < |ns| ==> ns[i] in t0.info && ns[j] !in Saved(t0, ns[i])
    ensures OrderOk(t, Reverse(ns)) <==> Uncovered(t0, ns)
  {
    var xs := Reverse(ns);
    forall i, j | 0 <= i <= j < |ns| ensures !Covers(t, ns[i], ns[j]) { assert ns[j] !in Saved(t0, ns[i]); }
    if OrderOk(t, xs) {
      forall a, b | a in ns && b in ns ensures !Covers(t0, a, b) {
        var i, j := Pos(ns, a), Pos(ns, b);
        assert xs[|ns| - 1 - i] == a && xs[|ns| - 1 - j] == b;
        assert Covers(t0, a, b) <==> Covers(t, a, b);
      }
    }
    if Uncovered(t0, ns) {
      forall i, j | 0 <= i < |xs| && 0 <= j < |xs| ensures !Covers(t, xs[i], xs[j]) {
        assert xs[i] in ns && xs[j] in ns;
        assert !Covers(t0, xs[i], xs[j]);
      }
    }
  }

  lemma SameOrderFound(s: State, ns: seq<Node>, start: int, size: int, t: State)
    requires Valid(s) && ScanShape(s) && Allocated(s, ns) && t == WithHit(AddAll(s, ns), start, size)
    requires forall i, j :: 0 <= i <= j < |ns| ==> ns[i] in AddAll(s, ns).info && ns[j] !in Saved(AddAll(s, ns), ns[i])
    ensures AllFound(t, Reverse(ns)) <==> Alone(Cells(s), Marks(Cells(s), ns))
  {
    ApartAnyHit(s, ns, start, size);
    ReverseFound(AddAll(s, ns), t, ns);
    StillListed(s, ns, AddAll(s, ns));
  }

  lemma StillListed(s: State, ns: seq<Node>, t: State)
    requires Valid(s) && ScanShape(s) && Allocated(s, ns) && t == AddAll(s, ns)
    ensures (forall n :: n in ns ==> n in t.order) <==> Alone(Cells(s), Marks(Cells(s), ns))
  {
    var own := TrackAll(s, ns);
    AddAllNodes(s, ns);
    ListedIsAlone(s, ns, own, t);
  }

  lemma ReverseFound(t0: State, t: State, ns: seq<Node>)
    requires t0.info == t.info && t0.order == t.order && NoDup(ns) && Apart(t, Set(ns))
    requires forall i, j :: 0 <= i <= j < |ns| ==> ns[i] in t0.info && ns[j] !in Saved(t0, ns[i])
    ensures AllFound(t, Reverse(ns)) <==> forall n :: n in ns ==> n in t0.order
  {
    var xs := Reverse(ns);
    ReverseReorders(ns);
    forall i, j | 0 <= i <= j < |xs| ensures xs[j] in t.info && xs[i] !in Saved(t, xs[j]) {
      assert ns[|ns| - 1 - i] !in Saved(t0, ns[|ns| - 1 - j]);
    }
    FoundIsListed(t, xs);
    forall x ensures x in xs <==> x in ns { assert x in Set(xs) <==> x in Set(ns); }
  }

  lemma {:induction false} AddAllNodes(s: State, ns: seq<Node>)
    requires ScanShape(s) && Allocated(s, ns)
    ensures forall m :: m in AddAll(s, ns).order ==> m in s.order
    decreases |ns|
  {
    if ns != [] {
      var n, pre := ns[|ns| - 1], ns[..|ns| - 1];
      AllocatedPrefix(s, ns, |pre|);
      AddAllNodes(s, pre);
      var t := AddAll(s, pre);
      AddAllLast(s, ns, |pre|);
      forall m | m in AddAll(s, ns).order ensures m in s.order { AddMembers(t, Pos(t.order, n), m); }
    }
  }
}
