/** Which blocks an EDID record is made of (drm_edid.c:252-330). */
module EdidRecord {
  import opened Basics
  import opened Edid

  // --- Which blocks are accepted ---

  /** The bytes that are not the header's, of the first n. */
  function Wrong(b: Raw, n: nat): set<nat>
    requires n <= 8
  {
    set k: nat | k < n && b[k] != HEADER[k]
  }

  lemma {:induction false} ScoreIs(b: Raw, n: nat)
    requires n <= 8
    ensures Score(b, n) + |Wrong(b, n)| == n
  {
    if n > 0 {
      ScoreIs(b, n - 1);
      assert Wrong(b, n) == Wrong(b, n - 1) + if b[n - 1] != HEADER[n - 1] then {n - 1} else {};
    } else {
      assert Wrong(b, 0) == {};
    }
  }

  /** What the header's place holds does not matter to the repaired block. */
  lemma AcceptedIs(b: Raw)
    ensures b[0] == 0 ==>
      (Accepted(b) <==> |Wrong(b, 8)| <= 2 && Sums(HEADER + b[8..]) && b[VERSION] == 1)
      && (|Wrong(b, 8)| <= 2 ==> Repaired(b) == HEADER + b[8..])
    ensures b[0] != 0 ==> (Accepted(b) <==> b[0] == 2 || Sums(b)) && Repaired(b) == b
  {
    ScoreIs(b, 8);
  }

  /** A base block that comes with up to two header bytes damaged, though not the first, is accepted,
      and repaired to what was sent. */
  lemma DamageIsRepaired(sent: Raw, came: Raw)
    requires Clean(sent) && sent[0] == 0 && came[0] == 0 && came[8..] == sent[8..]
    requires |set k: nat | k < 8 && came[k] != sent[k]| <= 2
    ensures Accepted(came) && Repaired(came) == sent
  {
    AcceptedIs(sent);
    AcceptedIs(came);
    assert Repaired(sent) == HEADER + sent[8..];
    assert forall k: nat :: k < 8 ==> sent[k] == (HEADER + sent[8..])[k];
    assert Wrong(came, 8) == set k: nat | k < 8 && came[k] != sent[k];
    assert came[VERSION] == came[8..][VERSION - 8] == sent[8..][VERSION - 8] == sent[VERSION];
  }

  lemma {:induction false} SumChanges(b: seq<Byte>, k: nat, x: Byte)
    requires k < |b|
    ensures Sum(b[k := x]) == Sum(b) - b[k] + x
    decreases |b|
  {
    var n := |b| - 1;
    if k < n {
      SumChanges(b[..n], k, x);
      assert b[k := x][..n] == b[..n][k := x];
    } else {
      assert b[k := x][..n] == b[..n];
    }
  }

  /** One wrong byte, wherever it is, is seen by the checksum. */
  lemma ByteErrorIsSeen(b: seq<Byte>, k: nat, x: Byte)
    requires k < |b| && x != b[k] && Sums(b)
    ensures !Sums(b[k := x])
  {
    SumChanges(b, k, x);
  }

  // --- What the tries at a block come to ---

  /** The first `i` tries at block `j` brought bytes, none of them acceptable. */
  ghost predicate Refused(bus: Bus, j: nat, i: nat) {
    forall k: nat :: k < i ==> bus(j, k).Bytes? && !Accepted(bus(j, k).bytes)
  }

  /** The i-th try decides: it is acceptable, and none before was. */
  ghost predicate TakenAt(bus: Bus, j: nat, i: nat, b: Raw) {
    i < 4 && Refused(bus, j, i) && bus(j, i).Bytes? && Accepted(bus(j, i).bytes) && b == Repaired(bus(j, i).bytes)
  }

  /** The i-th transfer fails, and no try before was acceptable. */
  ghost predicate FailsAt(bus: Bus, j: nat, i: nat) {
    i < 4 && Refused(bus, j, i) && bus(j, i).Failed?
  }

  /** A block comes to the first acceptable one of four tries, repaired; a failing
      transfer before that breaks everything off; after four refusals the block is bad. */
  lemma {:induction false} FetchedIs(bus: Bus, j: nat, i: nat)
    requires Refused(bus, j, i) && i <= 4
    ensures Fetched(bus, j, i).Good? ==> exists k: nat :: TakenAt(bus, j, k, Fetched(bus, j, i).block)
    ensures Fetched(bus, j, i).Broken? ==> exists k: nat :: FailsAt(bus, j, k)
    ensures Fetched(bus, j, i).Bad? ==> Refused(bus, j, 4)
    decreases 4 - i
  {
    if i < 4 {
      match bus(j, i)
      case Failed => assert FailsAt(bus, j, i);
      case Bytes(b) =>
        if Accepted(b) {
          assert TakenAt(bus, j, i, Fetched(bus, j, i).block);
        } else {
          FetchedIs(bus, j, i + 1);
        }
    }
  }

  /** The first acceptable try is the one that is kept. */
  lemma {:induction false} TakenIsKept(bus: Bus, j: nat, i: nat, k: nat, b: Raw)
    requires i <= k && TakenAt(bus, j, k, b)
    ensures Fetched(bus, j, i) == Good(b)
    decreases k - i
  {
    if i < k { TakenIsKept(bus, j, i + 1, k, b); }
  }

  /** There is a base block if and only if one of four tries is acceptable before a
      transfer fails, and the first did not bring zeros only; it is that try's, repaired. */
  lemma BaseIs(bus: Bus, b: Raw)
    ensures Base(bus) == Good(b) <==>
      (exists k: nat :: TakenAt(bus, 0, k, b)) && !(bus(0, 0).Bytes? && IsZero(bus(0, 0).bytes))
  {
    FetchedIs(bus, 0, 0);
    if k: nat :| TakenAt(bus, 0, k, b) { TakenIsKept(bus, 0, 0, k, b); }
  }

  // --- The record ---

  predicate Rising(js: seq<nat>) {
    forall x, y :: 0 <= x < y < |js| ==> js[x] < js[y]
  }

  /** The blocks from 1 to n that were accepted, in rising order. */
  predicate Accepts(tries: nat -> Outcome, n: nat, js: seq<nat>) {
    && Rising(js) && (forall x :: 0 <= x < |js| ==> 1 <= js[x] <= n)
    && (forall j: nat :: 1 <= j <= n ==> (tries(j).Good? <==> j in js))
  }

  /** The bytes are those blocks, one after another. */
  predicate Consists(tries: nat -> Outcome, js: seq<nat>, bytes: seq<Byte>) {
    |bytes| == Start(|js|) && forall x :: 0 <= x < |js| ==> tries(js[x]).Good? && Block(bytes, x) == tries(js[x]).block
  }

  lemma {:induction false} ExtensionsAre(tries: nat -> Outcome, n: nat) returns (js: seq<nat>)
    ensures Accepts(tries, n, js) && |js| <= n
    ensures var c := Extensions(tries, n);
      && (c.Cut? <==> exists j: nat :: 1 <= j <= n && tries(j).Broken?)
      && (c.Kept? ==> c.count == |js| && Consists(tries, js, c.bytes))
  {
    js := [];
    if n > 0 {
      js := ExtensionsAre(tries, n - 1);
      var c := Extensions(tries, n - 1);
      if tries(n).Good? {
        if c.Kept? { ConsistsSnoc(tries, js, c.bytes, n); }
        AcceptsSnoc(tries, n, js);
        js := js + [n];
      } else {
        AcceptsSame(tries, n, js);
      }
      CutIs(tries, n);
    }
  }

  lemma CutIs(tries: nat -> Outcome, n: nat)
    requires n > 0 && (Extensions(tries, n - 1).Cut? <==> exists j: nat :: 1 <= j <= n - 1 && tries(j).Broken?)
    ensures Extensions(tries, n).Cut? <==> exists j: nat :: 1 <= j <= n && tries(j).Broken?
  {
  }

  lemma AcceptsSnoc(tries: nat -> Outcome, n: nat, js: seq<nat>)
    requires n > 0 && Accepts(tries, n - 1, js) && tries(n).Good?
    ensures Accepts(tries, n, js + [n])
  {
    forall j: nat | 1 <= j <= n ensures tries(j).Good? <==> j in js + [n] {
      if j < n { assert j in js + [n] <==> j in js; }
    }
  }

  lemma AcceptsSame(tries: nat -> Outcome, n: nat, js: seq<nat>)
    requires n > 0 && Accepts(tries, n - 1, js) && !tries(n).Good?
    ensures Accepts(tries, n, js)
  {
    if n in js { assert false; }
  }

  lemma ConsistsSnoc(tries: nat -> Outcome, js: seq<nat>, bytes: seq<Byte>, j: nat)
    requires Consists(tries, js, bytes) && tries(j).Good?
    ensures Consists(tries, js + [j], bytes + tries(j).block)
  {
    forall x | 0 <= x < |js| + 1 ensures Block(bytes + tries(j).block, x) == tries((js + [j])[x]).block {
      if x < |js| { assert Block(bytes + tries(j).block, x) == Block(bytes, x); }
    }
  }

  /** No block from 1 to n breaks the fetch off. */
  ghost predicate Unbroken(tries: nat -> Outcome, n: nat) {
    forall j: nat :: 1 <= j <= n ==> !tries(j).Broken?
  }

  /** The record: the base block as it was fetched, but for the count of extension
      blocks and the checksum byte, and behind it every extension block that was
      accepted, and no other, in order. With none refused the base block is as fetched. */
  ghost predicate RecordOf(bus: Bus, b: Raw, js: seq<nat>, s: seq<Byte>) {
    && |s| == Start(|js| + 1) && Accepts(Tried(bus), b[EXTENSIONS], js) && s[EXTENSIONS] == |js|
    && (forall k :: 0 <= k < LENGTH - 1 && k != EXTENSIONS ==> s[k] == b[k])
    && (s[LENGTH - 1] - b[LENGTH - 1] - (b[EXTENSIONS] - |js|)) % 256 == 0
    && (forall x :: 0 <= x < |js| ==> Tried(bus)(js[x]).Good? && Block(s, x + 1) == Tried(bus)(js[x]).block)
  }

  /** A record is returned if and only if the base block is good, no transfer of an
      extension block fails, and the memory suffices, to grow if there are to be
      extension blocks, and to shrink if some are refused. It is then the one
      made of the base block and exactly the accepted extension blocks. */
  lemma RecordIs(bus: Bus, grow: bool, shrink: bool) returns (js: seq<nat>)
    ensures Base(bus).Good? ==> Accepts(Tried(bus), Base(bus).block[EXTENSIONS], js)
    ensures Assembled(bus, grow, shrink).Some? <==>
      Base(bus).Good? && var n := Base(bus).block[EXTENSIONS];
        n == 0 || (grow && Unbroken(Tried(bus), n) && (|js| == n || shrink))
    ensures Assembled(bus, grow, shrink).Some? ==> RecordOf(bus, Base(bus).block, js, Assembled(bus, grow, shrink).value)
  {
    js := [];
    if Base(bus).Good? {
      var b := Base(bus).block;
      js := ExtensionsAre(Tried(bus), b[EXTENSIONS]);
      if b[EXTENSIONS] != 0 {
        var c := Extensions(Tried(bus), b[EXTENSIONS]);
        if c.Kept? { JoinedIs(bus, b, js, c.bytes, c.count, shrink); }
      }
    }
  }

  lemma JoinedIs(bus: Bus, b: Raw, js: seq<nat>, bytes: seq<Byte>, count: nat, shrink: bool)
    requires Accepts(Tried(bus), b[EXTENSIONS], js) && Consists(Tried(bus), js, bytes) && count == |js| <= b[EXTENSIONS]
    ensures var made := Joined(b, Kept(bytes, count), shrink);
      (made.Some? <==> count == b[EXTENSIONS] || shrink) && (made.Some? ==> RecordOf(bus, b, js, made.value))
  {
    var made := Joined(b, Kept(bytes, count), shrink);
    if made.Some? {
      var s := made.value;
      forall x | 0 <= x < |js| ensures Block(s, x + 1) == Tried(bus)(js[x]).block {
        assert s[LENGTH..] == bytes;
        assert Block(s, x + 1) == Block(bytes, x);
      }
    }
  }
}
