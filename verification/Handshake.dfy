/** What the operations on masters are for: who is master, who is authenticated and why, and
    what a magic is good for, over whole runs (drm_fops.c:226-336, 512-545; drm_stub.c:220-275;
    drm_auth.c:143-195). */
module Handshake {

  import opened Basics
  import opened Masters

  // --- Becoming master ---

  /** A file that is opened on a primary node joins its minor's master, the one there is or a
      new one; it is master itself if and only if it brought the master. The open fails if and
      only if there is none and none can be made. Other files are as before. */
  lemma OpenJoins(d: Dev, f: nat, minor: nat, root: bool, works: bool, m: nat, t: Dev)
    requires Inv(d) && f !in d.files && m !in d.masters && t == Open(d, f, minor, root, works, m)
    ensures f in t.files <==> (minor in d.minors && d.minors[minor].None? ==> works)
    ensures f !in t.files ==> t == d
    ensures f in t.files ==>
      && t.files[f].minor == minor && t.files[f].magic == 0
      && (minor !in d.minors ==> t.files[f].master.None? && t.minors == d.minors)
      && (minor in d.minors ==> t.files[f].master == t.minors[minor] && t.minors[minor].Some?)
      && (minor in d.minors && d.minors[minor].Some? ==> t.minors == d.minors)
      && (t.files[f].isMaster <==> minor in d.minors && d.minors[minor].None?)
    ensures forall g :: g in d.files ==> g in t.files && t.files[g] == d.files[g]
  {
  }

  /** A file takes over its minor if and only if that has no master while the file has one, and
      the driver agrees; the minor's master is then the file's. Giving it up undoes that,
      and only a file that is its minor's master can give it up. */
  lemma SetAndDrop(d: Dev, f: nat, works: bool)
    requires Inv(d) && f in d.files
    ensures var t, file := SetMaster(d, f, works), d.files[f];
      && Grounded(t) && f in t.files
      && (t != d <==> !file.isMaster && file.minor in d.minors && d.minors[file.minor].None? && file.master.Some? && works)
      && (t != d ==> Rules(t, f) && t.files[f].master == file.master && DropMaster(t, f) == d)
    ensures Drops(d, f) <==> d.files[f].isMaster
    ensures var t := DropMaster(d, f);
      && Grounded(t) && f in t.files
      && (Drops(d, f) ==> !t.files[f].isMaster && t.minors[d.files[f].minor].None? && SetMaster(t, f, true) == d)
  {
    SetThenDrop(d, f, works);
    DropThenSet(d, f);
  }

  lemma PutGet(masters: map<nat, Master>, m: nat)
    requires m in masters && masters[m].refs > 0
    ensures Put(Get(masters, m), m) == masters
    ensures masters[m].refs > 1 ==> m in Put(masters, m) && Get(Put(masters, m), m) == masters
  {
  }

  lemma SetThenDrop(d: Dev, f: nat, works: bool)
    requires Inv(d) && f in d.files
    ensures var t, file := SetMaster(d, f, works), d.files[f];
      && Grounded(t) && f in t.files
      && (t != d <==> !file.isMaster && file.minor in d.minors && d.minors[file.minor].None? && file.master.Some? && works)
      && (t != d ==> Rules(t, f) && t.files[f].master == file.master && DropMaster(t, f) == d)
  {
    var t, file := SetMaster(d, f, works), d.files[f];
    SetKeeps(d, f, works, t);
    if !file.isMaster && file.minor in d.minors && d.minors[file.minor].None? && file.master.Some? && works {
      assert CountExact(d, file.master.value);
      PutGet(d.masters, file.master.value);
      Undone(d, f, t);
    }
  }

  lemma Undone(d: Dev, f: nat, t: Dev)
    requires Grounded(d) && Grounded(t) && f in d.files && t == SetMaster(d, f, true)
    requires var file := d.files[f];
      !file.isMaster && file.minor in d.minors && d.minors[file.minor].None? && file.master.Some?
      && Put(Get(d.masters, file.master.value), file.master.value) == d.masters
    ensures t != d && f in t.files && Rules(t, f) && t.files[f].master == d.files[f].master && DropMaster(t, f) == d
  {
    assert t.files[f].isMaster;
    assert DropMaster(t, f).files == d.files && DropMaster(t, f).minors == d.minors;
  }

  lemma DropThenSet(d: Dev, f: nat)
    requires Inv(d) && f in d.files
    ensures Drops(d, f) <==> d.files[f].isMaster
    ensures var t := DropMaster(d, f);
      && Grounded(t) && f in t.files
      && (Drops(d, f) ==> !t.files[f].isMaster && t.minors[d.files[f].minor].None? && SetMaster(t, f, true) == d)
  {
    assert FileOk(d, f);
    var t, file := DropMaster(d, f), d.files[f];
    DropKeeps(d, f, t);
    if Drops(d, f) {
      var m := file.master.value;
      assert CountExact(d, m) && f in Naming(d.files, m);
      PutGet(d.masters, m);
      Redone(d, f, t);
    }
  }

  lemma Redone(d: Dev, f: nat, t: Dev)
    requires Grounded(d) && Grounded(t) && f in d.files && Drops(d, f) && t == DropMaster(d, f)
    requires var file := d.files[f];
      file.master == d.minors[file.minor] && file.master.value in Put(d.masters, file.master.value)
      && Get(Put(d.masters, file.master.value), file.master.value) == d.masters
    ensures f in t.files && !t.files[f].isMaster && t.minors[d.files[f].minor].None? && SetMaster(t, f, true) == d
  {
    assert SetMaster(t, f, true).files == d.files && SetMaster(t, f, true).minors == d.minors;
  }

  // --- Runs, state by state ---

  /** The state before the i-th operation of a run. */
  ghost function At(d: Dev, ops: seq<Op>, t: Dev, i: nat): (u: Dev)
    requires Run(d, ops, t) && i < |ops|
    ensures Inv(u) && Allowed(u, ops[i])
    decreases |ops|
  {
    if i == 0 then d else At(Do(d, ops[0]), ops[1..], t, i - 1)
  }

  // --- Who is authenticated ---

  /** A successful call authenticates the file that holds the magic under the caller's master,
      and uses the entry up. No other file, and no other entry, changes. */
  lemma AuthMagicReaches(d: Dev, f: nat, magic: nat, g: nat)
    requires Inv(d) && f in d.files && d.files[f].master.Some? && g in d.files
    ensures Grounded(d) && MagicsOk(d, d.files[f].master.value)
    ensures var m, t := d.files[f].master.value, AuthMagic(d, f, magic);
      && g in t.files && m in t.masters
      && (Holds(d, m, magic, g) ==> d.files[g].magic == magic && d.files[g].master == Some(m))
      && t.files[g] == d.files[g].(authenticated := d.files[g].authenticated || Holds(d, m, magic, g))
      && magic !in t.masters[m].magics
      && forall k :: k != magic ==> (k in t.masters[m].magics <==> k in d.masters[m].magics)
  {
    assert MagicsOk(d, d.files[f].master.value);
  }

  /** Master `m` knows `magic` as that of file `g`. */
  predicate Holds(d: Dev, m: nat, magic: nat, g: nat) {
    m in d.masters && magic in d.masters[m].magics && d.masters[m].magics[magic] == g
  }

  /** The operation authenticates `g`: it opens it, for root or as the file that brings the
      master, or passes its magic for a file of its master. */
  ghost predicate Grants(d: Dev, op: Op, g: nat)
    requires Inv(d) && Allowed(d, op)
  {
    match op
    case OpOpen(f, minor, root, works, _) =>
      f == g && if minor in d.minors && d.minors[minor].None? then works else root
    case OpAuthMagic(f, magic) => g in d.files && Holds(d, d.files[f].master.value, magic, g)
    case _ => false
  }

  /** The operation ends the authentication of `g`: a master file of the same master is
      released, or `g` is, or it is opened anew. */
  ghost predicate Revokes(d: Dev, op: Op, g: nat)
    requires Inv(d) && Allowed(d, op)
  {
    match op
    case OpOpen(f, _, _, _, _) => f == g
    case OpRelease(f) => f == g || (g in d.files && d.files[f].isMaster && d.files[f].master == d.files[g].master)
    case _ => false
  }

  predicate IsAuthentic(d: Dev, g: nat) { g in d.files && d.files[g].authenticated }

  lemma AuthenticStep(d: Dev, op: Op, g: nat)
    requires Inv(d) && Allowed(d, op)
    ensures IsAuthentic(Do(d, op), g) <==> Grants(d, op, g) || (IsAuthentic(d, g) && !Revokes(d, op, g))
  {
    match op {
      case OpAuthMagic(f, magic) => if g in d.files { AuthMagicReaches(d, f, magic, g); }
      case OpRelease(f) => if g in d.files && g != f { ReleaseRevokes(d, f, g); }
      case _ =>
    }
  }

  ghost predicate GrantedAt(d: Dev, ops: seq<Op>, t: Dev, g: nat, i: nat)
    requires Run(d, ops, t)
  {
    i < |ops| && Grants(At(d, ops, t, i), ops[i], g) && KeptFrom(d, ops, t, g, i + 1)
  }

  /** Nothing from the i-th operation on revokes it. */
  ghost predicate KeptFrom(d: Dev, ops: seq<Op>, t: Dev, g: nat, i: nat)
    requires Run(d, ops, t)
  {
    forall j :: i <= j < |ops| ==> !Revokes(At(d, ops, t, j), ops[j], g)
  }

  lemma {:induction false} AuthenticFrom(d: Dev, ops: seq<Op>, t: Dev, g: nat)
    requires Inv(d) && Run(d, ops, t)
    ensures IsAuthentic(t, g) <==> (exists i: nat :: GrantedAt(d, ops, t, g, i)) || (IsAuthentic(d, g) && KeptFrom(d, ops, t, g, 0))
    decreases |ops|
  {
    if ops != [] {
      var u := Do(d, ops[0]);
      StepKeepsInv(d, ops[0]);
      AuthenticFrom(u, ops[1..], t, g);
      AuthenticStep(d, ops[0], g);
      KeptShifts(d, ops, t, g);
      if IsAuthentic(t, g) {
        if i: nat :| GrantedAt(u, ops[1..], t, g, i) { assert GrantedAt(d, ops, t, g, i + 1); }
        else if Grants(d, ops[0], g) { assert GrantedAt(d, ops, t, g, 0); }
      }
      if i: nat :| GrantedAt(d, ops, t, g, i) {
        if i > 0 { assert GrantedAt(u, ops[1..], t, g, i - 1); }
      }
    }
  }

  lemma KeptShift(d: Dev, ops: seq<Op>, t: Dev, g: nat, i: nat)
    requires Inv(d) && Run(d, ops, t) && ops != []
    ensures KeptFrom(d, ops, t, g, i + 1) <==> KeptFrom(Do(d, ops[0]), ops[1..], t, g, i)
  {
    var u := Do(d, ops[0]);
    if KeptFrom(d, ops, t, g, i + 1) {
      forall j | i <= j < |ops[1..]| ensures !Revokes(At(u, ops[1..], t, j), ops[1..][j], g) {
        assert !Revokes(At(d, ops, t, j + 1), ops[j + 1], g);
      }
    }
    if KeptFrom(u, ops[1..], t, g, i) {
      forall j | i + 1 <= j < |ops| ensures !Revokes(At(d, ops, t, j), ops[j], g) {
        assert !Revokes(At(u, ops[1..], t, j - 1), ops[1..][j - 1], g);
      }
    }
  }

  lemma KeptShifts(d: Dev, ops: seq<Op>, t: Dev, g: nat)
    requires Inv(d) && Run(d, ops, t) && ops != []
    ensures forall i: nat :: KeptFrom(d, ops, t, g, i + 1) <==> KeptFrom(Do(d, ops[0]), ops[1..], t, g, i)
    ensures forall i: nat :: GrantedAt(d, ops, t, g, i + 1) <==> GrantedAt(Do(d, ops[0]), ops[1..], t, g, i)
    ensures KeptFrom(d, ops, t, g, 0) <==> !Revokes(d, ops[0], g) && KeptFrom(d, ops, t, g, 1)
    ensures GrantedAt(d, ops, t, g, 0) <==> Grants(d, ops[0], g) && KeptFrom(d, ops, t, g, 1)
  {
    assert At(d, ops, t, 0) == d;
    forall i: nat ensures KeptFrom(d, ops, t, g, i + 1) <==> KeptFrom(Do(d, ops[0]), ops[1..], t, g, i) { KeptShift(d, ops, t, g, i); }
  }

  /** Authentication, over every run: an open file is authenticated if and only if it was opened
      for root, brought its master, or had its magic passed by a file of its master, and no
      master file of that master, itself apart, has been released since. */
  lemma AuthenticatedIs(d: Dev, ops: seq<Op>, t: Dev, g: nat)
    requires Start(d) && Inv(d) && Run(d, ops, t) && g in t.files
    ensures t.files[g].authenticated <==> exists i: nat :: GrantedAt(d, ops, t, g, i)
  {
    AuthenticFrom(d, ops, t, g);
  }

  // --- The handshake ---

  /** The i-th operation of the run takes the entry of `magic` away from master `m`. */
  ghost predicate UsesUp(d: Dev, op: Op, m: nat, magic: nat)
    requires Inv(d) && Allowed(d, op)
  {
    match op
    case OpAuthMagic(f, k) => k == magic && d.files[f].master == Some(m)
    case OpRelease(f) => d.files[f].master == Some(m) && d.files[f].magic == magic
    case _ => false
  }

  lemma HoldsStep(d: Dev, op: Op, m: nat, magic: nat, g: nat)
    requires Inv(d) && Allowed(d, op) && Holds(d, m, magic, g) && !UsesUp(d, op, m, magic)
    ensures Holds(Do(d, op), m, magic, g)
  {
    assert MagicsOk(d, m);
    match op {
      case OpRelease(f) => HoldsRelease(d, f, m, magic, g);
      case OpDropMaster(f) => HoldsDrop(d, f, m, magic, g);
      case OpSetMaster(f, works) => HoldsSet(d, f, works, m, magic, g);
      case OpGetMagic(_, _, _) =>
      case OpAuthMagic(_, _) =>
      case OpOpen(_, _, _, _, _) =>
    }
  }

  lemma HoldsDrop(d: Dev, f: nat, m: nat, magic: nat, g: nat)
    requires Inv(d) && f in d.files && Holds(d, m, magic, g)
    ensures Holds(DropMaster(d, f), m, magic, g)
  {
    DropKeeps(d, f, DropMaster(d, f));
  }

  lemma HoldsSet(d: Dev, f: nat, works: bool, m: nat, magic: nat, g: nat)
    requires Grounded(d) && f in d.files && Holds(d, m, magic, g)
    ensures Holds(SetMaster(d, f, works), m, magic, g)
  {
  }

  lemma HoldsRelease(d: Dev, f: nat, m: nat, magic: nat, g: nat)
    requires Inv(d) && f in d.files && Holds(d, m, magic, g) && MagicsOk(d, m)
    requires !(d.files[f].master == Some(m) && d.files[f].magic == magic)
    ensures Holds(Release(d, f), m, magic, g)
  {
    if d.files[f].master.Some? {
      ReleasedIs(d, f);
      if d.files[f].master == Some(m) { Survives(d, f, g, m); }
    }
  }

  /** A master that two files name outlives the release of one. */
  lemma Survives(d: Dev, f: nat, g: nat, m: nat)
    requires Inv(d) && f in d.files && g in d.files && g != f && d.files[f].master == d.files[g].master == Some(m)
    ensures m in Release(d, f).masters
  {
    ReleaseKeepsCounts(d, f, Release(d, f));
    assert g in Naming(d.files, m);
  }

  lemma {:induction false} HoldsAlong(d: Dev, ops: seq<Op>, t: Dev, m: nat, magic: nat, g: nat)
    requires Inv(d) && Run(d, ops, t) && Holds(d, m, magic, g)
    requires forall i: nat :: i < |ops| ==> !UsesUp(At(d, ops, t, i), ops[i], m, magic)
    ensures Inv(t) && Holds(t, m, magic, g)
    decreases |ops|
  {
    if ops != [] {
      var u := Do(d, ops[0]);
      assert At(d, ops, t, 0) == d;
      HoldsStep(d, ops[0], m, magic, g);
      StepKeepsInv(d, ops[0]);
      forall i: nat | i < |ops[1..]| ensures !UsesUp(At(u, ops[1..], t, i), ops[1..][i], m, magic) {
        assert At(u, ops[1..], t, i) == At(d, ops, t, i + 1);
      }
      HoldsAlong(u, ops[1..], t, m, magic, g);
    }
  }

  /** The handshake works: a magic given to a file, if its entry could be allocated, authenticates
      that file when any file of its master passes it, whatever happens in between, unless the
      magic has been passed already or a file with it has been released. */
  lemma HandshakeWorks(d: Dev, g: nat, magic: nat, ops: seq<Op>, t: Dev, f: nat)
    requires Inv(d) && Allowed(d, OpGetMagic(g, magic, true)) && d.files[g].magic == 0
    requires Run(Do(d, OpGetMagic(g, magic, true)), ops, t)
    requires var m := d.files[g].master.value;
      forall i: nat :: i < |ops| ==> !UsesUp(At(Do(d, OpGetMagic(g, magic, true)), ops, t, i), ops[i], m, magic)
    requires f in t.files && t.files[f].master == d.files[g].master
    ensures Inv(t) && Allowed(t, OpAuthMagic(f, magic)) && IsAuthentic(Do(t, OpAuthMagic(f, magic)), g)
  {
    var u, m := Do(d, OpGetMagic(g, magic, true)), d.files[g].master.value;
    StepKeepsInv(d, OpGetMagic(g, magic, true));
    HoldsAlong(u, ops, t, m, magic, g);
    assert MagicsOk(t, m);
    AuthMagicReaches(t, f, magic, g);
  }

  // --- The sequence ---

  /** The call of drm_getmagic draws a new magic. */
  ghost predicate Draws(d: Dev, op: Op)
    requires Inv(d) && Allowed(d, op)
  {
    op.OpGetMagic? && d.files[op.f].magic == 0
  }

  /** The operation takes `n` values from the sequence, of which the last is the magic. */
  ghost predicate TriedAt(d: Dev, op: Op, n: nat)
    requires Inv(d) && Allowed(d, op)
  {
    if Draws(d, op) then n > 0 && op.magic == Nth(d.sequence, n - 1) else n == 0
  }

  /** How many values each operation of the run has taken. */
  ghost predicate Tried(d: Dev, ops: seq<Op>, t: Dev, tries: seq<nat>)
    requires Run(d, ops, t)
  {
    |tries| == |ops| && forall i: nat :: i < |ops| ==> TriedAt(At(d, ops, t, i), ops[i], tries[i])
  }

  function Sum(xs: seq<nat>): nat { if xs == [] then 0 else xs[0] + Sum(xs[1..]) }

  lemma NthShift(sequence: nat, later: nat, k: nat, n: nat)
    requires Candidate(later) == Nth(sequence, k)
    ensures Nth(later, n) == Nth(sequence, k + n)
  {
    var x, m := Candidate(sequence) - 1 + k, U32 - 1;
    assert (x % m + n) % m == (x + n) % m;
  }

  lemma SequenceStep(d: Dev, op: Op, n: nat)
    requires Inv(d) && Allowed(d, op) && TriedAt(d, op, n) && d.sequence < U32
    ensures Do(d, op).sequence < U32 && Candidate(Do(d, op).sequence) == Nth(d.sequence, n)
  {
    if Draws(d, op) { NthStep(d.sequence, n - 1); } else { NthStep(d.sequence, 0); }
  }

  /** The i-th operation's magic is at its place in the sequence. */
  predicate Placed(sequence: nat, ops: seq<Op>, tries: seq<nat>, i: nat)
    requires i < |ops| == |tries|
  {
    ops[i].OpGetMagic? && tries[i] > 0 && ops[i].magic == Nth(sequence, Sum(tries[..i]) + tries[i] - 1)
  }

  lemma PlacesApart(sequence: nat, ops: seq<Op>, tries: seq<nat>, i: nat, j: nat)
    requires i < j < |ops| == |tries| && Placed(sequence, ops, tries, i) && Placed(sequence, ops, tries, j) && Sum(tries) <= U32 - 1
    ensures ops[i].magic != ops[j].magic
  {
    PlacesDiffer(tries, i, j);
    NthDistinct(sequence, Sum(tries[..i]) + tries[i] - 1, Sum(tries[..j]) + tries[j] - 1);
  }

  /** Before the i-th operation the sequence has come as far as the values tried until then. */
  lemma {:induction false} SequenceAt(d: Dev, ops: seq<Op>, t: Dev, tries: seq<nat>, i: nat) returns (later: nat)
    requires Run(d, ops, t) && Tried(d, ops, t, tries) && d.sequence < U32 && i < |ops|
    ensures later == At(d, ops, t, i).sequence < U32 && Candidate(later) == Nth(d.sequence, Sum(tries[..i]))
    decreases i
  {
    if i == 0 {
      later := d.sequence;
      NthNone(d.sequence);
      assert tries[..0] == [];
    } else {
      var before := SequenceAt(d, ops, t, tries, i - 1);
      later := SequenceNext(d, ops, t, tries, i - 1);
      Onward(d.sequence, before, later, tries, i - 1);
    }
  }

  lemma SequenceNext(d: Dev, ops: seq<Op>, t: Dev, tries: seq<nat>, i: nat) returns (later: nat)
    requires Run(d, ops, t) && Tried(d, ops, t, tries) && i + 1 < |ops| && At(d, ops, t, i).sequence < U32
    ensures later == At(d, ops, t, i + 1).sequence < U32 && Candidate(later) == Nth(At(d, ops, t, i).sequence, tries[i])
  {
    var u := At(d, ops, t, i);
    assert TriedAt(u, ops[i], tries[i]);
    SequenceStep(u, ops[i], tries[i]);
    AtNext(d, ops, t, i);
    later := Do(u, ops[i]).sequence;
  }

  lemma Onward(first: nat, before: nat, later: nat, tries: seq<nat>, i: nat)
    requires i < |tries| && Candidate(before) == Nth(first, Sum(tries[..i])) && Candidate(later) == Nth(before, tries[i])
    ensures Candidate(later) == Nth(first, Sum(tries[..i + 1]))
  {
    NthShift(first, before, Sum(tries[..i]), tries[i]);
    SumNext(tries, i);
  }

  lemma {:induction false} AtNext(d: Dev, ops: seq<Op>, t: Dev, i: nat)
    requires Run(d, ops, t) && i + 1 < |ops|
    ensures At(d, ops, t, i + 1) == Do(At(d, ops, t, i), ops[i])
    decreases |ops|
  {
    if i > 0 { AtNext(Do(d, ops[0]), ops[1..], t, i - 1); }
  }

  lemma {:induction false} SumNext(xs: seq<nat>, i: nat)
    requires i < |xs|
    ensures Sum(xs[..i + 1]) == Sum(xs[..i]) + xs[i]
  {
    if i > 0 {
      SumNext(xs[1..], i - 1);
      assert xs[..i + 1][1..] == xs[1..][..i] && xs[..i][1..] == xs[1..][..i - 1];
    }
  }

  lemma NthNone(sequence: nat)
    requires sequence < U32
    ensures Nth(sequence, 0) == Candidate(sequence)
  {
  }

  /** Every magic that is drawn has its own place in the sequence, behind those tried before. */
  lemma MagicsPlace(d: Dev, ops: seq<Op>, t: Dev, tries: seq<nat>, i: nat)
    requires Inv(d) && Run(d, ops, t) && Tried(d, ops, t, tries) && d.sequence < U32 && i < |ops|
    requires Draws(At(d, ops, t, i), ops[i])
    ensures Placed(d.sequence, ops, tries, i)
  {
    var later := SequenceAt(d, ops, t, tries, i);
    assert TriedAt(At(d, ops, t, i), ops[i], tries[i]);
    PlacedFrom(d.sequence, later, ops, tries, i);
  }

  lemma PlacedFrom(first: nat, later: nat, ops: seq<Op>, tries: seq<nat>, i: nat)
    requires i < |ops| == |tries| && ops[i].OpGetMagic? && tries[i] > 0
    requires ops[i].magic == Nth(later, tries[i] - 1) && Candidate(later) == Nth(first, Sum(tries[..i]))
    ensures Placed(first, ops, tries, i)
  {
    NthShift(first, later, Sum(tries[..i]), tries[i] - 1);
  }

  lemma {:induction false} SumSplit(xs: seq<nat>, i: nat)
    requires i < |xs|
    ensures Sum(xs[..i]) + xs[i] <= Sum(xs[..i + 1]) && Sum(xs[..i + 1]) <= Sum(xs)
  {
    if i > 0 {
      assert xs[..i][1..] == xs[1..][..i - 1] && xs[..i + 1][1..] == xs[1..][..i];
      SumSplit(xs[1..], i - 1);
    } else {
      assert xs[..1] == [xs[0]] && xs[..1][1..] == [];
    }
  }

  lemma {:induction false} SumRises(xs: seq<nat>, i: nat, j: nat)
    requires i <= j <= |xs|
    ensures Sum(xs[..i]) <= Sum(xs[..j])
    decreases j
  {
    if i < j { SumSplit(xs, j - 1); SumRises(xs, i, j - 1); }
  }

  /** Magics are unique: no value is given out twice, not even after it has been used up, until
      the sequence has gone through all of its 2^32 - 1 values. */
  lemma MagicsDiffer(d: Dev, ops: seq<Op>, t: Dev, tries: seq<nat>, i: nat, j: nat)
    requires Inv(d) && Run(d, ops, t) && Tried(d, ops, t, tries) && d.sequence < U32 && i < j < |ops| && Sum(tries) <= U32 - 1
    requires Draws(At(d, ops, t, i), ops[i]) && Draws(At(d, ops, t, j), ops[j])
    ensures ops[i].magic != ops[j].magic
  {
    MagicsPlace(d, ops, t, tries, i);
    MagicsPlace(d, ops, t, tries, j);
    PlacesApart(d.sequence, ops, tries, i, j);
  }

  lemma PlacesDiffer(tries: seq<nat>, i: nat, j: nat)
    requires i < j < |tries| && tries[i] > 0 && tries[j] > 0 && Sum(tries) <= U32 - 1
    ensures Sum(tries[..i]) + tries[i] - 1 < Sum(tries[..j]) + tries[j] - 1 < U32 - 1
  {
    SumSplit(tries, i);
    SumSplit(tries, j);
    SumRises(tries, i + 1, j);
  }
}
