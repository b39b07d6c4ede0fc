/** Fetching, repairing and assembling an EDID (drm_edid.c:126-213, 252-339), against VESA E-EDID
    Release A Rev. 2: header, section 3.3; checksum, section 3.11. */
module Edid {
  import opened Basics

  type Byte = x: int | 0 <= x < 256

  const LENGTH := 128
  const EXTENSIONS := 126
  const VERSION := 18
  const HEADER: seq<Byte> := [0x00, 0xff, 0xff, 0xff, 0xff, 0xff, 0xff, 0x00]

  /** Where a block starts in a record. */
  function Start(block: nat): nat { 128 * block }

  // --- One block ---

  /** How many of the first n bytes are those of the header. */
  function Score(b: seq<Byte>, n: nat): (score: nat)
    requires n <= 8 <= |b|
    ensures score <= n
    ensures score == n <==> forall k :: 0 <= k < n ==> b[k] == HEADER[k]
  {
    if n == 0 then 0 else Score(b, n - 1) + if b[n - 1] == HEADER[n - 1] then 1 else 0
  }

  function Sum(b: seq<Byte>): nat {
    if b == [] then 0 else Sum(b[..|b| - 1]) + b[|b| - 1]
  }

  /** A block that starts like a base block and has at most two header bytes wrong gets the header. */
  function Repaired(b: seq<Byte>): (r: seq<Byte>)
    requires |b| == LENGTH
    ensures |r| == LENGTH && r[8..] == b[8..]
  {
    if b[0] == 0 && Score(b, 8) >= 6 then HEADER + b[8..] else b
  }

  predicate Sums(b: seq<Byte>) {
    Sum(b) % 256 == 0
  }

  /** A block drm_edid_block_valid takes: a base header, if it starts with 0; a checksum, unless it starts
      with the CEA tag; major version 1, if it starts with 0. */
  predicate Accepted(b: seq<Byte>)
    requires |b| == LENGTH
  {
    && (b[0] == 0 ==> Score(b, 8) >= 6)
    && (Sums(Repaired(b)) || Repaired(b)[0] == 2)
    && (Repaired(b)[0] == 0 ==> b[VERSION] == 1)
  }

  /** Accepted, and nothing to repair. */
  predicate Clean(b: seq<Byte>)
    requires |b| == LENGTH
  {
    Accepted(b) && Repaired(b) == b
  }

  /** Repairing is idempotent: an accepted block is clean once repaired, and only then does it start
      with 0 if it has the whole header. */
  lemma RepairedIsClean(b: seq<Byte>)
    requires |b| == LENGTH && Accepted(b)
    ensures Clean(Repaired(b))
    ensures Repaired(b)[..8] == HEADER <==> b[0] == 0
  {
    var r := Repaired(b);
    if b[0] == 0 {
      assert r[..8] == HEADER && HEADER[..8] == HEADER;
      assert Score(r, 8) == 8;
      assert HEADER + r[8..] == r;
      assert r[VERSION] == r[8..][VERSION - 8] && b[VERSION] == b[8..][VERSION - 8];
    } else {
      assert r[..8][0] == b[0];
    }
  }

  /** drm_edid_block_valid on the block at `at`. A repaired header stays even if the block is refused. */
  method BlockValid(raw: array<Byte>, at: nat) returns (ok: bool)
    requires at + LENGTH <= raw.Length
    modifies raw
    ensures ok == Accepted(old(raw[at..at + LENGTH]))
    ensures raw[..] == old(raw[..at]) + Repaired(old(raw[at..at + LENGTH])) + old(raw[at + LENGTH..])
  {
    ghost var b := raw[at..at + LENGTH];
    assert raw[..] == raw[..at] + b + raw[at + LENGTH..];
    if raw[at] == 0 {
      var score := HeaderScore(raw, at);
      if score == 8 {
        assert b[..8] == HEADER[..8] == HEADER;
        assert HEADER + b[8..] == b;
      } else if score >= 6 {
        WriteHeader(raw, at);
      } else {
        return false;
      }
    }
    ghost var r := Repaired(b);
    assert raw[at..at + LENGTH] == r;
    var csum := Checksum(raw, at);
    if csum != 0 && raw[at] != 2 {
      assert raw[at] == r[0];
      return false;
    }
    assert raw[at] == r[0] && raw[at + VERSION] == r[VERSION] == r[8..][VERSION - 8] && b[VERSION] == b[8..][VERSION - 8];
    ok := raw[at] != 0 || raw[at + VERSION] == 1;
  }

  /** The scoring loop of drm_edid_block_valid. */
  method HeaderScore(raw: array<Byte>, at: nat) returns (score: nat)
    requires at + LENGTH <= raw.Length
    ensures score == Score(raw[at..at + LENGTH], 8)
  {
    score := 0;
    for i := 0 to 8
      invariant score == Score(raw[at..at + LENGTH], i)
    {
      if raw[at + i] == HEADER[i] {
        score := score + 1;
      }
    }
  }

  method WriteHeader(raw: array<Byte>, at: nat)
    requires at + LENGTH <= raw.Length
    modifies raw
    ensures raw[..] == old(raw[..at]) + HEADER + old(raw[at + 8..])
    ensures raw[at..at + LENGTH] == HEADER + old(raw[at..at + LENGTH])[8..]
  {
    for i := 0 to 8
      invariant forall k :: 0 <= k < raw.Length ==> raw[k] == if at <= k < at + i then HEADER[k - at] else old(raw[k])
    {
      raw[at + i] := HEADER[i];
    }
  }

  lemma SumSnoc(b: seq<Byte>, x: Byte)
    ensures Sum(b + [x]) == Sum(b) + x && Sum(b + [x]) % 256 == (Sum(b) % 256 + x) % 256
  {
    assert (b + [x])[..|b|] == b;
  }

  /** The 8-bit checksum loop. */
  method Checksum(raw: array<Byte>, at: nat) returns (csum: Byte)
    requires at + LENGTH <= raw.Length
    ensures csum == Sum(raw[at..at + LENGTH]) % 256
  {
    csum := 0;
    for i := 0 to LENGTH
      invariant csum == Sum(raw[at..at + i]) % 256
    {
      assert raw[at..at + i + 1] == raw[at..at + i] + [raw[at + i]];
      SumSnoc(raw[at..at + i], raw[at + i]);
      csum := (csum + raw[at + i]) % 256;
    }
  }

  // --- A whole record ---

  function Block(s: seq<Byte>, i: nat): (b: seq<Byte>)
    requires Start(i + 1) <= |s|
    ensures |b| == LENGTH
  {
    s[Start(i)..Start(i + 1)]
  }

  /** The record holds a base block and as many more as that one says. */
  predicate Whole(s: seq<Byte>) {
    |s| >= LENGTH && |s| == Start(s[EXTENSIONS] as nat + 1)
  }

  predicate AllClean(s: seq<Byte>)
    requires Whole(s)
  {
    CleanBlocks(s, s[EXTENSIONS] as nat + 1)
  }

  predicate CleanBlocks(s: seq<Byte>, n: nat)
    requires |s| == Start(n)
  {
    forall i: nat :: i < n ==> Clean(Block(s, i))
  }

  predicate AllAccepted(s: seq<Byte>, n: nat)
    requires |s| >= Start(n)
  {
    forall i: nat :: i < n ==> Accepted(Block(s, i))
  }

  /** The blocks before i have been checked: the rest is as it was, and if they were clean so are they. */
  predicate Checked(was: seq<Byte>, now: seq<Byte>, i: nat)
    requires Whole(was)
  {
    && |now| == |was| && now[EXTENSIONS] == was[EXTENSIONS]
    && (forall k :: Start(i) <= k < |was| ==> now[k] == was[k])
    && (AllClean(was) ==> now == was)
  }

  lemma CheckStep(was: seq<Byte>, now: seq<Byte>, i: nat, t: seq<Byte>)
    requires Whole(was) && i <= was[EXTENSIONS] && Checked(was, now, i)
    requires t == now[..Start(i)] + Repaired(Block(now, i)) + now[Start(i) + LENGTH..]
    ensures Block(now, i) == Block(was, i) && Checked(was, t, i + 1)
  {
    var at, b := Start(i), Block(was, i);
    assert Block(now, i) == b;
    if i == 0 {
      assert t[EXTENSIONS] == Repaired(b)[EXTENSIONS] == Repaired(b)[8..][EXTENSIONS - 8] == b[8..][EXTENSIONS - 8];
    }
    if AllClean(was) {
      assert Clean(b);
      assert now == now[..at] + Block(now, i) + now[at + LENGTH..];
    }
  }

  /** Block i of the walk of drm_edid_is_valid. */
  method CheckBlock(ghost was: seq<Byte>, raw: array<Byte>, i: nat) returns (ok: bool)
    requires Whole(was) && i <= was[EXTENSIONS] && Checked(was, raw[..], i)
    modifies raw
    ensures Checked(was, raw[..], i + 1) && ok == Accepted(Block(was, i))
  {
    ghost var now := raw[..];
    assert raw[Start(i)..Start(i) + LENGTH] == Block(now, i);
    ok := BlockValid(raw, Start(i));
    CheckStep(was, now, i, raw[..]);
  }

  /** drm_edid_is_valid; on a record of clean blocks it says yes and changes nothing. */
  method IsValid(ghost was: seq<Byte>, raw: array<Byte>) returns (ok: bool)
    requires was == raw[..] && Whole(was)
    modifies raw
    ensures AllClean(was) ==> ok && raw[..] == was
    ensures ok == AllAccepted(was, was[EXTENSIONS] as nat + 1)
  {
    var i: nat := 0;
    ok := true;
    while i <= raw[EXTENSIONS] && ok
      invariant i <= was[EXTENSIONS] as nat + 1 && Checked(was, raw[..], i) && ok == AllAccepted(was, i)
      decreases was[EXTENSIONS] as nat + 1 - i
    {
      ok := CheckBlock(was, raw, i);
      AcceptedSnoc(was, i);
      i := i + 1;
    }
    MoreAccepted(was, i);
  }

  lemma AcceptedSnoc(s: seq<Byte>, i: nat)
    requires |s| >= Start(i + 1)
    ensures AllAccepted(s, i + 1) == (AllAccepted(s, i) && Accepted(Block(s, i)))
  {
  }

  lemma MoreAccepted(s: seq<Byte>, i: nat)
    requires Whole(s) && i <= s[EXTENSIONS] as nat + 1
    ensures AllAccepted(s, s[EXTENSIONS] as nat + 1) ==> AllAccepted(s, i)
    ensures AllClean(s) ==> AllAccepted(s, s[EXTENSIONS] as nat + 1)
  {
  }

  // --- Fetching and assembling ---

  type Raw = b: seq<Byte> | |b| == LENGTH witness seq(LENGTH, _ => 0)

  /** What a transfer of a block comes to. */
  datatype Reply = Failed | Bytes(bytes: Raw)

  /** What the bus gives when block j is asked for the i-th time. */
  type Bus = (nat, nat) -> Reply

  /** What up to four tries at a block come to. */
  datatype Outcome = Broken | Bad | Good(block: Raw)

  function Fetched(bus: Bus, j: nat, i: nat): Outcome
    decreases 4 - i
  {
    if i >= 4 then Bad
    else match bus(j, i)
      case Failed => Broken
      case Bytes(b) => if Accepted(b) then Good(Repaired(b)) else Fetched(bus, j, i + 1)
  }

  lemma {:induction false} FetchedIsClean(bus: Bus, j: nat, i: nat)
    ensures var o := Fetched(bus, j, i); o.Good? ==> Clean(o.block)
    decreases 4 - i
  {
    if i < 4 && bus(j, i).Bytes? {
      if Accepted(bus(j, i).bytes) {
        RepairedIsClean(bus(j, i).bytes);
      } else {
        FetchedIsClean(bus, j, i + 1);
      }
    }
  }

  predicate IsZero(b: Raw) {
    forall k :: 0 <= k < LENGTH ==> b[k] == 0
  }

  /** A monitor that answers the first try with zeros has no EDID and is not asked again. */
  function Base(bus: Bus): Outcome {
    if bus(0, 0).Bytes? && IsZero(bus(0, 0).bytes) then Bad else Fetched(bus, 0, 0)
  }

  /** The accepted ones of the first n extension blocks, unless a transfer fails. */
  datatype Chain = Cut | Kept(bytes: seq<Byte>, count: nat)

  function Extensions(tries: nat -> Outcome, n: nat): (c: Chain)
    ensures c.Kept? ==> c.count <= n && |c.bytes| == Start(c.count)
  {
    if n == 0 then Kept([], 0)
    else
      var c := Extensions(tries, n - 1);
      if c.Cut? then Cut
      else match tries(n)
        case Broken => Cut
        case Bad => c
        case Good(b) => Kept(c.bytes + b, c.count + 1)
  }

  /** What the tries at each block of this bus come to. */
  function Tried(bus: Bus): nat -> Outcome {
    (j: nat) => Fetched(bus, j, 0)
  }

  /** The base block with its extension count lowered and the difference added to the checksum byte. */
  function Lowered(b: Raw, k: Byte): Raw
    requires k <= b[EXTENSIONS]
  {
    b[LENGTH - 1 := (b[LENGTH - 1] + (b[EXTENSIONS] - k)) % 256][EXTENSIONS := k]
  }

  /** What drm_do_get_edid returns; `grow` and `shrink` are whether the two reallocations succeed. */
  function Assembled(bus: Bus, grow: bool, shrink: bool): Option<seq<Byte>> {
    match Base(bus)
    case Broken => None
    case Bad => None
    case Good(b) =>
      if b[EXTENSIONS] == 0 then Some(b)
      else if !grow then None
      else Joined(b, Extensions(Tried(bus), b[EXTENSIONS]), shrink)
  }

  /** The base block and the extension blocks that were kept. */
  function Joined(b: Raw, c: Chain, shrink: bool): Option<seq<Byte>>
    requires c.Kept? ==> c.count <= b[EXTENSIONS]
  {
    match c
    case Cut => None
    case Kept(bytes, count) =>
      if count == b[EXTENSIONS] then Some(b + bytes)
      else if shrink then Some(Lowered(b, count) + bytes)
      else None
  }

  lemma SumSplit(b: Raw)
    ensures Sum(b) == Sum(b[..EXTENSIONS]) + b[EXTENSIONS] + b[LENGTH - 1]
  {
    assert b[..LENGTH - 1][..EXTENSIONS] == b[..EXTENSIONS];
  }

  /** Lowering the count keeps the checksum, and with it an accepted block accepted. */
  lemma LoweredIsClean(b: Raw, k: Byte)
    requires Clean(b) && k <= b[EXTENSIONS]
    ensures Clean(Lowered(b, k)) && Lowered(b, k)[EXTENSIONS] == k
    ensures Sum(Lowered(b, k)) % 256 == Sum(b) % 256
  {
    var r := Lowered(b, k);
    SumSplit(b);
    SumSplit(r);
    assert r[..EXTENSIONS] == b[..EXTENSIONS];
    assert r[..8] == b[..8];
    if b[0] == 0 {
      assert b[..8] == (HEADER + b[8..])[..8] == HEADER;
      assert HEADER[..8] == HEADER;
      assert r == HEADER + r[8..];
    }
  }

  lemma CleanAppend(s: seq<Byte>, n: nat, b: Raw)
    requires |s| == Start(n) && CleanBlocks(s, n) && Clean(b)
    ensures CleanBlocks(s + b, n + 1)
  {
    forall i: nat | i < n + 1 ensures Clean(Block(s + b, i)) {
      if i < n {
        assert Block(s + b, i) == Block(s, i);
      } else {
        assert Block(s + b, i) == b;
      }
    }
  }

  lemma CleanPrepend(b: Raw, s: seq<Byte>, n: nat)
    requires |s| == Start(n) && CleanBlocks(s, n) && Clean(b)
    ensures CleanBlocks(b + s, n + 1)
  {
    forall i: nat | i < n + 1 ensures Clean(Block(b + s, i)) {
      if i == 0 {
        assert Block(b + s, 0) == b;
      } else {
        assert Block(b + s, i) == Block(s, i - 1);
      }
    }
  }

  lemma {:induction false} ExtensionsAreClean(tries: nat -> Outcome, n: nat)
    requires forall j: nat :: tries(j).Good? ==> Clean(tries(j).block)
    ensures var c := Extensions(tries, n); c.Kept? ==> CleanBlocks(c.bytes, c.count)
  {
    if n > 0 {
      ExtensionsAreClean(tries, n - 1);
      var c := Extensions(tries, n - 1);
      if c.Kept? && tries(n).Good? {
        CleanAppend(c.bytes, c.count, tries(n).block);
      }
    }
  }

  /** Whatever the bus gives, a record that is returned has the length its own count says, and
      drm_edid_is_valid accepts it without changing a byte. */
  lemma AssembledIsValid(bus: Bus, grow: bool, shrink: bool)
    requires Assembled(bus, grow, shrink).Some?
    ensures var s := Assembled(bus, grow, shrink).value; Whole(s) && AllClean(s)
  {
    var b := Base(bus).block;
    var s := Assembled(bus, grow, shrink).value;
    FetchedIsClean(bus, 0, 0);
    assert CleanBlocks([], 0);
    CleanPrepend(b, [], 0);
    assert b + [] == b;
    if b[EXTENSIONS] != 0 {
      forall j: nat ensures Tried(bus)(j).Good? ==> Clean(Tried(bus)(j).block) {
        FetchedIsClean(bus, j, 0);
      }
      ExtensionsAreClean(Tried(bus), b[EXTENSIONS]);
      var c := Extensions(Tried(bus), b[EXTENSIONS]);
      LoweredIsClean(b, c.count);
      CleanPrepend(b, c.bytes, c.count);
      CleanPrepend(Lowered(b, c.count), c.bytes, c.count);
    }
  }

  /** What is returned has an EDID's header, version and checksum exactly when it starts with 0: a base
      block that starts otherwise is not held to the header or the version, and one that starts with
      the CEA tag not even to the checksum. */
  lemma ReturnedIsEdid(bus: Bus, grow: bool, shrink: bool)
    requires Assembled(bus, grow, shrink).Some?
    ensures var s := Assembled(bus, grow, shrink).value;
      |s| >= LENGTH && (s[0] == 0 <==> s[..8] == HEADER && s[VERSION] == 1 && Sums(s[..LENGTH]))
  {
    AssembledIsValid(bus, grow, shrink);
    var s := Assembled(bus, grow, shrink).value;
    var b := Block(s, 0);
    assert Clean(b) && s[..LENGTH] == b;
    assert s[..8] == b[..8];
    if s[0] == 0 {
      assert b[..8] == (HEADER + b[8..])[..8] == HEADER;
    } else {
      assert s[..8][0] != HEADER[0];
    }
  }

  /** A base block that starts with the CEA tag, and is not zero. */
  function TaggedAt(k: nat): Byte { if k == 0 then 2 else if k == 1 then 1 else 0 }

  lemma {:induction false} TaggedSum(b: Raw, n: nat)
    requires (forall k :: 0 <= k < LENGTH ==> b[k] == TaggedAt(k)) && n <= LENGTH
    ensures Sum(b[..n]) == if n == 0 then 0 else if n == 1 then 2 else 3
    decreases n
  {
    if n > 0 {
      TaggedSum(b, n - 1);
      assert b[..n][..n - 1] == b[..n - 1];
    }
  }

  /** Such a block is returned as a record, without header, version or checksum. */
  lemma TaggedIsReturned(b: Raw, bus: Bus, grow: bool, shrink: bool)
    requires (forall k :: 0 <= k < LENGTH ==> b[k] == TaggedAt(k)) && bus(0, 0) == Bytes(b)
    ensures Assembled(bus, grow, shrink).Some? && Assembled(bus, grow, shrink).value == b
    ensures !Sums(b) && b[..8] != HEADER && b[VERSION] != 1
  {
    TaggedSum(b, LENGTH);
    assert b[..LENGTH] == b;
    assert b[..8][0] != HEADER[0];
    assert Accepted(b) && Repaired(b) == b;
    assert Fetched(bus, 0, 0) == Good(b);
  }

  // --- The same on a buffer ---

  /** drm_do_probe_ddc_edid into the block at `at`. */
  method Probe(bus: Bus, j: nat, i: nat, raw: array<Byte>, at: nat) returns (ok: bool)
    requires at + LENGTH <= raw.Length
    modifies raw
    ensures ok == bus(j, i).Bytes?
    ensures raw[..] == old(raw[..at]) + (if ok then bus(j, i).bytes else old(raw[at..at + LENGTH])) + old(raw[at + LENGTH..])
  {
    match bus(j, i) {
      case Failed => return false;
      case Bytes(b) =>
        for k := 0 to LENGTH
          invariant forall x :: 0 <= x < raw.Length ==> raw[x] == if at <= x < at + k then b[x - at] else old(raw[x])
        {
          raw[at + k] := b[k];
        }
        return true;
    }
  }

  /** One try at block j: what is in the buffer is what the bus gave, repaired. */
  method Attempt(bus: Bus, j: nat, i: nat, raw: array<Byte>, at: nat) returns (sent: bool, ok: bool)
    requires at + LENGTH <= raw.Length
    modifies raw
    ensures sent == bus(j, i).Bytes? && ok == (sent && Accepted(bus(j, i).bytes))
    ensures raw[..at] == old(raw[..at]) && raw[at + LENGTH..] == old(raw[at + LENGTH..])
    ensures sent ==> raw[at..at + LENGTH] == Repaired(bus(j, i).bytes)
  {
    ok := false;
    sent := Probe(bus, j, i, raw, at);
    if sent {
      assert raw[at..at + LENGTH] == bus(j, i).bytes;
      ok := BlockValid(raw, at);
    }
  }

  lemma {:induction false} ZeroScore(b: Raw, n: nat)
    requires IsZero(b) && 1 <= n <= 7
    ensures Score(b, n) == 1
  {
    if n > 1 {
      ZeroScore(b, n - 1);
    } else {
      assert Score(b, 0) == 0;
    }
  }

  /** A block of zeros is refused unrepaired, and no repair makes one. */
  lemma ZeroIsRefused(b: Raw)
    ensures IsZero(Repaired(b)) <==> IsZero(b)
    ensures IsZero(b) ==> !Accepted(b)
  {
    if IsZero(b) {
      ZeroScore(b, 7);
      assert Score(b, 8) == 2;
    } else if Repaired(b) != b {
      assert Repaired(b)[1] == HEADER[1];
    }
  }

  /** The tries at an extension block. */
  method Tries(bus: Bus, j: nat, raw: array<Byte>, at: nat) returns (sent: bool, ok: bool)
    requires at + LENGTH <= raw.Length
    modifies raw
    ensures raw[..at] == old(raw[..at])
    ensures match Fetched(bus, j, 0)
            case Broken => !sent && !ok
            case Bad => sent && !ok
            case Good(b) => sent && ok && raw[at..at + LENGTH] == b
  {
    sent, ok := true, false;
    var i := 0;
    while i < 4 && !ok
      invariant i <= 4 && sent && raw[..at] == old(raw[..at])
      invariant ok ==> Fetched(bus, j, 0) == Good(raw[at..at + LENGTH])
      invariant !ok ==> Fetched(bus, j, i) == Fetched(bus, j, 0)
    {
      sent, ok := Attempt(bus, j, i, raw, at);
      if !sent { return; }
      i := i + 1;
    }
  }

  lemma OneMore(tries: nat -> Outcome, j: nat, kept: seq<Byte>, valid: nat)
    requires j > 0 && Extensions(tries, j - 1) == Kept(kept, valid)
    ensures Extensions(tries, j) ==
      match tries(j) {
        case Broken => Cut
        case Bad => Kept(kept, valid)
        case Good(b) => Kept(kept + b, valid + 1)
      }
  {
  }

  /** The loop over the extension blocks. The next accepted block always goes right behind the last one,
      over whatever a refused one left there. */
  method Collect(bus: Bus, ghost tries: nat -> Outcome, n: nat, whole: array<Byte>) returns (sent: bool, valid: nat, ghost kept: seq<Byte>)
    requires whole.Length == Start(n + 1) && tries == Tried(bus)
    modifies whole
    ensures whole[..LENGTH] == old(whole[..LENGTH]) && valid <= n
    ensures Extensions(tries, n) == if sent then Kept(kept, valid) else Cut
    ensures sent ==> whole[LENGTH..Start(valid + 1)] == kept
  {
    sent, valid, kept := true, 0, [];
    for j := 1 to n + 1
      invariant valid < j && sent && whole[..LENGTH] == old(whole[..LENGTH])
      invariant whole[LENGTH..Start(valid + 1)] == kept
      invariant Extensions(tries, j - 1) == Kept(kept, valid)
    {
      OneMore(tries, j, kept, valid);
      sent, valid, kept := AppendOne(bus, j, tries(j), whole, valid, kept);
      if !sent {
        CutStaysCut(tries, j, n);
        return;
      }
    }
  }

  /** The extension blocks, and what follows their loop. */
  method Append(bus: Bus, ghost b: Raw, ghost c: Chain, n: nat, whole: array<Byte>, shrink: bool) returns (edid: array?<Byte>)
    requires n == b[EXTENSIONS] && c == Extensions(Tried(bus), n)
    requires whole.Length == Start(n + 1) && whole[..LENGTH] == b
    modifies whole
    ensures (edid != null) == Joined(b, c, shrink).Some?
    ensures edid != null ==> edid[..] == Joined(b, c, shrink).value
  {
    var sent, valid, kept := Collect(bus, Tried(bus), n, whole);
    if !sent { return null; }
    edid := Finish(b, whole, valid, shrink);
  }

  /** Block j goes behind the blocks that were kept, and stays if it is accepted. */
  method AppendOne(bus: Bus, j: nat, ghost o: Outcome, whole: array<Byte>, valid: nat, ghost kept: seq<Byte>)
    returns (sent: bool, now: nat, ghost more: seq<Byte>)
    requires Start(valid + 2) <= whole.Length && whole[LENGTH..Start(valid + 1)] == kept && o == Tried(bus)(j)
    modifies whole
    ensures whole[..LENGTH] == old(whole[..LENGTH]) && sent == !o.Broken?
    ensures now == (if o.Good? then valid + 1 else valid) && more == if o.Good? then kept + o.block else kept
    ensures sent ==> whole[LENGTH..Start(now + 1)] == more
  {
    ghost var before := whole[..];
    var at, ok := Start(valid + 1), false;
    sent, ok := Tries(bus, j, whole, at);
    assert whole[..at] == whole[..][..at] && before[..at] == old(whole[..at]);
    KeepsPrefix(before, whole[..], at);
    assert ok ==> whole[at..at + LENGTH] == o.block;
    assert whole[LENGTH..at + LENGTH] == whole[LENGTH..at] + whole[at..at + LENGTH];
    now, more := if ok then valid + 1 else valid, if ok then kept + o.block else kept;
  }

  lemma KeepsPrefix(before: seq<Byte>, after: seq<Byte>, at: nat)
    requires LENGTH <= at <= |before| == |after| && before[..at] == after[..at]
    ensures before[..LENGTH] == after[..LENGTH] && before[LENGTH..at] == after[LENGTH..at]
  {
    assert before[..at][..LENGTH] == before[..LENGTH] && after[..at][..LENGTH] == after[..LENGTH];
    assert before[..at][LENGTH..] == before[LENGTH..at] && after[..at][LENGTH..] == after[LENGTH..at];
  }

  lemma {:induction false} CutStaysCut(tries: nat -> Outcome, j: nat, n: nat)
    requires 1 <= j <= n && tries(j).Broken?
    ensures Extensions(tries, n).Cut?
    decreases n
  {
    if j < n {
      CutStaysCut(tries, j, n - 1);
    }
  }

  /** Dropping the blocks that were refused. */
  method Finish(ghost b: Raw, whole: array<Byte>, valid: nat, shrink: bool) returns (edid: array?<Byte>)
    requires whole.Length == Start(b[EXTENSIONS] as nat + 1) && whole[..LENGTH] == b && valid <= b[EXTENSIONS]
    modifies whole
    ensures var made := Joined(b, Kept(old(whole[LENGTH..Start(valid + 1)]), valid), shrink);
      (edid != null) == made.Some? && (edid != null ==> edid[..] == made.value)
  {
    ghost var rest := whole[LENGTH..Start(valid + 1)];
    assert whole[EXTENSIONS] == whole[..LENGTH][EXTENSIONS];
    if valid == whole[EXTENSIONS] {
      assert whole[..] == whole[..LENGTH] + rest;
      return whole;
    }
    whole[LENGTH - 1] := (whole[LENGTH - 1] + (whole[EXTENSIONS] - valid)) % 256;
    whole[EXTENSIONS] := valid;
    assert whole[..LENGTH] == Lowered(b, valid);
    assert whole[LENGTH..Start(valid + 1)] == rest;
    if !shrink { return null; }
    edid := new Byte[Start(valid + 1)];
    forall k | 0 <= k < edid.Length { edid[k] := whole[k]; }
    assert edid[..] == whole[..edid.Length] == whole[..LENGTH] + whole[LENGTH..Start(valid + 1)];
  }

  /** drm_do_get_edid: the record or NULL, and how much connector->null_edid_counter grows. */
  method GetEdid(bus: Bus, grow: bool, shrink: bool) returns (edid: array?<Byte>, nulls: nat)
    ensures match Assembled(bus, grow, shrink)
            case None => edid == null
            case Some(s) => edid != null && edid[..] == s
    ensures nulls == if bus(0, 0).Bytes? && IsZero(bus(0, 0).bytes) then 1 else 0
  {
    nulls := 0;
    var block := new Byte[LENGTH];
    var i := 0;
    var ok := false;
    while i < 4 && !ok
      invariant i <= 4 && nulls == 0
      invariant i > 0 ==> !(bus(0, 0).Bytes? && IsZero(bus(0, 0).bytes))
      invariant ok ==> Base(bus) == Good(block[..])
      invariant !ok ==> Fetched(bus, 0, i) == Fetched(bus, 0, 0)
    {
      var sent;
      sent, ok := Attempt(bus, 0, i, block, 0);
      if !sent { return null, 0; }
      assert block[..] == block[0..LENGTH];
      if !ok && i == 0 {
        ZeroIsRefused(bus(0, 0).bytes);
        var zero := AllZero(block);
        if zero { return null, 1; }
      }
      i := i + 1;
    }
    if !ok { return null, 0; }
    ghost var b := block[..];
    if block[EXTENSIONS] == 0 { return block, 0; }
    if !grow { return null, 0; }
    var whole := new Byte[Start(block[EXTENSIONS] as nat + 1)];
    forall k | 0 <= k < LENGTH { whole[k] := block[k]; }
    assert whole[..LENGTH] == b;
    edid := Append(bus, b, Extensions(Tried(bus), b[EXTENSIONS]), block[EXTENSIONS], whole, shrink);
  }

  /** drm_edid_is_zero of a block that was refused, repaired or not. */
  method AllZero(raw: array<Byte>) returns (zero: bool)
    requires raw.Length == LENGTH
    ensures zero == IsZero(raw[..])
  {
    for i := 0 to LENGTH
      invariant forall k :: 0 <= k < i ==> raw[k] == 0
    {
      if raw[i] != 0 { return false; }
    }
    return true;
  }
}