/** Reading the vblank count and its timestamp without a lock, word by word, while
    drm_handle_vblank commits new ones (drm_irq.c:41-43, 753-770, 1228-1253). */
module VblankRing {
  import opened Basics

  /** struct timeval, stored and loaded as two words. */
  datatype Time = Time(sec: int, usec: int)

  /** Where drm_handle_vblank is in storing the next timestamp. */
  datatype Writer = Idle | Storing(t: Time) | HalfStored(t: Time) | Stored(t: Time)

  /** Where drm_vblank_count_and_time is. `from` is the number of commits there were
      when it loaded the count; the source has no such variable. */
  datatype Reader =
    | Begin
    | Counted(cur: nat, from: nat)
    | HalfRead(cur: nat, from: nat, sec: int)
    | AllRead(cur: nat, from: nat, sec: int, usec: int)
    | Done(cur: nat, from: nat, time: Time)

  /** The u32 count, the two slots of the ring, and the log of all commits: the pair
      for the `n`-th vblank is (n mod 2^32, log[n]). */
  datatype Ring = Ring(count: nat, even: Time, odd: Time, writer: Writer, reader: Reader, log: seq<Time>)
  {
    function Slot(c: nat): Time { if c % 2 == 0 then even else odd }

    function SetSlot(c: nat, t: Time): Ring { if c % 2 == 0 then this.(even := t) else this.(odd := t) }
  }

  datatype Step = WStart(t: Time) | WSec | WUsec | WCommit | RCount | RSec | RUsec | RCheck

  /** fewer than 2^32 commits while the reader is at it */
  predicate InTime(s: Ring) {
    match s.reader
    case Counted(_, from) => |s.log| - from < U32
    case HalfRead(_, from, _) => |s.log| - from < U32
    case AllRead(_, from, _, _) => |s.log| - from < U32
    case _ => true
  }

  predicate Enabled(s: Ring, e: Step) {
    match e
    case WStart(_) => s.writer.Idle?
    case WSec => s.writer.Storing?
    case WUsec => s.writer.HalfStored?
    case WCommit => s.writer.Stored?
    case RCount => s.reader.Begin?
    case RSec => s.reader.Counted?
    case RUsec => s.reader.HalfRead?
    case RCheck => s.reader.AllRead?
  }

  function Do(s: Ring, e: Step): Ring
    requires Enabled(s, e)
  {
    var next := (s.count + 1) % U32;
    match e
    case WStart(t) => s.(writer := Storing(t))
    case WSec => s.SetSlot(next, s.Slot(next).(sec := s.writer.t.sec)).(writer := HalfStored(s.writer.t))
    case WUsec => s.SetSlot(next, s.Slot(next).(usec := s.writer.t.usec)).(writer := Stored(s.writer.t))
    case WCommit => s.(count := next, writer := Idle, log := s.log + [s.writer.t])
    case RCount => s.(reader := Counted(s.count, |s.log|))
    case RSec => s.(reader := HalfRead(s.reader.cur, s.reader.from, s.Slot(s.reader.cur).sec))
    case RUsec => s.(reader := AllRead(s.reader.cur, s.reader.from, s.reader.sec, s.Slot(s.reader.cur).usec))
    case RCheck =>
      if s.count != s.reader.cur then s.(reader := Begin)
      else s.(reader := Done(s.reader.cur, s.reader.from, Time(s.reader.sec, s.reader.usec)))
  }

  /** The count and the slot it selects are the last commit; the other slot is being filled. */
  predicate Committed(s: Ring) {
    && |s.log| > 0 && s.count == (|s.log| - 1) % U32 && s.Slot(s.count) == s.log[|s.log| - 1]
    && (s.writer.HalfStored? ==> s.Slot(s.count + 1).sec == s.writer.t.sec)
    && (s.writer.Stored? ==> s.Slot(s.count + 1) == s.writer.t)
  }

  /** While no commit has intervened, what has been read is from the last commit. */
  predicate Sound(s: Ring) {
    match s.reader
    case Begin => true
    case Counted(cur, from) => Loaded(s, cur, from)
    case HalfRead(cur, from, sec) => Loaded(s, cur, from) && (from == |s.log| ==> sec == s.log[from - 1].sec)
    case AllRead(cur, from, sec, usec) => Loaded(s, cur, from) && (from == |s.log| ==> Time(sec, usec) == s.log[from - 1])
    case Done(cur, from, time) => 0 < from <= |s.log| && cur == (from - 1) % U32 && time == s.log[from - 1]
  }

  predicate Loaded(s: Ring, cur: nat, from: nat) {
    0 < from <= |s.log| && cur == (from - 1) % U32
  }

  lemma Parity(x: nat)
    ensures (x + 1) % U32 % 2 == (x + 1) % 2 && ((x % U32) + 1) % U32 == (x + 1) % U32
  {
    assert x == (x / U32) * U32 + x % U32;
  }

  lemma StepKeeps(s: Ring, e: Step)
    requires Committed(s) && Sound(s) && InTime(s) && Enabled(s, e)
    ensures Committed(Do(s, e)) && Sound(Do(s, e))
  {
    Parity(s.count);
    Parity(|s.log| - 1);
    if e.RCheck? && s.count == s.reader.cur {
      SameCount(s.reader.from - 1, |s.log| - 1);
    }
  }

  /** Two counts fewer than 2^32 apart with the same low word are the same. */
  lemma SameCount(a: nat, b: nat)
    requires a <= b < a + U32 && a % U32 == b % U32
    ensures a == b
  {
  }

  ghost predicate Run(s: Ring, steps: seq<Step>, t: Ring)
    decreases |steps|
  {
    if steps == [] then t == s
    else InTime(s) && Enabled(s, steps[0]) && Run(Do(s, steps[0]), steps[1..], t)
  }

  /** The reader loaded its count when there were `base` commits at least. */
  predicate Since(s: Ring, base: nat) {
    |s.log| >= base &&
    match s.reader
    case Begin => true
    case Counted(_, from) => from >= base
    case HalfRead(_, from, _) => from >= base
    case AllRead(_, from, _, _) => from >= base
    case Done(_, from, _) => from >= base
  }

  /** However the words interleave, what the reader returns is one commit's count
      with that commit's time: never torn, never a mix of two vblanks, and never
      of a vblank before the last one there was when it set out. */
  lemma ReadIsCommitted(s: Ring, steps: seq<Step>, t: Ring)
    requires Committed(s) && s.reader.Begin? && Run(s, steps, t)
    ensures t.reader.Done? ==>
      |s.log| <= t.reader.from <= |t.log| && t.reader.cur == (t.reader.from - 1) % U32 && t.reader.time == t.log[t.reader.from - 1]
  {
    RunKeeps(s, steps, t, |s.log|);
  }

  lemma {:induction false} RunKeeps(s: Ring, steps: seq<Step>, t: Ring, base: nat)
    requires Committed(s) && Sound(s) && Since(s, base) && Run(s, steps, t)
    ensures Committed(t) && Sound(t) && Since(t, base)
    decreases |steps|
  {
    if steps != [] {
      StepKeeps(s, steps[0]);
      RunKeeps(Do(s, steps[0]), steps[1..], t, base);
    }
  }

  // --- What is committed, and that a read ends ---

  /** The timestamps the handler sets out to store. */
  function Taken(steps: seq<Step>): seq<Time> {
    if steps == [] then [] else (if steps[0].WStart? then [steps[0].t] else []) + Taken(steps[1..])
  }

  /** The one it has not committed yet. */
  function Underway(s: Ring): seq<Time> {
    match s.writer
    case Idle => []
    case Storing(t) => [t]
    case HalfStored(t) => [t]
    case Stored(t) => [t]
  }

  /** Every timestamp is committed once, in order, none is lost and none made up. */
  lemma {:induction false} TimesAreCommitted(s: Ring, steps: seq<Step>, t: Ring)
    requires Run(s, steps, t)
    ensures t.log + Underway(t) == s.log + Underway(s) + Taken(steps)
    decreases |steps|
  {
    if steps != [] {
      var u := Do(s, steps[0]);
      TimesAreCommitted(u, steps[1..], t);
      assert u.log + Underway(u) == s.log + Underway(s) + if steps[0].WStart? then [steps[0].t] else [];
      Regroup(s.log + Underway(s), if steps[0].WStart? then [steps[0].t] else [], Taken(steps[1..]));
    } else {
      assert s.log + Underway(s) + [] == s.log + Underway(s);
    }
  }

  lemma Regroup<T>(a: seq<T>, b: seq<T>, c: seq<T>)
    ensures a + b + c == a + (b + c)
  {
  }

  predicate OfReader(e: Step) { e.RCount? || e.RSec? || e.RUsec? || e.RCheck? }

  function Reads(steps: seq<Step>): nat {
    if steps == [] then 0 else (if OfReader(steps[0]) then 1 else 0) + Reads(steps[1..])
  }

  /** The accesses a reader that is not disturbed still has to make. */
  function ToRead(r: Reader): nat {
    match r
    case Begin => 4
    case Counted(_, _) => 3
    case HalfRead(_, _, _) => 2
    case AllRead(_, _, _, _) => 1
    case Done(_, _, _) => 0
  }

  lemma {:induction false} ReadsCountDown(s: Ring, steps: seq<Step>, t: Ring)
    requires Run(s, steps, t) && (forall i :: 0 <= i < |steps| ==> !steps[i].WCommit?)
    requires s.reader.Counted? || s.reader.HalfRead? || s.reader.AllRead? ==> s.reader.cur == s.count
    ensures t.log == s.log && t.count == s.count && ToRead(t.reader) + Reads(steps) == ToRead(s.reader)
    decreases |steps|
  {
    if steps != [] { ReadsCountDown(Do(s, steps[0]), steps[1..], t); }
  }

  /** A read that no commit disturbs ends after four accesses, with the last vblank there was. */
  lemma QuietReadEnds(s: Ring, steps: seq<Step>, t: Ring)
    requires Committed(s) && s.reader.Begin? && Run(s, steps, t) && Reads(steps) == 4
    requires forall i :: 0 <= i < |steps| ==> !steps[i].WCommit?
    ensures t.reader.Done? && t.reader.cur == s.count && t.reader.time == s.log[|s.log| - 1]
  {
    ReadsCountDown(s, steps, t);
    ReadIsCommitted(s, steps, t);
  }
}
