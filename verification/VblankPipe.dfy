/** The vblank state of one pipe, and the routines that run on it under vbl_lock
    and vblank_time_lock (drm_irq.c:104-190, 789-966, 1201-1264). */
module VblankPipe {
  import opened Arith
  import opened Basics

  /** DRM_REDUNDANT_VBLIRQ_THRESH_NS, and the same threshold when disabling. */
  const THRESH: nat := 1_000_000

  /** What the hardware and the timestamp query say at one instant: the vblank
      counter register, the time of the last vblank, whether that is precise. */
  datatype Hw = Hw(counter: nat, stamp: int, precise: bool)

  /** _vblank_count, vblank_refcount, vblank_enabled, last_vblank, the two slots of
      _vblank_time and vblank_inmodeset of one pipe. */
  datatype Pipe = Pipe(count: nat, refs: int, enabled: bool, last: nat, even: int, odd: int, marked: bool, holds: bool)
  {
    /** vblanktimestamp */
    function Stamp(c: nat): int { if c % 2 == 0 then even else odd }

    function SetStamp(c: nat, t: int): Pipe { if c % 2 == 0 then this.(even := t) else this.(odd := t) }
  }

  function Distance(a: int, b: int): int { if a < b then b - a else a - b }

  /** drm_handle_vblank, before it wakes anyone. */
  function Handle(p: Pipe, hw: Hw): Pipe {
    if !p.enabled then p
    else if Distance(hw.stamp, p.Stamp(p.count)) > THRESH then
      p.SetStamp((p.count + 1) % U32, hw.stamp).(count := (p.count + 1) % U32)
    else p
  }

  /** vblank_disable_and_save */
  function Disable(p: Pipe, hw: Hw): Pipe {
    var count := if hw.precise && Distance(hw.stamp, p.Stamp(p.count)) > THRESH then (p.count + 1) % U32 else p.count;
    p.(enabled := false, last := hw.counter, count := count, even := 0, odd := 0)
  }

  /** The body of the loop of vblank_disable_fn. */
  function Timer(p: Pipe, hw: Hw): Pipe {
    if p.refs == 0 && p.enabled then Disable(p, hw) else p
  }

  /** The frames drm_update_vblank_count makes up for, in 32-bit arithmetic. */
  function Missed(current: nat, last: nat, maxCount: nat): nat
    requires current < U32 && last < U32
  {
    if current < last then (current - last + U32 + maxCount) % U32 else current - last
  }

  /** drm_update_vblank_count */
  function Update(p: Pipe, hw: Hw, maxCount: nat): Pipe
    requires hw.counter < U32 && p.last < U32
  {
    var slot := (p.count + Missed(hw.counter, p.last, maxCount)) % U32;
    (if hw.precise then p.SetStamp(slot, hw.stamp) else p).(count := slot)
  }

  /** drm_vblank_get; `works` is whether the driver can enable the interrupt. */
  function Get(p: Pipe, hw: Hw, maxCount: nat, works: bool): (Pipe, bool)
    requires hw.counter < U32 && p.last < U32
  {
    var q := p.(refs := p.refs + 1);
    if q.refs == 1 then
      if q.enabled then (q, true)
      else if works then (Update(q.(enabled := true), hw, maxCount), true)
      else (p, false)
    else if q.enabled then (q, true) else (p, false)
  }

  /** drm_vblank_put, whose BUG_ON is `p.refs != 0`. */
  function Put(p: Pipe): Pipe
    requires p.refs != 0
  {
    p.(refs := p.refs - 1)
  }

  /** drm_vblank_pre_modeset; vblank_inmodeset is 1 for marked, 3 for marked and holding a reference. */
  function PreModeset(p: Pipe, hw: Hw, maxCount: nat, works: bool): Pipe
    requires hw.counter < U32 && p.last < U32
  {
    if p.marked then p
    else
      var (q, ok) := Get(p.(marked := true), hw, maxCount, works);
      q.(holds := ok)
  }

  /** drm_vblank_post_modeset */
  function PostModeset(p: Pipe): Pipe
    requires p.marked && p.holds ==> p.refs != 0
  {
    if !p.marked then p
    else (if p.holds then Put(p) else p).(marked := false, holds := false)
  }

  // --- Accounting ---

  /** Less than one turn of a counter. */
  lemma WrapOnce(before: nat, now: nat, m: nat)
    requires m > 0 && before <= now < before + m
    ensures now - before == if now % m >= before % m then now % m - before % m else now % m - before % m + m
  {
    var b, r := before / m, before % m;
    assert before == b * m + r && (b + 1) * m == b * m + m;
    var x := r + now - before;
    if x < m { DivModUnique(now, b, m, x); } else { DivModUnique(now, b + 1, m, x - m); }
  }

  /** The frames made up for are the frames missed exactly when the register did
      not wrap or max_vblank_count is the modulus it wraps at. */
  lemma MissedIsExact(before: nat, now: nat, modulus: nat, maxCount: nat)
    requires modulus > 0 && before <= now < before + modulus && modulus <= U32 && maxCount < U32
    ensures now % modulus < U32 && before % modulus < U32
    ensures Missed(now % modulus, before % modulus, maxCount) == now - before <==>
      now % modulus >= before % modulus || maxCount == modulus % U32
  {
    WrapOnce(before, now, modulus);
    if now % modulus < before % modulus { WrapCount(now % modulus, before % modulus, modulus, maxCount); }
  }

  lemma WrapCount(n: nat, b: nat, m: nat, maxCount: nat)
    requires n < m && b < m && m <= U32 && maxCount < U32 && n < b
    ensures Missed(n, b, maxCount) == n - b + m <==> maxCount == m % U32
  {
    var x := n - b + U32 + maxCount;
    assert x < 2 * U32 && x % U32 == if x >= U32 then x - U32 else x;
  }

  /** The world of one pipe. `total` vblanks have begun; the last began at
      `time(total)`. `due` means the interrupt of the last one is still to come.
      `off` is the total when interrupts were last disabled. */
  datatype World = World(total: nat, due: bool, off: nat)

  /** Vblanks begin more than 1 ms apart. */
  ghost predicate Spaced(time: nat -> int) {
    forall n: nat :: time(n + 1) - time(n) > THRESH
  }

  /** The hardware says at which vblank it is, and when that began; a driver
      without precise timestamps gives some other time instead. */
  function At(w: World, time: nat -> int, modulus: nat, exact: bool, stamp: int): Hw
    requires modulus > 0
  {
    Hw(w.total % modulus, if exact then time(w.total) else stamp, exact)
  }

  /** The software count runs `k` ahead of the true total: with interrupts on, up to
      the vblank last handled; with interrupts off, up to when they were disabled,
      and without any timestamp. */
  ghost predicate InStep(p: Pipe, w: World, k: nat, time: nat -> int, modulus: nat, exact: bool)
    requires modulus > 0
  {
    && p.count < U32 && p.last < U32
    && (p.enabled ==>
         var handled := if w.due then w.total - 1 else w.total;
         handled >= 0 && p.count == (handled + k) % U32 && (exact ==> p.Stamp(p.count) == time(handled)))
    && (!p.enabled ==>
         && !w.due && w.off <= w.total < w.off + modulus && p.last == w.off % modulus && p.count == (w.off + k) % U32
         && p.even == 0 && p.odd == 0)
  }

  /** `stamp` is the time given by a driver without precise timestamps. */
  datatype Event = Vblank | Interrupt(stamp: int) | GetRef(works: bool, stamp: int) | PutRef | Tick(stamp: int)

  /** A vblank begins only after the interrupt of the one before it has been
      handled, or, with interrupts off, fewer than a full turn of the counter after
      they were disabled. With precise timestamps an interrupt may also come late,
      twice, or for nothing, and the timer may fire before it; without them neither
      can be told, and interrupts are handled more than 1 ms apart. */
  predicate Possible(p: Pipe, w: World, e: Event, modulus: nat, exact: bool) {
    match e
    case Vblank => if p.enabled then !w.due else w.total + 1 < w.off + modulus
    case PutRef => p.refs != 0
    case Interrupt(stamp) => exact || !p.enabled || (w.due && Distance(stamp, p.Stamp(p.count)) > THRESH)
    case Tick(_) => exact || !w.due || p.refs != 0
    case GetRef(_, _) => true
  }

  function Next(p: Pipe, w: World, e: Event, time: nat -> int, modulus: nat, exact: bool): (Pipe, World)
    requires 0 < modulus <= U32 && p.last < U32 && Possible(p, w, e, modulus, exact)
  {
    match e
    case Vblank => (p, w.(total := w.total + 1, due := p.enabled))
    case Interrupt(stamp) => (Handle(p, At(w, time, modulus, exact, stamp)), if p.enabled then w.(due := false) else w)
    case GetRef(works, stamp) =>
      var q := Get(p, At(w, time, modulus, exact, stamp), modulus % U32, works).0;
      (q, if q.enabled && !p.enabled then w.(due := false) else w)
    case PutRef => (Put(p), w)
    case Tick(stamp) =>
      var q := Timer(p, At(w, time, modulus, exact, stamp));
      (q, if p.enabled && !q.enabled then w.(due := false, off := w.total) else w)
  }

  lemma StepStaysInStep(p: Pipe, w: World, e: Event, k: nat, time: nat -> int, modulus: nat, exact: bool)
    requires 0 < modulus <= U32 && Spaced(time) && InStep(p, w, k, time, modulus, exact) && Possible(p, w, e, modulus, exact)
    ensures var (q, v) := Next(p, w, e, time, modulus, exact); InStep(q, v, k, time, modulus, exact)
  {
    match e
    case Interrupt(stamp) => InterruptStep(p, w, stamp, k, time, modulus, exact);
    case GetRef(works, stamp) => GetStep(p, w, works, stamp, k, time, modulus, exact);
    case Tick(stamp) => TickStep(p, w, stamp, k, time, modulus, exact);
    case _ =>
  }

  lemma InterruptStep(p: Pipe, w: World, stamp: int, k: nat, time: nat -> int, modulus: nat, exact: bool)
    requires 0 < modulus <= U32 && Spaced(time) && InStep(p, w, k, time, modulus, exact)
    requires Possible(p, w, Interrupt(stamp), modulus, exact)
    ensures
      InStep(Handle(p, At(w, time, modulus, exact, stamp)), if p.enabled then w.(due := false) else w, k, time, modulus, exact)
  {
    if p.enabled && w.due {
      assert time(w.total - 1 + 1) - time(w.total - 1) > THRESH;
      Succ(w.total - 1 + k);
    }
  }

  /** The timer turns the interrupt of an unreferenced pipe off, and makes up for a
      vblank whose interrupt has not been handled and now never will be. */
  lemma TickStep(p: Pipe, w: World, stamp: int, k: nat, time: nat -> int, modulus: nat, exact: bool)
    requires 0 < modulus <= U32 && Spaced(time) && InStep(p, w, k, time, modulus, exact)
    requires Possible(p, w, Tick(stamp), modulus, exact)
    ensures var q := Timer(p, At(w, time, modulus, exact, stamp));
      && InStep(q, if p.enabled && !q.enabled then w.(due := false, off := w.total) else w, k, time, modulus, exact)
      && (q.enabled <==> p.enabled && p.refs != 0) && (p.enabled && p.refs != 0 ==> q == p) && q.refs == p.refs
      && (p.enabled && p.refs == 0 ==>
            q.last == w.total % modulus && q.count == (w.total + k) % U32 && q.even == 0 && q.odd == 0)
  {
    if p.enabled && w.due {
      assert time(w.total - 1 + 1) - time(w.total - 1) > THRESH;
      Succ(w.total - 1 + k);
    }
  }

  lemma GetStep(p: Pipe, w: World, works: bool, stamp: int, k: nat, time: nat -> int, modulus: nat, exact: bool)
    requires 0 < modulus <= U32 && Spaced(time) && InStep(p, w, k, time, modulus, exact)
    ensures var q := Get(p, At(w, time, modulus, exact, stamp), modulus % U32, works).0;
      InStep(q, if q.enabled && !p.enabled then w.(due := false) else w, k, time, modulus, exact)
  {
    if !p.enabled {
      MissedIsExact(w.off, w.total, modulus, modulus % U32);
      AddMod(w.off + k, w.total - w.off);
    }
  }

  lemma Succ(x: nat)
    ensures (x % U32 + 1) % U32 == (x + 1) % U32
  {
  }

  lemma AddMod(x: nat, d: nat)
    ensures (x % U32 + d) % U32 == (x + d) % U32
  {
  }

  /** A run of events. */
  ghost predicate Run(p: Pipe, w: World, events: seq<Event>, q: Pipe, v: World, time: nat -> int, modulus: nat, exact: bool)
    requires 0 < modulus <= U32
    decreases |events|
  {
    if events == [] then q == p && v == w
    else
      p.last < U32 && Possible(p, w, events[0], modulus, exact) &&
      var (p', w') := Next(p, w, events[0], time, modulus, exact);
      Run(p', w', events[1..], q, v, time, modulus, exact)
  }

  /** No frame is lost or counted twice: over any run of vblanks, interrupts, due,
      late or spurious, of references taken and dropped, and of the disable timer,
      the software count stays the same distance from the true total. Without
      precise timestamps it does so while every interrupt that is handled belongs to
      a vblank and is handled before the timer turns interrupts off. The driver's
      max_vblank_count is the counter's modulus, 0 for one of 32 bits. */
  lemma {:induction false} CountStaysExact(p: Pipe, w: World, k: nat, events: seq<Event>, q: Pipe, v: World,
                                           time: nat -> int, modulus: nat, exact: bool)
    requires 0 < modulus <= U32 && Spaced(time) && InStep(p, w, k, time, modulus, exact)
    requires Run(p, w, events, q, v, time, modulus, exact)
    ensures InStep(q, v, k, time, modulus, exact)
    ensures q.enabled && !v.due ==> q.count == (v.total + k) % U32 && (exact ==> q.Stamp(q.count) == time(v.total))
    decreases |events|
  {
    if events != [] {
      StepStaysInStep(p, w, events[0], k, time, modulus, exact);
      var (p', w') := Next(p, w, events[0], time, modulus, exact);
      CountStaysExact(p', w', k, events[1..], q, v, time, modulus, exact);
    }
  }

  // --- References and the interrupt ---

  /** A get succeeds if and only if the interrupt is on, or is not to be on and can be enabled. Then the
      pipe has one more reference, and its interrupt on; otherwise nothing has
      changed. One that enables it reads the timestamp of the current count, if the
      driver has it precisely, and no other. */
  lemma GetGives(p: Pipe, hw: Hw, maxCount: nat, works: bool)
    requires hw.counter < U32 && p.last < U32
    ensures var (q, ok) := Get(p, hw, maxCount, works);
      && (ok <==> p.enabled || (p.refs == 0 && works))
      && (!ok ==> q == p) && (ok ==> q.refs == p.refs + 1 && q.enabled)
      && (p.enabled ==> q == p.(refs := p.refs + 1))
      && (ok && !p.enabled ==>
            && q.Stamp(q.count) == (if hw.precise then hw.stamp else p.Stamp(q.count))
            && q.Stamp(q.count + 1) == p.Stamp(q.count + 1))
  {
  }

  /** A run of events without a get. */
  predicate Getless(events: seq<Event>) {
    forall i :: 0 <= i < |events| ==> !events[i].GetRef?
  }

  /** The timer does its work: once the last reference is dropped, any run in which
      it fires ends with the interrupt off, for as long as no reference is taken;
      and while it is off nothing about the pipe changes. */
  lemma {:induction false} OffUntilGet(p: Pipe, w: World, k: nat, events: seq<Event>, q: Pipe, v: World,
                                       time: nat -> int, modulus: nat, exact: bool)
    requires 0 < modulus <= U32 && Spaced(time) && InStep(p, w, k, time, modulus, exact) && p.refs == 0
    requires Run(p, w, events, q, v, time, modulus, exact) && Getless(events)
    ensures q.refs == 0 && (!p.enabled ==> q == p && v.off == w.off)
    ensures (exists i :: 0 <= i < |events| && events[i].Tick?) ==> !q.enabled
    decreases |events|
  {
    if events != [] {
      var e := events[0];
      StepStaysInStep(p, w, e, k, time, modulus, exact);
      var (p', w') := Next(p, w, e, time, modulus, exact);
      if e.Tick? { TickStep(p, w, e.stamp, k, time, modulus, exact); }
      OffUntilGet(p', w', k, events[1..], q, v, time, modulus, exact);
      if exists i :: 0 <= i < |events| && events[i].Tick? && !e.Tick? {
        var i :| 0 <= i < |events| && events[i].Tick?;
        assert events[1..][i - 1].Tick?;
      }
    }
  }

  // --- Mode sets ---

  /** drm_vblank_pre_modeset, called again and again. */
  function PreAll(p: Pipe, calls: seq<(Hw, bool)>, maxCount: nat): Pipe
    requires p.last < U32 && forall i :: 0 <= i < |calls| ==> calls[i].0.counter < U32
    decreases |calls|
  {
    if calls == [] then p else PreAll(PreModeset(p, calls[0].0, maxCount, calls[0].1), calls[1..], maxCount)
  }

  /** A mode set holds one reference and keeps the interrupt on, if that was on or
      could be enabled when it began, however often its beginning is announced; its
      end gives back what it holds, and a second end nothing. */
  lemma {:induction false} ModesetHoldsOne(p: Pipe, hw: Hw, works: bool, again: seq<(Hw, bool)>, maxCount: nat)
    requires p.last < U32 && p.refs >= 0 && (p.refs > 0 ==> p.enabled) && !p.marked && !p.holds
    requires hw.counter < U32 && forall i :: 0 <= i < |again| ==> again[i].0.counter < U32
    ensures var q := PreAll(PreModeset(p, hw, maxCount, works), again, maxCount);
      && q.marked && (q.holds <==> p.enabled || works) && (q.holds ==> q.enabled)
      && q.refs == p.refs + (if p.enabled || works then 1 else 0)
      && PostModeset(q) == q.(refs := p.refs, marked := false, holds := false) && PostModeset(PostModeset(q)) == PostModeset(q)
  {
    GetGives(p.(marked := true), hw, maxCount, works);
    MarkedStays(PreModeset(p, hw, maxCount, works), again, maxCount);
  }

  lemma {:induction false} MarkedStays(p: Pipe, calls: seq<(Hw, bool)>, maxCount: nat)
    requires p.marked && p.last < U32 && forall i :: 0 <= i < |calls| ==> calls[i].0.counter < U32
    ensures PreAll(p, calls, maxCount) == p
    decreases |calls|
  {
    if calls != [] { MarkedStays(p, calls[1..], maxCount); }
  }
}
