/** The routines of one pipe as they change its fields in place (drm_irq.c:104-190, 789-966, 1217-1253). */
module VblankCrtc {
  import opened Basics
  import opened VblankPipe

  /** What the hardware answers, call by call: the counter register, and the timestamp query. */
  datatype Probe = Probe(counter: nat -> nat, stamp: nat -> int, precise: nat -> bool)

  /** The counter reads the same before and after the i-th timestamp query. */
  predicate Settles(hw: Probe, i: nat) {
    hw.counter(2 * i) == hw.counter(2 * i + 1)
  }

  /** This is the i-th sample, and the first to settle. */
  ghost predicate FirstSettled(hw: Probe, i: nat, counter: nat, stamp: int, precise: bool) {
    && Settles(hw, i) && counter == hw.counter(2 * i) && stamp == hw.stamp(i) && precise == hw.precise(i)
    && forall k: nat :: k < i ==> !Settles(hw, k)
  }

  /** The fields of struct drm_device that belong to one pipe. */
  class Crtc {
    var count: nat
    var refs: int
    var enabled: bool
    var last: nat
    const time: array<int>
    var inModeset: nat

    ghost predicate Valid()
      reads this
    {
      time.Length == 2 && count < U32 && last < U32 && (inModeset == 0 || inModeset == 1 || inModeset == 3)
    }

    /** vblank_inmodeset is 1 for marked, 3 for marked and holding a reference. */
    ghost function St(): Pipe
      requires Valid()
      reads this, time
    {
      Pipe(count, refs, enabled, last, time[0], time[1], inModeset != 0, inModeset == 3)
    }

    constructor ()
      ensures Valid() && fresh(time) && St() == Pipe(0, 0, false, 0, 0, 0, false, false)
    {
      count, refs, enabled, last, inModeset := 0, 0, false, 0, 0;
      time := new int[2](_ => 0);
    }

    /** drm_handle_vblank, up to waking those who wait. */
    method HandleVblank(stamp: int, precise: bool)
      requires Valid()
      modifies this`count, time
      ensures Valid() && forall counter :: St() == Handle(old(St()), Hw(counter, stamp, precise))
    {
      if !enabled { return; }
      if Distance(stamp, time[count % 2]) > THRESH {
        time[(count + 1) % 2] := stamp;
        count := (count + 1) % U32;
        assert (old(count) + 1) % U32 % 2 == (old(count) + 1) % 2;
      }
    }

    /** The loops that read the counter and the timestamp until the counter reads the same before and
        after; `settles` is a try at which it does. */
    method Sample(hw: Probe, ghost settles: nat) returns (counter: nat, stamp: int, precise: bool)
      requires hw.counter(2 * settles) == hw.counter(2 * settles + 1)
      ensures exists i: nat :: i <= settles && FirstSettled(hw, i, counter, stamp, precise)
    {
      var n := 0;
      counter, stamp, precise := hw.counter(0), hw.stamp(0), hw.precise(0);
      while counter != hw.counter(2 * n + 1)
        invariant n <= settles && counter == hw.counter(2 * n) && stamp == hw.stamp(n) && precise == hw.precise(n)
        invariant forall k: nat :: k < n ==> !Settles(hw, k)
        decreases settles - n
      {
        assert !Settles(hw, n);
        n := n + 1;
        counter, stamp, precise := hw.counter(2 * n), hw.stamp(n), hw.precise(n);
      }
      assert FirstSettled(hw, n, counter, stamp, precise);
    }

    /** vblank_disable_and_save, given a settled sample. */
    method DisableAndSave(counter: nat, stamp: int, precise: bool)
      requires Valid() && counter < U32
      modifies this`enabled, this`last, this`count, time
      ensures Valid() && St() == Disable(old(St()), Hw(counter, stamp, precise))
    {
      enabled := false;
      last := counter;
      if precise && Distance(stamp, time[count % 2]) > THRESH {
        count := (count + 1) % U32;
      }
      time[0], time[1] := 0, 0;
    }

    /** What the disable timer does with the pipe. */
    method DisableFn(counter: nat, stamp: int, precise: bool)
      requires Valid() && counter < U32
      modifies this`enabled, this`last, this`count, time
      ensures Valid() && St() == Timer(old(St()), Hw(counter, stamp, precise))
    {
      if refs == 0 && enabled {
        DisableAndSave(counter, stamp, precise);
      }
    }

    /** drm_update_vblank_count, given a settled sample. */
    method UpdateCount(counter: nat, stamp: int, precise: bool, maxCount: nat)
      requires Valid() && counter < U32
      modifies this`count, time
      ensures Valid() && St() == Update(old(St()), Hw(counter, stamp, precise), maxCount)
    {
      var diff := (counter - last) % U32;
      if counter < last {
        diff := (diff + maxCount) % U32;
      }
      assert diff == Missed(counter, last, maxCount);
      var slot := (count + diff) % U32;
      if precise {
        time[slot % 2] := stamp;
      }
      count := slot;
    }

    /** drm_vblank_get; `works` is whether the driver enables the interrupt. */
    method VblankGet(counter: nat, stamp: int, precise: bool, maxCount: nat, works: bool) returns (ok: bool)
      requires Valid() && counter < U32
      modifies this`refs, this`enabled, this`count, time
      ensures Valid() && (St(), ok) == Get(old(St()), Hw(counter, stamp, precise), maxCount, works)
    {
      ok := true;
      refs := refs + 1;
      if refs == 1 {
        if !enabled {
          if works {
            enabled := true;
            UpdateCount(counter, stamp, precise, maxCount);
          } else {
            refs := refs - 1;
            ok := false;
          }
        }
      } else if !enabled {
        refs := refs - 1;
        ok := false;
      }
    }

    /** drm_vblank_put; the result is whether it arms the disable timer, given a positive delay. */
    method VblankPut() returns (arms: bool)
      requires Valid() && refs != 0
      modifies this`refs
      ensures Valid() && St() == Put(old(St())) && arms == (refs == 0)
    {
      refs := refs - 1;
      arms := refs == 0;
    }

    /** drm_vblank_pre_modeset */
    method PreModesetCall(counter: nat, stamp: int, precise: bool, maxCount: nat, works: bool)
      requires Valid() && counter < U32
      modifies this`refs, this`enabled, this`count, this`inModeset, time
      ensures Valid() && St() == PreModeset(old(St()), Hw(counter, stamp, precise), maxCount, works)
    {
      if inModeset == 0 {
        inModeset := 1;
        var ok := VblankGet(counter, stamp, precise, maxCount, works);
        if ok {
          inModeset := 3;
        }
      }
    }

    /** drm_vblank_post_modeset */
    method PostModesetCall()
      requires Valid() && (inModeset == 3 ==> refs != 0)
      modifies this`refs, this`inModeset
      ensures Valid() && St() == PostModeset(old(St()))
    {
      if inModeset != 0 {
        if inModeset == 3 {
          var _ := VblankPut();
        }
        inModeset := 0;
      }
    }
  }
}
