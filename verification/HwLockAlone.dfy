/** What a thread comes to when no other interferes: nothing blocks but the lock itself (drm_lock.c:187-382). */
module HwLockAlone {
  import opened HwLockWord
  import opened HwLock

  /** Thread `t` does these things, one after another, and no other thread does any. */
  ghost predicate Alone(s: State, t: nat, actions: seq<Action>, u: State)
    decreases |actions|
  {
    if actions == [] then u == s else Enabled(s, t, actions[0]) && Alone(Do(s, t, actions[0]), t, actions[1..], u)
  }

  lemma AloneCons(s: State, t: nat, a: Action, actions: seq<Action>, u: State)
    requires Enabled(s, t, a) && Alone(Do(s, t, a), t, actions, u)
    ensures Alone(s, t, [a] + actions, u)
  {
    assert ([a] + actions)[0] == a && ([a] + actions)[1..] == actions;
  }

  lemma AloneTwo(s: State, t: nat, u: State)
    requires Enabled(s, t, Load) && Enabled(Do(s, t, Load), t, Cas) && u == Do(Do(s, t, Load), t, Cas)
    ensures Alone(s, t, [Load] + ([Cas] + []), u)
  {
    AloneCons(Do(s, t, Load), t, Cas, [], u);
    AloneCons(s, t, Load, [Cas] + [], u);
  }

  /** A client that tries for the lock has it after three steps, if it is free, and else is refused, has
      announced itself, and may try again. */
  lemma TakeAlone(s: State, t: nat) returns (u: State)
    requires t in s.pcs && (s.pcs[t].Want? || s.pcs[t].Refused?) && s.spin.Open?
    ensures Alone(s, t, [BeginTake] + ([Load] + ([Cas] + [])), u) && t in u.pcs && u.spin.Open?
    ensures !s.lock.held ==> u.pcs[t] == Got(s.pcs[t].c) && u.lock.held && u.lock.context == s.pcs[t].c
    ensures s.lock.held ==> u.pcs[t] == Refused(s.pcs[t].c, s.epoch) && u.lock == s.lock.(contended := true)
  {
    var s1 := Do(s, t, BeginTake);
    u := Do(Do(s1, t, Load), t, Cas);
    AloneTwo(s1, t, u);
    AloneCons(s, t, BeginTake, [Load] + ([Cas] + []), u);
  }

  /** An owner that unlocks is out after three steps, and the lock is free, or the idlelock's if the kernel waits. */
  lemma UnlockAlone(s: State, t: nat) returns (u: State)
    requires t in s.pcs && s.pcs[t].Holding? && s.spin.Open?
    ensures Alone(s, t, [BeginFree] + ([Load] + ([Cas] + [])), u) && t in u.pcs && u.pcs[t].Out? && u.spin.Open?
    ensures s.kernelWaiters != 0 ==> u.idle && u.lock == KERNEL_HELD
    ensures s.kernelWaiters == 0 ==> u.idle == s.idle && u.lock == Word(false, false, s.lock.context)
  {
    var s1 := Do(s, t, BeginFree);
    u := Do(Do(s1, t, Load), t, Cas);
    AloneTwo(s1, t, u);
    AloneCons(s, t, BeginFree, [Load] + ([Cas] + []), u);
  }

  /** A kernel user that goes for the idlelock is inside after four steps, with the lock if it was free; and at once
      if the idlelock has it already. */
  lemma KernelTakeAlone(s: State, t: nat) returns (u: State)
    requires t in s.pcs && s.pcs[t].Out? && s.spin.Open?
    ensures s.idle ==> Alone(s, t, [KEnter] + [], u) && u.lock == s.lock
    ensures !s.idle ==> Alone(s, t, [KEnter] + ([KBegin] + ([Load] + ([Cas] + ([KFinish] + [])))), u)
    ensures t in u.pcs && u.pcs[t].KIn? && u.spin.Open? && u.kernelWaiters == s.kernelWaiters + 1
    ensures u.pcs[t].refused <==> !s.idle && s.lock.held
    ensures u.idle <==> s.idle || !s.lock.held
    ensures !s.idle && !s.lock.held ==> u.lock.held && u.lock.context == 0
  {
    var s1 := Do(s, t, KEnter);
    if s.idle {
      u := s1;
      AloneCons(s, t, KEnter, [], u);
    } else {
      u := KernelGoes(s1, t);
      AloneCons(s, t, KEnter, [KBegin] + ([Load] + ([Cas] + ([KFinish] + []))), u);
    }
  }

  lemma KernelGoes(s: State, t: nat) returns (u: State)
    requires t in s.pcs && s.pcs[t].KWant? && s.spin.Open?
    ensures Alone(s, t, [KBegin] + ([Load] + ([Cas] + ([KFinish] + []))), u)
    ensures t in u.pcs && u.pcs[t].KIn? && u.spin.Open? && u.kernelWaiters == s.kernelWaiters
    ensures (u.pcs[t].refused <==> s.lock.held) && (u.idle <==> s.idle || !s.lock.held)
    ensures !s.lock.held ==> u.lock.held && u.lock.context == 0
  {
    var s1 := Do(s, t, KBegin);
    var s2 := Do(s1, t, Load);
    var s3 := Do(s2, t, Cas);
    u := Do(s3, t, KFinish);
    AloneCons(s3, t, KFinish, [], u);
    AloneCons(s2, t, Cas, [KFinish] + [], u);
    AloneCons(s1, t, Load, [Cas] + ([KFinish] + []), u);
    AloneCons(s, t, KBegin, [Load] + ([Cas] + ([KFinish] + [])), u);
  }

  /** The last kernel user out frees the lock, if the idlelock has it; any other leaves it as it is. */
  lemma KernelLeaveAlone(s: State, t: nat) returns (u: State)
    requires t in s.pcs && s.pcs[t].KIn? && s.spin.Open?
    ensures s.kernelWaiters == 1 && s.idle ==>
      Alone(s, t, [KLeave] + ([Load] + ([Cas] + [])), u) && !u.idle && u.lock == KERNEL_FREE
    ensures !(s.kernelWaiters == 1 && s.idle) ==> Alone(s, t, [KLeave] + [], u) && u.idle == s.idle && u.lock == s.lock
    ensures t in u.pcs && u.pcs[t].Out? && u.spin.Open? && u.kernelWaiters == s.kernelWaiters - 1
  {
    var s1 := Do(s, t, KLeave);
    if s.kernelWaiters == 1 && s.idle {
      u := Do(Do(s1, t, Load), t, Cas);
      AloneTwo(s1, t, u);
      AloneCons(s, t, KLeave, [Load] + ([Cas] + []), u);
    } else {
      u := s1;
      AloneCons(s, t, KLeave, [], u);
    }
  }

  /** Whoever has the spinlock gives it back, within three steps of its own. */
  lemma SpinEnds(s: State, t: nat) returns (actions: seq<Action>, u: State)
    requires SpinInv(s.spin, s.pcs) && s.spin == By(t) && t in s.pcs
    ensures |actions| <= 3 && Alone(s, t, actions, u) && u.spin.Open?
  {
    assert HasSpin(s.pcs[t]);
    if Enabled(s, t, Load) {
      actions, u := [Load] + ([Cas] + []), Do(Do(s, t, Load), t, Cas);
      AloneTwo(s, t, u);
    } else {
      var s1 := Do(s, t, Cas);
      if s1.spin.Open? {
        actions, u := [Cas] + [], s1;
        AloneCons(s, t, Cas, [], u);
      } else {
        actions, u := [Cas] + ([Load] + ([Cas] + [])), Do(Do(s1, t, Load), t, Cas);
        AloneTwo(s1, t, u);
        AloneCons(s, t, Cas, [Load] + ([Cas] + []), u);
      }
    }
  }
}
