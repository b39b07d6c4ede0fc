/** The heavyweight lock's word (drm.h:56-60), and what drm_lock.c computes on it. */
module HwLockWord {

  const HELD: bv32 := 0x8000_0000
  const CONT: bv32 := 0x4000_0000

  /** _DRM_LOCKING_CONTEXT */
  function Context(w: bv32): bv32 { w & !(HELD | CONT) }

  /** A context number that leaves the two flag bits alone. */
  predicate Plain(c: bv32) { Context(c) == c }

  /** A lock word taken apart. */
  datatype Word = Word(held: bool, contended: bool, context: bv32)

  function Decode(w: bv32): Word {
    Word(w & HELD != 0, w & CONT != 0, Context(w))
  }

  // --- As the source computes it ---

  /** The word drm_lock_take tries to install; `crowd` says whether more than one is waiting. */
  function TakeBits(was: bv32, c: bv32, crowd: bool): bv32 {
    if was & HELD != 0 then was | CONT else c | HELD | (if crowd then CONT else 0)
  }

  /** What drm_lock_take returns after its cmpxchg has replaced `was`. */
  predicate TakeReturns(was: bv32, c: bv32, crowd: bool) {
    var word := TakeBits(was, c, crowd);
    if Context(was) == c && was & HELD != 0 then false
    else Context(word) == c && word & HELD != 0
  }

  // --- In terms of the parts ---

  function Take(was: Word, c: bv32, crowd: bool): Word {
    if was.held then was.(contended := true) else Word(true, crowd, c)
  }

  function Free(was: Word): Word { Word(false, false, was.context) }

  const KERNEL_HELD := Word(true, false, 0)
  const KERNEL_FREE := Word(false, false, 0)

  lemma DecodeOr(w: bv32)
    ensures Decode(w | CONT) == Decode(w).(contended := true)
    ensures Decode(w | HELD) == Decode(w).(held := true)
  {
  }

  lemma DecodePlain(c: bv32)
    requires Plain(c)
    ensures Decode(c) == Word(false, false, c)
  {
  }

  lemma DecodeTaken(c: bv32)
    ensures Decode(c | HELD | CONT) == Word(true, true, Context(c))
    ensures Decode(c | HELD | 0) == Word(true, Decode(c).contended, Context(c))
  {
  }

  lemma TakeBitsCases(was: bv32, c: bv32, crowd: bool)
    ensures was & HELD != 0 ==> TakeBits(was, c, crowd) == was | CONT
    ensures was & HELD == 0 ==> TakeBits(was, c, true) == c | HELD | CONT
    ensures was & HELD == 0 ==> TakeBits(was, c, false) == c | HELD | 0
  {
  }

  lemma TakeDecoded(was: bv32, c: bv32, crowd: bool)
    ensures Decode(TakeBits(was, c, crowd)) ==
      if Decode(was).held then Decode(was).(contended := true)
      else Word(true, crowd || Decode(c).contended, Context(c))
  {
    TakeBitsCases(was, c, crowd);
    if was & HELD != 0 { HeldDecoded(was, TakeBits(was, c, crowd)); }
    else { FreeDecoded(c, crowd, TakeBits(was, c, crowd)); }
  }

  lemma HeldDecoded(was: bv32, word: bv32)
    requires word == was | CONT
    ensures Decode(word) == Decode(was).(contended := true)
  {
    DecodeOr(was);
  }

  lemma FreeDecoded(c: bv32, crowd: bool, word: bv32)
    requires crowd ==> word == c | HELD | CONT
    requires !crowd ==> word == c | HELD | 0
    ensures Decode(word) == Word(true, crowd || Decode(c).contended, Context(c))
  {
    DecodeTaken(c);
  }

  lemma ReturnsDecoded(was: bv32, c: bv32, crowd: bool)
    ensures var w, d := Decode(was), Decode(TakeBits(was, c, crowd));
      TakeReturns(was, c, crowd) == (!(w.context == c && w.held) && d.context == c && d.held)
  {
  }

  /** For a plain context drm_lock_take succeeds exactly on a word that is not
      held, and a failure only adds the contended flag. */
  lemma TakeIsExact(was: bv32, c: bv32, crowd: bool)
    requires Plain(c)
    ensures Decode(TakeBits(was, c, crowd)) == Take(Decode(was), c, crowd)
    ensures TakeReturns(was, c, crowd) <==> !Decode(was).held
  {
    TakeDecoded(was, c, crowd);
    ReturnsDecoded(was, c, crowd);
    DecodePlain(c);
  }

  /** With a flag bit in the context the word is left held, and 0 is returned. */
  lemma TakeNeedsPlain(was: bv32, c: bv32, crowd: bool)
    requires !Decode(was).held
    ensures Decode(TakeBits(was, c, crowd)).held && (TakeReturns(was, c, crowd) <==> Plain(c))
  {
    TakeDecoded(was, c, crowd);
    ReturnsDecoded(was, c, crowd);
  }

  /** drm_lock_free, drm_lock_transfer to the kernel and drm_idlelock_release, with DRM_KERNEL_CONTEXT 0. */
  lemma FreeIsExact(was: bv32)
    ensures Decode(Context(was)) == Free(Decode(was))
    ensures Decode(0 | HELD) == KERNEL_HELD && Decode(0) == KERNEL_FREE
  {
  }
}

/** The heavyweight hardware lock and the idlelock (drm_lock.c:51-107, 159-183,
    187-300, 313-382) as a protocol: threads interleave between any two accesses to
    the lock word, and between any two spinlock regions. */
module HwLock {
  import opened HwLockWord

  // --- Threads ---

  /** Where a thread is. The first group is a client in drm_lock and drm_unlock
      with context `c`, the second the kernel in drm_idlelock_take and _release. */
  datatype Pc =
    | Out
    | Want(c: bv32)                       // counted in user_waiters, about to try
    | TakeLoad(c: bv32)                   // in drm_lock_take, spinlock held
    | TakeCas(c: bv32, was: Word)
    | Refused(c: bv32, epoch: nat)        // the take failed in ownership epoch `epoch`
    | Got(c: bv32)                        // the take succeeded, still counted as waiting
    | Holding(c: bv32)
    | TransferLoad(c: bv32)               // in drm_lock_transfer, spinlock held
    | TransferCas(c: bv32, was: Word)
    | FreeLoad(c: bv32)                   // drm_lock_free past its spinlock region
    | FreeCas(c: bv32, was: Word)
    | KWant                               // counted in kernel_waiters, about to take
    | KLoad                               // in drm_lock_take, spinlock held
    | KCas(was: Word)
    | KTook(got: bool, epoch: nat)        // back from drm_lock_take, flag not yet set
    | KIn(refused: bool, epoch: nat)      // between idlelock_take and idlelock_release; whether its take was refused
    | KDropLoad                           // the last one out, spinlock held
    | KDropCas(was: Word)

  datatype Spin = Open | By(t: nat)

  /** drm_lock_data with its threads. `epoch` counts changes of ownership; the source has no such field. */
  datatype State = State(lock: Word, spin: Spin, pcs: map<nat, Pc>, userWaiters: int, kernelWaiters: int,
                         idle: bool, epoch: nat)

  predicate HasSpin(pc: Pc) {
    pc.TakeLoad? || pc.TakeCas? || pc.TransferLoad? || pc.TransferCas? || pc.KLoad? || pc.KCas? || pc.KDropLoad? || pc.KDropCas?
  }

  /** The thread owns the lock: its take has succeeded, and it has not given the lock up. */
  predicate Owns(pc: Pc) {
    pc.Got? || pc.Holding? || pc.TransferLoad? || pc.TransferCas? || pc.FreeLoad? || pc.FreeCas?
  }

  /** The thread has taken the lock for the kernel and not yet set idle_has_lock. */
  predicate InTransit(pc: Pc) { pc.KTook? && pc.got }

  predicate CountsAsUser(pc: Pc) {
    pc.Want? || pc.TakeLoad? || pc.TakeCas? || pc.Refused? || pc.Got?
  }

  predicate CountsAsKernel(pc: Pc) {
    pc.KWant? || pc.KLoad? || pc.KCas? || pc.KTook? || pc.KIn?
  }

  // --- Steps ---

  datatype Action =
    | Enter(c: bv32) | BeginTake | Load | Cas | Settle | GiveUp | BeginFree | KEnter | KBegin | KFinish | KLeave | Notify

  function Move(s: State, t: nat, pc: Pc): State {
    s.(pcs := s.pcs[t := pc])
  }

  predicate Crowd(s: State) { s.userWaiters + s.kernelWaiters > 1 }

  /** Thread `t` can do `a`. Every spinlock region that does not touch the lock word is one step. */
  predicate Enabled(s: State, t: nat, a: Action) {
    t in s.pcs &&
    var pc := s.pcs[t];
    match a
    case Enter(c) => pc.Out? && s.spin.Open? && Plain(c) && c != 0
    case BeginTake => (pc.Want? || pc.Refused?) && s.spin.Open?
    case Load => pc.TakeLoad? || pc.TransferLoad? || pc.FreeLoad? || pc.KLoad? || pc.KDropLoad?
    case Cas => pc.TakeCas? || pc.TransferCas? || pc.FreeCas? || pc.KCas? || pc.KDropCas?
    case Settle => pc.Got? && s.spin.Open?
    case GiveUp => pc.Refused? && s.spin.Open?
    case BeginFree => pc.Holding? && s.spin.Open?
    case KEnter => pc.Out? && s.spin.Open?
    case KBegin => pc.KWant? && s.spin.Open?
    case KFinish => pc.KTook? && s.spin.Open?
    case KLeave => pc.KIn? && s.spin.Open?
    case Notify => true
  }

  function Do(s: State, t: nat, a: Action): State
    requires Enabled(s, t, a)
  {
    var pc := s.pcs[t];
    match a
    case Enter(c) => Move(s, t, Want(c)).(userWaiters := s.userWaiters + 1)
    case BeginTake => Move(s, t, TakeLoad(pc.c)).(spin := By(t))
    case Load => DoLoad(s, t)
    case Cas => DoCas(s, t)
    case Settle => Move(s, t, Holding(pc.c)).(userWaiters := s.userWaiters - 1)
    case GiveUp => Move(s, t, Out).(userWaiters := s.userWaiters - 1)
    case BeginFree =>
      if s.kernelWaiters != 0 then Move(s, t, TransferLoad(pc.c)).(spin := By(t)) else Move(s, t, FreeLoad(pc.c))
    case KEnter =>
      Move(s, t, if s.idle then KIn(false, s.epoch) else KWant).(kernelWaiters := s.kernelWaiters + 1)
    case KBegin => Move(s, t, KLoad).(spin := By(t))
    case KFinish => Move(s, t, KIn(!pc.got, pc.epoch)).(idle := s.idle || pc.got)
    case KLeave =>
      if s.kernelWaiters - 1 == 0 && s.idle then Move(s, t, KDropLoad).(kernelWaiters := s.kernelWaiters - 1, spin := By(t))
      else Move(s, t, Out).(kernelWaiters := s.kernelWaiters - 1)
    case Notify => s.(lock := s.lock.(contended := true))
  }

  /** The loads of the cmpxchg loops. */
  function DoLoad(s: State, t: nat): State
    requires Enabled(s, t, Load)
  {
    match s.pcs[t]
    case TakeLoad(c) => Move(s, t, TakeCas(c, s.lock))
    case TransferLoad(c) => Move(s, t, TransferCas(c, s.lock))
    case FreeLoad(c) => Move(s, t, FreeCas(c, s.lock))
    case KLoad => Move(s, t, KCas(s.lock))
    case _ => Move(s, t, KDropCas(s.lock))
  }

  /** The cmpxchg instructions, with what follows them up to the next shared access. A failed one loads again. */
  function DoCas(s: State, t: nat): State
    requires Enabled(s, t, Cas)
  {
    match s.pcs[t]
    case TakeCas(c, was) =>
      if s.lock != was then Move(s, t, TakeLoad(c))
      else
        var u := s.(lock := Take(was, c, Crowd(s)), spin := Open);
        if !was.held then Move(u, t, Got(c)).(epoch := s.epoch + 1) else Move(u, t, Refused(c, s.epoch))
    case TransferCas(c, was) =>
      if s.lock != was then Move(s, t, TransferLoad(c))
      else Move(s, t, Out).(lock := KERNEL_HELD, idle := true, spin := Open, epoch := s.epoch + 1)
    case FreeCas(c, was) =>
      if s.lock != was then Move(s, t, FreeLoad(c)) else Move(s, t, Out).(lock := Free(was), epoch := s.epoch + 1)
    case KCas(was) =>
      if s.lock != was then Move(s, t, KLoad)
      else
        var u := s.(lock := Take(was, 0, Crowd(s)), spin := Open);
        var got := !was.held;
        Move(u, t, KTook(got, s.epoch)).(epoch := if got then s.epoch + 1 else s.epoch)
    case KDropCas(was) =>
      if s.lock != was then Move(s, t, KDropLoad)
      else Move(s, t, Out).(lock := KERNEL_FREE, idle := false, spin := Open, epoch := s.epoch + 1)
  }

  // --- What every step keeps ---

  ghost function KernelSide(pcs: map<nat, Pc>): set<nat> { set t | t in pcs && CountsAsKernel(pcs[t]) }

  ghost function UserSide(pcs: map<nat, Pc>): set<nat> { set t | t in pcs && CountsAsUser(pcs[t]) }

  /** The spinlock is held by exactly the thread that is in a region that needs it. */
  ghost predicate SpinInv(spin: Spin, pcs: map<nat, Pc>) {
    forall t :: t in pcs ==> (HasSpin(pcs[t]) <==> spin == By(t))
  }

  /** At most one thread, or the idlelock, has the lock; the word is held, by its context; and held only then. */
  ghost predicate OwnerInv(lock: Word, idle: bool, pcs: map<nat, Pc>) {
    && (forall t :: t in pcs && HasContext(pcs[t]) ==> pcs[t].c != 0)
    && (forall t :: t in pcs && Takes(pcs[t]) ==> !idle && lock.held && lock.context == TakenFor(pcs[t]))
    && (forall t, u :: t in pcs && u in pcs && Takes(pcs[t]) && Takes(pcs[u]) ==> t == u)
    && (idle ==> lock.held && lock.context == 0)
    && (lock.held ==> idle || exists t :: t in pcs && Takes(pcs[t]))
  }

  /** kernel_waiters counts the kernel side, and keeps the idlelock's hold alive. */
  ghost predicate CountInv(kernelWaiters: int, idle: bool, pcs: map<nat, Pc>) {
    && kernelWaiters == |KernelSide(pcs)|
    && (idle && kernelWaiters == 0 ==> exists t :: t in pcs && Dropping(pcs[t]))
    && (forall t :: t in pcs && Dropping(pcs[t]) ==> idle && kernelWaiters == 0)
    && (forall t :: t in pcs && Transfers(pcs[t]) ==> kernelWaiters > 0)
  }

  /** user_waiters counts the clients in drm_lock. */
  ghost predicate UserInv(userWaiters: int, pcs: map<nat, Pc>) {
    userWaiters == |UserSide(pcs)|
  }

  /** The thread's last take was refused: it is a client waiting, or a kernel user. */
  predicate WasRefused(pc: Pc) {
    pc.Refused? || (pc.KTook? && !pc.got) || (pc.KIn? && pc.refused)
  }

  /** A refused take left its mark for as long as the holder it met keeps the lock. */
  predicate Marked(lock: Word, epoch: nat, pc: Pc)
    requires WasRefused(pc)
  {
    pc.epoch <= epoch && (pc.epoch == epoch ==> lock.held && lock.contended)
  }

  ghost predicate MarkInv(lock: Word, epoch: nat, pcs: map<nat, Pc>) {
    forall t :: t in pcs && WasRefused(pcs[t]) ==> Marked(lock, epoch, pcs[t])
  }

  ghost predicate Inv(s: State) {
    && SpinInv(s.spin, s.pcs) && OwnerInv(s.lock, s.idle, s.pcs) && CountInv(s.kernelWaiters, s.idle, s.pcs)
    && MarkInv(s.lock, s.epoch, s.pcs) && UserInv(s.userWaiters, s.pcs)
  }

  /** The context a holder has put in the word. */
  function TakenFor(pc: Pc): bv32
    requires Takes(pc)
  {
    if Owns(pc) then pc.c else 0
  }

  predicate Transfers(pc: Pc) { pc.TransferLoad? || pc.TransferCas? }

  predicate HasContext(pc: Pc) {
    CountsAsUser(pc) || Owns(pc)
  }

  predicate Takes(pc: Pc) { Owns(pc) || InTransit(pc) }

  predicate Dropping(pc: Pc) { pc.KDropLoad? || pc.KDropCas? }

  predicate Init(s: State) {
    s.lock == KERNEL_FREE && s.spin.Open? && s.userWaiters == 0 && s.kernelWaiters == 0 && !s.idle && s.epoch == 0
    && forall t :: t in s.pcs ==> s.pcs[t].Out?
  }

  lemma InitInv(s: State)
    requires Init(s)
    ensures Inv(s)
  {
    assert KernelSide(s.pcs) == {} && UserSide(s.pcs) == {};
  }

  lemma MoveCounts(pcs: map<nat, Pc>, t: nat, pc: Pc)
    requires t in pcs
    ensures |KernelSide(pcs[t := pc])| ==
      |KernelSide(pcs)| + (if CountsAsKernel(pc) then 1 else 0) - (if CountsAsKernel(pcs[t]) then 1 else 0)
  {
    var before, after := KernelSide(pcs), KernelSide(pcs[t := pc]);
    assert before - {t} == after - {t} by {
      forall u ensures u in before - {t} <==> u in after - {t} { }
    }
    WithoutOne(before, t);
    WithoutOne(after, t);
  }

  lemma UserMove(pcs: map<nat, Pc>, t: nat, pc: Pc, userWaiters: int, userWaiters': int)
    requires UserInv(userWaiters, pcs) && t in pcs
    requires userWaiters' == userWaiters + (if CountsAsUser(pc) then 1 else 0) - (if CountsAsUser(pcs[t]) then 1 else 0)
    ensures UserInv(userWaiters', pcs[t := pc])
  {
    var before, after := UserSide(pcs), UserSide(pcs[t := pc]);
    assert before - {t} == after - {t} by {
      forall u ensures u in before - {t} <==> u in after - {t} { }
    }
    WithoutOne(before, t);
    WithoutOne(after, t);
  }

  lemma WithoutOne(x: set<nat>, t: nat)
    ensures |x| == |x - {t}| + if t in x then 1 else 0
  {
    if t !in x { assert x - {t} == x; }
  }

  lemma SpinMove(spin: Spin, pcs: map<nat, Pc>, t: nat, pc: Pc, spin': Spin)
    requires SpinInv(spin, pcs) && t in pcs && (spin.Open? || spin == By(t) || spin' == spin)
    requires if HasSpin(pc) then spin' == By(t) else spin' == (if HasSpin(pcs[t]) then Open else spin)
    ensures SpinInv(spin', pcs[t := pc])
  {
  }

  /** A move that neither takes nor gives up the lock, and a word that says the same. */
  lemma OwnerSame(lock: Word, idle: bool, pcs: map<nat, Pc>, t: nat, pc: Pc, lock': Word)
    requires OwnerInv(lock, idle, pcs) && t in pcs && Takes(pc) == Takes(pcs[t])
    requires Takes(pc) ==> TakenFor(pc) == TakenFor(pcs[t])
    requires HasContext(pc) ==> pc.c != 0
    requires lock'.held == lock.held && (lock.held ==> lock'.context == lock.context)
    ensures OwnerInv(lock', idle, pcs[t := pc])
  {
    if lock.held && !idle {
      var u :| u in pcs && Takes(pcs[u]);
      assert u in pcs[t := pc] && Takes(pcs[t := pc][u]);
    }
  }

  lemma OwnerTake(lock: Word, idle: bool, pcs: map<nat, Pc>, t: nat, pc: Pc, lock': Word)
    requires OwnerInv(lock, idle, pcs) && t in pcs && !lock.held && Takes(pc)
    requires HasContext(pc) ==> pc.c != 0
    requires lock'.held && lock'.context == TakenFor(pc)
    ensures OwnerInv(lock', idle, pcs[t := pc])
  {
    assert t in pcs[t := pc] && Takes(pcs[t := pc][t]);
  }

  /** A holder lets go: of the lock, or to the idlelock. */
  lemma OwnerDrop(lock: Word, idle: bool, pcs: map<nat, Pc>, t: nat, pc: Pc, lock': Word, idle': bool)
    requires OwnerInv(lock, idle, pcs) && t in pcs && (Takes(pcs[t]) || idle) && !Takes(pc) && !HasContext(pc)
    requires if idle' then lock'.held && lock'.context == 0 else !lock'.held
    ensures OwnerInv(lock', idle', pcs[t := pc])
  {
  }

  lemma CountMove(kw: int, idle: bool, pcs: map<nat, Pc>, t: nat, pc: Pc, kw': int, idle': bool)
    requires CountInv(kw, idle, pcs) && t in pcs
    requires kw' == kw + (if CountsAsKernel(pc) then 1 else 0) - (if CountsAsKernel(pcs[t]) then 1 else 0)
    requires idle == idle' || (idle' && !Dropping(pcs[t]) && kw' > 0) || (!idle' && Alone(pcs, t))
    requires idle' && kw' == 0 ==> Dropping(pc) || (kw == 0 && !Dropping(pcs[t]))
    requires kw' != kw ==> Alone(pcs, t)
    requires (Dropping(pc) ==> idle' && kw' == 0) && (Transfers(pc) ==> kw' > 0) && (kw' < kw ==> NoTransfers(pcs))
    ensures CountInv(kw', idle', pcs[t := pc])
  {
    MoveCounts(pcs, t, pc);
    if idle' && kw' == 0 {
      if Dropping(pc) { assert t in pcs[t := pc] && Dropping(pcs[t := pc][t]); }
      else {
        var u :| u in pcs && Dropping(pcs[u]);
        assert u in pcs[t := pc] && Dropping(pcs[t := pc][u]);
      }
    }
  }

  /** No other thread is in the middle of dropping the idlelock's hold. */
  ghost predicate Alone(pcs: map<nat, Pc>, t: nat) {
    forall u :: u in pcs && u != t ==> !Dropping(pcs[u])
  }

  ghost predicate NoTransfers(pcs: map<nat, Pc>) {
    forall u :: u in pcs ==> !Transfers(pcs[u])
  }

  lemma MarkMove(lock: Word, epoch: nat, pcs: map<nat, Pc>, t: nat, pc: Pc, lock': Word, epoch': nat)
    requires MarkInv(lock, epoch, pcs) && t in pcs && epoch <= epoch'
    requires epoch == epoch' ==> (lock.held && lock.contended ==> lock'.held && lock'.contended)
    requires WasRefused(pc) ==> Marked(lock', epoch', pc)
    ensures MarkInv(lock', epoch', pcs[t := pc])
  {
  }

  // --- Each step keeps them ---

  /** What a move of thread `t` to `pc` needs so far as the spinlock is concerned. */
  predicate SpinOk(s: State, t: nat, pc: Pc, spin: Spin)
    requires t in s.pcs
  {
    && (s.spin.Open? || s.spin == By(t) || spin == s.spin)
    && (if HasSpin(pc) then spin == By(t) else spin == if HasSpin(s.pcs[t]) then Open else s.spin)
  }

  function CountAfter(s: State, t: nat, pc: Pc): int
    requires t in s.pcs
  {
    s.kernelWaiters + (if CountsAsKernel(pc) then 1 else 0) - (if CountsAsKernel(s.pcs[t]) then 1 else 0)
  }

  function UsersAfter(s: State, t: nat, pc: Pc): int
    requires t in s.pcs
  {
    s.userWaiters + (if CountsAsUser(pc) then 1 else 0) - (if CountsAsUser(s.pcs[t]) then 1 else 0)
  }

  lemma SpinOpenMeans(s: State)
    requires Inv(s) && s.spin.Open?
    ensures NoTransfers(s.pcs) && forall t :: t in s.pcs ==> !Dropping(s.pcs[t])
    ensures s.idle ==> s.kernelWaiters > 0
  {
  }

  /** Moves that leave the lock word and idle_has_lock alone. */
  lemma QuietMove(s: State, t: nat, pc: Pc, spin: Spin, userWaiters: int)
    requires Inv(s) && t in s.pcs && SpinOk(s, t, pc, spin)
    requires Takes(pc) == Takes(s.pcs[t]) && (Takes(pc) ==> TakenFor(pc) == TakenFor(s.pcs[t]))
    requires (HasContext(pc) ==> pc.c != 0) && !WasRefused(pc)
    requires Dropping(pc) == (Dropping(s.pcs[t]) || (CountAfter(s, t, pc) == 0 && s.idle && s.spin.Open?)) && (Dropping(pc) ==> s.idle)
    requires Transfers(pc) ==> CountAfter(s, t, pc) > 0
    requires CountAfter(s, t, pc) != s.kernelWaiters ==> s.spin.Open?
    requires userWaiters == UsersAfter(s, t, pc)
    ensures Inv(s.(pcs := s.pcs[t := pc], spin := spin, userWaiters := userWaiters, kernelWaiters := CountAfter(s, t, pc)))
  {
    SpinMove(s.spin, s.pcs, t, pc, spin);
    OwnerSame(s.lock, s.idle, s.pcs, t, pc, s.lock);
    MarkMove(s.lock, s.epoch, s.pcs, t, pc, s.lock, s.epoch);
    UserMove(s.pcs, t, pc, s.userWaiters, userWaiters);
    if s.spin.Open? { SpinOpenMeans(s); }
    CountMove(s.kernelWaiters, s.idle, s.pcs, t, pc, CountAfter(s, t, pc), s.idle);
  }

  lemma EnterStep(s: State, t: nat, a: Action)
    requires Inv(s) && (a.Enter? || a.KEnter?) && Enabled(s, t, a)
    ensures Inv(Do(s, t, a))
  {
    if a.Enter? { QuietMove(s, t, Want(a.c), s.spin, s.userWaiters + 1); }
    else { QuietMove(s, t, if s.idle then KIn(false, s.epoch) else KWant, s.spin, s.userWaiters); }
  }

  lemma BeginStep(s: State, t: nat, a: Action)
    requires Inv(s) && (a.BeginTake? || a.BeginFree? || a.KBegin?) && Enabled(s, t, a)
    ensures Inv(Do(s, t, a))
  {
    if a.BeginTake? { QuietMove(s, t, TakeLoad(s.pcs[t].c), By(t), s.userWaiters); }
    else if a.KBegin? { QuietMove(s, t, KLoad, By(t), s.userWaiters); }
    else { UnlockStep(s, t); }
  }

  lemma UnlockStep(s: State, t: nat)
    requires Inv(s) && Enabled(s, t, BeginFree)
    ensures Inv(Do(s, t, BeginFree))
  {
    if s.kernelWaiters != 0 { QuietMove(s, t, TransferLoad(s.pcs[t].c), By(t), s.userWaiters); }
    else { QuietMove(s, t, FreeLoad(s.pcs[t].c), s.spin, s.userWaiters); }
  }

  lemma LeaveStep(s: State, t: nat, a: Action)
    requires Inv(s) && (a.Settle? || a.GiveUp?) && Enabled(s, t, a)
    ensures Inv(Do(s, t, a))
  {
    QuietMove(s, t, if a.Settle? then Holding(s.pcs[t].c) else Out, s.spin, s.userWaiters - 1);
  }

  lemma KLeaveStep(s: State, t: nat)
    requires Inv(s) && Enabled(s, t, KLeave)
    ensures Inv(Do(s, t, KLeave))
  {
    if s.kernelWaiters - 1 == 0 && s.idle { QuietMove(s, t, KDropLoad, By(t), s.userWaiters); }
    else { QuietMove(s, t, Out, s.spin, s.userWaiters); }
  }

  /** A move between a load and its cmpxchg, or back. */
  predicate SameRegion(pc: Pc, pc': Pc) {
    match pc
    case TakeLoad(c) => pc'.TakeCas? && pc'.c == c
    case TransferLoad(c) => pc'.TransferCas? && pc'.c == c
    case FreeLoad(c) => pc'.FreeCas? && pc'.c == c
    case KLoad => pc'.KCas?
    case KDropLoad => pc'.KDropCas?
    case TakeCas(c, _) => pc' == TakeLoad(c)
    case TransferCas(c, _) => pc' == TransferLoad(c)
    case FreeCas(c, _) => pc' == FreeLoad(c)
    case KCas(_) => pc' == KLoad
    case KDropCas(_) => pc' == KDropLoad
    case _ => false
  }

  lemma RegionMove(s: State, t: nat, pc: Pc)
    requires Inv(s) && t in s.pcs && SameRegion(s.pcs[t], pc)
    ensures Inv(Move(s, t, pc))
  {
    QuietMove(s, t, pc, s.spin, s.userWaiters);
    assert Move(s, t, pc) ==
      s.(pcs := s.pcs[t := pc], spin := s.spin, userWaiters := s.userWaiters, kernelWaiters := CountAfter(s, t, pc));
  }

  lemma LoadStep(s: State, t: nat)
    requires Inv(s) && Enabled(s, t, Load)
    ensures Inv(Do(s, t, Load))
  {
    RegionMove(s, t, DoLoad(s, t).pcs[t]);
  }

  lemma KFinishStep(s: State, t: nat)
    requires Inv(s) && Enabled(s, t, KFinish)
    ensures Inv(Do(s, t, KFinish))
  {
    var pc := s.pcs[t];
    var pc' := KIn(!pc.got, pc.epoch);
    SpinMove(s.spin, s.pcs, t, pc', s.spin);
    if pc.got { OwnerDrop(s.lock, s.idle, s.pcs, t, pc', s.lock, true); }
    else { OwnerSame(s.lock, s.idle, s.pcs, t, pc', s.lock); }
    assert t in KernelSide(s.pcs);
    CountMove(s.kernelWaiters, s.idle, s.pcs, t, pc', s.kernelWaiters, s.idle || pc.got);
    MarkMove(s.lock, s.epoch, s.pcs, t, pc', s.lock, s.epoch);
    UserMove(s.pcs, t, pc', s.userWaiters, s.userWaiters);
  }

  /** A cmpxchg that meets another word than it loaded. */
  lemma RetryStep(s: State, t: nat)
    requires Inv(s) && Enabled(s, t, Cas) && s.lock != s.pcs[t].was
    ensures Inv(Do(s, t, Cas))
  {
    RegionMove(s, t, DoCas(s, t).pcs[t]);
  }

  /** The cmpxchg of drm_lock_take. */
  lemma TakeStep(s: State, t: nat)
    requires Inv(s) && (t in s.pcs && (s.pcs[t].TakeCas? || s.pcs[t].KCas?)) && s.lock == s.pcs[t].was
    ensures Inv(Do(s, t, Cas))
  {
    var u := DoCas(s, t);
    TakeMove(s, t, u.pcs[t], u.lock, u.epoch);
  }

  lemma TakeMove(s: State, t: nat, pc: Pc, lock: Word, epoch: nat)
    requires Inv(s) && t in s.pcs && HasSpin(s.pcs[t]) && !Takes(s.pcs[t]) && !Transfers(s.pcs[t]) && !Dropping(s.pcs[t])
    requires Takes(pc) == !s.lock.held && !HasSpin(pc) && !Dropping(pc) && !Transfers(pc)
    requires CountsAsKernel(pc) == CountsAsKernel(s.pcs[t]) && (HasContext(pc) ==> pc.c != 0)
    requires lock.held && lock.context == (if s.lock.held then s.lock.context else TakenFor(pc))
    requires epoch == (if Takes(pc) then s.epoch + 1 else s.epoch) && (WasRefused(pc) ==> pc.epoch == epoch && !Takes(pc))
    requires s.lock.held ==> lock.contended
    requires CountsAsUser(pc) == CountsAsUser(s.pcs[t])
    ensures Inv(s.(pcs := s.pcs[t := pc], lock := lock, spin := Open, epoch := epoch))
  {
    SpinMove(s.spin, s.pcs, t, pc, Open);
    if s.lock.held { OwnerSame(s.lock, s.idle, s.pcs, t, pc, lock); } else { OwnerTake(s.lock, s.idle, s.pcs, t, pc, lock); }
    CountMove(s.kernelWaiters, s.idle, s.pcs, t, pc, s.kernelWaiters, s.idle);
    MarkMove(s.lock, s.epoch, s.pcs, t, pc, lock, epoch);
    UserMove(s.pcs, t, pc, s.userWaiters, s.userWaiters);
  }

  /** The cmpxchg of drm_lock_transfer, drm_lock_free and drm_idlelock_release. */
  lemma DropStep(s: State, t: nat)
    requires Inv(s) && t in s.pcs && (s.pcs[t].TransferCas? || s.pcs[t].FreeCas? || s.pcs[t].KDropCas?) && s.lock == s.pcs[t].was
    ensures Inv(Do(s, t, Cas))
  {
    var u := DoCas(s, t);
    SpinMove(s.spin, s.pcs, t, Out, u.spin);
    OwnerDrop(s.lock, s.idle, s.pcs, t, Out, u.lock, u.idle);
    assert Alone(s.pcs, t);
    CountMove(s.kernelWaiters, s.idle, s.pcs, t, Out, s.kernelWaiters, u.idle);
    MarkMove(s.lock, s.epoch, s.pcs, t, Out, u.lock, u.epoch);
    UserMove(s.pcs, t, Out, s.userWaiters, s.userWaiters);
  }

  lemma NotifyStep(s: State, t: nat)
    requires Inv(s) && Enabled(s, t, Notify)
    ensures Inv(Do(s, t, Notify))
  {
    assert s.pcs[t := s.pcs[t]] == s.pcs;
    assert HasContext(s.pcs[t]) ==> s.pcs[t].c != 0;
    OwnerSame(s.lock, s.idle, s.pcs, t, s.pcs[t], s.lock.(contended := true));
    MarkNotified(s.lock, s.epoch, s.pcs);
  }

  lemma MarkNotified(lock: Word, epoch: nat, pcs: map<nat, Pc>)
    requires MarkInv(lock, epoch, pcs)
    ensures MarkInv(lock.(contended := true), epoch, pcs)
  {
  }

  lemma StepKeepsInv(s: State, t: nat, a: Action)
    requires Inv(s) && Enabled(s, t, a)
    ensures Inv(Do(s, t, a))
  {
    match a
    case Load => LoadStep(s, t);
    case Cas =>
      if s.lock != s.pcs[t].was { RetryStep(s, t); }
      else if s.pcs[t].TakeCas? || s.pcs[t].KCas? { TakeStep(s, t); }
      else { DropStep(s, t); }
    case KFinish => KFinishStep(s, t);
    case Notify => NotifyStep(s, t);
    case BeginTake | BeginFree | KBegin => BeginStep(s, t, a);
    case Settle | GiveUp => LeaveStep(s, t, a);
    case KLeave => KLeaveStep(s, t);
    case Enter(_) => EnterStep(s, t, a);
    case KEnter => EnterStep(s, t, a);
  }

  // --- Whole runs ---

  /** `t` is reached from `s` when the scheduler picks these threads and steps. */
  ghost predicate Run(s: State, schedule: seq<(nat, Action)>, t: State)
    decreases |schedule|
  {
    if schedule == [] then t == s
    else Enabled(s, schedule[0].0, schedule[0].1) && Run(Do(s, schedule[0].0, schedule[0].1), schedule[1..], t)
  }

  lemma {:induction false} RunKeepsInv(s: State, schedule: seq<(nat, Action)>, t: State)
    requires Inv(s) && Run(s, schedule, t)
    ensures Inv(t)
    decreases |schedule|
  {
    if schedule != [] {
      StepKeepsInv(s, schedule[0].0, schedule[0].1);
      RunKeepsInv(Do(s, schedule[0].0, schedule[0].1), schedule[1..], t);
    }
  }

  /** Mutual exclusion and priority, in every reachable state: at most one thread
      owns the lock, its context is in the word, and then the kernel does not
      have it; outside the spinlock idle_has_lock means that the kernel still
      waits and that the word is held for context 0; a word held for context 0
      is the idlelock's, or that of exactly one thread about to set
      idle_has_lock; a refused take, a client's or the kernel's, has left the
      contended flag, for as long as the lock does not change hands; and the two
      counters of waiters are the numbers of threads that wait. */
  lemma LockIsExclusive(s: State, schedule: seq<(nat, Action)>, t: State)
    requires Init(s) && Run(s, schedule, t)
    ensures forall a, b :: a in t.pcs && b in t.pcs && Owns(t.pcs[a]) && Owns(t.pcs[b]) ==> a == b
    ensures forall a :: a in t.pcs && Owns(t.pcs[a]) ==> t.lock.held && t.lock.context == t.pcs[a].c != 0 && !t.idle
    ensures t.idle ==> t.lock.held && t.lock.context == 0 && (t.spin.Open? ==> t.kernelWaiters > 0)
    ensures t.lock.held && t.lock.context == 0 ==>
      (!t.idle <==> exists a :: a in t.pcs && InTransit(t.pcs[a]) && forall b :: b in t.pcs && InTransit(t.pcs[b]) ==> a == b)
    ensures forall a :: a in t.pcs && WasRefused(t.pcs[a]) && t.pcs[a].epoch == t.epoch ==> t.lock.held && t.lock.contended
    ensures t.userWaiters == |UserSide(t.pcs)| && t.kernelWaiters == |KernelSide(t.pcs)|
  {
    InitInv(s);
    RunKeepsInv(s, schedule, t);
  }

  // --- A whole ownership ---

  datatype Owner = Client(t: nat) | Kernel

  ghost predicate Has(s: State, o: Owner) {
    match o
    case Client(t) => t in s.pcs && Owns(s.pcs[t])
    case Kernel => s.idle || exists t :: t in s.pcs && InTransit(s.pcs[t])
  }

  /** A run through which `o` has the lock without a break. */
  ghost predicate RunWhile(s: State, schedule: seq<(nat, Action)>, u: State, o: Owner)
    decreases |schedule|
  {
    Has(s, o) &&
    if schedule == [] then u == s
    else Enabled(s, schedule[0].0, schedule[0].1) && RunWhile(Do(s, schedule[0].0, schedule[0].1), schedule[1..], u, o)
  }

  /** Other threads are counted as waiting for the lock, or inside the idlelock. */
  ghost predicate OthersWait(pcs: map<nat, Pc>, t: nat) {
    exists x :: x in pcs && x != t && (CountsAsUser(pcs[x]) || CountsAsKernel(pcs[x]))
  }

  /** The next step of `t` is a cmpxchg of drm_lock_take that goes through. */
  predicate AtTake(s: State, t: nat) {
    t in s.pcs && (s.pcs[t].TakeCas? || s.pcs[t].KCas?) && s.lock == s.pcs[t].was
  }

  /** Whom a take by `t` is for. */
  function TakenBy(s: State, t: nat): Owner
    requires AtTake(s, t)
  {
    if s.pcs[t].TakeCas? then Client(t) else Kernel
  }

  /** The two counters exceed one exactly if somebody but the thread in drm_lock_take waits. */
  lemma CrowdMeans(s: State, t: nat)
    requires Inv(s) && AtTake(s, t)
    ensures Crowd(s) <==> OthersWait(s.pcs, t)
  {
    CrowdCounts(s.pcs, t);
  }

  lemma CrowdCounts(pcs: map<nat, Pc>, t: nat)
    requires t in pcs && (CountsAsUser(pcs[t]) || CountsAsKernel(pcs[t]))
    ensures |UserSide(pcs)| + |KernelSide(pcs)| > 1 <==> OthersWait(pcs, t)
  {
    var all := UserSide(pcs) + KernelSide(pcs);
    assert UserSide(pcs) !! KernelSide(pcs);
    assert |all| == |UserSide(pcs)| + |KernelSide(pcs)|;
    WithoutOne(all, t);
    assert t in all;
    if OthersWait(pcs, t) {
      var x :| x in pcs && x != t && (CountsAsUser(pcs[x]) || CountsAsKernel(pcs[x]));
      assert x in all - {t};
    } else {
      assert all - {t} == {};
    }
  }

  /** No step takes the contended flag away while an ownership lasts. */
  lemma FlagStep(s: State, x: nat, a: Action, o: Owner)
    requires Inv(s) && Enabled(s, x, a) && Has(s, o) && Has(Do(s, x, a), o) && s.lock.contended
    ensures Do(s, x, a).lock.held && Do(s, x, a).lock.contended
  {
    StepKeepsInv(s, x, a);
    var u := Do(s, x, a);
    if a.Cas? && s.lock == s.pcs[x].was && !s.pcs[x].TakeCas? && !s.pcs[x].KCas? {
      Ended(s, x, o);
    }
  }

  /** The other three cmpxchgs end the ownership. */
  lemma Ended(s: State, x: nat, o: Owner)
    requires Inv(s) && Enabled(s, x, Cas) && (s.pcs[x].TransferCas? || s.pcs[x].FreeCas? || s.pcs[x].KDropCas?) && s.lock == s.pcs[x].was
    requires Has(s, o)
    ensures !Has(Do(s, x, Cas), o)
  {
  }

  lemma {:induction false} FlagStays(s: State, schedule: seq<(nat, Action)>, u: State, o: Owner)
    requires Inv(s) && RunWhile(s, schedule, u, o) && s.lock.contended
    ensures u.lock.held && u.lock.contended
    decreases |schedule|
  {
    if schedule != [] {
      var (x, a) := schedule[0];
      FlagStep(s, x, a, o);
      StepKeepsInv(s, x, a);
      FlagStays(Do(s, x, a), schedule[1..], u, o);
    }
  }

  /** A take that meets a free word, in any reachable state: the lock is then its
      caller's, and the word has the contended flag if and only if others are
      waiting, or are inside for the idlelock. The flag stays for as long as that
      ownership lasts, whatever happens meanwhile; so a client that took the lock
      while a kernel user was passed over has to come back through drm_lock_free. */
  lemma TakeAnnounces(s: State, before: seq<(nat, Action)>, u: State, t: nat, after: seq<(nat, Action)>, v: State)
    requires Init(s) && Run(s, before, u) && AtTake(u, t) && !u.lock.held
    requires RunWhile(Do(u, t, Cas), after, v, TakenBy(u, t)) || (after == [] && v == Do(u, t, Cas))
    ensures Has(Do(u, t, Cas), TakenBy(u, t))
    ensures Do(u, t, Cas).lock.contended <==> OthersWait(u.pcs, t)
    ensures OthersWait(u.pcs, t) ==> v.lock.held && v.lock.contended
    ensures Stranded(u.pcs) != {} ==> v.lock.contended
  {
    InitInv(s);
    RunKeepsInv(s, before, u);
    StepKeepsInv(u, t, Cas);
    CrowdMeans(u, t);
    var w := Do(u, t, Cas);
    assert w.pcs[t].Got? || InTransit(w.pcs[t]);
    if Stranded(u.pcs) != {} {
      var x :| x in Stranded(u.pcs);
      assert x != t && CountsAsKernel(u.pcs[x]);
    }
    if w.lock.contended { FlagStays(w, after, v, TakenBy(u, t)); }
  }

  /** A take that is refused announces itself to the owner, whoever that is, until
      that ownership ends; and its caller is still counted as waiting. */
  lemma RefusalAnnounces(s: State, before: seq<(nat, Action)>, u: State, t: nat, o: Owner, after: seq<(nat, Action)>, v: State)
    requires Init(s) && Run(s, before, u) && AtTake(u, t) && u.lock.held && RunWhile(Do(u, t, Cas), after, v, o)
    ensures var w := Do(u, t, Cas); WasRefused(w.pcs[t]) && Has(u, o) && (CountsAsUser(w.pcs[t]) || CountsAsKernel(w.pcs[t]))
    ensures v.lock.held && v.lock.contended
  {
    InitInv(s);
    RunKeepsInv(s, before, u);
    StepKeepsInv(u, t, Cas);
    RefusedChangesNothing(u, t, o);
    FlagStays(Do(u, t, Cas), after, v, o);
  }

  lemma RefusedChangesNothing(u: State, t: nat, o: Owner)
    requires AtTake(u, t) && u.lock.held && Has(Do(u, t, Cas), o)
    ensures Has(u, o) && Do(u, t, Cas).lock.contended
    ensures var pc := Do(u, t, Cas).pcs[t]; WasRefused(pc) && (CountsAsUser(pc) || CountsAsKernel(pc))
  {
    var w := Do(u, t, Cas);
    if o.Kernel? && !u.idle {
      var x :| x in w.pcs && InTransit(w.pcs[x]);
      assert x != t && InTransit(u.pcs[x]);
    }
  }

  /** A run through which kernel user `t` stays inside. */
  ghost predicate RunInside(s: State, schedule: seq<(nat, Action)>, u: State, t: nat)
    decreases |schedule|
  {
    t in s.pcs && s.pcs[t].KIn? &&
    if schedule == [] then u == s
    else Enabled(s, schedule[0].0, schedule[0].1) && RunInside(Do(s, schedule[0].0, schedule[0].1), schedule[1..], u, t)
  }

  /** What drm_idlelock_take promises: once the idlelock has the lock, no client
      gets it before the last kernel user inside has left, in whatever order
      they come and go. */
  lemma {:induction false} KernelKeepsLock(s: State, schedule: seq<(nat, Action)>, u: State, t: nat)
    requires Inv(s) && s.idle && RunInside(s, schedule, u, t)
    ensures u.idle && u.lock.held && u.lock.context == 0 && forall x :: x in u.pcs ==> !Owns(u.pcs[x])
    decreases |schedule|
  {
    if schedule != [] {
      var (x, a) := schedule[0];
      StepKeepsInv(s, x, a);
      InsideStep(s, x, a, t);
      KernelKeepsLock(Do(s, x, a), schedule[1..], u, t);
    }
  }

  lemma InsideStep(s: State, x: nat, a: Action, t: nat)
    requires Inv(s) && s.idle && t in s.pcs && s.pcs[t].KIn? && Enabled(s, x, a)
    requires var u := Do(s, x, a); t in u.pcs && u.pcs[t].KIn?
    ensures Do(s, x, a).idle
  {
    assert t in KernelSide(s.pcs);
  }

  // --- A whole unlock ---

  /** Past the spinlock region of drm_lock_free, or in drm_lock_transfer. */
  predicate Unlocking(pc: Pc) { Transfers(pc) || Frees(pc) }

  predicate Frees(pc: Pc) { pc.FreeLoad? || pc.FreeCas? }

  /** A run during which thread `t` does not finish its unlock. */
  ghost predicate RunBefore(s: State, schedule: seq<(nat, Action)>, u: State, t: nat)
    decreases |schedule|
  {
    t in s.pcs && Unlocking(s.pcs[t]) &&
    if schedule == [] then u == s
    else Enabled(s, schedule[0].0, schedule[0].1) && RunBefore(Do(s, schedule[0].0, schedule[0].1), schedule[1..], u, t)
  }

  /** The next step of thread `t` is the cmpxchg that gives the lock up. */
  predicate GivesUp(u: State, t: nat) {
    t in u.pcs && (u.pcs[t].TransferCas? || u.pcs[t].FreeCas?) && u.lock == u.pcs[t].was
  }

  /** Kernel users that are back from drm_lock_take without the lock, or inside. */
  ghost function Stranded(pcs: map<nat, Pc>): set<nat> {
    set x | x in pcs && ((pcs[x].KTook? && !pcs[x].got) || pcs[x].KIn?)
  }

  /** One step's effect on the kernel users whose cmpxchg has been refused and that have not left again. */
  ghost function RefusedAfter(s: State, x: nat, a: Action, before: set<nat>): set<nat>
    requires Enabled(s, x, a)
  {
    if a.Cas? && s.pcs[x].KCas? && s.lock == s.pcs[x].was && s.lock.held then before + {x}
    else if a.KLeave? then before - {x}
    else before
  }

  ghost function RefusedDuring(s: State, schedule: seq<(nat, Action)>, u: State, t: nat, before: set<nat>): set<nat>
    requires RunBefore(s, schedule, u, t)
    decreases |schedule|
  {
    if schedule == [] then before
    else
      var (x, a) := schedule[0];
      RefusedDuring(Do(s, x, a), schedule[1..], u, t, RefusedAfter(s, x, a, before))
  }

  /** While a client frees the lock, the kernel users inside are those it made the lock refuse. */
  lemma FreeingStep(s: State, t: nat, x: nat, a: Action)
    requires Inv(s) && t in s.pcs && Frees(s.pcs[t]) && Enabled(s, x, a)
    requires var u := Do(s, x, a); t in u.pcs && Unlocking(u.pcs[t])
    ensures Frees(Do(s, x, a).pcs[t]) && Stranded(Do(s, x, a).pcs) == RefusedAfter(s, x, a, Stranded(s.pcs))
    ensures Do(s, x, a).pcs[t].c == s.pcs[t].c
  {
    assert Takes(s.pcs[t]) && !s.idle && s.lock.held;
    if x == t { OwnStep(s, t, a); } else { OtherStep(s, t, x, a); }
  }

  lemma OwnStep(s: State, t: nat, a: Action)
    requires t in s.pcs && Frees(s.pcs[t]) && Enabled(s, t, a) && Unlocking(Do(s, t, a).pcs[t])
    ensures Frees(Do(s, t, a).pcs[t]) && Stranded(Do(s, t, a).pcs) == RefusedAfter(s, t, a, Stranded(s.pcs))
    ensures Do(s, t, a).pcs[t].c == s.pcs[t].c
  {
  }

  lemma OtherStep(s: State, t: nat, x: nat, a: Action)
    requires x != t && t in s.pcs && Frees(s.pcs[t]) && Enabled(s, x, a) && !s.idle && s.lock.held && !InTransit(s.pcs[x])
    ensures Frees(Do(s, x, a).pcs[t]) && Stranded(Do(s, x, a).pcs) == RefusedAfter(s, x, a, Stranded(s.pcs))
    ensures Do(s, x, a).pcs[t].c == s.pcs[t].c
  {
    var u := Do(s, x, a);
    assert u.pcs == s.pcs[x := u.pcs[x]];
    StrandedMove(s.pcs, x, u.pcs[x]);
  }

  lemma StrandedMove(pcs: map<nat, Pc>, x: nat, pc: Pc)
    requires x in pcs
    ensures Stranded(pcs[x := pc]) == Stranded(pcs) - {x} + if (pc.KTook? && !pc.got) || pc.KIn? then {x} else {}
  {
  }

  lemma TransferringStep(s: State, t: nat, x: nat, a: Action)
    requires t in s.pcs && Transfers(s.pcs[t]) && Enabled(s, x, a)
    requires var u := Do(s, x, a); t in u.pcs && Unlocking(u.pcs[t])
    ensures Transfers(Do(s, x, a).pcs[t])
  {
  }

  lemma {:induction false} FreeingRun(s: State, schedule: seq<(nat, Action)>, u: State, t: nat)
    requires Inv(s) && RunBefore(s, schedule, u, t) && Frees(s.pcs[t])
    ensures Inv(u) && t in u.pcs && Frees(u.pcs[t]) && u.pcs[t].c == s.pcs[t].c
    ensures Stranded(u.pcs) == RefusedDuring(s, schedule, u, t, Stranded(s.pcs))
    decreases |schedule|
  {
    if schedule != [] {
      var (x, a) := schedule[0];
      StepKeepsInv(s, x, a);
      FreeingStep(s, t, x, a);
      FreeingRun(Do(s, x, a), schedule[1..], u, t);
    }
  }

  lemma {:induction false} TransferringRun(s: State, schedule: seq<(nat, Action)>, u: State, t: nat)
    requires Inv(s) && RunBefore(s, schedule, u, t) && Transfers(s.pcs[t])
    ensures Inv(u) && t in u.pcs && Transfers(u.pcs[t])
    decreases |schedule|
  {
    if schedule != [] {
      var (x, a) := schedule[0];
      StepKeepsInv(s, x, a);
      TransferringStep(s, t, x, a);
      TransferringRun(Do(s, x, a), schedule[1..], u, t);
    }
  }

  /** The handover, over a whole unlock. Whatever other threads do between the
      client's look at kernel_waiters and the cmpxchg that gives the lock up, the
      idlelock gets it if and only if the look saw a kernel user. If it saw none
      the lock is left free, and the kernel users then inside, with nobody to
      hand them the lock, are exactly those whose cmpxchg was refused in between
      and that have not left again. */
  lemma UnlockDecides(s: State, t: nat, schedule: seq<(nat, Action)>, u: State)
    requires Inv(s) && Enabled(s, t, BeginFree) && RunBefore(Do(s, t, BeginFree), schedule, u, t) && GivesUp(u, t)
    ensures var v := Do(u, t, Cas);
      && (v.idle <==> s.kernelWaiters != 0)
      && v.lock.held == v.idle && (v.idle ==> v.lock == KERNEL_HELD && v.kernelWaiters > 0)
      && (!v.idle ==> v.lock == Word(false, false, s.pcs[t].c) && Stranded(v.pcs) == RefusedDuring(Do(s, t, BeginFree), schedule, u, t, {}))
  {
    StepKeepsInv(s, t, BeginFree);
    if s.kernelWaiters != 0 {
      TransferringRun(Do(s, t, BeginFree), schedule, u, t);
      HandedOver(u, t);
    } else {
      LookedInVain(s, t);
      FreeingRun(Do(s, t, BeginFree), schedule, u, t);
      LeftFree(u, t);
    }
  }

  lemma HandedOver(u: State, t: nat)
    requires Inv(u) && GivesUp(u, t) && Transfers(u.pcs[t])
    ensures var v := Do(u, t, Cas); v.idle && v.lock == KERNEL_HELD && v.kernelWaiters > 0
  {
  }

  lemma LeftFree(u: State, t: nat)
    requires Inv(u) && GivesUp(u, t) && Frees(u.pcs[t])
    ensures var v := Do(u, t, Cas); !v.idle && v.lock == Word(false, false, u.pcs[t].c) && Stranded(v.pcs) == Stranded(u.pcs)
  {
    StrandedMove(u.pcs, t, Out);
  }

  lemma LookedInVain(s: State, t: nat)
    requires Inv(s) && Enabled(s, t, BeginFree) && s.kernelWaiters == 0
    ensures var v := Do(s, t, BeginFree); Frees(v.pcs[t]) && v.pcs[t].c == s.pcs[t].c && Stranded(v.pcs) == {}
  {
    NoneInside(s);
    StrandedMove(s.pcs, t, Do(s, t, BeginFree).pcs[t]);
  }

  lemma NoneInside(s: State)
    requires Inv(s) && s.kernelWaiters == 0
    ensures Stranded(s.pcs) == {}
  {
    assert forall x :: x in Stranded(s.pcs) ==> x in KernelSide(s.pcs);
  }

  /** The handover can be missed: a kernel user that comes between that look and
      the cmpxchg is refused, and the lock is then left free with it waiting. */
  lemma HandoverCanBeMissed(s: State) returns (schedule: seq<(nat, Action)>, t: State)
    requires Init(s) && s.pcs == map[0 := Out, 1 := Out]
    ensures Run(s, schedule, t) && t.spin.Open? && t.pcs == map[0 := Out, 1 := KIn(true, 1)]
    ensures t.kernelWaiters > 0 && !t.idle && !t.lock.held
  {
    assert Plain(5);
    var client := [(0, Enter(5)), (0, BeginTake), (0, Load), (0, Cas), (0, Settle), (0, BeginFree)];
    var a := s.(lock := Word(true, false, 5), epoch := 1, pcs := map[0 := FreeLoad(5), 1 := Out]);
    ClientRuns(s, client, a);
    var rest;
    rest, t := MissFrom(a);
    schedule := client + rest;
    RunsCompose(s, client, a, rest, t);
  }

  lemma MissFrom(s: State) returns (schedule: seq<(nat, Action)>, t: State)
    requires s.pcs == map[0 := FreeLoad(5), 1 := Out] && s.lock == Word(true, false, 5) && s.spin.Open? && !s.idle
    requires s.kernelWaiters == 0 && s.epoch == 1
    ensures Run(s, schedule, t) && t.spin.Open? && t.pcs == map[0 := Out, 1 := KIn(true, 1)]
    ensures t.kernelWaiters > 0 && !t.idle && !t.lock.held
  {
    var kernel := [(1, KEnter), (1, KBegin), (1, Load), (1, Cas), (1, KFinish)];
    var b := s.(lock := Word(true, true, 5), kernelWaiters := 1, pcs := map[0 := FreeLoad(5), 1 := KIn(true, 1)]);
    KernelRuns(s, kernel, b);
    var unlock := [(0, Load), (0, Cas)];
    t := b.(lock := Word(false, false, 5), epoch := 2, pcs := map[0 := Out, 1 := KIn(true, 1)]);
    UnlockRuns(b, unlock, t);
    RunsCompose(s, kernel, b, unlock, t);
    schedule := kernel + unlock;
  }

  lemma RunsCompose(s: State, x: seq<(nat, Action)>, t: State, y: seq<(nat, Action)>, u: State)
    requires Run(s, x, t) && Run(t, y, u)
    ensures Run(s, x + y, u)
    decreases |x|
  {
    if x == [] { assert x + y == y; }
    else {
      assert (x + y)[1..] == x[1..] + y;
      RunsCompose(Do(s, x[0].0, x[0].1), x[1..], t, y, u);
    }
  }

  lemma ClientRuns(s: State, x: seq<(nat, Action)>, t: State)
    requires Init(s) && s.pcs == map[0 := Out, 1 := Out] && Plain(5)
    requires x == [(0, Enter(5)), (0, BeginTake), (0, Load), (0, Cas), (0, Settle), (0, BeginFree)]
    requires t == s.(lock := Word(true, false, 5), epoch := 1, pcs := map[0 := FreeLoad(5), 1 := Out])
    ensures Run(s, x, t)
  {
    var s1 := Do(s, 0, Enter(5));
    var s2 := Do(s1, 0, BeginTake);
    var s3 := Do(s2, 0, Load);
    var s4 := Do(s3, 0, Cas);
    var s5 := Do(s4, 0, Settle);
    assert Do(s5, 0, BeginFree) == t by { assert Do(s5, 0, BeginFree).pcs == t.pcs; }
    assert Run(s5, x[5..], t) by { assert x[5..] == [(0, BeginFree)] && x[5..][1..] == []; }
    assert Run(s4, x[4..], t) by { assert x[4..][1..] == x[5..]; }
    assert Run(s3, x[3..], t) by { assert x[3..][1..] == x[4..]; }
    assert Run(s2, x[2..], t) by { assert x[2..][1..] == x[3..]; }
    assert Run(s1, x[1..], t) by { assert x[1..][1..] == x[2..]; }
  }

  lemma KernelRuns(s: State, x: seq<(nat, Action)>, t: State)
    requires s.pcs == map[0 := FreeLoad(5), 1 := Out] && s.lock == Word(true, false, 5) && s.spin.Open? && !s.idle && s.kernelWaiters == 0 && s.epoch == 1
    requires x == [(1, KEnter), (1, KBegin), (1, Load), (1, Cas), (1, KFinish)]
    requires t == s.(lock := Word(true, true, 5), kernelWaiters := 1, pcs := map[0 := FreeLoad(5), 1 := KIn(true, 1)])
    ensures Run(s, x, t)
  {
    var s1 := Do(s, 1, KEnter);
    var s2 := Do(s1, 1, KBegin);
    var s3 := Do(s2, 1, Load);
    var s4 := Do(s3, 1, Cas);
    assert Do(s4, 1, KFinish) == t by { assert Do(s4, 1, KFinish).pcs == t.pcs; }
    assert Run(s4, x[4..], t) by { assert x[4..] == [(1, KFinish)] && x[4..][1..] == []; }
    assert Run(s3, x[3..], t) by { assert x[3..][1..] == x[4..]; }
    assert Run(s2, x[2..], t) by { assert x[2..][1..] == x[3..]; }
    assert Run(s1, x[1..], t) by { assert x[1..][1..] == x[2..]; }
  }

  lemma UnlockRuns(s: State, x: seq<(nat, Action)>, t: State)
    requires s.pcs == map[0 := FreeLoad(5), 1 := KIn(true, 1)] && s.lock == Word(true, true, 5) && s.epoch == 1
    requires x == [(0, Load), (0, Cas)]
    requires t == s.(lock := Word(false, false, 5), epoch := 2, pcs := map[0 := Out, 1 := KIn(true, 1)])
    ensures Run(s, x, t)
  {
    var s1 := Do(s, 0, Load);
    assert Do(s1, 0, Cas) == t by { assert Do(s1, 0, Cas).pcs == t.pcs; }
    assert Run(s1, x[1..], t) by { assert x[1..] == [(0, Cas)] && x[1..][1..] == []; }
  }
}
