/** Vblank references and vblank events of a whole device, as atomic steps between
    lock regions (drm_irq.c:848-966, 1012-1191; drm_fops.c:418-440, 582-637). */
module VblankEvents {
  import opened Basics
  import opened VblankPipe

  /** sizeof(struct drm_event_vblank), and the space set aside per file. */
  const EVENT: nat := 32
  const SPACE: nat := 4096

  /** The window of the wrapping comparison, 1 << 23. */
  const WINDOW: nat := 0x80_0000

  /** (seq - target) <= (1 << 23) on unsigned ints. */
  predicate Due(seq_: nat, target: nat) {
    (seq_ - target) % U32 <= WINDOW
  }

  /** The comparison agrees with the unbounded one while the two are within its reach. */
  lemma DueIsExact(count: int, target: int)
    requires -(U32 - WINDOW) < count - target <= WINDOW
    ensures Due(count % U32, target % U32) <==> count >= target
  {
    var a, b := count % U32, target % U32;
    assert count == count / U32 * U32 + a && target == target / U32 * U32 + b;
    assert (a - b) % U32 == if a >= b then a - b else a - b + U32;
  }

  /** The frame that a count stands for on a pipe that has reached frame `now`:
      the one within reach of the comparison, before `now` or after it. */
  function FrameOf(now: int, count: nat, target: nat): int {
    if Due(count, target) then now - (count - target) % U32 else now + (target - count) % U32
  }

  lemma FrameOfIs(now: int, count: nat, target: nat)
    requires count == now % U32 && target < U32
    ensures FrameOf(now, count, target) % U32 == target
    ensures if Due(count, target) then FrameOf(now, count, target) <= now <= FrameOf(now, count, target) + WINDOW
            else now < FrameOf(now, count, target) < now + (U32 - WINDOW)
  {
    var x, y := (count - target) % U32, (target - count) % U32;
    assert x == if count >= target then count - target else count - target + U32;
    assert y == if target >= count then target - count else target - count + U32;
    ModShift(now, count, target, now - x);
    ModShift(now, count, target, now + y);
  }

  /** Numbers that differ by the difference of two remainders, and perhaps a whole turn. */
  lemma ModShift(now: int, count: nat, target: nat, frame: int)
    requires count == now % U32 && target < U32
    requires frame - now == target - count || frame - now == target - count - U32 || frame - now == target - count + U32
    ensures frame % U32 == target
  {
  }

  /** A queued request: drm_pending_vblank_event. `id` tells requests apart, `due`
      is the frame its target stands for. */
  datatype Pending = Pending(id: nat, pipe: nat, file: nat, target: nat, due: int)

  /** An event in a file's event_list, the count and the frame at which it was put
      there, and whether it had been queued for that. */
  datatype Delivery = Delivery(id: nat, file: nat, target: nat, count: nat, due: int, frame: int, queued: bool)

  datatype File = File(space: int, queue: seq<Delivery>)

  /** drm_handle_vblank between its count update and its event sweep; it holds vblank_time_lock. */
  datatype Handler = Idle | Busy(pipe: nat, count: nat)

  /** `allowed` is vblank_disable_allowed. What the source does not keep: `frames` are the vblank counts without their
      wrap, `waiting` counts the callers of drm_wait_vblank that hold a reference,
      `leaked` the references left behind by failed requests, `nextId` the requests
      accepted, `log` all deliveries, `dropped` the requests whose file was closed. */
  datatype Dev = Dev(pipes: seq<Pipe>, frames: seq<int>, pending: seq<Pending>, files: map<nat, File>, waiting: seq<nat>,
                     leaked: seq<nat>, allowed: bool, handler: Handler, nextId: nat, log: seq<Delivery>, dropped: nat)

  // --- Lists of requests ---

  /** What the list walks look for. */
  datatype Test = OnPipe(c: nat) | OwnedBy(f: nat) | DueOn(c: nat, count: nat)

  predicate Meets(e: Pending, t: Test) {
    match t
    case OnPipe(c) => e.pipe == c
    case OwnedBy(f) => e.file == f
    case DueOn(c, count) => e.pipe == c && Due(count, e.target)
  }

  /** The requests that meet the test, or those that do not, in order. */
  function Select(xs: seq<Pending>, t: Test, want: bool): seq<Pending> {
    if xs == [] then []
    else if Meets(xs[0], t) == want then [xs[0]] + Select(xs[1..], t, want)
    else Select(xs[1..], t, want)
  }

  lemma {:induction false} SelectMembers(xs: seq<Pending>, t: Test, want: bool)
    ensures forall e :: e in Select(xs, t, want) <==> e in xs && Meets(e, t) == want
  {
    if xs != [] {
      SelectMembers(xs[1..], t, want);
      assert xs == [xs[0]] + xs[1..];
    }
  }

  function Count(xs: seq<Pending>, t: Test): nat
  {
    if xs == [] then 0 else (if Meets(xs[0], t) then 1 else 0) + Count(xs[1..], t)
  }

  lemma CountSnoc(xs: seq<Pending>, e: Pending, t: Test)
    ensures Count(xs + [e], t) == Count(xs, t) + if Meets(e, t) then 1 else 0
  {
    if xs != [] {
      assert (xs + [e])[1..] == xs[1..] + [e];
      CountSnoc(xs[1..], e, t);
    }
  }

  /** Taking requests out of a list splits every count. */
  lemma {:induction false} SelectSplits(xs: seq<Pending>, t: Test, u: Test)
    ensures Count(xs, u) == Count(Select(xs, t, true), u) + Count(Select(xs, t, false), u)
  {
    if xs != [] {
      SelectSplits(xs[1..], t, u);
      var hit := Meets(xs[0], t);
      CountCons(xs[0], Select(xs[1..], t, hit), u);
    }
  }

  lemma CountCons(e: Pending, xs: seq<Pending>, u: Test)
    ensures Count([e] + xs, u) == (if Meets(e, u) then 1 else 0) + Count(xs, u)
  {
    assert ([e] + xs)[1..] == xs;
  }

  lemma {:induction false} CountAll(xs: seq<Pending>, t: Test)
    ensures (forall e :: e in xs ==> Meets(e, t)) ==> Count(xs, t) == |xs|
    ensures (forall e :: e in xs ==> !Meets(e, t)) ==> Count(xs, t) == 0
  {
    if xs != [] {
      assert forall e :: e in xs[1..] ==> e in xs;
      CountAll(xs[1..], t);
    }
  }

  // --- Steps ---

  function SetPipe(d: Dev, c: nat, p: Pipe): Dev
    requires c < |d.pipes| == |d.frames|
  {
    d.(pipes := d.pipes[c := p], frames := d.frames[c := Advance(d.frames[c], d.pipes[c].count, p.count)])
  }

  /** The frame after the count has gone up from `before` to `after`, modulo 2^32. */
  function Advance(frame: int, before: nat, after: nat): int { frame + (after - before) % U32 }

  lemma AdvanceIs(frame: int, before: nat, after: nat)
    requires before == frame % U32 && after < U32
    ensures Advance(frame, before, after) % U32 == after
    ensures after == before ==> Advance(frame, before, after) == frame
    ensures after == (before + 1) % U32 ==> Advance(frame, before, after) == frame + 1
  {
    var x := (after - before) % U32;
    assert x == if after >= before then after - before else after - before + U32;
    assert (frame + x) % U32 == (before + x) % U32;
  }

  /** The event a request becomes when it is delivered. */
  function Deliver(e: Pending, count: nat, frame: int, queued: bool): Delivery {
    Delivery(e.id, e.file, e.target, count, e.due, frame, queued)
  }

  function DeliverAll(es: seq<Pending>, count: nat, frame: int): seq<Delivery> {
    seq(|es|, i requires 0 <= i < |es| => Deliver(es[i], count, frame, true))
  }

  function Append(files: map<nat, File>, e: Delivery): map<nat, File> {
    if e.file in files then files[e.file := files[e.file].(queue := files[e.file].queue + [e])] else files
  }

  function AppendAll(files: map<nat, File>, es: seq<Delivery>): map<nat, File> {
    if es == [] then files else AppendAll(Append(files, es[0]), es[1..])
  }

  datatype Step =
    | Open(f: nat)
    | WaitBegin(c: nat, hw: Hw, works: bool)           // drm_vblank_get in drm_wait_vblank
    | WaitEnd(c: nat)                                  // drm_vblank_put at its end
    | Request(c: nat, f: nat, target: nat, nextOnMiss: bool, memory: bool)   // drm_queue_vblank_event
    | Irq(c: nat, hw: Hw)                        // drm_handle_vblank up to the event sweep
    | Sweep                                            // drm_handle_vblank_events
    | Read(f: nat, total: nat, max: nat)               // drm_dequeue_event
    | Release(f: nat)                                  // drm_events_release, then the file is freed
    | Pre(c: nat, hw: Hw, works: bool)
    | Post(c: nat)
    | Tick(c: nat, hw: Hw)                             // one turn of vblank_disable_fn

  /** Taking the first reference enables interrupts, which needs vblank_time_lock. */
  predicate LockFree(d: Dev, c: nat)
    requires c < |d.pipes|
  {
    d.handler.Idle? || d.pipes[c].refs > 0
  }

  predicate Possible(d: Dev, e: Step) {
    match e
    case Open(f) => f !in d.files && (forall i :: 0 <= i < |d.pending| ==> d.pending[i].file != f)
    case WaitBegin(c, hw, _) => c < |d.pipes| && hw.counter < U32 && LockFree(d, c)
    case WaitEnd(c) => c < |d.pipes| && c < |d.waiting| && d.waiting[c] > 0
    case Request(c, f, target, _, _) => c < |d.pipes| && c < |d.waiting| && d.waiting[c] > 0 && f in d.files && target < U32
    case Irq(c, hw) => c < |d.pipes| && d.handler.Idle?
    case Sweep => d.handler.Busy? && d.handler.pipe < |d.pipes|
    case Read(f, _, _) => f in d.files
    case Release(f) => f in d.files
    case Pre(c, hw, _) => c < |d.pipes| && hw.counter < U32 && LockFree(d, c)
    case Post(c) => c < |d.pipes|
    case Tick(c, hw) => c < |d.pipes| && hw.counter < U32 && d.handler.Idle?
  }

  /** drm_queue_vblank_event, called with the reference its caller took. */
  function DoRequest(d: Dev, c: nat, f: nat, target: nat, nextOnMiss: bool, memory: bool): Dev
    requires Possible(d, Request(c, f, target, nextOnMiss, memory)) && c < |d.leaked| && |d.frames| == |d.pipes| && d.pipes[c].refs != 0
  {
    var count := d.pipes[c].count;
    var d1 := d.(waiting := d.waiting[c := d.waiting[c] - 1]);
    if !memory || d.files[f].space < EVENT then
      d1.(leaked := d.leaked[c := d.leaked[c] + 1])
    else
      var d2 := d1.(files := d.files[f := d.files[f].(space := d.files[f].space - EVENT)], nextId := d.nextId + 1);
      var wanted := if nextOnMiss && Due(count, target) then (count + 1) % U32 else target;
      var e := Pending(d.nextId, c, f, wanted, FrameOf(d.frames[c], count, wanted));
      if Due(count, wanted) then
        var g := Deliver(e, count, d.frames[c], false);
        SetPipe(d2, c, Put(d.pipes[c])).(files := Append(d2.files, g), log := d.log + [g])
      else d2.(pending := d.pending + [e])
  }

  /** A reference dropped for each of `n` requests. */
  function PutMany(p: Pipe, n: nat): Pipe
    requires p.refs >= n
    decreases n
  {
    if n == 0 then p else PutMany(Put(p), n - 1)
  }

  /** drm_handle_vblank_events on pipe `c`, with the count its caller has read. */
  function DoSweep(d: Dev): Dev
    requires Possible(d, Sweep) && d.pipes[d.handler.pipe].refs >= Count(d.pending, DueOn(d.handler.pipe, d.handler.count))
    requires |d.frames| == |d.pipes|
  {
    var c, count := d.handler.pipe, d.handler.count;
    var due := DeliverAll(Select(d.pending, DueOn(c, count), true), count, d.frames[c]);
    SetPipe(d, c, PutMany(d.pipes[c], Count(d.pending, DueOn(c, count)))).(
      pending := Select(d.pending, DueOn(c, count), false), files := AppendAll(d.files, due), log := d.log + due, handler := Idle)
  }

  /** drm_events_release: pending requests give their references back, unread events are dropped. */
  function DoRelease(d: Dev, f: nat): Dev
    requires Possible(d, Release(f))
    requires forall c :: 0 <= c < |d.pipes| ==> d.pipes[c].refs >= Count(Select(d.pending, OwnedBy(f), true), OnPipe(c))
  {
    var mine := Select(d.pending, OwnedBy(f), true);
    d.(pending := Select(d.pending, OwnedBy(f), false), files := d.files - {f}, dropped := d.dropped + |mine|,
       pipes := seq(|d.pipes|, c requires 0 <= c < |d.pipes| => PutMany(d.pipes[c], Count(mine, OnPipe(c)))))
  }

  /** drm_dequeue_event */
  function DoRead(d: Dev, f: nat, total: nat, max: nat): Dev
    requires f in d.files
  {
    var file := d.files[f];
    if file.queue == [] || EVENT + total > max then d
    else d.(files := d.files[f := File(file.space + EVENT, file.queue[1..])])
  }

  // --- What every step keeps ---

  /** Each reference is accounted for; a referenced pipe has its interrupt on. */
  ghost predicate RefInv(d: Dev) {
    && |d.waiting| == |d.pipes| && |d.leaked| == |d.pipes| && |d.frames| == |d.pipes|
    && (forall i :: 0 <= i < |d.pending| ==> d.pending[i].pipe < |d.pipes|)
    && (forall c :: 0 <= c < |d.pipes| ==> PipeInv(d, c))
  }

  ghost predicate PipeInv(d: Dev, c: nat)
    requires c < |d.pipes| && |d.waiting| == |d.pipes| && |d.leaked| == |d.pipes| && |d.frames| == |d.pipes|
  {
    var p := d.pipes[c];
    && p.count == d.frames[c] % U32
    && p.refs == Count(d.pending, OnPipe(c)) + d.waiting[c] + (if p.holds then 1 else 0) + d.leaked[c]
    && (p.refs > 0 ==> p.enabled) && (p.holds ==> p.marked) && p.last < U32
  }

  /** Each file's space is what its unread and its pending events leave of the 4096 bytes. */
  ghost predicate SpaceInv(d: Dev) {
    && (forall i :: 0 <= i < |d.pending| ==> d.pending[i].file in d.files)
    && (forall f :: f in d.files ==> FileInv(d, f))
  }

  ghost predicate FileInv(d: Dev, f: nat)
    requires f in d.files
  {
    d.files[f].space >= 0 && d.files[f].space + EVENT * (|d.files[f].queue| + Count(d.pending, OwnedBy(f))) == SPACE
  }

  ghost predicate DistinctIds(xs: seq<Pending>) {
    forall i, j :: 0 <= i < j < |xs| ==> xs[i].id != xs[j].id
  }

  ghost predicate DistinctLog(xs: seq<Delivery>) {
    forall i, j :: 0 <= i < j < |xs| ==> xs[i].id != xs[j].id
  }

  /** One that had been queued was delivered at its frame, one that had not at a frame within the window after it. */
  predicate OnTime(g: Delivery) {
    && g.count == g.frame % U32 && g.target == g.due % U32
    && (if g.queued then g.frame == g.due else g.due <= g.frame <= g.due + WINDOW)
  }

  /** No request is delivered twice, or while it is pending, or at another frame than its own. */
  ghost predicate LogInv(d: Dev) {
    && (forall e :: e in d.pending ==> e.id < d.nextId)
    && (forall e :: e in d.log ==> e.id < d.nextId && OnTime(e))
    && DistinctIds(d.pending) && DistinctLog(d.log)
    && (forall e, g :: e in d.pending && g in d.log ==> e.id != g.id)
  }

  /** No pending request is due, except on the pipe whose interrupt is being handled. */
  ghost predicate DueInv(d: Dev) {
    && (d.handler.Busy? ==> d.handler.pipe < |d.pipes| && d.pipes[d.handler.pipe].count == d.handler.count)
    && (forall i :: 0 <= i < |d.pending| ==> NotDue(d, d.pending[i]))
  }

  /** The request's frame is still to come, within reach of the comparison; or it is here, and being handled. */
  predicate NotDue(d: Dev, e: Pending) {
    && e.pipe < |d.frames| && e.target == e.due % U32 && d.frames[e.pipe] <= e.due < d.frames[e.pipe] + (U32 - WINDOW)
    && (d.frames[e.pipe] == e.due ==> d.handler.Busy? && d.handler.pipe == e.pipe)
  }

  /** Every accepted request is pending, delivered, or dropped with its file. */
  predicate TallyInv(d: Dev) {
    d.nextId == |d.pending| + |d.log| + d.dropped
  }

  ghost predicate Inv(d: Dev) {
    RefInv(d) && SpaceInv(d) && LogInv(d) && DueInv(d) && TallyInv(d)
  }

  /** A device on which nothing has happened yet. */
  predicate Initial(d: Dev) {
    && d.pending == [] && d.files == map[] && d.log == [] && d.handler.Idle?
    && |d.waiting| == |d.pipes| && |d.leaked| == |d.pipes| && |d.frames| == |d.pipes| && d.nextId == 0 && d.dropped == 0
    && (forall c :: 0 <= c < |d.pipes| ==> d.waiting[c] == 0 && d.leaked[c] == 0)
    && (forall c :: 0 <= c < |d.pipes| ==> d.pipes[c].refs == 0 && !d.pipes[c].holds && d.pipes[c].last < U32)
    && (forall c :: 0 <= c < |d.pipes| ==> d.pipes[c].count == d.frames[c] < U32)
  }

  lemma InitialInv(d: Dev)
    requires Initial(d)
    ensures Inv(d)
  {
  }

  lemma {:induction false} DueAreOnPipe(xs: seq<Pending>, c: nat, n: nat)
    ensures Count(xs, DueOn(c, n)) <= Count(xs, OnPipe(c))
  {
    if xs != [] { DueAreOnPipe(xs[1..], c, n); }
  }

  /** drm_vblank_get on a referenced pipe always succeeds and changes nothing else;
      on an unreferenced one it may fail, and then changes nothing. */
  lemma GetRefs(p: Pipe, hw: Hw, maxCount: nat, works: bool)
    requires hw.counter < U32 && p.last < U32 && p.count < U32 && (p.refs > 0 ==> p.enabled) && p.refs >= 0
    ensures var (q, ok) := Get(p, hw, maxCount, works);
      && q.refs == p.refs + (if ok then 1 else 0) && (q.refs > 0 ==> q.enabled) && q.count < U32 && q.last < U32
      && q.holds == p.holds && q.marked == p.marked
      && (p.refs > 0 ==> ok && q == p.(refs := p.refs + 1)) && (!ok ==> q == p)
  {
  }

  lemma PutManyRefs(p: Pipe, n: nat)
    requires p.refs >= n
    ensures PutMany(p, n) == p.(refs := p.refs - n)
    decreases n
  {
    if n > 0 { PutManyRefs(Put(p), n - 1); }
  }

  function Next(d: Dev, e: Step, maxCount: nat): Dev
    requires Inv(d) && Possible(d, e)
  {
    match e
    case Open(f) => d.(files := d.files[f := File(SPACE, [])])
    case WaitBegin(c, hw, works) =>
      assert PipeInv(d, c);
      var (q, ok) := Get(d.pipes[c], hw, maxCount, works);
      if ok then SetPipe(d, c, q).(waiting := d.waiting[c := d.waiting[c] + 1]) else SetPipe(d, c, q)
    case WaitEnd(c) =>
      assert PipeInv(d, c);
      SetPipe(d, c, Put(d.pipes[c])).(waiting := d.waiting[c := d.waiting[c] - 1])
    case Request(c, f, target, nextOnMiss, memory) =>
      assert PipeInv(d, c);
      DoRequest(d, c, f, target, nextOnMiss, memory)
    case Irq(c, hw) =>
      var q := Handle(d.pipes[c], hw);
      if d.pipes[c].enabled then SetPipe(d, c, q).(handler := Busy(c, q.count)) else d
    case Sweep =>
      assert PipeInv(d, d.handler.pipe);
      DueAreOnPipe(d.pending, d.handler.pipe, d.handler.count);
      DoSweep(d)
    case Read(f, total, max) => DoRead(d, f, total, max)
    case Release(f) =>
      assert forall c :: 0 <= c < |d.pipes| ==> d.pipes[c].refs >= Count(Select(d.pending, OwnedBy(f), true), OnPipe(c)) by {
        forall c | 0 <= c < |d.pipes| ensures d.pipes[c].refs >= Count(Select(d.pending, OwnedBy(f), true), OnPipe(c)) {
          assert PipeInv(d, c);
          SelectSplits(d.pending, OwnedBy(f), OnPipe(c));
        }
      }
      DoRelease(d, f)
    case Pre(c, hw, works) =>
      assert PipeInv(d, c);
      SetPipe(d, c, PreModeset(d.pipes[c], hw, maxCount, works))
    case Post(c) =>
      assert PipeInv(d, c);
      SetPipe(d, c, PostModeset(d.pipes[c])).(allowed := d.allowed || d.pipes[c].marked)
    case Tick(c, hw) => if d.allowed then SetPipe(d, c, Timer(d.pipes[c], hw)) else d
  }

  lemma {:induction false} NoneCounted(xs: seq<Pending>, t: Test)
    requires Count(xs, t) == 0
    ensures forall i :: 0 <= i < |xs| ==> !Meets(xs[i], t)
  {
    if xs != [] {
      NoneCounted(xs[1..], t);
      forall i | 0 <= i < |xs| ensures !Meets(xs[i], t) { if i > 0 { assert xs[i] == xs[1..][i - 1]; } }
    }
  }

  /** Steps that touch one pipe and the references of its callers. */
  lemma PipeMove(d: Dev, c: nat, q: Pipe, waiting: nat, leaked: nat)
    requires Inv(d) && c < |d.pipes|
    requires q.refs == Count(d.pending, OnPipe(c)) + waiting + (if q.holds then 1 else 0) + leaked
    requires (q.refs > 0 ==> q.enabled) && (q.holds ==> q.marked) && q.count < U32 && q.last < U32
    requires q.count == d.pipes[c].count || (Count(d.pending, OnPipe(c)) == 0 && (d.handler.Busy? ==> d.handler.pipe != c))
    ensures Inv(SetPipe(d, c, q).(waiting := d.waiting[c := waiting], leaked := d.leaked[c := leaked]))
  {
    var e := SetPipe(d, c, q).(waiting := d.waiting[c := waiting], leaked := d.leaked[c := leaked]);
    assert PipeInv(d, c);
    AdvanceIs(d.frames[c], d.pipes[c].count, q.count);
    forall b | 0 <= b < |e.pipes| ensures PipeInv(e, b) { assert PipeInv(d, b); }
    forall f | f in e.files ensures FileInv(e, f) { assert FileInv(d, f); }
    if q.count != d.pipes[c].count { NoneCounted(d.pending, OnPipe(c)); }
    forall i | 0 <= i < |e.pending| ensures NotDue(e, e.pending[i]) { assert NotDue(d, d.pending[i]); }
  }

  lemma CallerStep(d: Dev, e: Step, maxCount: nat)
    requires Inv(d) && Possible(d, e) && (e.WaitBegin? || e.WaitEnd? || e.Pre? || e.Post? || e.Tick?)
    ensures Inv(Next(d, e, maxCount))
  {
    var c := e.c;
    var p, q := d.pipes[c], Next(d, e, maxCount).pipes[c];
    assert PipeInv(d, c);
    assert d.leaked[c := d.leaked[c]] == d.leaked && d.waiting[c := d.waiting[c]] == d.waiting;
    match e {
      case WaitBegin(_, hw, works) => WaitStep(d, c, hw, works, maxCount);
      case WaitEnd(_) => PipeMove(d, c, q, d.waiting[c] - 1, d.leaked[c]);
      case Pre(_, hw, works) => PreStep(d, c, hw, works, maxCount);
      case Post(_) =>
        PipeMove(d, c, q, d.waiting[c], d.leaked[c]);
        AllowedIsApart(SetPipe(d, c, q), d.allowed || d.pipes[c].marked);
      case Tick(_, hw) => PipeMove(d, c, q, d.waiting[c], d.leaked[c]);
    }
  }

  lemma AllowedIsApart(d: Dev, allowed: bool)
    requires Inv(d)
    ensures Inv(d.(allowed := allowed))
  {
    var w := d.(allowed := allowed);
    forall b | 0 <= b < |w.pipes| ensures PipeInv(w, b) { assert PipeInv(d, b); }
    forall f | f in w.files ensures FileInv(w, f) { assert FileInv(d, f); }
    forall i | 0 <= i < |w.pending| ensures NotDue(w, w.pending[i]) { assert NotDue(d, d.pending[i]); }
  }

  lemma WaitStep(d: Dev, c: nat, hw: Hw, works: bool, maxCount: nat)
    requires Inv(d) && Possible(d, WaitBegin(c, hw, works)) && PipeInv(d, c)
    ensures Inv(Next(d, WaitBegin(c, hw, works), maxCount))
  {
    var (q, ok) := Get(d.pipes[c], hw, maxCount, works);
    GetRefs(d.pipes[c], hw, maxCount, works);
    PipeMove(d, c, q, if ok then d.waiting[c] + 1 else d.waiting[c], d.leaked[c]);
    assert d.leaked[c := d.leaked[c]] == d.leaked && d.waiting[c := d.waiting[c]] == d.waiting;
  }

  lemma PreStep(d: Dev, c: nat, hw: Hw, works: bool, maxCount: nat)
    requires Inv(d) && Possible(d, Pre(c, hw, works)) && PipeInv(d, c)
    ensures Inv(Next(d, Pre(c, hw, works), maxCount))
  {
    var q := PreModeset(d.pipes[c], hw, maxCount, works);
    GetRefs(d.pipes[c].(marked := true), hw, maxCount, works);
    PipeMove(d, c, q, d.waiting[c], d.leaked[c]);
    assert d.leaked[c := d.leaked[c]] == d.leaked && d.waiting[c := d.waiting[c]] == d.waiting;
  }

  lemma InterruptStep(d: Dev, c: nat, hw: Hw, maxCount: nat)
    requires Inv(d) && Possible(d, Irq(c, hw))
    ensures Inv(Next(d, Irq(c, hw), maxCount))
  {
    var e := Next(d, Irq(c, hw), maxCount);
    assert PipeInv(d, c);
    AdvanceIs(d.frames[c], d.pipes[c].count, Handle(d.pipes[c], hw).count);
    forall b | 0 <= b < |e.pipes| ensures PipeInv(e, b) { assert PipeInv(d, b); }
    forall f | f in e.files ensures FileInv(e, f) { assert FileInv(d, f); }
    forall i | 0 <= i < |e.pending| ensures NotDue(e, e.pending[i]) { assert NotDue(d, d.pending[i]); }
  }

  lemma FileSteps(d: Dev, e: Step, maxCount: nat)
    requires Inv(d) && Possible(d, e) && (e.Open? || e.Read?)
    ensures Inv(Next(d, e, maxCount))
  {
    var g := Next(d, e, maxCount);
    forall b | 0 <= b < |g.pipes| ensures PipeInv(g, b) { assert PipeInv(d, b); }
    if e.Open? { CountAll(d.pending, OwnedBy(e.f)); }
    forall f | f in g.files ensures FileInv(g, f) { assert f in d.files ==> FileInv(d, f); }
    forall i | 0 <= i < |g.pending| ensures NotDue(g, g.pending[i]) { assert NotDue(d, d.pending[i]); }
  }

  // --- drm_queue_vblank_event ---

  /** The request becomes pending, with the caller's reference. */
  lemma RequestPends(d: Dev, e: Pending, w: Dev)
    requires Inv(d) && e.pipe < |d.pipes| && e.file in d.files && e.id == d.nextId && d.waiting[e.pipe] > 0
    requires d.files[e.file].space >= EVENT && e.target == e.due % U32
    requires d.frames[e.pipe] < e.due < d.frames[e.pipe] + (U32 - WINDOW)
    requires w == d.(waiting := d.waiting[e.pipe := d.waiting[e.pipe] - 1], nextId := d.nextId + 1, pending := d.pending + [e],
                     files := d.files[e.file := d.files[e.file].(space := d.files[e.file].space - EVENT)])
    ensures Inv(w)
  {
    forall b | 0 <= b < |w.pipes| ensures PipeInv(w, b) { assert PipeInv(d, b); CountSnoc(d.pending, e, OnPipe(b)); }
    forall f | f in w.files ensures FileInv(w, f) { assert FileInv(d, f); CountSnoc(d.pending, e, OwnedBy(f)); }
    forall i | 0 <= i < |w.pending| ensures NotDue(w, w.pending[i]) { if i < |d.pending| { assert NotDue(d, d.pending[i]); } }
    assert LogInv(w) by { assert forall x :: x in w.pending ==> x in d.pending || x == e; }
  }

  /** The request is due at once, and the caller's reference is dropped. */
  lemma RequestDelivers(d: Dev, e: Pending, g: Delivery, w: Dev)
    requires Inv(d) && e.pipe < |d.pipes| && e.file in d.files && e.id == d.nextId && d.waiting[e.pipe] > 0 && d.pipes[e.pipe].refs != 0
    requires d.files[e.file].space >= EVENT && g == Deliver(e, d.pipes[e.pipe].count, d.frames[e.pipe], false) && OnTime(g)
    requires
      w == d.(waiting := d.waiting[e.pipe := d.waiting[e.pipe] - 1], nextId := d.nextId + 1, log := d.log + [g],
              files := d.files[e.file := File(d.files[e.file].space - EVENT, d.files[e.file].queue + [g])],
              pipes := d.pipes[e.pipe := Put(d.pipes[e.pipe])])
    ensures Inv(w)
  {
    forall b | 0 <= b < |w.pipes| ensures PipeInv(w, b) { assert PipeInv(d, b); }
    forall f | f in w.files ensures FileInv(w, f) { assert FileInv(d, f); }
    forall i | 0 <= i < |w.pending| ensures NotDue(w, w.pending[i]) { assert NotDue(d, d.pending[i]); }
    assert LogInv(w) by {
      assert forall x :: x in w.log ==> x in d.log || x == g;
      assert forall i :: 0 <= i < |d.log| ==> d.log[i] in d.log;
    }
  }

  lemma AppendOne(files: map<nat, File>, f: nat, g: Delivery)
    requires f in files && g.file == f
    ensures Append(files[f := files[f].(space := files[f].space - EVENT)], g) ==
      files[f := File(files[f].space - EVENT, files[f].queue + [g])]
  {
  }

  lemma RequestStep(d: Dev, c: nat, f: nat, target: nat, nextOnMiss: bool, memory: bool, maxCount: nat)
    requires Inv(d) && Possible(d, Request(c, f, target, nextOnMiss, memory))
    ensures Inv(Next(d, Request(c, f, target, nextOnMiss, memory), maxCount))
  {
    assert PipeInv(d, c);
    if !memory || d.files[f].space < EVENT {
      RequestFails(d, c, f, target, nextOnMiss, memory);
    } else {
      var count := d.pipes[c].count;
      var wanted := if nextOnMiss && Due(count, target) then (count + 1) % U32 else target;
      RequestAccepted(d, c, f, target, nextOnMiss, memory, wanted);
    }
  }

  /** The caller's reference stays behind. */
  lemma RequestFails(d: Dev, c: nat, f: nat, target: nat, nextOnMiss: bool, memory: bool)
    requires Inv(d) && Possible(d, Request(c, f, target, nextOnMiss, memory)) && PipeInv(d, c)
    requires d.pipes[c].refs != 0 && (!memory || d.files[f].space < EVENT)
    ensures Inv(DoRequest(d, c, f, target, nextOnMiss, memory))
  {
    AdvanceIs(d.frames[c], d.pipes[c].count, d.pipes[c].count);
    PipeMove(d, c, d.pipes[c], d.waiting[c] - 1, d.leaked[c] + 1);
    assert d.pipes[c := d.pipes[c]] == d.pipes && d.frames[c := d.frames[c]] == d.frames;
  }

  lemma RequestAccepted(d: Dev, c: nat, f: nat, target: nat, nextOnMiss: bool, memory: bool, wanted: nat)
    requires Inv(d) && Possible(d, Request(c, f, target, nextOnMiss, memory)) && PipeInv(d, c)
    requires d.pipes[c].refs != 0 && memory && d.files[f].space >= EVENT && wanted < U32
    requires wanted == if nextOnMiss && Due(d.pipes[c].count, target) then (d.pipes[c].count + 1) % U32 else target
    ensures Inv(DoRequest(d, c, f, target, nextOnMiss, memory))
  {
    var count := d.pipes[c].count;
    var e := Pending(d.nextId, c, f, wanted, FrameOf(d.frames[c], count, wanted));
    var w := DoRequest(d, c, f, target, nextOnMiss, memory);
    FrameOfIs(d.frames[c], count, wanted);
    if Due(count, wanted) {
      var g := Deliver(e, count, d.frames[c], false);
      AppendOne(d.files, f, g);
      AdvanceIs(d.frames[c], count, count);
      assert d.frames[c := d.frames[c]] == d.frames;
      RequestDelivers(d, e, g, w);
    } else {
      RequestPends(d, e, w);
    }
  }

  // --- drm_handle_vblank_events and drm_events_release ---

  lemma {:induction false} SelectDistinct(xs: seq<Pending>, t: Test, want: bool)
    requires DistinctIds(xs)
    ensures DistinctIds(Select(xs, t, want))
  {
    if xs != [] {
      SelectDistinct(xs[1..], t, want);
      SelectMembers(xs[1..], t, want);
      var ys := Select(xs[1..], t, want);
      forall i | 0 <= i < |ys| ensures ys[i].id != xs[0].id {
        assert ys[i] in ys && ys[i] in xs[1..];
        var j :| 0 <= j < |xs[1..]| && xs[1..][j] == ys[i];
        assert xs[j + 1] == ys[i];
      }
    }
  }

  /** What stays and what goes have no id in common. */
  lemma SelectApart(xs: seq<Pending>, t: Test, e: Pending, g: Pending)
    requires DistinctIds(xs) && e in Select(xs, t, true) && g in Select(xs, t, false)
    ensures e.id != g.id && e in xs && g in xs
  {
    SelectMembers(xs, t, true);
    SelectMembers(xs, t, false);
    var i :| 0 <= i < |xs| && xs[i] == e;
    var j :| 0 <= j < |xs| && xs[j] == g;
    assert i != j;
  }

  lemma {:induction false} AppendAllFile(files: map<nat, File>, es: seq<Pending>, count: nat, frame: int, f: nat)
    ensures AppendAll(files, DeliverAll(es, count, frame)).Keys == files.Keys
    ensures f in files ==>
      var g := AppendAll(files, DeliverAll(es, count, frame))[f];
      g.space == files[f].space && |g.queue| == |files[f].queue| + Count(es, OwnedBy(f))
    decreases |es|
  {
    var ds := DeliverAll(es, count, frame);
    if es != [] {
      assert ds[1..] == DeliverAll(es[1..], count, frame);
      AppendAllFile(Append(files, ds[0]), es[1..], count, frame, f);
    }
  }

  lemma SweepRefs(d: Dev, w: Dev)
    requires Inv(d) && Possible(d, Sweep) && PipeInv(d, d.handler.pipe)
    requires d.pipes[d.handler.pipe].refs >= Count(d.pending, DueOn(d.handler.pipe, d.handler.count)) && w == DoSweep(d)
    ensures RefInv(w)
  {
    var c, n := d.handler.pipe, d.handler.count;
    var t := DueOn(c, n);
    SelectMembers(d.pending, t, true);
    SelectMembers(d.pending, t, false);
    PutManyRefs(d.pipes[c], Count(d.pending, t));
    AdvanceIs(d.frames[c], d.pipes[c].count, d.pipes[c].count);
    SelectSplits(d.pending, t, t);
    CountAll(Select(d.pending, t, true), t);
    CountAll(Select(d.pending, t, false), t);
    forall b | 0 <= b < |w.pipes| ensures PipeInv(w, b) {
      assert PipeInv(d, b);
      SelectSplits(d.pending, t, OnPipe(b));
      CountAll(Select(d.pending, t, true), OnPipe(b));
    }
    forall i | 0 <= i < |w.pending| ensures w.pending[i].pipe < |w.pipes| { assert w.pending[i] in w.pending; }
  }

  lemma SweepSpace(d: Dev, w: Dev)
    requires Inv(d) && Possible(d, Sweep) && PipeInv(d, d.handler.pipe)
    requires d.pipes[d.handler.pipe].refs >= Count(d.pending, DueOn(d.handler.pipe, d.handler.count)) && w == DoSweep(d)
    ensures SpaceInv(w)
  {
    var t := DueOn(d.handler.pipe, d.handler.count);
    var gone := Select(d.pending, t, true);
    SelectMembers(d.pending, t, false);
    forall f | f in w.files ensures FileInv(w, f) {
      AppendAllFile(d.files, gone, d.handler.count, d.frames[d.handler.pipe], f);
      assert FileInv(d, f);
      SelectSplits(d.pending, t, OwnedBy(f));
    }
    AppendAllFile(d.files, gone, d.handler.count, d.frames[d.handler.pipe], 0);
    forall i | 0 <= i < |w.pending| ensures w.pending[i].file in w.files { assert w.pending[i] in w.pending; }
  }

  /** A pending request that is due is at its frame. */
  lemma DueNow(d: Dev, e: Pending, c: nat, count: nat)
    requires NotDue(d, e) && e.pipe == c && count == d.frames[c] % U32
    ensures Due(count, e.target) <==> d.frames[c] == e.due
  {
    DueIsExact(d.frames[c], e.due);
  }

  /** What the sweep delivers. */
  ghost predicate Swept(d: Dev, gone: seq<Pending>, ds: seq<Delivery>) {
    && |ds| == |gone|
    && (forall i :: 0 <= i < |gone| ==> ds[i].id == gone[i].id && gone[i] in d.pending && OnTime(ds[i]))
    && DistinctIds(gone)
  }

  lemma SweptIs(d: Dev, c: nat, count: nat)
    requires Inv(d) && d.handler == Busy(c, count) && c < |d.frames|
    ensures var gone := Select(d.pending, DueOn(c, count), true); Swept(d, gone, DeliverAll(gone, count, d.frames[c]))
  {
    var gone := Select(d.pending, DueOn(c, count), true);
    SelectMembers(d.pending, DueOn(c, count), true);
    SelectDistinct(d.pending, DueOn(c, count), true);
    assert PipeInv(d, c);
    forall i | 0 <= i < |gone| ensures gone[i] in d.pending && OnTime(Deliver(gone[i], count, d.frames[c], true)) {
      assert gone[i] in gone;
      var j :| 0 <= j < |d.pending| && d.pending[j] == gone[i];
      assert NotDue(d, d.pending[j]);
      DueNow(d, gone[i], c, count);
    }
  }

  lemma SweepLog(d: Dev, w: Dev)
    requires Inv(d) && Possible(d, Sweep) && PipeInv(d, d.handler.pipe)
    requires d.pipes[d.handler.pipe].refs >= Count(d.pending, DueOn(d.handler.pipe, d.handler.count)) && w == DoSweep(d)
    ensures LogInv(w) && TallyInv(w)
  {
    var c, n := d.handler.pipe, d.handler.count;
    var t := DueOn(c, n);
    var gone, kept := Select(d.pending, t, true), Select(d.pending, t, false);
    SweptIs(d, c, n);
    SelectMembers(d.pending, t, false);
    SelectDistinct(d.pending, t, false);
    SelectSizes(d.pending, t);
    forall e, i | e in kept && 0 <= i < |gone| ensures e.id != gone[i].id {
      assert gone[i] in gone;
      SelectApart(d.pending, t, gone[i], e);
    }
    LogGrows(d, gone, kept, DeliverAll(gone, n, d.frames[c]), w);
  }

  lemma LogGrows(d: Dev, gone: seq<Pending>, kept: seq<Pending>, ds: seq<Delivery>, w: Dev)
    requires LogInv(d) && TallyInv(d) && Swept(d, gone, ds) && DistinctIds(kept) && |gone| + |kept| == |d.pending|
    requires (forall e :: e in kept ==> e in d.pending) && forall e, i :: e in kept && 0 <= i < |gone| ==> e.id != gone[i].id
    requires w.pending == kept && w.log == d.log + ds && w.nextId == d.nextId && w.dropped == d.dropped
    ensures LogInv(w) && TallyInv(w)
  {
    forall e | e in w.log ensures e in d.log || exists i :: 0 <= i < |ds| && e == ds[i] {
      if e !in d.log { var i :| 0 <= i < |ds| && ds[i] == e; }
    }
    forall i, j | 0 <= i < j < |w.log| ensures w.log[i].id != w.log[j].id {
      if i < |d.log| { assert d.log[i] in d.log; }
      if j >= |d.log| { assert gone[j - |d.log|] in d.pending; }
    }
    forall e, g | e in w.pending && g in w.log ensures e.id != g.id { }
    forall e | e in w.log ensures e.id < w.nextId && OnTime(e) { }
  }

  lemma {:induction false} SelectSizes(xs: seq<Pending>, t: Test)
    ensures |Select(xs, t, true)| + |Select(xs, t, false)| == |xs|
  {
    if xs != [] { SelectSizes(xs[1..], t); }
  }

  lemma SweepDue(d: Dev, w: Dev)
    requires Inv(d) && Possible(d, Sweep) && PipeInv(d, d.handler.pipe)
    requires d.pipes[d.handler.pipe].refs >= Count(d.pending, DueOn(d.handler.pipe, d.handler.count)) && w == DoSweep(d)
    ensures DueInv(w)
  {
    var c, n := d.handler.pipe, d.handler.count;
    PutManyRefs(d.pipes[c], Count(d.pending, DueOn(c, n)));
    AdvanceIs(d.frames[c], d.pipes[c].count, d.pipes[c].count);
    SelectMembers(d.pending, DueOn(c, n), false);
    forall i | 0 <= i < |w.pending| ensures NotDue(w, w.pending[i]) {
      assert w.pending[i] in w.pending;
      var j :| 0 <= j < |d.pending| && d.pending[j] == w.pending[i];
      assert NotDue(d, d.pending[j]);
      if d.pending[j].pipe == c { DueNow(d, d.pending[j], c, n); }
    }
  }

  lemma SweepStep(d: Dev, maxCount: nat)
    requires Inv(d) && Possible(d, Sweep)
    ensures Inv(Next(d, Sweep, maxCount))
  {
    var w := Next(d, Sweep, maxCount);
    var t := DueOn(d.handler.pipe, d.handler.count);
    assert PipeInv(d, d.handler.pipe);
    DueAreOnPipe(d.pending, d.handler.pipe, d.handler.count);
    SweepRefs(d, w);
    SweepSpace(d, w);
    SweepLog(d, w);
    SweepDue(d, w);
  }

  lemma ReleaseStep(d: Dev, f: nat, maxCount: nat)
    requires Inv(d) && Possible(d, Release(f))
    ensures Inv(Next(d, Release(f), maxCount))
  {
    var w, t := Next(d, Release(f), maxCount), OwnedBy(f);
    SelectMembers(d.pending, t, true);
    SelectMembers(d.pending, t, false);
    SelectDistinct(d.pending, t, false);
    SelectSizes(d.pending, t);
    forall b | 0 <= b < |w.pipes| ensures PipeInv(w, b) && w.pipes[b].count == d.pipes[b].count {
      assert PipeInv(d, b);
      SelectSplits(d.pending, t, OnPipe(b));
      PutManyRefs(d.pipes[b], Count(Select(d.pending, t, true), OnPipe(b)));
    }
    forall g | g in w.files ensures FileInv(w, g) {
      assert FileInv(d, g);
      SelectSplits(d.pending, t, OwnedBy(g));
      CountAll(Select(d.pending, t, true), OwnedBy(g));
    }
    forall i | 0 <= i < |w.pending| ensures NotDue(w, w.pending[i]) && w.pending[i].file in w.files {
      assert w.pending[i] in w.pending;
      var j :| 0 <= j < |d.pending| && d.pending[j] == w.pending[i];
      assert NotDue(d, d.pending[j]);
    }
  }

  /** The walk of drm_handle_vblank_events over the pending list. */
  method SweepWalk(pending: seq<Pending>, c: nat, count: nat) returns (kept: seq<Pending>, moved: seq<Pending>)
    ensures kept == Select(pending, DueOn(c, count), false) && moved == Select(pending, DueOn(c, count), true)
  {
    kept, moved := [], [];
    for i := 0 to |pending|
      invariant kept + Select(pending[i..], DueOn(c, count), false) == Select(pending, DueOn(c, count), false)
      invariant moved + Select(pending[i..], DueOn(c, count), true) == Select(pending, DueOn(c, count), true)
    {
      var e := pending[i];
      assert pending[i..][0] == e && pending[i..][1..] == pending[i + 1..];
      if e.pipe != c || (count - e.target) % U32 > WINDOW {
        kept := kept + [e];
      } else {
        moved := moved + [e];
      }
    }
  }

  // --- Whole runs ---

  lemma StepKeepsInv(d: Dev, e: Step, maxCount: nat)
    requires Inv(d) && Possible(d, e)
    ensures Inv(Next(d, e, maxCount))
  {
    match e
    case Request(c, f, target, nextOnMiss, memory) => RequestStep(d, c, f, target, nextOnMiss, memory, maxCount);
    case Irq(c, hw) => InterruptStep(d, c, hw, maxCount);
    case Sweep => SweepStep(d, maxCount);
    case Release(f) => ReleaseStep(d, f, maxCount);
    case Open(_) => FileSteps(d, e, maxCount);
    case Read(_, _, _) => FileSteps(d, e, maxCount);
    case _ => CallerStep(d, e, maxCount);
  }

  ghost predicate Run(d: Dev, steps: seq<Step>, w: Dev, maxCount: nat)
    decreases |steps|
  {
    if steps == [] then w == d
    else Inv(d) && Possible(d, steps[0]) && Run(Next(d, steps[0], maxCount), steps[1..], w, maxCount)
  }

  lemma {:induction false} RunKeepsInv(d: Dev, steps: seq<Step>, w: Dev, maxCount: nat)
    requires Inv(d) && Run(d, steps, w, maxCount)
    ensures Inv(w)
    decreases |steps|
  {
    if steps != [] {
      StepKeepsInv(d, steps[0], maxCount);
      RunKeepsInv(Next(d, steps[0], maxCount), steps[1..], w, maxCount);
    }
  }

  /** drm_queue_vblank_event returns -ENOMEM. */
  predicate Fails(d: Dev, e: Step) {
    e.Request? && e.f in d.files && (!e.memory || d.files[e.f].space < EVENT)
  }

  /** The requests on pipe `c` that have failed. */
  ghost function Failures(d: Dev, steps: seq<Step>, w: Dev, maxCount: nat, c: nat): nat
    requires Run(d, steps, w, maxCount)
    decreases |steps|
  {
    if steps == [] then 0 else
      var now := if Fails(d, steps[0]) && steps[0].c == c then 1 else 0;
      now + Failures(Next(d, steps[0], maxCount), steps[1..], w, maxCount, c)
  }

  lemma LeakIsFailure(d: Dev, e: Step, maxCount: nat)
    requires Inv(d) && Possible(d, e)
    ensures Next(d, e, maxCount).leaked == if Fails(d, e) then d.leaked[e.c := d.leaked[e.c] + 1] else d.leaked
  {
    assert e.WaitBegin? || e.WaitEnd? || e.Request? || e.Pre? || e.Post? || e.Tick? ==> PipeInv(d, e.c);
  }

  /** References left behind, over a whole run: one for each request that failed, and no others. */
  lemma {:induction false} LeaksAreFailures(d: Dev, steps: seq<Step>, w: Dev, maxCount: nat, c: nat)
    requires Inv(d) && Run(d, steps, w, maxCount) && c < |d.leaked|
    ensures |w.leaked| == |d.leaked| && w.leaked[c] == d.leaked[c] + Failures(d, steps, w, maxCount, c)
    decreases |steps|
  {
    if steps != [] {
      LeakIsFailure(d, steps[0], maxCount);
      StepKeepsInv(d, steps[0], maxCount);
      LeaksAreFailures(Next(d, steps[0], maxCount), steps[1..], w, maxCount, c);
    }
  }

  /** The references a pipe should have: one for each pending event and each waiter, and that of a mode set. */
  ghost function Users(w: Dev, c: nat): int
    requires c < |w.pipes| && c < |w.waiting|
  {
    Count(w.pending, OnPipe(c)) + w.waiting[c] + if w.pipes[c].holds then 1 else 0
  }

  /** References and interrupts, over every run: a pipe has the references it
      should have and one more for each request on it that failed; so a
      reference can always be dropped, the two agree if and only if no request
      failed, a referenced pipe has its interrupt on, and the disable timer
      passes over every pipe that has a pending event or had a failed request,
      for good. */
  lemma ReferencesCovered(d: Dev, steps: seq<Step>, w: Dev, maxCount: nat, c: nat, hw: Hw)
    requires Initial(d) && Run(d, steps, w, maxCount) && c < |d.pipes|
    ensures |w.waiting| == |w.pipes| == |d.pipes|
    ensures w.pipes[c].refs == Users(w, c) + Failures(d, steps, w, maxCount, c)
    ensures w.pipes[c].refs == Users(w, c) <==> Failures(d, steps, w, maxCount, c) == 0
    ensures w.pipes[c].refs > 0 ==> w.pipes[c].enabled
    ensures (exists e :: e in w.pending && e.pipe == c) || Failures(d, steps, w, maxCount, c) > 0 ==>
      w.pipes[c].enabled && Timer(w.pipes[c], hw) == w.pipes[c]
  {
    InitialInv(d);
    RunKeepsInv(d, steps, w, maxCount);
    LeaksAreFailures(d, steps, w, maxCount, c);
    assert PipeInv(w, c);
    if exists e :: e in w.pending && e.pipe == c {
      SomeCounted(w.pending, c);
    }
  }

  /** One failed request, on a device on which nothing else has happened: the
      pipe keeps a reference that nobody has, and its interrupt. */
  lemma FailureLeaves(d: Dev, f: nat, hw: Hw, maxCount: nat) returns (w: Dev)
    requires Initial(d) && |d.pipes| > 0 && hw.counter < U32
    ensures Run(d, [Open(f)] + ([WaitBegin(0, hw, true)] + ([Request(0, f, 0, false, false)] + [])), w, maxCount)
    ensures |w.pipes| > 0 && |w.waiting| > 0
    ensures w.pipes[0].refs == 1 && Users(w, 0) == 0 && w.pipes[0].enabled && Timer(w.pipes[0], hw) == w.pipes[0]
  {
    InitialInv(d);
    var d1, d2 := FirstWait(d, f, hw, maxCount);
    w := Next(d2, Request(0, f, 0, false, false), maxCount);
    RunCons(d2, Request(0, f, 0, false, false), [], w, maxCount);
    RunCons(d1, WaitBegin(0, hw, true), [Request(0, f, 0, false, false)] + [], w, maxCount);
    RunCons(d, Open(f), [WaitBegin(0, hw, true)] + ([Request(0, f, 0, false, false)] + []), w, maxCount);
  }

  /** A file is opened, and a caller takes the first reference. */
  lemma FirstWait(d: Dev, f: nat, hw: Hw, maxCount: nat) returns (d1: Dev, d2: Dev)
    requires Initial(d) && Inv(d) && |d.pipes| > 0 && hw.counter < U32
    ensures Possible(d, Open(f)) && d1 == Next(d, Open(f), maxCount) && Inv(d1)
    ensures Possible(d1, WaitBegin(0, hw, true)) && d2 == Next(d1, WaitBegin(0, hw, true), maxCount) && Inv(d2)
    ensures |d2.pipes| == |d.pipes| && d2.waiting[0] == 1 && d2.leaked[0] == 0 && d2.pending == [] && f in d2.files
    ensures d2.pipes[0].refs == 1 && !d2.pipes[0].holds && d2.pipes[0].enabled
  {
    assert PipeInv(d, 0);
    d1 := Next(d, Open(f), maxCount);
    StepKeepsInv(d, Open(f), maxCount);
    assert PipeInv(d1, 0);
    GetGives(d1.pipes[0], hw, maxCount, true);
    d2 := Next(d1, WaitBegin(0, hw, true), maxCount);
    StepKeepsInv(d1, WaitBegin(0, hw, true), maxCount);
    assert PipeInv(d2, 0);
  }

  lemma RunCons(d: Dev, e: Step, steps: seq<Step>, w: Dev, maxCount: nat)
    requires Inv(d) && Possible(d, e) && Run(Next(d, e, maxCount), steps, w, maxCount)
    ensures Run(d, [e] + steps, w, maxCount)
  {
    assert ([e] + steps)[1..] == steps;
  }

  lemma SomeCounted(xs: seq<Pending>, c: nat)
    requires exists e :: e in xs && e.pipe == c
    ensures Count(xs, OnPipe(c)) > 0
  {
    if Count(xs, OnPipe(c)) == 0 {
      NoneCounted(xs, OnPipe(c));
      assert false;
    }
  }

  /** Delivery, over every run. No request is delivered twice or is still pending
      once delivered. One that was queued is delivered at exactly the frame its
      target stands for, counted without wrap; one that was not was at most 2^23
      frames late when it was made. A pending one's frame is still to come, or
      has come and is being handled. No accepted request is lost: each is pending,
      delivered, or dropped with its file. */
  lemma DeliveredOnceInTime(d: Dev, steps: seq<Step>, w: Dev, maxCount: nat)
    requires Initial(d) && Run(d, steps, w, maxCount)
    ensures DistinctLog(w.log) && forall e, g :: e in w.pending && g in w.log ==> e.id != g.id
    ensures forall g :: g in w.log ==> if g.queued then g.frame == g.due else g.due <= g.frame <= g.due + WINDOW
    ensures forall g :: g in w.log ==> g.target == g.due % U32 && g.count == g.frame % U32
    ensures forall e :: e in w.pending ==> e.pipe < |w.frames| && e.target == e.due % U32 && w.frames[e.pipe] <= e.due
    ensures forall e :: e in w.pending && w.frames[e.pipe] == e.due ==> w.handler.Busy? && w.handler.pipe == e.pipe
    ensures w.nextId == |w.pending| + |w.log| + w.dropped
  {
    InitialInv(d);
    RunKeepsInv(d, steps, w, maxCount);
    forall e | e in w.pending ensures NotDue(w, e) {
      var i :| 0 <= i < |w.pending| && w.pending[i] == e;
      assert NotDue(w, w.pending[i]);
    }
  }

  /** The frame a request waits for is the first one from now on with its target's count. */
  lemma DueIsFirst(w: Dev, e: Pending, frame: int)
    requires NotDue(w, e) && w.frames[e.pipe] <= frame < e.due
    ensures frame % U32 != e.target
  {
    var x := e.due - frame;
    assert 0 < x < U32;
    Apart(frame, x);
  }

  lemma Apart(n: int, x: int)
    requires 0 < x < U32
    ensures (n + x) % U32 != n % U32
  {
    var r := n % U32;
    ModShift(n, r, if r + x < U32 then r + x else r + x - U32, n + x);
  }

  /** Event space, in every reachable state. */
  lemma SpaceIsConserved(d: Dev, steps: seq<Step>, w: Dev, maxCount: nat, f: nat)
    requires Initial(d) && Run(d, steps, w, maxCount) && f in w.files
    ensures w.files[f].space >= 0
    ensures w.files[f].space + EVENT * (|w.files[f].queue| + Count(w.pending, OwnedBy(f))) == SPACE
  {
    InitialInv(d);
    RunKeepsInv(d, steps, w, maxCount);
    assert FileInv(w, f);
  }

  // --- The disable timer ---

  /** One turn of the timer: once a mode set has allowed it, a pipe stays on if and
      only if it is referenced; one that is turned off keeps the register's value
      and no timestamp. */
  lemma TickTurnsOff(d: Dev, c: nat, hw: Hw, maxCount: nat)
    requires Inv(d) && Possible(d, Step.Tick(c, hw)) && d.allowed
    ensures var p, q := d.pipes[c], Next(d, Step.Tick(c, hw), maxCount).pipes[c];
      && (q.enabled <==> p.enabled && p.refs > 0) && q.refs == p.refs
      && (p.enabled && !q.enabled ==> q.last == hw.counter && q.even == 0 && q.odd == 0)
  {
    assert PipeInv(d, c);
  }

  /** Whether the timer may turn pipes off does not change but at the end of a mode set; until then it does nothing. */
  lemma {:induction false} AllowedStays(d: Dev, steps: seq<Step>, w: Dev, maxCount: nat)
    requires Inv(d) && Run(d, steps, w, maxCount)
    ensures d.allowed ==> w.allowed
    ensures !d.allowed && (forall i :: 0 <= i < |steps| ==> !steps[i].Post?) ==> !w.allowed
    decreases |steps|
  {
    if steps != [] {
      StepKeepsInv(d, steps[0], maxCount);
      AllowedStays(Next(d, steps[0], maxCount), steps[1..], w, maxCount);
    }
  }

  /** The end of a mode set allows it, for good. */
  lemma ModesetAllows(d: Dev, c: nat, steps: seq<Step>, w: Dev, maxCount: nat)
    requires Inv(d) && Possible(d, Step.Post(c)) && d.pipes[c].marked && Run(Next(d, Step.Post(c), maxCount), steps, w, maxCount)
    ensures w.allowed
  {
    StepKeepsInv(d, Step.Post(c), maxCount);
    AllowedStays(Next(d, Step.Post(c), maxCount), steps, w, maxCount);
  }

  lemma NotAllowed(d: Dev, c: nat, hw: Hw, maxCount: nat)
    requires Inv(d) && Possible(d, Step.Tick(c, hw)) && !d.allowed
    ensures Next(d, Step.Tick(c, hw), maxCount) == d
  {
  }

  /** No reference to pipe `c` is asked for. */
  predicate Quiet(steps: seq<Step>, c: nat) {
    forall i :: 0 <= i < |steps| ==> !((steps[i].WaitBegin? || steps[i].Pre?) && steps[i].c == c)
  }

  lemma OffStep(d: Dev, e: Step, maxCount: nat, c: nat)
    requires Inv(d) && Possible(d, e) && c < |d.pipes| && d.pipes[c].refs == 0 && !((e.WaitBegin? || e.Pre?) && e.c == c)
    ensures |Next(d, e, maxCount).pipes| == |d.pipes| && Next(d, e, maxCount).pipes[c].refs == 0
    ensures !d.pipes[c].enabled ==> !Next(d, e, maxCount).pipes[c].enabled
  {
    assert PipeInv(d, c);
    match e {
      case Sweep => OffSweep(d, c, maxCount);
      case Release(f) => OffRelease(d, f, c, maxCount);
      case _ =>
    }
  }

  lemma OffRelease(d: Dev, f: nat, c: nat, maxCount: nat)
    requires Inv(d) && Possible(d, Release(f)) && c < |d.pipes| && d.pipes[c].refs == 0 && PipeInv(d, c)
    ensures |Next(d, Release(f), maxCount).pipes| == |d.pipes| && Next(d, Release(f), maxCount).pipes[c] == d.pipes[c]
  {
    SelectSplits(d.pending, OwnedBy(f), OnPipe(c));
  }

  lemma OffSweep(d: Dev, c: nat, maxCount: nat)
    requires Inv(d) && Possible(d, Sweep) && c < |d.pipes| && d.pipes[c].refs == 0 && PipeInv(d, c)
    ensures |Next(d, Sweep, maxCount).pipes| == |d.pipes| && Next(d, Sweep, maxCount).pipes[c] == d.pipes[c]
  {
    assert PipeInv(d, d.handler.pipe);
    DueAreOnPipe(d.pending, d.handler.pipe, d.handler.count);
    PutManyRefs(d.pipes[d.handler.pipe], Count(d.pending, DueOn(d.handler.pipe, d.handler.count)));
  }

  /** Over runs: once the last reference to a pipe is gone and the timer has fired,
      its interrupt is off until somebody asks for a reference again. */
  lemma {:induction false} StaysOff(d: Dev, steps: seq<Step>, w: Dev, maxCount: nat, c: nat)
    requires Inv(d) && Run(d, steps, w, maxCount) && c < |d.pipes| && d.pipes[c].refs == 0 && !d.pipes[c].enabled && Quiet(steps, c)
    ensures |w.pipes| == |d.pipes| && w.pipes[c].refs == 0 && !w.pipes[c].enabled
    decreases |steps|
  {
    if steps != [] {
      OffStep(d, steps[0], maxCount, c);
      StepKeepsInv(d, steps[0], maxCount);
      StaysOff(Next(d, steps[0], maxCount), steps[1..], w, maxCount, c);
    }
  }

  lemma TimerEndsIt(d: Dev, c: nat, hw: Hw, steps: seq<Step>, w: Dev, maxCount: nat)
    requires Inv(d) && Possible(d, Step.Tick(c, hw)) && d.allowed && d.pipes[c].refs == 0 && Quiet(steps, c)
    requires Run(Next(d, Step.Tick(c, hw), maxCount), steps, w, maxCount)
    ensures |w.pipes| == |d.pipes| && w.pipes[c].refs == 0 && !w.pipes[c].enabled
  {
    TickTurnsOff(d, c, hw, maxCount);
    StepKeepsInv(d, Step.Tick(c, hw), maxCount);
    StaysOff(Next(d, Step.Tick(c, hw), maxCount), steps, w, maxCount, c);
  }

  // --- From a request to its event ---

  /** Every target stands for exactly one frame near the present one. */
  lemma TargetIsAhead(now: int, target: nat) returns (k: int)
    requires target < U32
    ensures 0 <= WINDOW + k < U32 && target == (now + k) % U32
  {
    FrameOfIs(now, now % U32, target);
    k := FrameOf(now, now % U32, target) - now;
  }

  /** The frame a request is for that asks, at frame `now`, for the one `k` frames on. */
  function Asked(now: int, k: int, nextOnMiss: bool): int {
    if nextOnMiss && k <= 0 then now + 1 else now + k
  }

  /** A request that is accepted adds one pending event or, if its frame has been
      reached, one delivery, for the very frame it asks for, or for the next one if
      that is missed and the caller wants so. Nothing else is delivered or queued. */
  lemma RequestIsFor(d: Dev, c: nat, f: nat, k: int, nextOnMiss: bool, maxCount: nat)
    requires Inv(d) && c < |d.frames| && Possible(d, Request(c, f, (d.frames[c] + k) % U32, nextOnMiss, true))
    requires d.files[f].space >= EVENT && 0 <= WINDOW + k < U32
    ensures
      var w := Next(d, Request(c, f, (d.frames[c] + k) % U32, nextOnMiss, true), maxCount);
      var now, due := d.frames[c], Asked(d.frames[c], k, nextOnMiss);
      && w.frames == d.frames && w.nextId == d.nextId + 1
      && (due > now ==> w.log == d.log && w.pending == d.pending + [Pending(d.nextId, c, f, due % U32, due)])
      && (due <= now ==>
            w.pending == d.pending && w.log == d.log + [Delivery(d.nextId, f, due % U32, now % U32, due, now, false)])
  {
    var now, target := d.frames[c], (d.frames[c] + k) % U32;
    assert PipeInv(d, c);
    DueIsExact(now, now + k);
    var due := Asked(now, k, nextOnMiss);
    Succ(now);
    DueIsExact(now, due);
    FrameIsAsked(now, due);
    AdvanceIs(now, d.pipes[c].count, d.pipes[c].count);
    assert d.frames[c := d.frames[c]] == d.frames;
  }

  lemma Succ(x: int)
    ensures (x % U32 + 1) % U32 == (x + 1) % U32
  {
  }

  lemma FrameIsAsked(now: int, due: int)
    requires 0 <= WINDOW + due - now < U32
    ensures FrameOf(now, now % U32, due % U32) == due
  {
    FrameOfIs(now, now % U32, due % U32);
    var x := FrameOf(now, now % U32, due % U32);
    DueIsExact(now, due);
    if x < due { Apart(x, due - x); }
    if due < x { Apart(due, x - due); }
  }

  /** What an event says that was queued and has met its frame. */
  function OnItsFrame(e: Pending): Delivery { Delivery(e.id, e.file, e.target, e.target, e.due, e.due, true) }

  /** The request waits for its frame, or the event is out and its frame is past. */
  ghost predicate Followed(w: Dev, e: Pending) {
    && e.pipe < |w.frames|
    && if e in w.pending then w.frames[e.pipe] <= e.due else OnItsFrame(e) in w.log && w.frames[e.pipe] >= e.due
  }

  lemma FramesRise(d: Dev, s: Step, maxCount: nat, c: nat)
    requires Inv(d) && Possible(d, s) && c < |d.frames|
    ensures |Next(d, s, maxCount).frames| == |d.frames| && Next(d, s, maxCount).frames[c] >= d.frames[c]
  {
    assert s.WaitBegin? || s.WaitEnd? || s.Request? || s.Pre? || s.Post? || s.Tick? ==> PipeInv(d, s.c);
  }

  lemma LogGrowsOnly(d: Dev, s: Step, maxCount: nat, g: Delivery)
    requires Inv(d) && Possible(d, s) && g in d.log
    ensures g in Next(d, s, maxCount).log
  {
    assert s.WaitBegin? || s.WaitEnd? || s.Request? || s.Pre? || s.Post? || s.Tick? ==> PipeInv(d, s.c);
  }

  lemma SweepDelivers(d: Dev, e: Pending, maxCount: nat)
    requires Inv(d) && Possible(d, Sweep) && e in d.pending && NotDue(d, e)
    ensures var w := Next(d, Sweep, maxCount);
      if Meets(e, DueOn(d.handler.pipe, d.handler.count)) then OnItsFrame(e) in w.log && d.frames[e.pipe] == e.due else e in w.pending
  {
    var c, count := d.handler.pipe, d.handler.count;
    var t := DueOn(c, count);
    assert PipeInv(d, c);
    SelectMembers(d.pending, t, true);
    SelectMembers(d.pending, t, false);
    if Meets(e, t) {
      DueNow(d, e, c, count);
      var gone := Select(d.pending, t, true);
      var i :| 0 <= i < |gone| && gone[i] == e;
      assert DeliverAll(gone, count, d.frames[c])[i] == OnItsFrame(e);
    }
  }

  lemma PendingStays(d: Dev, s: Step, maxCount: nat, e: Pending)
    requires Inv(d) && Possible(d, s) && !s.Sweep? && e in d.pending && !(s.Release? && s.f == e.file)
    ensures e in Next(d, s, maxCount).pending
  {
    assert s.WaitBegin? || s.WaitEnd? || s.Request? || s.Pre? || s.Post? || s.Tick? ==> PipeInv(d, s.c);
    if s.Release? { SelectMembers(d.pending, OwnedBy(s.f), false); }
  }

  lemma IsNotDue(d: Dev, e: Pending)
    requires Inv(d) && e in d.pending
    ensures NotDue(d, e)
  {
    var i :| 0 <= i < |d.pending| && d.pending[i] == e;
    assert NotDue(d, d.pending[i]);
  }

  lemma IdsTell(d: Dev, e: Pending)
    requires Inv(d) && OnItsFrame(e) in d.log
    ensures e !in d.pending
  {
  }

  lemma FollowStep(d: Dev, s: Step, maxCount: nat, e: Pending)
    requires Inv(d) && Possible(d, s) && Followed(d, e) && !(s.Release? && s.f == e.file)
    ensures Followed(Next(d, s, maxCount), e)
  {
    var w := Next(d, s, maxCount);
    StepKeepsInv(d, s, maxCount);
    FramesRise(d, s, maxCount, e.pipe);
    if e !in d.pending {
      LogGrowsOnly(d, s, maxCount, OnItsFrame(e));
      IdsTell(w, e);
    } else {
      IsNotDue(d, e);
      if s.Sweep? { SweepDelivers(d, e, maxCount); } else { PendingStays(d, s, maxCount, e); }
      if e in w.pending { IsNotDue(w, e); }
    }
  }

  lemma {:induction false} FollowRun(d: Dev, steps: seq<Step>, w: Dev, maxCount: nat, e: Pending)
    requires Inv(d) && Run(d, steps, w, maxCount) && Followed(d, e) && !Closed(steps, e.file)
    ensures Inv(w) && Followed(w, e)
    decreases |steps|
  {
    if steps != [] {
      assert !(steps[0].Release? && steps[0].f == e.file);
      FollowStep(d, steps[0], maxCount, e);
      StepKeepsInv(d, steps[0], maxCount);
      FollowRun(Next(d, steps[0], maxCount), steps[1..], w, maxCount, e);
    }
  }

  predicate Closed(steps: seq<Step>, f: nat) {
    exists i :: 0 <= i < |steps| && steps[i].Release? && steps[i].f == f
  }

  lemma {:induction false} LogStays(d: Dev, steps: seq<Step>, w: Dev, maxCount: nat, g: Delivery)
    requires Inv(d) && Run(d, steps, w, maxCount) && g in d.log
    ensures Inv(w) && g in w.log
    decreases |steps|
  {
    if steps != [] {
      LogGrowsOnly(d, steps[0], maxCount, g);
      StepKeepsInv(d, steps[0], maxCount);
      LogStays(Next(d, steps[0], maxCount), steps[1..], w, maxCount, g);
    }
  }

  /** From a request to its event, over whole runs, while its file stays open. A
      request for the frame `k` frames on, which is accepted, is pending until the
      count gets to that frame and is delivered when it does, with that count, once
      its interrupt has been handled; so one for a frame ahead is delivered at
      exactly `frames[c] + k`. One for a frame that is past, within reach of the
      comparison, is delivered at once, or at the next frame if the caller wants
      so. Its id is on no other pending event and no other delivery. */
  lemma RequestIsAnswered(d0: Dev, before: seq<Step>, d: Dev, c: nat, f: nat, k: int, nextOnMiss: bool,
                          after: seq<Step>, w: Dev, maxCount: nat)
    requires Initial(d0) && Run(d0, before, d, maxCount) && Inv(d) && c < |d.frames|
    requires Possible(d, Request(c, f, (d.frames[c] + k) % U32, nextOnMiss, true)) && 0 <= WINDOW + k < U32
    requires d.files[f].space >= EVENT && !Closed(after, f)
    requires Run(Next(d, Request(c, f, (d.frames[c] + k) % U32, nextOnMiss, true), maxCount), after, w, maxCount)
    ensures var due := Asked(d.frames[c], k, nextOnMiss);
      && c < |w.frames|
      && (due > d.frames[c] ==>
        var e := Pending(d.nextId, c, f, due % U32, due);
        && (e in w.pending <==> OnItsFrame(e) !in w.log)
        && (w.frames[c] < due ==> e in w.pending)
        && (w.frames[c] > due || (w.frames[c] == due && w.handler.Idle?) ==> OnItsFrame(e) in w.log))
      && (due <= d.frames[c] ==>
        Delivery(d.nextId, f, due % U32, d.frames[c] % U32, due, d.frames[c], false) in w.log)
    ensures |set e | e in w.pending && e.id == d.nextId| + |set g | g in w.log && g.id == d.nextId| == 1
  {
    var d1 := Next(d, Request(c, f, (d.frames[c] + k) % U32, nextOnMiss, true), maxCount);
    var due := Asked(d.frames[c], k, nextOnMiss);
    StepKeepsInv(d, Request(c, f, (d.frames[c] + k) % U32, nextOnMiss, true), maxCount);
    RequestIsFor(d, c, f, k, nextOnMiss, maxCount);
    if due > d.frames[c] {
      var e := Pending(d.nextId, c, f, due % U32, due);
      assert e in d1.pending;
      IsNotDue(d1, e);
      FollowRun(d1, after, w, maxCount, e);
      if OnItsFrame(e) in w.log { IdsTell(w, e); OneTrace(w, [], [OnItsFrame(e)]); } else { IsNotDue(w, e); OneTrace(w, [e], []); }
    } else {
      var g := Delivery(d.nextId, f, due % U32, d.frames[c] % U32, due, d.frames[c], false);
      assert g in d1.log;
      FramesStay(d1, after, w, maxCount);
      LogStays(d1, after, w, maxCount, g);
      OneTrace(w, [], [g]);
    }
  }

  lemma {:induction false} FramesStay(d: Dev, steps: seq<Step>, w: Dev, maxCount: nat)
    requires Inv(d) && Run(d, steps, w, maxCount)
    ensures |w.frames| == |d.frames|
    decreases |steps|
  {
    if steps != [] {
      StepKeepsInv(d, steps[0], maxCount);
      assert Inv(Next(d, steps[0], maxCount));
      FramesStay(Next(d, steps[0], maxCount), steps[1..], w, maxCount);
    }
  }

  /** An id is found once. */
  lemma OneTrace(w: Dev, es: seq<Pending>, gs: seq<Delivery>)
    requires Inv(w) && |es| + |gs| == 1
    requires (forall e :: e in es ==> e in w.pending) && forall g :: g in gs ==> g in w.log
    ensures var id := if es == [] then gs[0].id else es[0].id;
      |set e | e in w.pending && e.id == id| + |set g | g in w.log && g.id == id| == 1
  {
    var id := if es == [] then gs[0].id else es[0].id;
    var ps, ls := set e | e in w.pending && e.id == id, set g | g in w.log && g.id == id;
    if es == [] {
      assert gs[0] in gs;
      assert ls == {gs[0]} by { forall g | g in ls ensures g == gs[0] { } }
      assert ps == {};
    } else {
      assert es[0] in es;
      assert ps == {es[0]} by { forall e | e in ps ensures e == es[0] { } }
      assert ls == {};
    }
  }

  // --- Reading ---

  /** The events delivered to a file, in order. */
  function To(log: seq<Delivery>, f: nat): seq<Delivery> {
    if log == [] then [] else (if log[0].file == f then [log[0]] else []) + To(log[1..], f)
  }

  lemma {:induction false} ToAppend(a: seq<Delivery>, b: seq<Delivery>, f: nat)
    ensures To(a + b, f) == To(a, f) + To(b, f)
    decreases |a|
  {
    if a == [] { assert a + b == b; }
    else {
      var x := if a[0].file == f then [a[0]] else [];
      assert (a + b)[1..] == a[1..] + b && (a + b)[0] == a[0];
      ToAppend(a[1..], b, f);
      Assoc(x, To(a[1..], f), To(b, f));
    }
  }

  lemma Assoc(x: seq<Delivery>, y: seq<Delivery>, z: seq<Delivery>)
    ensures x + (y + z) == x + y + z
  {
  }

  lemma SuffixGrows(a: seq<Delivery>, b: seq<Delivery>, k: nat)
    requires k <= |a|
    ensures (a + b)[k..] == a[k..] + b
  {
  }

  lemma {:induction false} AppendAllQueue(files: map<nat, File>, es: seq<Delivery>, f: nat)
    requires f in files
    ensures f in AppendAll(files, es) && AppendAll(files, es)[f].queue == files[f].queue + To(es, f)
    decreases |es|
  {
    if es == [] { assert files[f].queue + [] == files[f].queue; }
    else {
      var x := if es[0].file == f then [es[0]] else [];
      AppendQueue(files, es[0], f);
      AppendAllQueue(Append(files, es[0]), es[1..], f);
      Assoc(files[f].queue, x, To(es[1..], f));
    }
  }

  lemma AppendQueue(files: map<nat, File>, e: Delivery, f: nat)
    requires f in files
    ensures f in Append(files, e) && Append(files, e)[f].queue == files[f].queue + if e.file == f then [e] else []
  {
    assert files[f].queue + [] == files[f].queue;
  }

  /** The unread events are the last that were delivered to the file, in order. */
  ghost predicate Unread(queue: seq<Delivery>, log: seq<Delivery>, f: nat) {
    |queue| <= |To(log, f)| && queue == To(log, f)[|To(log, f)| - |queue|..]
  }

  ghost predicate QueueInv(d: Dev) {
    forall f :: f in d.files ==> Unread(d.files[f].queue, d.log, f)
  }

  lemma UnreadGrows(queue: seq<Delivery>, log: seq<Delivery>, more: seq<Delivery>, f: nat)
    requires Unread(queue, log, f)
    ensures Unread(queue + To(more, f), log + more, f)
  {
    ToAppend(log, more, f);
    SuffixGrows(To(log, f), To(more, f), |To(log, f)| - |queue|);
  }

  lemma SweepQueues(d: Dev, w: Dev)
    requires Inv(d) && Possible(d, Sweep) && QueueInv(d) && d.handler.pipe < |d.frames|
    requires d.pipes[d.handler.pipe].refs >= Count(d.pending, DueOn(d.handler.pipe, d.handler.count)) && w == DoSweep(d)
    ensures QueueInv(w)
  {
    var gone := Select(d.pending, DueOn(d.handler.pipe, d.handler.count), true);
    var due := DeliverAll(gone, d.handler.count, d.frames[d.handler.pipe]);
    forall f | f in w.files ensures Unread(w.files[f].queue, w.log, f) {
      AppendAllFile(d.files, gone, d.handler.count, d.frames[d.handler.pipe], f);
      AppendAllQueue(d.files, due, f);
      UnreadGrows(d.files[f].queue, d.log, due, f);
    }
  }

  /** A request puts at most one event into a file's list, which it also logs. */
  lemma RequestFiles(d: Dev, c: nat, to: nat, target: nat, nextOnMiss: bool, memory: bool, w: Dev)
    requires Possible(d, Request(c, to, target, nextOnMiss, memory)) && c < |d.leaked| && |d.frames| == |d.pipes|
    requires d.pipes[c].refs != 0 && w == DoRequest(d, c, to, target, nextOnMiss, memory)
    ensures var files := d.files[to := d.files[to].(space := d.files[to].space - EVENT)];
      (w.log == d.log && (w.files == d.files || w.files == files))
      || (|w.log| == |d.log| + 1 && w.log == d.log + [w.log[|d.log|]] && w.files == Append(files, w.log[|d.log|]))
  {
  }

  lemma RequestQueue(queue: seq<Delivery>, log: seq<Delivery>, g: Delivery, f: nat)
    requires Unread(queue, log, f)
    ensures Unread(queue + (if g.file == f then [g] else []), log + [g], f)
  {
    assert To([g], f) == if g.file == f then [g] else [];
    UnreadGrows(queue, log, [g], f);
  }

  lemma RequestQueues(d: Dev, to: nat, w: Dev)
    requires QueueInv(d) && to in d.files
    requires var files := d.files[to := d.files[to].(space := d.files[to].space - EVENT)];
      (w.log == d.log && (w.files == d.files || w.files == files))
      || (|w.log| == |d.log| + 1 && w.log == d.log + [w.log[|d.log|]] && w.files == Append(files, w.log[|d.log|]))
    ensures QueueInv(w)
  {
    var files := d.files[to := d.files[to].(space := d.files[to].space - EVENT)];
    forall f | f in w.files ensures Unread(w.files[f].queue, w.log, f) {
      assert Unread(d.files[f].queue, d.log, f);
      if w.log != d.log {
        AppendQueue(files, w.log[|d.log|], f);
        RequestQueue(d.files[f].queue, d.log, w.log[|d.log|], f);
      }
    }
  }

  /** What a read may leave of a file's unread events. */
  predicate Shrunk(queue: seq<Delivery>, before: seq<Delivery>) {
    queue == before || (|before| > 0 && queue == before[1..])
  }

  /** The other steps deliver nothing, and at most drop the first unread event of a file. */
  lemma OtherQueues(d: Dev, s: Step, maxCount: nat)
    requires Inv(d) && Possible(d, s) && !s.Sweep? && !s.Request?
    ensures var w := Next(d, s, maxCount);
      w.log == d.log && forall f :: f in w.files ==>
        w.files[f].queue == [] || (f in d.files && Shrunk(w.files[f].queue, d.files[f].queue))
  {
    if s.WaitBegin? || s.WaitEnd? || s.Pre? || s.Post? || s.Tick? { assert PipeInv(d, s.c); }
  }

  lemma StepKeepsQueues(d: Dev, s: Step, maxCount: nat)
    requires Inv(d) && Possible(d, s) && QueueInv(d)
    ensures QueueInv(Next(d, s, maxCount))
  {
    var w := Next(d, s, maxCount);
    if s.Sweep? {
      assert PipeInv(d, d.handler.pipe);
      DueAreOnPipe(d.pending, d.handler.pipe, d.handler.count);
      SweepQueues(d, w);
    } else if s.Request? {
      assert PipeInv(d, s.c);
      RequestFiles(d, s.c, s.f, s.target, s.nextOnMiss, s.memory, w);
      RequestQueues(d, s.f, w);
    } else {
      OtherQueues(d, s, maxCount);
      QueuesShrink(d, w);
    }
  }

  lemma QueuesShrink(d: Dev, w: Dev)
    requires QueueInv(d) && w.log == d.log
    requires forall f :: f in w.files ==>
      w.files[f].queue == [] || (f in d.files && Shrunk(w.files[f].queue, d.files[f].queue))
    ensures QueueInv(w)
  {
    forall f | f in w.files ensures Unread(w.files[f].queue, w.log, f) {
      if w.files[f].queue != [] { UnreadShrinks(d.files[f].queue, w.files[f].queue, d.log, f); }
    }
  }

  lemma UnreadShrinks(before: seq<Delivery>, queue: seq<Delivery>, log: seq<Delivery>, f: nat)
    requires Unread(before, log, f) && Shrunk(queue, before)
    ensures Unread(queue, log, f)
  {
  }

  /** Over every run, what a file has not read are the last events delivered to it,
      in the order of delivery; so events are read first come, first served. */
  lemma {:induction false} UnreadAreLast(d: Dev, steps: seq<Step>, w: Dev, maxCount: nat)
    requires Inv(d) && QueueInv(d) && Run(d, steps, w, maxCount)
    ensures QueueInv(w)
    decreases |steps|
  {
    if steps != [] {
      StepKeepsQueues(d, steps[0], maxCount);
      StepKeepsInv(d, steps[0], maxCount);
      UnreadAreLast(Next(d, steps[0], maxCount), steps[1..], w, maxCount);
    }
  }

  /** The loop of drm_read. */
  function ReadLoop(d: Dev, f: nat, total: nat, max: nat): (w: Dev)
    requires f in d.files
    ensures f in w.files
    decreases |d.files[f].queue|
  {
    var w := DoRead(d, f, total, max);
    if |w.files[f].queue| < |d.files[f].queue| then ReadLoop(w, f, total + EVENT, max) else d
  }

  /** A read takes the oldest events, as many as there are or as fit whole into the
      buffer, and gives their space back. */
  lemma {:induction false} ReadTakesOldest(d: Dev, f: nat, total: nat, max: nat)
    requires f in d.files
    ensures
      var file := d.files[f];
      var fit := if total <= max then (max - total) / EVENT else 0;
      var n := if fit < |file.queue| then fit else |file.queue|;
      ReadLoop(d, f, total, max).files[f] == File(file.space + EVENT * n, file.queue[n..])
    decreases |d.files[f].queue|
  {
    var w := DoRead(d, f, total, max);
    if |w.files[f].queue| < |d.files[f].queue| {
      ReadTakesOldest(w, f, total + EVENT, max);
      assert (max - total) / EVENT == (max - total - EVENT) / EVENT + 1;
    }
  }
}
