/** Looking a key up in a bucket while one writer inserts and removes
    (drm_hashtab.c:112-171, 203-236; drm_hashtab.h:68-76). The reader follows one
    link at a time; a link is read and written atomically. */
module HashRcu {

  datatype Ptr = Nil | At(n: nat)

  /** One bucket. `live` are the nodes on its list. Nodes that have left it keep
      their link, and are not used again, until the reader is done. */
  datatype Bucket = Bucket(head: Ptr, next: map<nat, Ptr>, key: map<nat, nat>, live: set<nat>)

  // --- The writer ---

  datatype Op = Insert(x: nat, k: nat, parent: Ptr) | Remove(x: nat, pred: Ptr)

  function Link(b: Bucket, p: Ptr): Ptr
    requires p.At? ==> p.n in b.next
  {
    if p.Nil? then b.head else b.next[p.n]
  }

  function SetLink(b: Bucket, p: Ptr, q: Ptr): Bucket {
    if p.Nil? then b.(head := q) else b.(next := b.next[p.n := q])
  }

  /** `parent` (or the head) is where the writer's own walk stops for `k`; `pred` is the node before `x`. */
  predicate Allowed(b: Bucket, op: Op) {
    match op
    case Insert(x, k, parent) =>
      && x !in b.key && x !in b.next && (parent.At? ==> parent.n in b.live && parent.n in b.next && parent.n in b.key && b.key[parent.n] < k)
      && (var after := Link(b, parent); after.At? ==> after.n in b.key && b.key[after.n] > k)
    case Remove(x, pred) =>
      && x in b.live && x in b.next && (pred.At? ==> pred.n in b.live && pred.n in b.next) && Link(b, pred) == At(x)
  }

  function Do(b: Bucket, op: Op): Bucket
    requires Allowed(b, op)
  {
    match op
    case Insert(x, k, parent) =>
      SetLink(b.(next := b.next[x := Link(b, parent)], key := b.key[x := k], live := b.live + {x}), parent, At(x))
    case Remove(x, pred) =>
      SetLink(b, pred, b.next[x]).(live := b.live - {x})
  }

  // --- The reader ---

  datatype Reader = Start | Here(cur: Ptr) | Found(n: nat) | Missing

  /** One step of drm_ht_find_key_rcu for `k`. */
  function Step(b: Bucket, r: Reader, k: nat): Reader {
    match r
    case Start => Here(b.head)
    case Here(Nil) => Missing
    case Here(At(n)) =>
      if n !in b.key || n !in b.next then r
      else if b.key[n] == k then Found(n)
      else if b.key[n] > k then Missing
      else Here(b.next[n])
    case _ => r
  }

  // --- What holds throughout a walk ---

  /** Links lead to larger keys; from a live node, or the head, to live nodes, and
      from no two of them to the same. */
  ghost predicate Ordered(b: Bucket) {
    && b.next.Keys == b.key.Keys && b.live <= b.next.Keys
    && (forall n :: n in b.next && b.next[n].At? ==> Rises(b, n))
    && LiveList(b)
  }

  predicate Rises(b: Bucket, n: nat)
    requires n in b.next && b.next[n].At?
  {
    b.next[n].n in b.next && n in b.key && b.next[n].n in b.key && b.key[n] < b.key[b.next[n].n]
  }

  ghost predicate LiveList(b: Bucket)
    requires b.live <= b.next.Keys
  {
    && (b.head.At? ==> b.head.n in b.live)
    && (forall n :: n in b.live && b.next[n].At? ==> b.next[n].n in b.live && b.next[n] != b.head)
    && (forall n, n' :: n in b.live && n' in b.live && b.next[n].At? && b.next[n] == b.next[n'] ==> n == n')
  }

  /** How far `p` is from `m`, in keys. */
  function Gap(b: Bucket, p: Ptr, m: nat): nat
    requires m in b.key
  {
    if p.At? && p.n in b.key && b.key[p.n] <= b.key[m] then b.key[m] - b.key[p.n] else 0
  }

  /** Following links from `p` one comes to `m`. */
  ghost predicate Leads(b: Bucket, p: Ptr, m: nat)
    requires Ordered(b) && m in b.key
    decreases Gap(b, p, m)
  {
    p.At? && p.n in b.key &&
    (p.n == m || (b.key[p.n] < b.key[m] && b.next[p.n].At? && b.key[b.next[p.n].n] <= b.key[m] && Leads(b, b.next[p.n], m)))
  }

  /** From the head, and from every node with a smaller key, links lead to `m`. */
  ghost predicate AllLead(b: Bucket, m: nat) {
    Ordered(b) && m in b.live && Leads(b, b.head, m) && forall n :: n in b.key && b.key[n] < b.key[m] ==> Leads(b, At(n), m)
  }

  /** At the start of a walk only the nodes on the list matter, and the list holds them all. */
  ghost predicate Listed(b: Bucket) {
    Ordered(b) && b.key.Keys == b.live && forall m :: m in b.live ==> Leads(b, b.head, m)
  }

  // --- Writers keep it ---

  lemma OpKeepsOrdered(b: Bucket, op: Op)
    requires Ordered(b) && Allowed(b, op)
    ensures Ordered(Do(b, op))
  {
    if op.Insert? { InsertOrdered(b, op); } else { RemoveOrdered(b, op); }
  }

  lemma InsertOrdered(b: Bucket, op: Op)
    requires Ordered(b) && Allowed(b, op) && op.Insert?
    ensures Ordered(Do(b, op))
  {
    var c := Do(b, op);
    forall n | n in c.next && c.next[n].At? ensures Rises(c, n) {
      assert n != op.x && At(n) != op.parent ==> c.next[n] == b.next[n] && Rises(b, n);
    }
    InsertLive(b, op);
  }

  lemma InsertLive(b: Bucket, op: Op)
    requires Ordered(b) && Allowed(b, op) && op.Insert?
    ensures Do(b, op).live <= Do(b, op).next.Keys && LiveList(Do(b, op))
  {
    var c := Do(b, op);
    forall n | n in c.live ensures n in c.next
      && c.next[n] == if At(n) == op.parent then At(op.x) else if n == op.x then Link(b, op.parent) else b.next[n] { }
  }

  lemma RemoveOrdered(b: Bucket, op: Op)
    requires Ordered(b) && Allowed(b, op) && op.Remove?
    ensures Ordered(Do(b, op))
  {
    var c := Do(b, op);
    forall n | n in c.next && c.next[n].At? ensures Rises(c, n) {
      assert Rises(b, n);
      assert b.next[op.x].At? ==> Rises(b, op.x);
    }
    RemoveLive(b, op);
  }

  lemma RemoveLive(b: Bucket, op: Op)
    requires Ordered(b) && Allowed(b, op) && op.Remove?
    ensures Do(b, op).live <= Do(b, op).next.Keys && LiveList(Do(b, op))
  {
    var c := Do(b, op);
    assert b.next[op.x].At? ==> Rises(b, op.x);
    forall n | n in c.live ensures n in c.next && n in b.live
      && c.next[n] == if At(n) == op.pred then b.next[op.x] else b.next[n] { }
  }

  /** Inserting leads every path that led to `m` there still. */
  lemma {:induction false} InsertLeads(b: Bucket, op: Op, p: Ptr, m: nat)
    requires Ordered(b) && op.Insert? && Allowed(b, op) && m in b.key && Leads(b, p, m)
    ensures Ordered(Do(b, op)) && m in Do(b, op).key && Leads(Do(b, op), p, m)
    decreases Gap(b, p, m)
  {
    OpKeepsOrdered(b, op);
    var c := Do(b, op);
    if p.n != m {
      InsertLeads(b, op, b.next[p.n], m);
      if op.parent == p {
        assert c.next[p.n] == At(op.x) && c.next[op.x] == b.next[p.n];
        assert Leads(c, At(op.x), m);
      }
    }
  }

  /** Removing another node does, too. */
  lemma {:induction false} RemoveLeads(b: Bucket, op: Op, p: Ptr, m: nat)
    requires Ordered(b) && op.Remove? && Allowed(b, op) && m in b.key && m != op.x && Leads(b, p, m)
    ensures Ordered(Do(b, op)) && m in Do(b, op).key && Leads(Do(b, op), p, m)
    decreases Gap(b, p, m)
  {
    OpKeepsOrdered(b, op);
    var c := Do(b, op);
    if p.n != m {
      RemoveLeads(b, op, b.next[p.n], m);
      if op.pred == p {
        assert b.next[p.n] == At(op.x) && c.next[p.n] == b.next[op.x] == c.next[op.x];
      }
    }
  }

  lemma OpKeepsLeads(b: Bucket, op: Op, p: Ptr, m: nat)
    requires Ordered(b) && Allowed(b, op) && m in b.key && (op.Remove? ==> op.x != m) && Leads(b, p, m)
    ensures Ordered(Do(b, op)) && m in Do(b, op).key && Leads(Do(b, op), p, m)
  {
    if op.Insert? { InsertLeads(b, op, p, m); } else { RemoveLeads(b, op, p, m); }
  }

  /** The new node leads on to every live one with a larger key. */
  lemma NewLeads(b: Bucket, op: Op, m: nat)
    requires AllLead(b, m) && op.Insert? && Allowed(b, op) && op.k < b.key[m]
    ensures Ordered(Do(b, op)) && Leads(Do(b, op), At(op.x), m)
  {
    var after := Link(b, op.parent);
    assert Leads(b, after, m);
    OpKeepsLeads(b, op, after, m);
    assert Do(b, op).next[op.x] == after;
  }

  lemma OpKeepsAllLead(b: Bucket, op: Op, m: nat)
    requires AllLead(b, m) && Allowed(b, op) && (op.Remove? ==> op.x != m)
    ensures AllLead(Do(b, op), m)
  {
    HeadLeads(b, op, m);
    forall n | n in Do(b, op).key && Do(b, op).key[n] < Do(b, op).key[m] ensures Leads(Do(b, op), At(n), m) {
      NodeLeads(b, op, m, n);
    }
  }

  lemma NodeLeads(b: Bucket, op: Op, m: nat, n: nat)
    requires AllLead(b, m) && Allowed(b, op) && (op.Remove? ==> op.x != m)
    requires n in Do(b, op).key && m in Do(b, op).key && Do(b, op).key[n] < Do(b, op).key[m]
    ensures Ordered(Do(b, op)) && Leads(Do(b, op), At(n), m)
  {
    if n in b.key { OpKeepsLeads(b, op, At(n), m); } else { NewLeads(b, op, m); }
  }

  lemma HeadLeads(b: Bucket, op: Op, m: nat)
    requires AllLead(b, m) && Allowed(b, op) && (op.Remove? ==> op.x != m)
    ensures Ordered(Do(b, op)) && Leads(Do(b, op), Do(b, op).head, m)
  {
    OpKeepsLeads(b, op, b.head, m);
    if op.Insert? && op.parent.Nil? && op.k < b.key[m] { NewLeads(b, op, m); }
  }

  // --- Walks ---

  datatype Event = Write(op: Op) | Read

  /** The reader for `k` goes from `r` to `r'` while the bucket goes from `b` to `b'`. */
  ghost predicate Run(b: Bucket, r: Reader, k: nat, events: seq<Event>, b': Bucket, r': Reader)
    decreases |events|
  {
    if events == [] then b' == b && r' == r
    else match events[0]
      case Write(op) => Allowed(b, op) && Run(Do(b, op), r, k, events[1..], b', r')
      case Read => Run(b, Step(b, r, k), k, events[1..], b', r')
  }

  lemma {:induction false} Between(b: Bucket, p: Ptr, n: nat, m: nat)
    requires Ordered(b) && n in b.key && m in b.key && Leads(b, p, n) && Leads(b, p, m) && b.key[n] < b.key[m]
    ensures Leads(b, At(n), m)
    decreases Gap(b, p, n)
  {
    if p.n != n {
      Between(b, b.next[p.n], n, m);
    }
  }

  lemma ListedLeads(b: Bucket, m: nat)
    requires Listed(b) && m in b.live
    ensures AllLead(b, m)
  {
    forall n | n in b.key && b.key[n] < b.key[m] ensures Leads(b, At(n), m) {
      Between(b, b.head, n, m);
    }
  }

  /** The reader is on its way to `m`, or has found it. */
  ghost predicate OnWay(b: Bucket, r: Reader, m: nat)
    requires AllLead(b, m)
  {
    r.Start? || (r.Here? && Leads(b, r.cur, m)) || r == Found(m)
  }

  lemma ReadOnWay(b: Bucket, r: Reader, m: nat)
    requires AllLead(b, m) && OnWay(b, r, m)
    ensures OnWay(b, Step(b, r, b.key[m]), m)
  {
    if r.Here? { assert Leads(b, r.cur, m); }
  }

  lemma WriteOnWay(b: Bucket, r: Reader, m: nat, op: Op)
    requires AllLead(b, m) && OnWay(b, r, m) && Allowed(b, op) && (op.Remove? ==> op.x != m)
    ensures AllLead(Do(b, op), m) && OnWay(Do(b, op), r, m) && Do(b, op).key[m] == b.key[m]
  {
    OpKeepsAllLead(b, op, m);
    if r.Here? { OpKeepsLeads(b, op, r.cur, m); }
  }

  lemma {:induction false} StaysOnWay(b: Bucket, r: Reader, m: nat, events: seq<Event>, b': Bucket, r': Reader)
    requires AllLead(b, m) && OnWay(b, r, m) && Run(b, r, b.key[m], events, b', r')
    requires forall i :: 0 <= i < |events| && events[i].Write? && events[i].op.Remove? ==> events[i].op.x != m
    ensures AllLead(b', m) && OnWay(b', r', m)
    decreases |events|
  {
    if events != [] {
      match events[0]
      case Write(op) =>
        WriteOnWay(b, r, m, op);
        StaysOnWay(Do(b, op), r, m, events[1..], b', r');
      case Read =>
        ReadOnWay(b, r, m);
        StaysOnWay(b, Step(b, r, b.key[m]), m, events[1..], b', r');
    }
  }

  /** The links a reader for `k` may still have to read. */
  function ToRead(b: Bucket, r: Reader, k: nat): nat {
    match r
    case Start => k + 2
    case Here(At(n)) => if n in b.key && b.key[n] < k then k - b.key[n] + 1 else 1
    case Here(Nil) => 1
    case _ => 0
  }

  predicate Placed(b: Bucket, r: Reader) { r.Here? && r.cur.At? ==> r.cur.n in b.key }

  function Reads(events: seq<Event>): nat {
    if events == [] then 0 else (if events[0].Read? then 1 else 0) + Reads(events[1..])
  }

  /** Keys rise along the links, so every read brings the reader closer to its
      end; what the writer does does not take it back. */
  lemma ReadsRunOut(b: Bucket, r: Reader, k: nat)
    requires Ordered(b) && Placed(b, r)
    ensures Placed(b, Step(b, r, k)) && (ToRead(b, r, k) > 0 ==> ToRead(b, Step(b, r, k), k) < ToRead(b, r, k))
    ensures ToRead(b, r, k) == 0 ==> Step(b, r, k) == r
  {
  }

  lemma {:induction false} WalkEnds(b: Bucket, r: Reader, k: nat, events: seq<Event>, b': Bucket, r': Reader)
    requires Ordered(b) && Placed(b, r) && Run(b, r, k, events, b', r')
    ensures Reads(events) >= ToRead(b, r, k) ==> r'.Found? || r' == Missing
    decreases |events|
  {
    if events == [] {
      assert ToRead(b, r, k) == 0 ==> r.Found? || r == Missing;
    } else {
      match events[0]
      case Write(op) =>
        OpKeepsOrdered(b, op);
        WalkEnds(Do(b, op), r, k, events[1..], b', r');
      case Read =>
        ReadsRunOut(b, r, k);
        WalkEnds(b, Step(b, r, k), k, events[1..], b', r');
    }
  }

  /** A key that is in the bucket throughout the walk is found: whatever the
      writer does meanwhile to other nodes, the reader never ends without it, and
      it ends after no more reads than its key plus two. */
  lemma PresentIsFound(b: Bucket, m: nat, events: seq<Event>, b': Bucket, r: Reader)
    requires Listed(b) && m in b.live && Run(b, Start, b.key[m], events, b', r)
    requires forall i :: 0 <= i < |events| && events[i].Write? && events[i].op.Remove? ==> events[i].op.x != m
    ensures r != Missing && (r.Found? ==> r.n == m)
    ensures Reads(events) >= b.key[m] + 2 ==> r == Found(m)
  {
    ListedLeads(b, m);
    StaysOnWay(b, Start, m, events, b', r);
    WalkEnds(b, Start, b.key[m], events, b', r);
  }

  /** The reader is at a node that has been in the bucket since it set out, and none of those has key `k`. */
  ghost predicate Absent(b: Bucket, r: Reader, k: nat) {
    && Ordered(b) && (r.Here? && r.cur.At? ==> r.cur.n in b.key) && !r.Found? && forall n :: n in b.key ==> b.key[n] != k
  }

  lemma {:induction false} StaysAbsent(b: Bucket, r: Reader, k: nat, events: seq<Event>, b': Bucket, r': Reader)
    requires Absent(b, r, k) && Run(b, r, k, events, b', r')
    requires forall i :: 0 <= i < |events| && events[i].Write? && events[i].op.Insert? ==> events[i].op.k != k
    ensures Absent(b', r', k)
    decreases |events|
  {
    if events != [] {
      match events[0]
      case Write(op) =>
        OpKeepsOrdered(b, op);
        StaysAbsent(Do(b, op), r, k, events[1..], b', r');
      case Read =>
        StaysAbsent(b, Step(b, r, k), k, events[1..], b', r');
    }
  }

  /** A key that is absent when the walk starts, and is not inserted during it, is never
      reported, and the walk ends without it. */
  lemma AbsentIsNotFound(b: Bucket, k: nat, events: seq<Event>, b': Bucket, r: Reader)
    requires Listed(b) && Run(b, Start, k, events, b', r)
    requires forall n :: n in b.live ==> b.key[n] != k
    requires forall i :: 0 <= i < |events| && events[i].Write? && events[i].op.Insert? ==> events[i].op.k != k
    ensures !r.Found? && (Reads(events) >= k + 2 ==> r == Missing)
  {
    StaysAbsent(b, Start, k, events, b', r);
    WalkEnds(b, Start, k, events, b', r);
  }

  // --- What is in the bucket ---

  function Contents(b: Bucket): set<nat>
    requires b.live <= b.key.Keys
  {
    set n | n in b.live :: b.key[n]
  }

  /** What a walk that starts now can come to see: the nodes on the list. */
  function Settled(b: Bucket): Bucket {
    b.(next := map n | n in b.next && n in b.live :: b.next[n], key := map n | n in b.key && n in b.live :: b.key[n])
  }

  /** Every node on the list can be reached from the head. */
  ghost predicate Reached(b: Bucket) {
    Ordered(b) && forall m :: m in b.live ==> Leads(b, b.head, m)
  }

  lemma {:induction false} LeadsOn(b: Bucket, p: Ptr, n: nat, m: nat)
    requires Ordered(b) && n in b.key && m in b.key && Leads(b, p, n) && b.next[n] == At(m) && b.key[n] < b.key[m]
    ensures Leads(b, p, m)
    decreases Gap(b, p, n)
  {
    if p.n != n { LeadsOn(b, b.next[p.n], n, m); } else { assert Leads(b, At(m), m); }
  }

  lemma OpKeepsReached(b: Bucket, op: Op)
    requires Reached(b) && Allowed(b, op)
    ensures Reached(Do(b, op))
  {
    var c := Do(b, op);
    OpKeepsOrdered(b, op);
    forall m | m in c.live ensures Leads(c, c.head, m) {
      if m in b.live { StillLeads(b, op, m); } else { NewIsReached(b, op); }
    }
  }

  /** From the new head, to a node that stays. */
  lemma StillLeads(b: Bucket, op: Op, m: nat)
    requires Reached(b) && Allowed(b, op) && m in b.live && m in Do(b, op).live
    ensures Ordered(Do(b, op)) && Leads(Do(b, op), Do(b, op).head, m)
  {
    OpKeepsOrdered(b, op);
    var c := Do(b, op);
    if op.Insert? && op.parent.Nil? {
      OpKeepsLeads(b, op, b.head, m);
      assert c.head == At(op.x) && c.next[op.x] == b.head && Leads(c, b.head, m);
      assert b.key[b.head.n] <= b.key[m];
    } else if op.Remove? && op.pred.Nil? {
      assert b.head == At(op.x) && m != op.x && Leads(b, b.head, m);
      OpKeepsLeads(b, op, b.next[op.x], m);
    } else {
      OpKeepsLeads(b, op, b.head, m);
    }
  }

  lemma NewIsReached(b: Bucket, op: Op)
    requires Reached(b) && Allowed(b, op) && op.Insert?
    ensures Ordered(Do(b, op)) && Leads(Do(b, op), Do(b, op).head, op.x)
  {
    OpKeepsOrdered(b, op);
    if op.parent.At? {
      StillLeads(b, op, op.parent.n);
      LeadsOn(Do(b, op), Do(b, op).head, op.parent.n, op.x);
    }
  }

  /** Without the nodes that have left, the links from the head are the same. */
  lemma {:induction false} SettledLeads(b: Bucket, p: Ptr, m: nat)
    requires Reached(b) && Ordered(Settled(b)) && m in b.live && (p.At? ==> p.n in b.live) && Leads(b, p, m)
    ensures Leads(Settled(b), p, m)
    decreases Gap(b, p, m)
  {
    if p.n != m { SettledLeads(b, b.next[p.n], m); }
  }

  lemma SettledIsListed(b: Bucket)
    requires Reached(b)
    ensures Listed(Settled(b)) && Settled(b).live == b.live && Contents(Settled(b)) == Contents(b)
  {
    var c := Settled(b);
    assert c.next.Keys == b.live && c.key.Keys == b.live;
    forall n | n in c.next && c.next[n].At? ensures Rises(c, n) { assert Rises(b, n); }
    assert Ordered(c);
    forall m | m in c.live ensures Leads(c, c.head, m) { SettledLeads(b, b.head, m); }
  }

  /** Two nodes on the list have different keys. */
  lemma KeysDiffer(b: Bucket, n: nat, m: nat)
    requires Reached(b) && n in b.live && m in b.live && b.key[n] == b.key[m]
    ensures n == m
  {
    SameKey(b, b.head, n, m);
  }

  lemma {:induction false} SameKey(b: Bucket, p: Ptr, n: nat, m: nat)
    requires Ordered(b) && n in b.key && m in b.key && b.key[n] == b.key[m] && Leads(b, p, n) && Leads(b, p, m)
    ensures n == m
    decreases Gap(b, p, n)
  {
    if p.n != n && p.n != m { SameKey(b, b.next[p.n], n, m); }
  }

  /** Where the writer's walk for `k` stops, there is no node with that key. */
  lemma PlaceIsFree(b: Bucket, op: Op)
    requires Reached(b) && Allowed(b, op) && op.Insert?
    ensures op.k !in Contents(b)
  {
    if n :| n in b.live && b.key[n] == op.k {
      NewIsReached(b, op);
      StillLeads(b, op, n);
      OpKeepsReached(b, op);
      KeysDiffer(Do(b, op), n, op.x);
      assert false;
    }
  }

  /** Each write does to the keys what it is for: an insertion adds its key, which was not there; a removal
      takes away the key of its node. Walks that start afterwards find a list with just these keys. */
  lemma OpChangesContents(b: Bucket, op: Op)
    requires Reached(b) && Allowed(b, op)
    ensures Reached(Do(b, op)) && Listed(Settled(Do(b, op))) && Contents(Settled(Do(b, op))) == Contents(Do(b, op))
    ensures op.Insert? ==> op.k !in Contents(b) && Contents(Do(b, op)) == Contents(b) + {op.k}
    ensures op.Remove? ==> op.x in b.key && b.key[op.x] in Contents(b) && Contents(Do(b, op)) == Contents(b) - {b.key[op.x]}
  {
    var c := Do(b, op);
    OpKeepsReached(b, op);
    SettledIsListed(c);
    if op.Insert? { PlaceIsFree(b, op); } else {
      forall n | n in c.live ensures b.key[n] != b.key[op.x] { if b.key[n] == b.key[op.x] { KeysDiffer(b, n, op.x); } }
    }
    forall k ensures k in Contents(c) <==> if op.Insert? then k in Contents(b) || k == op.k else k in Contents(b) && k != b.key[op.x] {
      HasKey(b, op, k);
    }
  }

  lemma HasKey(b: Bucket, op: Op, k: nat)
    requires Ordered(b) && Allowed(b, op) && Ordered(Do(b, op))
    requires op.Remove? ==> forall n :: n in b.live && n != op.x ==> b.key[n] != b.key[op.x]
    ensures k in Contents(Do(b, op)) <==> if op.Insert? then k in Contents(b) || k == op.k else k in Contents(b) && k != b.key[op.x]
  {
    var c := Do(b, op);
    if k in Contents(b) {
      var n :| n in b.live && b.key[n] == k;
      assert n in c.live || n == op.x;
    }
    if op.Insert? { assert op.x in c.live && c.key[op.x] == op.k; }
  }

  /** A reader that is left alone finds a key if and only if it is there, and the node it is in. */
  lemma AloneFinds(b: Bucket, k: nat, events: seq<Event>, b': Bucket, r: Reader)
    requires Listed(b) && Run(b, Start, k, events, b', r) && Reads(events) >= k + 2
    requires forall i :: 0 <= i < |events| ==> events[i].Read?
    ensures r.Found? <==> k in Contents(b)
    ensures r.Found? ==> r.n in b.live && b.key[r.n] == k
  {
    if k in Contents(b) {
      var m :| m in b.live && b.key[m] == k;
      PresentIsFound(b, m, events, b', r);
    } else {
      AbsentIsNotFound(b, k, events, b', r);
    }
  }
}
