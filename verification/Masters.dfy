/** Who is master: opening, setmaster, dropmaster, the magic handshake and release
    (drm_fops.c:226-336, 455-579; drm_stub.c:154-275; drm_auth.c:48-195). */
module Masters {

  import Arith
  import opened Basics

  /** struct drm_file; a file of a render or control node has no master. */
  datatype File = File(minor: nat, master: Option<nat>, isMaster: bool, authenticated: bool, magic: nat)

  /** struct drm_master: reference count, minor, and the magic table. */
  datatype Master = Master(refs: int, minor: nat, magics: map<nat, nat>)

  /** The open files, the masters there are, each primary minor's current master, and the magic sequence. */
  datatype Dev = Dev(files: map<nat, File>, masters: map<nat, Master>, minors: map<nat, Option<nat>>, sequence: nat)

  // --- Reference counts ---

  /** drm_master_get */
  function Get(masters: map<nat, Master>, m: nat): map<nat, Master>
    requires m in masters
  {
    masters[m := masters[m].(refs := masters[m].refs + 1)]
  }

  /** drm_master_put: the last reference takes the master and its magic entries with it. */
  function Put(masters: map<nat, Master>, m: nat): map<nat, Master>
    requires m in masters
  {
    if masters[m].refs == 1 then masters - {m} else masters[m := masters[m].(refs := masters[m].refs - 1)]
  }

  // --- Operations ---

  /** drm_open_helper; `m` is the master it creates if it creates one, `works` is whether that one is
      allocated and the driver's master_create and master_set accept it. */
  function Open(d: Dev, f: nat, minor: nat, root: bool, works: bool, m: nat): Dev
    requires Grounded(d)
  {
    if minor !in d.minors then
      d.(files := d.files[f := File(minor, None, false, root, 0)])
    else if d.minors[minor].Some? then
      d.(masters := Get(d.masters, d.minors[minor].value),
         files := d.files[f := File(minor, d.minors[minor], false, root, 0)])
    else if works then
      d.(masters := d.masters[m := Master(2, minor, map[])], minors := d.minors[minor := Some(m)],
         files := d.files[f := File(minor, Some(m), true, true, 0)])
    else d
  }

  /** drm_setmaster_ioctl; `works` is the driver's verdict. It reports success in every case. */
  function SetMaster(d: Dev, f: nat, works: bool): Dev
    requires f in d.files && Grounded(d)
  {
    var file := d.files[f];
    if file.isMaster || !(file.minor in d.minors && d.minors[file.minor].None?) || file.master.None? || !works then d
    else d.(masters := Get(d.masters, file.master.value), minors := d.minors[file.minor := file.master],
            files := d.files[f := file.(isMaster := true)])
  }

  /** Whether drm_dropmaster_ioctl goes through; otherwise it is -EINVAL. */
  predicate Drops(d: Dev, f: nat)
    requires f in d.files
  {
    d.files[f].isMaster && d.files[f].minor in d.minors && d.minors[d.files[f].minor].Some?
  }

  function DropMaster(d: Dev, f: nat): Dev
    requires f in d.files && Grounded(d)
  {
    var file := d.files[f];
    if !Drops(d, f) then d
    else d.(masters := Put(d.masters, d.minors[file.minor].value), minors := d.minors[file.minor := None],
            files := d.files[f := file.(isMaster := false)])
  }

  /** drm_getmagic of a file with a master, `magic` the value its search ends on and `memory`
      whether the entry is allocated; nobody looks at drm_add_magic's return. */
  function GetMagic(d: Dev, f: nat, magic: nat, memory: bool): Dev
    requires f in d.files && d.files[f].master.Some? && Grounded(d)
  {
    var file := d.files[f];
    var m := file.master.value;
    if file.magic != 0 then d
    else d.(files := d.files[f := file.(magic := magic)], sequence := (magic + 1) % U32,
            masters := if memory then d.masters[m := d.masters[m].(magics := d.masters[m].magics[magic := f])] else d.masters)
  }

  /** drm_authmagic of a magic the master knows; otherwise it is -EINVAL. */
  function AuthMagic(d: Dev, f: nat, magic: nat): Dev
    requires f in d.files && d.files[f].master.Some? && Grounded(d) && MagicsOk(d, d.files[f].master.value)
  {
    var m := d.files[f].master.value;
    var known := d.masters[m].magics;
    if magic !in known then d
    else d.(files := d.files[known[magic] := d.files[known[magic]].(authenticated := true)],
            masters := RemoveMagic(d.masters, m, magic))
  }

  /** drm_remove_magic; an unknown magic is ignored by the only caller that may have one. */
  function RemoveMagic(masters: map<nat, Master>, m: nat, magic: nat): map<nat, Master>
    requires m in masters
  {
    masters[m := masters[m].(magics := masters[m].magics - {magic})]
  }

  /** When a master file goes, so does the authentication of every other file naming its master. */
  function Deauthenticate(files: map<nat, File>, f: nat): map<nat, File>
    requires f in files
  {
    map g | g in files :: if g != f && files[g].master == files[f].master then files[g].(authenticated := false) else files[g]
  }

  /** The file is its minor's current master. */
  predicate Rules(d: Dev, f: nat)
    requires f in d.files
  {
    d.files[f].isMaster && d.files[f].minor in d.minors && d.minors[d.files[f].minor] == d.files[f].master
  }

  /** The masters once a file with a master is released: its magic entry goes, then the minor's
      reference if it holds one through this file, then the file's own. */
  function Released(d: Dev, f: nat): map<nat, Master>
    requires f in d.files && d.files[f].master.Some? && Grounded(d)
  {
    var m := d.files[f].master.value;
    var ms1 := if d.files[f].magic != 0 then RemoveMagic(d.masters, m, d.files[f].magic) else d.masters;
    var ms2 := if Rules(d, f) then Put(ms1, m) else ms1;
    if m in ms2 then Put(ms2, m) else ms2
  }

  /** drm_release, as far as masters go. */
  function Release(d: Dev, f: nat): Dev
    requires f in d.files && Grounded(d)
  {
    if d.files[f].master.None? then d.(files := d.files - {f})
    else
      d.(masters := Released(d, f),
         minors := if Rules(d, f) then d.minors[d.files[f].minor := None] else d.minors,
         files := (if d.files[f].isMaster then Deauthenticate(d.files, f) else d.files) - {f})
  }

  // --- What holds ---

  /** Masters are named only while they exist. */
  ghost predicate Grounded(d: Dev) {
    && (forall f :: f in d.files && d.files[f].master.Some? ==> d.files[f].master.value in d.masters)
    && (forall n :: n in d.minors && d.minors[n].Some? ==> d.minors[n].value in d.masters)
  }

  ghost function Naming(files: map<nat, File>, m: nat): set<nat> {
    set f | f in files && files[f].master == Some(m)
  }

  predicate Current(d: Dev, m: nat)
    requires m in d.masters
  {
    d.masters[m].minor in d.minors && d.minors[d.masters[m].minor] == Some(m)
  }

  /** A master's count is the number of open files naming it, plus one if it is its minor's current
      master; one that nobody refers to is gone. */
  ghost predicate CountExact(d: Dev, m: nat)
    requires m in d.masters
  {
    d.masters[m].refs == |Naming(d.files, m)| + (if Current(d, m) then 1 else 0) && d.masters[m].refs > 0
  }

  /** A file's master belongs to its minor, and a master file's master is that minor's current one. */
  ghost predicate FileOk(d: Dev, f: nat)
    requires f in d.files && Grounded(d)
  {
    var file := d.files[f];
    && (file.master.Some? ==> d.masters[file.master.value].minor == file.minor && file.minor in d.minors)
    && (file.isMaster ==> file.master.Some? && d.minors[file.minor] == file.master)
  }

  /** A minor with a current master has a master file. */
  ghost predicate MinorOk(d: Dev, n: nat)
    requires n in d.minors && Grounded(d)
  {
    d.minors[n].Some? ==> d.masters[d.minors[n].value].minor == n && Ruled(d.files, n)
  }

  ghost predicate Ruled(files: map<nat, File>, n: nat) {
    exists f :: f in files && files[f].isMaster && files[f].minor == n
  }

  /** Every magic entry points to an open file of that master with that magic. */
  ghost predicate MagicsOk(d: Dev, m: nat)
    requires m in d.masters
  {
    MagicsFit(d.files, d.masters[m].magics, m)
  }

  ghost predicate MagicsFit(files: map<nat, File>, magics: map<nat, nat>, m: nat) {
    forall k :: k in magics ==>
      0 < k < U32 && magics[k] in files && files[magics[k]].master == Some(m) && files[magics[k]].magic == k
  }

  /** At most one file per minor is master. */
  ghost predicate OneMaster(d: Dev) {
    forall f, g :: f in d.files && g in d.files && d.files[f].isMaster && d.files[g].isMaster && d.files[f].minor == d.files[g].minor ==> f == g
  }

  ghost predicate Links(d: Dev) {
    && Grounded(d) && OneMaster(d)
    && (forall f :: f in d.files ==> FileOk(d, f))
    && (forall n :: n in d.minors ==> MinorOk(d, n))
  }

  ghost predicate Counts(d: Dev) {
    forall m :: m in d.masters ==> CountExact(d, m)
  }

  ghost predicate Magics(d: Dev) {
    forall m :: m in d.masters ==> MagicsOk(d, m)
  }

  ghost predicate Inv(d: Dev) {
    Links(d) && Counts(d) && Magics(d)
  }

  // --- Counting the files that name a master ---

  lemma NamingAdd(files: map<nat, File>, f: nat, file: File, m: nat)
    requires f !in files
    ensures |Naming(files[f := file], m)| == |Naming(files, m)| + (if file.master == Some(m) then 1 else 0)
  {
    assert Naming(files[f := file], m) == Naming(files, m) + (if file.master == Some(m) then {f} else {});
  }

  lemma NamingRemove(files: map<nat, File>, f: nat, m: nat)
    requires f in files
    ensures |Naming(files - {f}, m)| == |Naming(files, m)| - (if files[f].master == Some(m) then 1 else 0)
  {
    assert Naming(files - {f}, m) == Naming(files, m) - {f};
  }

  lemma NamingSame(files: map<nat, File>, later: map<nat, File>, m: nat)
    requires files.Keys == later.Keys && forall f :: f in files ==> files[f].master == later[f].master
    ensures Naming(files, m) == Naming(later, m)
  {
  }

  // --- Opening ---

  lemma RuledStays(files: map<nat, File>, later: map<nat, File>, n: nat)
    requires Ruled(files, n)
    requires forall f :: f in files && files[f].isMaster && files[f].minor == n ==>
      f in later && later[f].isMaster && later[f].minor == n
    ensures Ruled(later, n)
  {
    var f :| f in files && files[f].isMaster && files[f].minor == n;
    assert f in later && later[f].isMaster && later[f].minor == n;
  }

  lemma OpenKeepsLinks(d: Dev, f: nat, minor: nat, root: bool, works: bool, m: nat, t: Dev)
    requires Links(d) && f !in d.files && m !in d.masters && t == Open(d, f, minor, root, works, m)
    ensures Links(t)
  {
    OpenKeepsFiles(d, f, minor, root, works, m, t);
    forall n | n in t.minors ensures MinorOk(t, n) {
      assert MinorOk(d, n);
      if d.minors[n].Some? {
        RuledStays(d.files, t.files, n);
      } else if t.minors[n].Some? {
        assert f in t.files && t.files[f].isMaster && t.files[f].minor == n;
      }
    }
  }

  lemma OpenKeepsFiles(d: Dev, f: nat, minor: nat, root: bool, works: bool, m: nat, t: Dev)
    requires Links(d) && f !in d.files && m !in d.masters && t == Open(d, f, minor, root, works, m)
    ensures Grounded(t) && OneMaster(t) && forall g :: g in t.files ==> FileOk(t, g)
  {
    assert minor in d.minors ==> MinorOk(d, minor);
    forall g | g in t.files ensures Grounded(t) && FileOk(t, g) {
      assert g in d.files ==> FileOk(d, g);
    }
    forall g | g in d.files && d.files[g].isMaster
      ensures d.files[g].minor in d.minors && d.minors[d.files[g].minor].Some?
    {
      assert FileOk(d, g);
    }
  }

  lemma OpenKeepsCounts(d: Dev, f: nat, minor: nat, root: bool, works: bool, m: nat, t: Dev)
    requires Inv(d) && f !in d.files && m !in d.masters && t == Open(d, f, minor, root, works, m)
    ensures Counts(t)
  {
    forall k | k in t.masters ensures CountExact(t, k) {
      if t != d {
        NamingAdd(d.files, f, t.files[f], k);
        if k in d.masters {
          assert CountExact(d, k);
        } else {
          assert Naming(d.files, k) == {};
        }
        if minor in d.minors {
          assert MinorOk(d, minor);
        }
      }
    }
  }

  lemma OpenKeepsMagics(d: Dev, f: nat, minor: nat, root: bool, works: bool, m: nat, t: Dev)
    requires Inv(d) && f !in d.files && m !in d.masters && t == Open(d, f, minor, root, works, m)
    ensures Magics(t)
  {
    forall k | k in t.masters ensures MagicsOk(t, k) {
      assert k in d.masters ==> MagicsOk(d, k);
    }
  }

  // --- Setting and dropping the master ---

  /** Setting and dropping change one minor, one file's mastership and one count. */
  ghost predicate Shifts(d: Dev, f: nat, t: Dev, on: bool)
    requires f in d.files && d.files[f].master.Some? && d.files[f].master.value in d.masters
  {
    var file, m := d.files[f], d.files[f].master.value;
    && file.isMaster == !on && file.minor in d.minors
    && t.files == d.files[f := file.(isMaster := on)]
    && t.minors == d.minors[file.minor := if on then Some(m) else None]
    && t.masters == d.masters[m := d.masters[m].(refs := d.masters[m].refs + if on then 1 else -1)]
    && (on ==> d.minors[file.minor].None?)
  }

  lemma ShiftKeepsLinks(d: Dev, f: nat, t: Dev, on: bool)
    requires Inv(d) && f in d.files && d.files[f].master.Some? && Shifts(d, f, t, on)
    ensures Links(t)
  {
    assert FileOk(d, f);
    forall g | g in t.files ensures Grounded(t) && FileOk(t, g) {
      assert FileOk(d, g);
    }
    forall k | k in t.minors ensures MinorOk(t, k) {
      assert MinorOk(d, k);
      if k == d.files[f].minor {
        assert on ==> f in t.files && t.files[f].isMaster && t.files[f].minor == k;
      } else if t.minors[k].Some? {
        RuledStays(d.files, t.files, k);
      }
    }
    ShiftKeepsOne(d, f, t, on);
  }

  lemma ShiftKeepsOne(d: Dev, f: nat, t: Dev, on: bool)
    requires Inv(d) && f in d.files && d.files[f].master.Some? && Shifts(d, f, t, on)
    ensures OneMaster(t)
  {
    forall g | g in d.files && d.files[g].isMaster && d.files[g].minor == d.files[f].minor ensures !on {
      assert FileOk(d, g);
    }
  }

  lemma ShiftKeepsRest(d: Dev, f: nat, t: Dev, on: bool)
    requires Inv(d) && f in d.files && d.files[f].master.Some? && Shifts(d, f, t, on)
    ensures Counts(t) && Magics(t)
  {
    ShiftKeepsCounts(d, f, t, on);
    forall k | k in t.masters ensures MagicsOk(t, k) {
      assert MagicsOk(d, k);
      MagicsStay(d.files, t.files, d.masters[k].magics, t.masters[k].magics, k);
    }
  }

  lemma ShiftKeepsCounts(d: Dev, f: nat, t: Dev, on: bool)
    requires Inv(d) && f in d.files && d.files[f].master.Some? && Shifts(d, f, t, on)
    ensures Counts(t)
  {
    assert FileOk(d, f) && f in Naming(d.files, d.files[f].master.value);
    forall k | k in t.masters ensures CountExact(t, k) {
      NamingSame(d.files, t.files, k);
      assert CountExact(d, k);
    }
  }

  lemma SetKeeps(d: Dev, f: nat, works: bool, t: Dev)
    requires Inv(d) && f in d.files && t == SetMaster(d, f, works)
    ensures Inv(t)
  {
    if t != d {
      ShiftKeepsLinks(d, f, t, true);
      ShiftKeepsRest(d, f, t, true);
    }
  }

  lemma DropKeeps(d: Dev, f: nat, t: Dev)
    requires Inv(d) && f in d.files && t == DropMaster(d, f)
    ensures Inv(t)
    ensures t.masters.Keys == d.masters.Keys
  {
    if t != d {
      DropShifts(d, f, t);
      ShiftKeepsLinks(d, f, t, false);
      ShiftKeepsRest(d, f, t, false);
    }
  }

  /** The file still holds a reference when it drops the minor's: the master survives. */
  lemma DropShifts(d: Dev, f: nat, t: Dev)
    requires Inv(d) && f in d.files && t == DropMaster(d, f) && t != d
    ensures d.files[f].master.Some? && Shifts(d, f, t, false)
  {
    assert FileOk(d, f);
    var m := d.files[f].master.value;
    assert CountExact(d, m) && f in Naming(d.files, m);
  }

  // --- Magic ---

  /** Entries can go, and their files only have to keep master and magic. */
  lemma MagicsStay(files: map<nat, File>, later: map<nat, File>, magics: map<nat, nat>, fewer: map<nat, nat>, m: nat)
    requires MagicsFit(files, magics, m)
    requires forall k :: k in fewer ==> k in magics && fewer[k] == magics[k] && fewer[k] in later
    requires forall f :: f in files && f in later ==> later[f].master == files[f].master && later[f].magic == files[f].magic
    ensures MagicsFit(later, fewer, m)
  {
  }

  /** A file without magic has no entry, so giving it one harms none. */
  lemma MagicsGrow(files: map<nat, File>, f: nat, magic: nat, magics: map<nat, nat>, m: nat)
    requires MagicsFit(files, magics, m) && f in files && files[f].magic == 0 && 0 < magic < U32
    ensures MagicsFit(files[f := files[f].(magic := magic)], magics, m)
    ensures files[f].master == Some(m) ==> MagicsFit(files[f := files[f].(magic := magic)], magics[magic := f], m)
  {
  }

  /** Steps that leave masters, minors and mastership alone keep the links and the counts. */
  lemma QuietKeeps(d: Dev, t: Dev)
    requires Inv(d) && t.minors == d.minors && t.files.Keys == d.files.Keys && t.masters.Keys == d.masters.Keys
    requires forall g :: g in d.files ==>
      t.files[g].minor == d.files[g].minor && t.files[g].master == d.files[g].master && t.files[g].isMaster == d.files[g].isMaster
    requires forall m :: m in d.masters ==> t.masters[m].refs == d.masters[m].refs && t.masters[m].minor == d.masters[m].minor
    ensures Links(t) && Counts(t)
  {
    forall k | k in t.minors ensures Grounded(t) && MinorOk(t, k) {
      assert MinorOk(d, k);
      if t.minors[k].Some? {
        RuledStays(d.files, t.files, k);
      }
    }
    forall g | g in t.files ensures FileOk(t, g) {
      assert FileOk(d, g);
    }
    forall k | k in t.masters ensures CountExact(t, k) {
      NamingSame(d.files, t.files, k);
      assert CountExact(d, k);
    }
  }

  /** The value the sequence hands out next; 0 is reserved. */
  function Candidate(sequence: nat): nat { if sequence == 0 then 1 else sequence }

  /** The i-th value the sequence hands out from here. */
  function Nth(sequence: nat, i: nat): (magic: nat)
    ensures 0 < magic < U32
  {
    (Candidate(sequence) - 1 + i) % (U32 - 1) + 1
  }

  /** The search of drm_getmagic ends on this value: the first one the master does not know. */
  ghost predicate Picks(magics: map<nat, nat>, sequence: nat, magic: nat) {
    magic !in magics && exists i: nat :: magic == Nth(sequence, i) && forall j: nat :: j < i ==> Nth(sequence, j) in magics
  }

  lemma NthStep(sequence: nat, i: nat)
    requires sequence < U32
    ensures Candidate((Nth(sequence, i) + 1) % U32) == Nth(sequence, i + 1)
    ensures Nth(sequence, 0) == Candidate(sequence)
  {
  }

  lemma NthDistinct(sequence: nat, i: nat, j: nat)
    requires i < j < U32 - 1 + i
    ensures Nth(sequence, i) != Nth(sequence, j)
  {
    var a, b, n := Candidate(sequence) - 1 + i, Candidate(sequence) - 1 + j, U32 - 1;
    if a % n == b % n {
      var k := b / n - a / n;
      assert k * n == b - a;
      Arith.MulOrder(0, k, n);
      Arith.MulOrder(k, 1, n);
    }
  }

  /** Handing out only known values takes as many distinct ones as were tried. */
  lemma {:induction false} TriesAreFew(known: set<nat>, sequence: nat, n: nat)
    requires n <= U32 - 1 && forall j: nat :: j < n ==> Nth(sequence, j) in known
    ensures n <= |known|
  {
    if n > 0 {
      var last := Nth(sequence, n - 1);
      forall j: nat | j < n - 1 ensures Nth(sequence, j) in known - {last} {
        NthDistinct(sequence, j, n - 1);
      }
      TriesAreFew(known - {last}, sequence, n - 1);
    }
  }

  /** A master knows no more magic than there are open files. */
  lemma {:induction false} MagicsAreFew(files: map<nat, File>, magics: map<nat, nat>, m: nat)
    requires MagicsFit(files, magics, m)
    ensures |magics| <= |files|
    decreases |magics|
  {
    if magics != map[] {
      var k :| k in magics;
      MagicsAreFew(files - {magics[k]}, magics - {k}, m);
    }
  }

  lemma GetMagicKeeps(d: Dev, f: nat, magic: nat, memory: bool, t: Dev)
    requires Inv(d) && f in d.files && d.files[f].master.Some? && t == GetMagic(d, f, magic, memory)
    requires d.files[f].magic == 0 ==> Picks(d.masters[d.files[f].master.value].magics, d.sequence, magic)
    ensures Inv(t)
  {
    if d.files[f].magic == 0 {
      QuietKeeps(d, t);
      GetMagicFits(d, f, magic, memory, t);
    }
  }

  lemma GetMagicFits(d: Dev, f: nat, magic: nat, memory: bool, t: Dev)
    requires Inv(d) && f in d.files && d.files[f].master.Some? && t == GetMagic(d, f, magic, memory) && d.files[f].magic == 0
    requires 0 < magic < U32 && magic !in d.masters[d.files[f].master.value].magics
    ensures Magics(t)
  {
    forall m | m in t.masters ensures MagicsOk(t, m) {
      assert MagicsOk(d, m);
      MagicsGrow(d.files, f, magic, d.masters[m].magics, m);
    }
  }

  lemma AuthMagicKeeps(d: Dev, f: nat, magic: nat, t: Dev)
    requires Inv(d) && f in d.files && d.files[f].master.Some? && t == AuthMagic(d, f, magic)
    ensures Inv(t)
  {
    QuietKeeps(d, t);
    AuthMagicFits(d, f, magic, t);
  }

  lemma AuthMagicFits(d: Dev, f: nat, magic: nat, t: Dev)
    requires Inv(d) && f in d.files && d.files[f].master.Some? && t == AuthMagic(d, f, magic)
    ensures Magics(t)
  {
    forall m | m in t.masters ensures MagicsOk(t, m) {
      assert MagicsOk(d, m);
      MagicsStay(d.files, t.files, d.masters[m].magics, t.masters[m].magics, m);
    }
  }

  // --- Release ---

  /** What a release leaves of the masters: the last reference takes the master along, nothing else does. */
  lemma ReleasedIs(d: Dev, f: nat)
    requires Inv(d) && f in d.files && d.files[f].master.Some?
    ensures var m, refs := d.files[f].master.value, d.masters[d.files[f].master.value].refs - (if Rules(d, f) then 2 else 1);
      Released(d, f) ==
        if refs == 0 then d.masters - {m}
        else d.masters[m := Master(refs, d.masters[m].minor,
                                   if d.files[f].magic != 0 then d.masters[m].magics - {d.files[f].magic} else d.masters[m].magics)]
    ensures d.masters[d.files[f].master.value].refs >= (if Rules(d, f) then 2 else 1)
  {
    RefsSuffice(d, f);
    var m := d.files[f].master.value;
    ReleasedFrom(d, f, m, d.masters[m].refs - (if Rules(d, f) then 2 else 1));
  }

  lemma RefsSuffice(d: Dev, f: nat)
    requires Inv(d) && f in d.files && d.files[f].master.Some?
    ensures d.masters[d.files[f].master.value].refs >= (if Rules(d, f) then 2 else 1)
  {
    var m := d.files[f].master.value;
    assert CountExact(d, m) && FileOk(d, f) && f in Naming(d.files, m);
  }

  lemma ReleasedFrom(d: Dev, f: nat, m: nat, refs: int)
    requires Grounded(d) && f in d.files && d.files[f].master == Some(m)
    requires 0 <= refs == d.masters[m].refs - (if Rules(d, f) then 2 else 1)
    ensures Released(d, f) ==
        if refs == 0 then d.masters - {m}
        else d.masters[m := Master(refs, d.masters[m].minor,
                                   if d.files[f].magic != 0 then d.masters[m].magics - {d.files[f].magic} else d.masters[m].magics)]
  {
  }

  /** The files and minors of a release, master or not. */
  lemma ReleaseLeaves(d: Dev, f: nat, t: Dev)
    requires f in d.files && Grounded(d) && t == Release(d, f)
    ensures t.files.Keys == d.files.Keys - {f} && t.minors.Keys == d.minors.Keys
    ensures forall g :: g in t.files ==>
      t.files[g] == d.files[g].(authenticated := t.files[g].authenticated)
  {
  }

  lemma ReleaseKeepsCounts(d: Dev, f: nat, t: Dev)
    requires Inv(d) && f in d.files && t == Release(d, f)
    ensures Counts(t)
    ensures forall m :: m in d.masters && m !in t.masters ==>
      d.files[f].master == Some(m) && Naming(d.files, m) == {f} && (Current(d, m) ==> Rules(d, f))
  {
    ReleaseLeaves(d, f, t);
    if d.files[f].master.Some? {
      ReleasedIs(d, f);
    }
    assert FileOk(d, f);
    forall k | k in d.masters
      ensures k in t.masters ==> CountExact(t, k)
      ensures k !in t.masters ==> d.files[f].master == Some(k) && Naming(d.files, k) == {f} && (Current(d, k) ==> Rules(d, f))
    {
      ReleaseCount(d, f, t, k);
    }
  }

  lemma ReleaseCount(d: Dev, f: nat, t: Dev, k: nat)
    requires Inv(d) && f in d.files && t == Release(d, f) && k in d.masters
    ensures k in t.masters ==> CountExact(t, k)
    ensures k !in t.masters ==> d.files[f].master == Some(k) && Naming(d.files, k) == {f} && (Current(d, k) ==> Rules(d, f))
  {
    ReleaseLeaves(d, f, t);
    NamingRemove(d.files, f, k);
    NamingSame(d.files - {f}, t.files, k);
    assert CountExact(d, k) && FileOk(d, f);
    if d.files[f].master.Some? {
      ReleasedIs(d, f);
    }
    if k !in t.masters {
      assert |Naming(d.files, k)| == 1 && f in Naming(d.files, k);
      Only(Naming(d.files, k), f);
    }
  }

  lemma Only(s: set<nat>, x: nat)
    requires |s| == 1 && x in s
    ensures s == {x}
  {
    assert |s - {x}| == 0;
  }

  lemma ReleaseKeepsMagics(d: Dev, f: nat, t: Dev)
    requires Inv(d) && f in d.files && t == Release(d, f)
    ensures Magics(t)
  {
    if d.files[f].master.Some? {
      ReleasedIs(d, f);
    }
    forall m | m in t.masters ensures MagicsOk(t, m) {
      assert MagicsOk(d, m);
      ReleaseFits(d, f, t, m);
    }
  }

  lemma ReleaseFits(d: Dev, f: nat, t: Dev, m: nat)
    requires f in d.files && Grounded(d) && t == Release(d, f) && m in d.masters && m in t.masters && MagicsOk(d, m)
    requires forall k :: k in t.masters[m].magics ==> k in d.masters[m].magics && t.masters[m].magics[k] == d.masters[m].magics[k]
    requires d.files[f].master == Some(m) ==> d.files[f].magic !in t.masters[m].magics || d.files[f].magic == 0
    ensures MagicsOk(t, m)
  {
    ReleaseLeaves(d, f, t);
    forall k | k in t.masters[m].magics ensures t.masters[m].magics[k] in t.files {
      assert d.files[d.masters[m].magics[k]].magic == k;
    }
    MagicsStay(d.files, t.files, d.masters[m].magics, t.masters[m].magics, m);
  }

  lemma ReleaseGrounds(d: Dev, f: nat, t: Dev)
    requires Inv(d) && f in d.files && t == Release(d, f)
    ensures Grounded(t) && forall m :: m in t.masters ==> m in d.masters && t.masters[m].minor == d.masters[m].minor
  {
    ReleaseLeaves(d, f, t);
    ReleaseKeepsCounts(d, f, t);
    if d.files[f].master.Some? {
      ReleasedIs(d, f);
    }
    forall g | g in t.files && t.files[g].master.Some? ensures t.files[g].master.value in t.masters {
      assert g in Naming(d.files, t.files[g].master.value);
    }
    forall n | n in t.minors && t.minors[n].Some? ensures t.minors[n].value in t.masters {
      assert MinorOk(d, n) && FileOk(d, f);
    }
  }

  lemma RulerStays(d: Dev, f: nat, t: Dev, n: nat)
    requires Inv(d) && f in d.files && t == Release(d, f) && n in t.minors && t.minors[n].Some? && MinorOk(d, n)
    ensures Ruled(t.files, n)
  {
    ReleaseLeaves(d, f, t);
    forall g | g in d.files && d.files[g].isMaster && d.files[g].minor == n ensures g != f {
      assert FileOk(d, g);
    }
    RuledStays(d.files, t.files, n);
  }

  lemma ReleaseKeepsLinks(d: Dev, f: nat, t: Dev)
    requires Inv(d) && f in d.files && t == Release(d, f)
    ensures Links(t)
  {
    ReleaseLeaves(d, f, t);
    ReleaseGrounds(d, f, t);
    assert FileOk(d, f);
    forall n | n in t.minors ensures MinorOk(t, n) {
      assert MinorOk(d, n);
      if t.minors[n].Some? {
        RulerStays(d, f, t, n);
      }
    }
    forall g | g in t.files ensures FileOk(t, g) {
      assert FileOk(d, g);
    }
  }

  /** Once a master file is released, no file naming its master is authenticated, not even root's
      (drm_fops.c:251-252 says root always is). */
  lemma ReleaseRevokes(d: Dev, f: nat, g: nat)
    requires Inv(d) && f in d.files && g in d.files && g != f
    ensures Release(d, f).files[g].authenticated ==
      (d.files[g].authenticated && !(d.files[f].isMaster && d.files[g].master == d.files[f].master))
  {
    assert FileOk(d, f);
  }

  // --- Runs ---

  datatype Op =
    | OpOpen(f: nat, minor: nat, root: bool, works: bool, m: nat)
    | OpSetMaster(f: nat, works: bool)
    | OpDropMaster(f: nat)
    | OpGetMagic(f: nat, magic: nat, memory: bool)
    | OpAuthMagic(f: nat, magic: nat)
    | OpRelease(f: nat)

  /** A file or master that is made is a new one; the rest is asked of open files, and magic only of
      files with a master. */
  ghost predicate Allowed(d: Dev, op: Op)
    requires Inv(d)
  {
    match op
    case OpOpen(f, _, _, _, m) => f !in d.files && m !in d.masters
    case OpSetMaster(f, _) => f in d.files
    case OpDropMaster(f) => f in d.files
    case OpGetMagic(f, magic, _) => f in d.files && d.files[f].master.Some? &&
      (d.files[f].magic == 0 ==> Picks(d.masters[d.files[f].master.value].magics, d.sequence, magic))
    case OpAuthMagic(f, _) => f in d.files && d.files[f].master.Some?
    case OpRelease(f) => f in d.files
  }

  function Do(d: Dev, op: Op): Dev
    requires Inv(d) && Allowed(d, op)
  {
    match op
    case OpOpen(f, minor, root, works, m) => Open(d, f, minor, root, works, m)
    case OpSetMaster(f, works) => SetMaster(d, f, works)
    case OpDropMaster(f) => DropMaster(d, f)
    case OpGetMagic(f, magic, memory) => GetMagic(d, f, magic, memory)
    case OpAuthMagic(f, magic) => AuthMagic(d, f, magic)
    case OpRelease(f) => Release(d, f)
  }

  lemma StepKeepsInv(d: Dev, op: Op)
    requires Inv(d) && Allowed(d, op)
    ensures Inv(Do(d, op))
  {
    var t := Do(d, op);
    match op {
      case OpOpen(f, minor, root, works, m) =>
        OpenKeepsLinks(d, f, minor, root, works, m, t);
        OpenKeepsCounts(d, f, minor, root, works, m, t);
        OpenKeepsMagics(d, f, minor, root, works, m, t);
      case OpSetMaster(f, works) => SetKeeps(d, f, works, t);
      case OpDropMaster(f) => DropKeeps(d, f, t);
      case OpGetMagic(f, magic, memory) => GetMagicKeeps(d, f, magic, memory, t);
      case OpAuthMagic(f, magic) => AuthMagicKeeps(d, f, magic, t);
      case OpRelease(f) =>
        ReleaseKeepsLinks(d, f, t);
        ReleaseKeepsCounts(d, f, t);
        ReleaseKeepsMagics(d, f, t);
    }
  }

  /** A sequence of operations that was possible, with the state it ended in. */
  ghost predicate Run(d: Dev, ops: seq<Op>, t: Dev)
    decreases |ops|
  {
    if ops == [] then t == d
    else Inv(d) && Allowed(d, ops[0]) && Run(Do(d, ops[0]), ops[1..], t)
  }

  /** Before anyone opens a node. */
  predicate Start(d: Dev) {
    d.files == map[] && d.masters == map[] && forall n :: n in d.minors ==> d.minors[n].None?
  }

  lemma NobodyNoMaster(t: Dev)
    requires Inv(t) && t.files == map[]
    ensures t.masters == map[]
  {
    forall m | m in t.masters ensures Current(t, m) {
      assert CountExact(t, m) && Naming(t.files, m) == {};
    }
    forall m: nat ensures m !in t.masters {
      if m in t.masters {
        assert false;
      }
    }
  }

  /** Over every run, a master's count is the open files naming it plus one while it is current, at
      most one file per minor is master and its master is the minor's, and every magic entry points
      to an open file; and once every file is released no master is left. */
  lemma {:induction false} RunKeepsInv(d: Dev, ops: seq<Op>, t: Dev)
    requires Inv(d) && Run(d, ops, t)
    ensures Inv(t)
    ensures t.files == map[] ==> t.masters == map[]
    decreases |ops|
  {
    if ops == [] {
      if t.files == map[] {
        NobodyNoMaster(t);
      }
    } else {
      StepKeepsInv(d, ops[0]);
      RunKeepsInv(Do(d, ops[0]), ops[1..], t);
    }
  }

  // --- The device, changed in place ---

  /** The fields of the drm_device, its minors, files and masters these operations change. */
  class Device {
    var files: map<nat, File>
    var masters: map<nat, Master>
    var minors: map<nat, Option<nat>>
    var sequence: nat

    ghost function St(): Dev
      reads this
    {
      Dev(files, masters, minors, sequence)
    }

    ghost predicate Valid()
      reads this
    {
      Inv(St()) && sequence < U32
    }

    constructor (primary: set<nat>)
      ensures Valid() && Start(St()) && minors.Keys == primary
    {
      files, masters, minors, sequence := map[], map[], map n | n in primary :: None, 0;
    }

    method MasterGet(m: nat)
      requires m in masters
      modifies this`masters
      ensures masters == Get(old(masters), m)
    {
      masters := masters[m := masters[m].(refs := masters[m].refs + 1)];
    }

    method MasterPut(m: nat)
      requires m in masters
      modifies this`masters
      ensures masters == Put(old(masters), m)
    {
      var refs := masters[m].refs - 1;
      if refs == 0 {
        masters := masters - {m};
      } else {
        masters := masters[m := masters[m].(refs := refs)];
      }
    }

    /** The branch of drm_open_helper that makes a master; if the driver does not like it, both references go. */
    method NewMaster(minor: nat, accepted: bool, m: nat) returns (ok: bool)
      requires minor in minors && minors[minor].None? && m !in masters
      modifies this`masters, this`minors
      ensures ok == accepted
      ensures masters == if ok then old(masters)[m := Master(2, minor, map[])] else old(masters)
      ensures minors == if ok then old(minors)[minor := Some(m)] else old(minors)
    {
      masters := masters[m := Master(1, minor, map[])];
      minors := minors[minor := Some(m)];
      MasterGet(m);
      if !accepted {
        MasterPut(m);
        minors := minors[minor := None];
        MasterPut(m);
      }
      return accepted;
    }

    /** drm_open_helper from the test for a current master on. */
    method OpenHelper(f: nat, minor: nat, root: bool, created: bool, accepted: bool, m: nat) returns (ok: bool)
      requires Valid() && f !in files && m !in masters
      modifies this
      ensures Valid() && St() == Open(old(St()), f, minor, root, created && accepted, m)
      ensures ok == (f in files)
    {
      ghost var was := St();
      var file := File(minor, None, false, root, 0);
      if minor in minors && minors[minor].None? {
        if !created { return false; }
        ok := NewMaster(minor, accepted, m);
        if !ok { return false; }
        file := file.(isMaster := true, master := Some(m), authenticated := true);
      } else if minor in minors {
        MasterGet(minors[minor].value);
        file := file.(master := minors[minor]);
      }
      files := files[f := file];
      assert masters == Open(was, f, minor, root, created && accepted, m).masters;
      StepKeepsInv(was, OpOpen(f, minor, root, created && accepted, m));
      return true;
    }

    method SetMasterIoctl(f: nat, works: bool) returns (ret: int)
      requires Valid() && f in files
      modifies this
      ensures Valid() && St() == SetMaster(old(St()), f, works) && ret == 0
    {
      ghost var was := St();
      StepKeepsInv(was, OpSetMaster(f, works));
      var file := files[f];
      ret := 0;
      if file.isMaster || !(file.minor in minors && minors[file.minor].None?) || file.master.None? { return; }
      assert CountExact(was, file.master.value);
      TakeOver(f, works);
    }

    /** Taking over a vacant minor, and giving it back if the driver refuses. */
    method TakeOver(f: nat, works: bool)
      requires f in files && files[f].master.Some? && !files[f].isMaster && files[f].minor in minors && minors[files[f].minor].None?
      requires files[f].master.value in masters && masters[files[f].master.value].refs > 0
      modifies this`masters, this`minors, this`files
      ensures masters == if works then Get(old(masters), old(files[f].master.value)) else old(masters)
      ensures minors == if works then old(minors)[old(files[f].minor) := old(files[f].master)] else old(minors)
      ensures files == if works then old(files)[f := old(files[f]).(isMaster := true)] else old(files)
    {
      var file := files[f];
      MasterGet(file.master.value);
      minors := minors[file.minor := file.master];
      files := files[f := file.(isMaster := true)];
      if !works {
        files := files[f := file];
        MasterPut(file.master.value);
        minors := minors[file.minor := None];
      }
    }

    method DropMasterIoctl(f: nat) returns (ok: bool)
      requires Valid() && f in files
      modifies this
      ensures Valid() && St() == DropMaster(old(St()), f) && ok == Drops(old(St()), f)
    {
      StepKeepsInv(St(), OpDropMaster(f));
      var file := files[f];
      ok := file.isMaster && file.minor in minors && minors[file.minor].Some?;
      if ok {
        MasterPut(minors[file.minor].value);
        minors := minors[file.minor := None];
        files := files[f := file.(isMaster := false)];
      }
    }

    /** drm_getmagic; the search ends because fewer files are open than there are magic values. */
    method GetMagicIoctl(f: nat, memory: bool) returns (magic: nat)
      requires Valid() && f in files && files[f].master.Some? && |files| < U32 - 1
      modifies this
      ensures Valid() && St() == GetMagic(old(St()), f, magic, memory) && files[f].magic == magic
      ensures old(files[f].magic) == 0 ==> Picks(old(masters[files[f].master.value].magics), old(sequence), magic)
    {
      ghost var was := St();
      var m := files[f].master.value;
      magic := files[f].magic;
      if magic != 0 { return; }
      assert MagicsOk(was, m);
      MagicsAreFew(files, masters[m].magics, m);
      magic := FindUnknown(m);
      files := files[f := files[f].(magic := magic)];
      if memory {
        masters := masters[m := masters[m].(magics := masters[m].magics[magic := f])];
      }
      StepKeepsInv(was, OpGetMagic(f, magic, memory));
    }

    /** The do-while of drm_getmagic. */
    method FindUnknown(m: nat) returns (magic: nat)
      requires m in masters && |masters[m].magics| < U32 - 1 && sequence < U32
      modifies this`sequence
      ensures Picks(masters[m].magics, old(sequence), magic) && sequence == (magic + 1) % U32
    {
      ghost var from, i := sequence, 0;
      var magics := masters[m].magics;
      NthStep(from, 0);
      magic := Candidate(sequence);
      sequence := (magic + 1) % U32;
      while magic in magics
        invariant magic == Nth(from, i) && sequence == (magic + 1) % U32 && i < U32 - 1
        invariant forall j: nat :: j < i ==> Nth(from, j) in magics
        decreases U32 - i
      {
        TriesAreFew(magics.Keys, from, i + 1);
        NthStep(from, i);
        if sequence == 0 {
          sequence := sequence + 1;
        }
        magic := sequence;
        sequence := (sequence + 1) % U32;
        i := i + 1;
      }
    }

    method AuthMagicIoctl(f: nat, magic: nat) returns (ok: bool)
      requires Valid() && f in files && files[f].master.Some?
      modifies this
      ensures Valid() && St() == AuthMagic(old(St()), f, magic)
      ensures ok == (magic in old(masters[files[f].master.value].magics))
    {
      StepKeepsInv(St(), OpAuthMagic(f, magic));
      var m := files[f].master.value;
      ok := magic in masters[m].magics;
      if ok {
        assert MagicsOk(St(), m);
        var g := masters[m].magics[magic];
        files := files[g := files[g].(authenticated := true)];
        masters := masters[m := masters[m].(magics := masters[m].magics - {magic})];
      }
    }

    /** drm_release without the parts that belong to buffers, contexts, events and the lock. */
    method ReleaseFile(f: nat)
      requires Valid() && f in files
      modifies this
      ensures Valid() && St() == Release(old(St()), f)
    {
      ghost var was := St();
      StepKeepsInv(was, OpRelease(f));
      if files[f].master.Some? {
        ReleaseMaster(f);
      }
      files := files - {f};
      assert files == Release(was, f).files && minors == Release(was, f).minors;
    }

    /** The references of a released file with a master. */
    method ReleaseMaster(f: nat)
      requires Valid() && f in files && files[f].master.Some?
      modifies this`files, this`masters, this`minors
      ensures masters == Released(old(St()), f)
      ensures minors == if Rules(old(St()), f) then old(minors)[old(files[f].minor) := None] else old(minors)
      ensures files == if old(files[f].isMaster) then Deauthenticate(old(files), f) else old(files)
    {
      ghost var was := St();
      var file := files[f];
      var m := file.master.value;
      RefsSuffice(was, f);
      if file.magic != 0 {
        masters := masters[m := masters[m].(magics := masters[m].magics - {file.magic})];
      }
      if file.isMaster {
        Revoke(f);
        if minors[file.minor] == file.master {
          MasterPut(m);
          minors := minors[file.minor := None];
        }
      }
      MasterPut(m);
    }

    /** The walk over the file list in drm_release. */
    method Revoke(f: nat)
      requires f in files
      modifies this`files
      ensures files == Deauthenticate(old(files), f)
    {
      ghost var was := files;
      var todo := files.Keys;
      while todo != {}
        invariant files.Keys == was.Keys && todo <= was.Keys
        invariant forall g :: g in was ==> files[g] == if g in todo then was[g] else Deauthenticate(was, f)[g]
        decreases |todo|
      {
        var g :| g in todo;
        if files[g].master == files[f].master && g != f {
          files := files[g := files[g].(authenticated := false)];
        }
        todo := todo - {g};
      }
    }
  }
}
