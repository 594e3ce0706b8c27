/** The inode cache, with any number of references to inodes used in any order. Each section under the cache
lock is one step, and so is each disk access made outside it: `iput` gives the lock up while it frees an inode. */
module InodeCache {

  const NINODE := 50

  datatype Ino = Ino(dev: int, inum: int)

  // The fields of an inode that decide its fate; kind 0 is a free inode.
  datatype Dinode = Dinode(kind: int, nlink: int, size: int)

  datatype Entry = Entry(ino: Ino, ref: int, busy: bool, valid: bool, data: Dinode)

  /** One reference to an inode and where its holder is: none; an inode just taken by ialloc, before iget; held;
      in ilock, about to look at the flag or asleep on it; in ilock, reading the inode in; locked; in iput, about
      to truncate, to mark the inode free, and to drop the reference. A process is as many of these as it has
      references. */
  datatype Handle = Free | Claimed(ino: Ino) | Holds(e: int) | Wants(e: int) | Asleep(e: int) | Loads(e: int)
                  | Locked(e: int) | Frees(e: int) | Erases(e: int) | Drops(e: int)

  // names counts the directory entries that name an inode, apart from a directory's entry for itself.
  datatype State = State(entries: seq<Entry>, disk: map<Ino, Dinode>, names: map<Ino, nat>, handles: seq<Handle>)

  datatype Step = Claim(h: nat, ino: Ino, kind: int) | Get(h: nat, ino: Ino) | Dup(h: nat, g: nat) | Lock(h: nat)
                | Load(h: nat) | Edit(h: nat, data: Dinode) | Update(h: nat) | Unlock(h: nat) | Put(h: nat)
                | Truncate(h: nat) | Erase(h: nat) | Drop(h: nat) | AddName(ino: Ino) | DropName(ino: Ino)

  predicate Refers(a: Handle, e: int) {
    !a.Free? && !a.Claimed? && a.e == e
  }

  // The handles of callers, as against those that iput has begun to give up.
  predicate Uses(a: Handle, e: int) {
    (a.Holds? || a.Wants? || a.Asleep? || a.Loads? || a.Locked?) && a.e == e
  }

  // The handle the busy flag is set for.
  predicate Owns(a: Handle, e: int) {
    (a.Loads? || a.Locked? || a.Frees? || a.Erases? || a.Drops?) && a.e == e
  }

  predicate Matches(e: Entry, ino: Ino) {
    e.ref > 0 && e.ino == ino
  }

  // The entry that iget's loop finds from k on, or -1.
  function Find(entries: seq<Entry>, ino: Ino, k: nat): (e: int)
    requires k <= |entries|
    ensures e == -1 || k <= e < |entries|
    ensures e == -1 <==> forall f | k <= f < |entries| :: !Matches(entries[f], ino)
    ensures e != -1 ==> Matches(entries[e], ino)
    decreases |entries| - k
  {
    if k == |entries| then -1
    else if Matches(entries[k], ino) then k
    else Find(entries, ino, k + 1)
  }

  function FirstEmpty(entries: seq<Entry>, k: nat): (e: int)
    requires k <= |entries|
    ensures e == -1 || k <= e < |entries|
    ensures e == -1 <==> forall f | k <= f < |entries| :: entries[f].ref != 0
    ensures e != -1 ==> entries[e].ref == 0
    decreases |entries| - k
  {
    if k == |entries| then -1 else if entries[k].ref == 0 then k else FirstEmpty(entries, k + 1)
  }

  function Cached(s: State, ino: Ino): int {
    Find(s.entries, ino, 0)
  }

  function Names(s: State, ino: Ino): nat {
    if ino in s.names then s.names[ino] else 0
  }

  // The link count that iput would go by.
  function Links(s: State, ino: Ino): int
    requires ino in s.disk
  {
    var e := Cached(s, ino);
    if e != -1 && s.entries[e].valid then s.entries[e].data.nlink else s.disk[ino].nlink
  }

  function Wake(handles: seq<Handle>, e: int): seq<Handle> {
    seq(|handles|, k requires 0 <= k < |handles| => if handles[k] == Asleep(e) then Wants(e) else handles[k])
  }

  predicate Last(e: Entry) {
    e.ref == 1 && e.valid && e.data.nlink == 0
  }

  predicate At(s: State, h: nat) {
    && h < |s.handles| && !s.handles[h].Free? && !s.handles[h].Claimed? && 0 <= s.handles[h].e < |s.entries|
  }

  /** The steps that do not panic: iget finds an entry, ilock finds an inode in use, iunlock finds the flag set,
      and iput, about to free an inode, finds it clear. */
  predicate Enabled(s: State, step: Step) {
    match step
    case Claim(h, ino, kind) => h < |s.handles| && s.handles[h].Free? && ino in s.disk && s.disk[ino].kind == 0
    case Get(h, ino) => h < |s.handles| && (s.handles[h].Free? || s.handles[h] == Claimed(ino))
        && (Cached(s, ino) != -1 || FirstEmpty(s.entries, 0) != -1)
    case Dup(h, g) => h < |s.handles| && s.handles[h].Free? && At(s, g) && (s.handles[g].Holds? || s.handles[g].Locked?)
    case Lock(h) => At(s, h) && (s.handles[h].Holds? || s.handles[h].Wants?)
    case Load(h) => At(s, h) && s.handles[h].Loads? && s.entries[s.handles[h].e].ino in s.disk && !NoType(s, h)
    case Edit(h, data) => At(s, h) && s.handles[h].Locked?
    case Update(h) => At(s, h) && s.handles[h].Locked?
    case Unlock(h) => At(s, h) && (s.handles[h].Holds? || s.handles[h].Locked?) && s.entries[s.handles[h].e].busy
    case Put(h) => At(s, h) && (s.handles[h].Holds? || s.handles[h].Locked?) && !BusyPut(s, h)
    case Truncate(h) => At(s, h) && s.handles[h].Frees?
    case Erase(h) => At(s, h) && s.handles[h].Erases?
    case Drop(h) => At(s, h) && s.handles[h].Drops?
    case AddName(ino) => true
    case DropName(ino) => Names(s, ino) > 0
  }

  // Where ilock panics.
  predicate NoType(s: State, h: nat)
    requires At(s, h)
  {
    var ino := s.entries[s.handles[h].e].ino;
    ino in s.disk && s.disk[ino].kind == 0
  }

  // Where iput panics.
  predicate BusyPut(s: State, h: nat)
    requires At(s, h)
  {
    Last(s.entries[s.handles[h].e]) && s.entries[s.handles[h].e].busy
  }

  // One more reference to the entry e, for h.
  function Referred(s: State, h: nat, e: int): State
    requires h < |s.handles| && 0 <= e < |s.entries|
  {
    s.(entries := s.entries[e := s.entries[e].(ref := s.entries[e].ref + 1)], handles := s.handles[h := Holds(e)])
  }

  // An unused entry e becomes that of ino, with h as its one reference.
  function Entered(s: State, h: nat, e: int, ino: Ino): State
    requires h < |s.handles| && 0 <= e < |s.entries|
  {
    s.(entries := s.entries[e := Entry(ino, 1, false, false, s.entries[e].data)], handles := s.handles[h := Holds(e)])
  }

  // An inode changed in memory and written to the disk.
  function Stored(s: State, e: int, data: Dinode): State
    requires 0 <= e < |s.entries|
  {
    s.(entries := s.entries[e := s.entries[e].(data := data)], disk := s.disk[s.entries[e].ino := data])
  }

  function Apply(s: State, step: Step): State
    requires Enabled(s, step)
  {
    match step
    case Claim(h, ino, kind) => s.(disk := s.disk[ino := Dinode(kind, 0, 0)], handles := s.handles[h := Claimed(ino)])
    case Get(h, ino) =>
      if Cached(s, ino) != -1 then Referred(s, h, Cached(s, ino)) else Entered(s, h, FirstEmpty(s.entries, 0), ino)
    case Dup(h, g) => Referred(s, h, s.handles[g].e)
    case Lock(h) =>
      var e := s.handles[h].e;
      if s.entries[e].busy then s.(handles := s.handles[h := Asleep(e)])
      else s.(entries := s.entries[e := s.entries[e].(busy := true)],
              handles := s.handles[h := if s.entries[e].valid then Locked(e) else Loads(e)])
    case Load(h) =>
      var e := s.handles[h].e;
      s.(entries := s.entries[e := s.entries[e].(valid := true, data := s.disk[s.entries[e].ino])],
         handles := s.handles[h := Locked(e)])
    case Edit(h, data) => var e := s.handles[h].e; s.(entries := s.entries[e := s.entries[e].(data := data)])
    case Update(h) => var e := s.handles[h].e; s.(disk := s.disk[s.entries[e].ino := s.entries[e].data])
    case Unlock(h) =>
      var e := s.handles[h].e;
      s.(entries := s.entries[e := s.entries[e].(busy := false)], handles := Wake(s.handles[h := Holds(e)], e))
    case Put(h) =>
      var e := s.handles[h].e;
      if Last(s.entries[e]) then
        s.(entries := s.entries[e := s.entries[e].(busy := true)], handles := s.handles[h := Frees(e)])
      else
        s.(entries := s.entries[e := s.entries[e].(ref := s.entries[e].ref - 1)], handles := s.handles[h := Free])
    case Truncate(h) =>
      var e := s.handles[h].e;
      Stored(s, e, s.entries[e].data.(size := 0)).(handles := s.handles[h := Erases(e)])
    case Erase(h) =>
      var e := s.handles[h].e;
      Stored(s, e, s.entries[e].data.(kind := 0)).(handles := s.handles[h := Drops(e)])
    case Drop(h) =>
      var e := s.handles[h].e;
      s.(entries := s.entries[e := s.entries[e].(busy := false, valid := false, ref := s.entries[e].ref - 1)],
         handles := Wake(s.handles[h := Free], e))
    case AddName(ino) => s.(names := s.names[ino := Names(s, ino) + 1])
    case DropName(ino) => s.(names := s.names[ino := Names(s, ino) - 1])
  }

  ghost function Users(handles: seq<Handle>, e: int): set<int> {
    set k | 0 <= k < |handles| && Refers(handles[k], e)
  }

  // ialloc has the inode for itself, or iput is about to free it.
  predicate Takes(s: State, k: int, ino: Ino)
    requires 0 <= k < |s.handles|
  {
    var a := s.handles[k];
    a == Claimed(ino) || (At(s, k) && (a.Frees? || a.Erases?) && s.entries[a.e].ino == ino)
  }

  // The inode is in somebody's care.
  predicate Has(s: State, k: int, ino: Ino)
    requires 0 <= k < |s.handles|
  {
    Takes(s, k, ino) || (At(s, k) && Uses(s.handles[k], s.handles[k].e) && s.entries[s.handles[k].e].ino == ino)
  }

  // An inode in use on the disk that nobody is about to free and no ialloc still has for itself.
  ghost predicate Open(s: State, ino: Ino) {
    && ino in s.disk && s.disk[ino].kind != 0
    && forall k | 0 <= k < |s.handles| :: !Takes(s, k, ino)
  }

  ghost predicate HandleOk(s: State, k: int)
    requires 0 <= k < |s.handles|
  {
    var a := s.handles[k];
    if a.Free? then true
    else if a.Claimed? then
      && a.ino in s.disk && s.disk[a.ino].kind != 0 && s.disk[a.ino].nlink == 0
      && forall j | 0 <= j < |s.handles| && j != k :: !Has(s, j, a.ino)
    else
      At(s, k) &&
      var e := s.entries[a.e];
      && (Uses(a, a.e) ==> Open(s, e.ino))
      && (a.Asleep? ==> e.busy)
      && (a.Loads? ==> !e.valid)
      && (a.Locked? ==> e.valid && e.data.kind != 0)
      && (a.Frees? || a.Erases? ==> e.valid && e.data.nlink == 0 && e.ino in s.disk && s.disk[e.ino] == e.data
                                    && e.data.kind != 0)
      && (a.Erases? ==> e.data.size == 0)
      && (a.Drops? ==> e.valid && e.data.nlink == 0 && e.ino in s.disk && s.disk[e.ino].nlink == 0)
  }

  ghost predicate EntryOk(s: State, e: int)
    requires 0 <= e < |s.entries|
  {
    && s.entries[e].ref == |Users(s.handles, e)|
    && (s.entries[e].busy <==> exists k :: 0 <= k < |s.handles| && Owns(s.handles[k], e))
    && (s.entries[e].ref > 0 && s.entries[e].valid && !s.entries[e].busy
        ==> s.entries[e].ino in s.disk && s.disk[s.entries[e].ino] == s.entries[e].data)
  }

  // The links cover the names, and an inode without links is somebody's.
  ghost predicate InodeOk(s: State, ino: Ino) {
    if ino in s.disk && s.disk[ino].kind != 0 then
      && Names(s, ino) <= Links(s, ino)
      && (Links(s, ino) == 0 ==> exists k :: 0 <= k < |s.handles| && Has(s, k, ino))
    else Names(s, ino) == 0
  }

  ghost predicate Unique(entries: seq<Entry>) {
    forall e, f | 0 <= e < f < |entries| && entries[e].ref > 0 && entries[f].ref > 0 :: entries[e].ino != entries[f].ino
  }

  ghost predicate OneOwner(handles: seq<Handle>) {
    forall j, k, e | 0 <= j < |handles| && 0 <= k < |handles| && Owns(handles[j], e) && Owns(handles[k], e) :: j == k
  }

  ghost predicate Inv(s: State) {
    && |s.entries| == NINODE && Unique(s.entries) && OneOwner(s.handles)
    && (forall e | 0 <= e < |s.entries| :: EntryOk(s, e))
    && (forall k | 0 <= k < |s.handles| :: HandleOk(s, k))
    && (forall ino :: InodeOk(s, ino))
  }

  /** The rules a caller has to keep: look up an inode in use that nobody is freeing; allocate with a type; edit
      so that the type stays and the links still cover the names; unlock what one has locked, and as it is on the
      disk; give up only what is unlocked, and not the only reference to an inode without links that was never
      read in; name an inode only within its links. */
  ghost predicate Careful(s: State, step: Step)
    requires Enabled(s, step)
  {
    match step
    case Claim(h, ino, kind) => kind != 0
    case Get(h, ino) => s.handles[h].Free? ==> Open(s, ino)
    case Edit(h, data) => data.kind != 0 && Names(s, s.entries[s.handles[h].e].ino) <= data.nlink
    case Unlock(h) =>
      var e := s.entries[s.handles[h].e];
      s.handles[h].Locked? && e.ino in s.disk && s.disk[e.ino] == e.data
    case Put(h) =>
      var e := s.handles[h].e;
      s.handles[h].Holds? && (Last(s.entries[e]) || !LastUse(s, h)
                              || (s.entries[e].ino in s.disk && Links(s, s.entries[e].ino) != 0))
    case AddName(ino) => ino in s.disk && s.disk[ino].kind != 0 && Names(s, ino) < Links(s, ino)
    case _ => true
  }

  ghost predicate LastUse(s: State, h: nat)
    requires At(s, h)
  {
    forall k | 0 <= k < |s.handles| && k != h :: !Uses(s.handles[k], s.handles[h].e)
  }

  // The references to e counted again after one handle has changed.
  lemma UsersMoved(hs: seq<Handle>, hs': seq<Handle>, h: nat, e: int)
    requires |hs'| == |hs| && h < |hs|
    requires forall k | 0 <= k < |hs| && k != h :: Refers(hs'[k], e) == Refers(hs[k], e)
    ensures |Users(hs', e)| - (if Refers(hs'[h], e) then 1 else 0) == |Users(hs, e)| - if Refers(hs[h], e) then 1 else 0
  {
    var rest := Users(hs, e) - {h};
    assert Users(hs, e) == rest + if Refers(hs[h], e) then {h} else {};
    assert Users(hs', e) == rest + if Refers(hs'[h], e) then {h} else {};
  }

  lemma UniqueFind(entries: seq<Entry>, e: int)
    requires Unique(entries) && 0 <= e < |entries| && entries[e].ref > 0
    ensures Find(entries, entries[e].ino, 0) == e
  {
  }

  // A reference is to the entry that iget would find.
  lemma HeldIsCached(s: State, k: int)
    requires Inv(s) && 0 <= k < |s.handles| && At(s, k)
    ensures s.entries[s.handles[k].e].ref > 0 && Cached(s, s.entries[s.handles[k].e].ino) == s.handles[k].e
  {
    var e := s.handles[k].e;
    assert EntryOk(s, e) && k in Users(s.handles, e);
    UniqueFind(s.entries, e);
  }

  // The same entries in use for the same inodes.
  ghost predicate SameKeys(entries: seq<Entry>, entries': seq<Entry>) {
    && |entries'| == |entries|
    && forall f | 0 <= f < |entries| :: (entries'[f].ref > 0 <==> entries[f].ref > 0)
                                        && entries'[f].ino == entries[f].ino
  }

  lemma {:induction false} FindSame(entries: seq<Entry>, entries': seq<Entry>, ino: Ino, k: nat)
    requires |entries'| == |entries| && k <= |entries|
    requires forall f | 0 <= f < |entries| :: Matches(entries'[f], ino) <==> Matches(entries[f], ino)
    ensures Find(entries', ino, k) == Find(entries, ino, k)
    decreases |entries| - k
  {
    if k < |entries| {
      FindSame(entries, entries', ino, k + 1);
    }
  }

  // Two handles on one inode are on one entry.
  lemma SameEntry(s: State, j: int, k: int)
    requires Inv(s) && 0 <= j < |s.handles| && 0 <= k < |s.handles| && At(s, j) && At(s, k)
    requires s.entries[s.handles[j].e].ino == s.entries[s.handles[k].e].ino
    ensures s.handles[j].e == s.handles[k].e
  {
    HeldIsCached(s, j);
    HeldIsCached(s, k);
  }

  // The handles other than h are there for the same inodes.
  ghost predicate SameOthers(s: State, s': State, h: int) {
    && |s'.handles| == |s.handles|
    && (forall k, ino | 0 <= k < |s.handles| && k != h :: Takes(s', k, ino) == Takes(s, k, ino))
    && (forall k, ino | 0 <= k < |s.handles| && k != h :: Has(s', k, ino) == Has(s, k, ino))
  }

  // A step of ilock, iunlock or a holder of the lock: one handle h and its entry change, and not whose they are.
  ghost predicate Inside(s: State, s': State, h: nat) {
    && At(s, h) && |s'.handles| == |s.handles| && |s'.entries| == |s.entries|
    && s'.names == s.names && SameKeys(s.entries, s'.entries)
    && Uses(s.handles[h], s.handles[h].e) && Uses(s'.handles[h], s.handles[h].e)
    && (forall f | 0 <= f < |s.entries| && f != s.handles[h].e :: s'.entries[f] == s.entries[f])
    && s'.entries[s.handles[h].e].ref == s.entries[s.handles[h].e].ref
    && (forall k | 0 <= k < |s.handles| && k != h ::
          s'.handles[k] == s.handles[k] || (s.handles[k] == Asleep(s.handles[h].e)
                                            && s'.handles[k] == Wants(s.handles[h].e)))
    && (forall ino | ino != s.entries[s.handles[h].e].ino :: (ino in s'.disk <==> ino in s.disk))
    && (forall ino | ino != s.entries[s.handles[h].e].ino && ino in s.disk :: s'.disk[ino] == s.disk[ino])
  }

  lemma InsideRoles(s: State, s': State, h: nat)
    requires Inv(s) && Inside(s, s', h)
    ensures SameOthers(s, s', -1) && Unique(s'.entries)
    ensures forall f | 0 <= f < |s.entries| :: |Users(s'.handles, f)| == |Users(s.handles, f)|
  {
    forall f | 0 <= f < |s.entries| ensures |Users(s'.handles, f)| == |Users(s.handles, f)| {
      UsersMoved(s.handles, s'.handles, h, f);
    }
  }

  // What is left to show of such a step.
  lemma InsideKeeps(s: State, s': State, h: nat)
    requires Inv(s) && Inside(s, s', h)
    requires var e := s.entries[s.handles[h].e]; var e' := s'.entries[s.handles[h].e];
             && e.ino in s'.disk && s'.disk[e.ino].kind != 0
             && Names(s, e.ino) <= if e'.valid then e'.data.nlink else s'.disk[e.ino].nlink
    requires OneOwner(s'.handles) && EntryOk(s', s.handles[h].e) && HandleOk(s', h)
    requires forall k | 0 <= k < |s.handles| && k != h && Refers(s.handles[k], s.handles[h].e) :: HandleOk(s', k)
    requires forall f | f != s.handles[h].e :: Owns(s'.handles[h], f) == Owns(s.handles[h], f)
    ensures Inv(s')
  {
    InsideRoles(s, s', h);
    HeldIsCached(s, h);
    forall f | 0 <= f < |s.entries| ensures EntryOk(s', f) {
      assert EntryOk(s, f);
    }
    forall k | 0 <= k < |s.handles| ensures HandleOk(s', k) {
      InsideOther(s, s', h, k);
    }
    forall ino ensures InodeOk(s', ino) {
      InsideInode(s, s', h, ino);
    }
  }

  lemma InsideOther(s: State, s': State, h: nat, k: int)
    requires Inv(s) && Inside(s, s', h) && SameOthers(s, s', -1)
    requires s.entries[s.handles[h].e].ino in s'.disk && s'.disk[s.entries[s.handles[h].e].ino].kind != 0
    requires 0 <= k < |s.handles|
    requires k == h || Refers(s.handles[k], s.handles[h].e) ==> HandleOk(s', k)
    ensures HandleOk(s', k)
  {
    assert HandleOk(s, k) && Has(s, h, s.entries[s.handles[h].e].ino);
    if At(s, k) && s.handles[k].e != s.handles[h].e && s.entries[s.handles[k].e].ino == s.entries[s.handles[h].e].ino {
      SameEntry(s, h, k);
    }
  }

  lemma InsideInode(s: State, s': State, h: nat, ino: Ino)
    requires Inv(s) && Inside(s, s', h) && SameOthers(s, s', -1)
    requires var e := s.entries[s.handles[h].e]; var e' := s'.entries[s.handles[h].e];
             && e.ino in s'.disk && s'.disk[e.ino].kind != 0
             && Names(s, e.ino) <= if e'.valid then e'.data.nlink else s'.disk[e.ino].nlink
    ensures InodeOk(s', ino) <==> InodeOk(s, ino)
  {
    assert InodeOk(s, ino);
    FindSame(s.entries, s'.entries, ino, 0);
    HeldIsCached(s, h);
    assert Has(s', h, s.entries[s.handles[h].e].ino);
  }

  // The links that a user of an inode goes by.
  lemma Covered(s: State, h: nat)
    requires Inv(s) && At(s, h) && Uses(s.handles[h], s.handles[h].e)
    ensures s.entries[s.handles[h].e].ref > 0 && HandleOk(s, h)
    ensures var e := s.entries[s.handles[h].e];
            && e.ino in s.disk && s.disk[e.ino].kind != 0
            && Names(s, e.ino) <= if e.valid then e.data.nlink else s.disk[e.ino].nlink
  {
    assert HandleOk(s, h) && InodeOk(s, s.entries[s.handles[h].e].ino);
    HeldIsCached(s, h);
  }

  // ilock finding the inode locked.
  lemma SleepKeeps(s: State, h: nat, s': State)
    requires Inv(s) && Enabled(s, Lock(h)) && s.entries[s.handles[h].e].busy
    requires s' == Apply(s, Lock(h))
    ensures Inv(s') <==> Careful(s, Lock(h))
  {
    var e := s.handles[h].e;
    assert EntryOk(s, e);
    Covered(s, h);
    InsideRoles(s, s', h);
    hide InodeOk, Unique;
    forall k | 0 <= k < |s.handles| ensures Refers(s.handles[k], e) ==> HandleOk(s', k) {
      assert HandleOk(s, k);
    }
    InsideKeeps(s, s', h);
  }

  // ilock finding it free.
  lemma TakeKeeps(s: State, h: nat, s': State)
    requires Inv(s) && Enabled(s, Lock(h)) && !s.entries[s.handles[h].e].busy
    requires s' == Apply(s, Lock(h))
    ensures Inv(s') <==> Careful(s, Lock(h))
  {
    var e := s.handles[h].e;
    assert EntryOk(s, e);
    Covered(s, h);
    InsideRoles(s, s', h);
    hide InodeOk, Unique;
    assert Owns(s'.handles[h], e);
    forall k | 0 <= k < |s.handles| ensures Refers(s.handles[k], e) ==> HandleOk(s', k) {
      assert HandleOk(s, k);
    }
    InsideKeeps(s, s', h);
  }

  lemma LoadKeeps(s: State, h: nat, s': State)
    requires Inv(s) && Enabled(s, Load(h))
    requires s' == Apply(s, Load(h))
    ensures Inv(s') <==> Careful(s, Load(h))
  {
    var e := s.handles[h].e;
    assert EntryOk(s, e);
    Covered(s, h);
    InsideRoles(s, s', h);
    hide InodeOk, Unique;
    assert Owns(s'.handles[h], e);
    forall k | 0 <= k < |s.handles| ensures Refers(s.handles[k], e) ==> HandleOk(s', k) {
      assert HandleOk(s, k);
    }
    InsideKeeps(s, s', h);
  }

  lemma EditKeepsIff(s: State, h: nat, data: Dinode, s': State)
    requires Inv(s) && Enabled(s, Edit(h, data))
    requires s' == Apply(s, Edit(h, data))
    ensures Inv(s') <==> Careful(s, Edit(h, data))
  {
    var e := s.handles[h].e;
    assert HandleOk(s, h) && EntryOk(s, e);
    HeldIsCached(s, h);
    InsideRoles(s, s', h);
    assert Owns(s'.handles[h], e);
    forall k | 0 <= k < |s.handles| && k != h ensures Refers(s.handles[k], e) ==> HandleOk(s', k) {
      assert HandleOk(s, k);
    }
    if Careful(s, Edit(h, data)) {
      InsideKeeps(s, s', h);
    } else {
      FindSame(s.entries, s'.entries, s.entries[e].ino, 0);
      assert !HandleOk(s', h) || !InodeOk(s', s.entries[e].ino);
    }
  }

  lemma UpdateKeeps(s: State, h: nat, s': State)
    requires Inv(s) && Enabled(s, Update(h))
    requires s' == Apply(s, Update(h))
    ensures Inv(s') <==> Careful(s, Update(h))
  {
    var e := s.handles[h].e;
    assert EntryOk(s, e);
    Covered(s, h);
    InsideRoles(s, s', h);
    hide InodeOk, Unique;
    assert Owns(s'.handles[h], e);
    forall k | 0 <= k < |s.handles| ensures Refers(s.handles[k], e) ==> HandleOk(s', k) {
      assert HandleOk(s, k);
    }
    InsideKeeps(s, s', h);
  }

  lemma UnlockKeeps(s: State, h: nat, s': State)
    requires Inv(s) && Enabled(s, Unlock(h)) && Careful(s, Unlock(h))
    requires s' == Apply(s, Unlock(h))
    ensures Inv(s') <==> Careful(s, Unlock(h))
  {
    var e := s.handles[h].e;
    assert EntryOk(s, e);
    Covered(s, h);
    InsideRoles(s, s', h);
    hide InodeOk, Unique;
    forall k | 0 <= k < |s.handles| ensures Refers(s.handles[k], e) ==> HandleOk(s', k) {
      assert HandleOk(s, k);
    }
    InsideKeeps(s, s', h);
  }

  lemma UnlockKeepsIff(s: State, h: nat, s': State)
    requires Inv(s) && Enabled(s, Unlock(h))
    requires s' == Apply(s, Unlock(h))
    ensures Inv(s') <==> Careful(s, Unlock(h))
  {
    if Careful(s, Unlock(h)) {
      UnlockKeeps(s, h, s');
    } else {
      var e := s.handles[h].e;
      assert EntryOk(s, e) && HandleOk(s, h);
      HeldIsCached(s, h);
      if s.handles[h].Holds? {
        var k :| 0 <= k < |s.handles| && Owns(s.handles[k], e);
        assert Owns(s'.handles[k], e);
      }
      assert !EntryOk(s', e);
    }
  }

  // What a handle k knows holds on when h and the reference counts change, unless h takes an inode or comes to
  // have one that another has claimed.
  lemma OtherKept(s: State, s': State, h: int, k: int)
    requires SameOthers(s, s', h) && 0 <= h < |s.handles| && 0 <= k < |s.handles| && k != h && HandleOk(s, k)
    requires s'.handles[k] == s.handles[k] && s'.disk == s.disk && |s'.entries| == |s.entries|
    requires forall ino | Takes(s', h, ino) :: Takes(s, h, ino)
    requires forall ino | Has(s', h, ino) :: Has(s, h, ino) || Open(s, ino)
    requires At(s, k) ==> s'.entries[s.handles[k].e]
                          == s.entries[s.handles[k].e].(ref := s'.entries[s.handles[k].e].ref)
    ensures HandleOk(s', k) <==> HandleOk(s, k)
  {
    if s.handles[k].Claimed? {
      assert Takes(s, k, s.handles[k].ino);
    }
  }

  // A new reference, for a caller or from ialloc, to an entry in use.
  lemma ReferredKeeps(s: State, h: nat, e: int, s': State)
    requires Inv(s) && h < |s.handles| && 0 <= e < |s.entries| && s.entries[e].ref > 0
    requires (s.handles[h].Free? && Open(s, s.entries[e].ino)) || s.handles[h] == Claimed(s.entries[e].ino)
    requires s' == Referred(s, h, e)
    ensures Inv(s')
  {
    var ino := s.entries[e].ino;
    assert HandleOk(s, h);
    ReferredOthers(s, h, e, s');
    forall f | 0 <= f < |s.entries| ensures EntryOk(s', f) {
      assert EntryOk(s, f);
      UsersMoved(s.handles, s'.handles, h, f);
    }
    forall k | 0 <= k < |s.handles| && k != h ensures HandleOk(s', k) {
      OtherKept(s, s', h, k);
    }
    NewUserOk(s, s', h, ino);
    forall i ensures InodeOk(s', i) {
      ReferredInode(s, h, e, i, s');
    }
  }

  lemma ReferredOthers(s: State, h: nat, e: int, s': State)
    requires h < |s.handles| && 0 <= e < |s.entries|
    requires s' == Referred(s, h, e)
    ensures SameOthers(s, s', h)
  {
  }

  lemma ReferredInode(s: State, h: nat, e: int, i: Ino, s': State)
    requires Inv(s) && h < |s.handles| && 0 <= e < |s.entries| && s.entries[e].ref > 0
    requires s.handles[h].Free? || s.handles[h] == Claimed(s.entries[e].ino)
    requires s' == Referred(s, h, e)
    ensures InodeOk(s', i) <==> InodeOk(s, i)
  {
    assert InodeOk(s, i);
    ReferredOthers(s, h, e, s');
    FindSame(s.entries, s'.entries, i, 0);
    assert Has(s', h, s.entries[e].ino);
    assert i != s.entries[e].ino ==> !Has(s, h, i);
  }

  lemma NewUserOk(s: State, s': State, h: nat, ino: Ino)
    requires SameOthers(s, s', h) && h < |s.handles| && HandleOk(s, h) && s'.disk == s.disk
    requires s'.handles[h].Holds? && At(s', h) && s'.entries[s'.handles[h].e].ino == ino
    requires (s.handles[h].Free? && Open(s, ino)) || s.handles[h] == Claimed(ino)
    ensures HandleOk(s', h)
  {
    assert forall k | 0 <= k < |s.handles| && k != h :: Has(s, k, ino) || !Takes(s, k, ino);
  }

  lemma EnteredOthers(s: State, h: nat, e: int, ino: Ino, s': State)
    requires Inv(s) && h < |s.handles| && 0 <= e < |s.entries| && s.entries[e].ref == 0
    requires s' == Entered(s, h, e, ino)
    ensures SameOthers(s, s', h)
    ensures forall k | 0 <= k < |s.handles| :: !Refers(s.handles[k], e)
  {
    assert EntryOk(s, e);
    forall k | 0 <= k < |s.handles| ensures !Refers(s.handles[k], e) {
      assert k !in Users(s.handles, e);
    }
  }

  // A new reference to an inode that was not cached.
  lemma EnteredKeeps(s: State, h: nat, e: int, ino: Ino, s': State)
    requires Inv(s) && h < |s.handles| && 0 <= e < |s.entries| && s.entries[e].ref == 0 && Cached(s, ino) == -1
    requires (s.handles[h].Free? && Open(s, ino)) || s.handles[h] == Claimed(ino)
    requires s' == Entered(s, h, e, ino)
    ensures Inv(s')
  {
    assert HandleOk(s, h);
    EnteredOthers(s, h, e, ino, s');
    forall f | 0 <= f < |s.entries| ensures EntryOk(s', f) {
      assert EntryOk(s, f);
      UsersMoved(s.handles, s'.handles, h, f);
    }
    forall k | 0 <= k < |s.handles| && k != h ensures HandleOk(s', k) {
      OtherKept(s, s', h, k);
    }
    NewUserOk(s, s', h, ino);
    forall i ensures InodeOk(s', i) {
      EnteredInode(s, h, e, ino, i, s');
    }
  }

  // A search before and after an unused entry is given to an inode that was not there.
  lemma FoundNew(entries: seq<Entry>, e: int, x: Entry, ino: Ino)
    requires Find(entries, x.ino, 0) == -1 && 0 <= e < |entries| && entries[e].ref == 0 && x.ref > 0
    ensures Find(entries[e := x], ino, 0) == if ino == x.ino then e else Find(entries, ino, 0)
  {
    if ino == x.ino {
      assert entries[e := x][e] == x;
    } else {
      FindSame(entries, entries[e := x], ino, 0);
    }
  }

  lemma EnteredInode(s: State, h: nat, e: int, ino: Ino, i: Ino, s': State)
    requires Inv(s) && h < |s.handles| && 0 <= e < |s.entries| && s.entries[e].ref == 0 && Cached(s, ino) == -1
    requires s.handles[h].Free? || s.handles[h] == Claimed(ino)
    requires s' == Entered(s, h, e, ino)
    ensures InodeOk(s', i) <==> InodeOk(s, i)
  {
    assert InodeOk(s, i);
    EnteredOthers(s, h, e, ino, s');
    hide HandleOk, EntryOk, Unique, OneOwner, Find;
    FoundNew(s.entries, e, s'.entries[e], i);
    assert Has(s', h, ino) && (i != ino ==> !Has(s, h, i));
  }

  lemma GetKeepsIff(s: State, h: nat, ino: Ino, s': State)
    requires Inv(s) && Enabled(s, Get(h, ino))
    requires s' == Apply(s, Get(h, ino))
    ensures Inv(s') <==> Careful(s, Get(h, ino))
  {
    var e := Cached(s, ino);
    if Careful(s, Get(h, ino)) {
      if e != -1 {
        ReferredKeeps(s, h, e, s');
      } else {
        EnteredKeeps(s, h, FirstEmpty(s.entries, 0), ino, s');
      }
    } else {
      if e == -1 {
        EnteredOthers(s, h, FirstEmpty(s.entries, 0), ino, s');
      }
      assert SameOthers(s, s', h);
      assert !HandleOk(s', h);
    }
  }

  lemma DupKeeps(s: State, h: nat, g: nat, s': State)
    requires Inv(s) && Enabled(s, Dup(h, g))
    requires s' == Apply(s, Dup(h, g))
    ensures Inv(s') <==> Careful(s, Dup(h, g))
  {
    assert HandleOk(s, g);
    HeldIsCached(s, g);
    ReferredKeeps(s, h, s.handles[g].e, s');
  }

  // With one reference there is one handle.
  lemma OnlyUser(s: State, h: nat, k: int)
    requires Inv(s) && At(s, h) && s.entries[s.handles[h].e].ref == 1
    requires 0 <= k < |s.handles| && Refers(s.handles[k], s.handles[h].e)
    ensures k == h
  {
    var e := s.handles[h].e;
    assert EntryOk(s, e) && h in Users(s.handles, e) && k in Users(s.handles, e);
    assert |Users(s.handles, e) - {h}| == 0;
  }

  // The last reference to an inode in the cache leaves it as it is on the disk.
  lemma LastIsSynced(s: State, h: nat)
    requires Inv(s) && At(s, h) && s.handles[h].Holds? && s.entries[s.handles[h].e].ref == 1
    ensures !s.entries[s.handles[h].e].busy
    ensures var e := s.entries[s.handles[h].e]; e.valid ==> e.ino in s.disk && s.disk[e.ino] == e.data
  {
    var e := s.handles[h].e;
    assert EntryOk(s, e);
    if s.entries[e].busy {
      var k :| 0 <= k < |s.handles| && Owns(s.handles[k], e);
      OnlyUser(s, h, k);
      assert false;
    }
  }

  // The inode after a reference to it is dropped.
  lemma DroppedLinks(s: State, h: nat, ino: Ino, s': State)
    requires Inv(s) && Enabled(s, Put(h)) && s.handles[h].Holds? && !Last(s.entries[s.handles[h].e]) && ino in s.disk
    requires s' == Apply(s, Put(h))
    ensures Links(s', ino) == Links(s, ino)
  {
    var e := s.handles[h].e;
    assert EntryOk(s, e) && h in Users(s.handles, e);
    if s.entries[e].ref == 1 && ino == s.entries[e].ino {
      LastIsSynced(s, h);
      HeldIsCached(s, h);
    } else {
      FindSame(s.entries, s'.entries, ino, 0);
    }
  }

  // iput of a reference that is not the last to an inode without links.
  lemma DropKeeps(s: State, h: nat, s': State)
    requires Inv(s) && Enabled(s, Put(h)) && Careful(s, Put(h)) && !Last(s.entries[s.handles[h].e])
    requires s' == Apply(s, Put(h))
    ensures Inv(s') <==> Careful(s, Put(h))
  {
    var e := s.handles[h].e;
    assert EntryOk(s, e) && HandleOk(s, h);
    SamePutting(s, h, s');
    forall f | 0 <= f < |s.entries| ensures EntryOk(s', f) {
      assert EntryOk(s, f);
      UsersMoved(s.handles, s'.handles, h, f);
    }
    forall k | 0 <= k < |s.handles| && k != h ensures HandleOk(s', k) {
      OtherKept(s, s', h, k);
    }
    forall i ensures InodeOk(s', i) {
      DropInode(s, h, i, s');
    }
  }

  lemma SamePutting(s: State, h: nat, s': State)
    requires Enabled(s, Put(h))
    requires s' == Apply(s, Put(h))
    ensures SameOthers(s, s', h)
  {
  }

  lemma DropInode(s: State, h: nat, i: Ino, s': State)
    requires Inv(s) && Enabled(s, Put(h)) && Careful(s, Put(h)) && !Last(s.entries[s.handles[h].e])
    requires s' == Apply(s, Put(h))
    ensures InodeOk(s', i) <==> InodeOk(s, i)
  {
    var e := s.handles[h].e;
    assert InodeOk(s, i) && HandleOk(s, h);
    SamePutting(s, h, s');
    if i in s.disk {
      DroppedLinks(s, h, i, s');
      if i == s.entries[e].ino && !LastUse(s, h) {
        var k :| 0 <= k < |s.handles| && k != h && Uses(s.handles[k], e);
        assert Has(s', k, i);
      }
    }
  }

  // iput of the last one.
  lemma FreeKeeps(s: State, h: nat, s': State)
    requires Inv(s) && Enabled(s, Put(h)) && s.handles[h].Holds? && Last(s.entries[s.handles[h].e])
    requires s' == Apply(s, Put(h))
    ensures Inv(s') <==> Careful(s, Put(h))
  {
    var e := s.handles[h].e;
    var ino := s.entries[e].ino;
    assert EntryOk(s, e) && HandleOk(s, h);
    LastIsSynced(s, h);
    SamePutting(s, h, s');
    assert Owns(s'.handles[h], e);
    forall f | 0 <= f < |s.entries| ensures EntryOk(s', f) {
      assert EntryOk(s, f);
      UsersMoved(s.handles, s'.handles, h, f);
    }
    forall k | 0 <= k < |s.handles| ensures HandleOk(s', k) {
      FreeOther(s, h, k, s');
    }
    forall i ensures InodeOk(s', i) {
      assert InodeOk(s, i);
      FindSame(s.entries, s'.entries, i, 0);
      assert Has(s', h, ino);
    }
  }

  lemma FreeOther(s: State, h: nat, k: int, s': State)
    requires Inv(s) && Enabled(s, Put(h)) && s.handles[h].Holds? && Last(s.entries[s.handles[h].e])
    requires 0 <= k < |s.handles|
    requires s' == Apply(s, Put(h))
    ensures HandleOk(s', k) <==> HandleOk(s, k)
  {
    var e := s.handles[h].e;
    assert HandleOk(s, k) && HandleOk(s, h) && EntryOk(s, e);
    LastIsSynced(s, h);
    SamePutting(s, h, s');
    if At(s, k) && s.entries[s.handles[k].e].ino == s.entries[e].ino {
      SameEntry(s, h, k);
      OnlyUser(s, h, k);
    }
    assert Has(s, h, s.entries[e].ino);
  }

  lemma PutKeepsIff(s: State, h: nat, s': State)
    requires Inv(s) && Enabled(s, Put(h))
    requires s' == Apply(s, Put(h))
    ensures Inv(s') <==> Careful(s, Put(h))
  {
    var e := s.handles[h].e;
    assert EntryOk(s, e) && HandleOk(s, h);
    if s.handles[h].Locked? {
      PutLocked(s, h, s');
    } else if Last(s.entries[e]) {
      FreeKeeps(s, h, s');
    } else if Careful(s, Put(h)) {
      DropKeeps(s, h, s');
    } else {
      PutOrphans(s, h, s');
    }
  }

  lemma PutLocked(s: State, h: nat, s': State)
    requires Inv(s) && Enabled(s, Put(h)) && s.handles[h].Locked?
    requires s' == Apply(s, Put(h))
    ensures !Inv(s')
  {
    var e := s.handles[h].e;
    assert EntryOk(s, e) && Owns(s.handles[h], e);
    assert s'.entries[e].busy && forall k | 0 <= k < |s.handles| :: !Owns(s'.handles[k], e);
    assert !EntryOk(s', e);
  }

  // An inode without links whose only reference goes before it was read in is never freed.
  lemma PutOrphans(s: State, h: nat, s': State)
    requires Inv(s) && Enabled(s, Put(h)) && s.handles[h].Holds? && !Careful(s, Put(h))
    requires s' == Apply(s, Put(h))
    ensures !Inv(s')
  {
    var e := s.handles[h].e;
    var ino := s.entries[e].ino;
    assert HandleOk(s, h);
    DroppedLinks(s, h, ino, s');
    SamePutting(s, h, s');
    forall k | 0 <= k < |s.handles| ensures !Has(s', k, ino) {
      if k != h && Has(s, k, ino) {
        assert !Takes(s, k, ino);
        SameEntry(s, h, k);
      }
    }
    assert !InodeOk(s', ino);
  }

  // The part of iput outside the cache lock: what it writes goes to an inode nobody else has.
  lemma TruncateKeeps(s: State, h: nat, s': State)
    requires Inv(s) && Enabled(s, Truncate(h))
    requires s' == Apply(s, Truncate(h))
    ensures Inv(s') <==> Careful(s, Truncate(h))
  {
    var e := s.handles[h].e;
    assert EntryOk(s, e) && HandleOk(s, h);
    HeldIsCached(s, h);
    assert Owns(s'.handles[h], e);
    forall f | 0 <= f < |s.entries| ensures EntryOk(s', f) {
      assert EntryOk(s, f);
      UsersMoved(s.handles, s'.handles, h, f);
    }
    forall k | 0 <= k < |s.handles| ensures HandleOk(s', k) {
      EndingOther(s, h, k, s');
    }
    forall i ensures InodeOk(s', i) {
      EndingInode(s, h, i, s');
    }
  }

  lemma SameTruncating(s: State, h: nat, s': State)
    requires Enabled(s, Truncate(h))
    requires s' == Apply(s, Truncate(h))
    ensures SameOthers(s, s', -1)
  {
  }

  lemma EndingInode(s: State, h: nat, i: Ino, s': State)
    requires Inv(s) && Enabled(s, Truncate(h))
    requires s' == Apply(s, Truncate(h))
    ensures InodeOk(s', i) <==> InodeOk(s, i)
  {
    assert InodeOk(s, i) && HandleOk(s, h);
    HeldIsCached(s, h);
    FindSame(s.entries, s'.entries, i, 0);
    SameTruncating(s, h, s');
  }

  // No other handle is there for an inode about to be freed.
  lemma Alone(s: State, h: nat, k: int)
    requires Inv(s) && At(s, h) && (s.handles[h].Frees? || s.handles[h].Erases?)
    requires 0 <= k < |s.handles| && (At(s, k) || s.handles[k].Claimed?)
    requires (if s.handles[k].Claimed? then s.handles[k].ino else s.entries[s.handles[k].e].ino)
             == s.entries[s.handles[h].e].ino
    ensures k == h
  {
    var e := s.handles[h].e;
    assert HandleOk(s, k) && HandleOk(s, h);
    assert Takes(s, h, s.entries[e].ino) && Has(s, h, s.entries[e].ino);
    if At(s, k) {
      SameEntry(s, h, k);
      assert Owns(s.handles[k], e) && Owns(s.handles[h], e);
    }
  }

  lemma EndingOther(s: State, h: nat, k: int, s': State)
    requires Inv(s) && Enabled(s, Truncate(h)) && 0 <= k < |s.handles|
    requires s' == Apply(s, Truncate(h))
    ensures HandleOk(s', k) <==> HandleOk(s, k)
  {
    var e := s.handles[h].e;
    assert HandleOk(s, k) && HandleOk(s, h);
    SameTruncating(s, h, s');
    if At(s, k) && s.entries[s.handles[k].e].ino == s.entries[e].ino {
      Alone(s, h, k);
    }
  }

  lemma EraseKeeps(s: State, h: nat, s': State)
    requires Inv(s) && Enabled(s, Erase(h))
    requires s' == Apply(s, Erase(h))
    ensures Inv(s') <==> Careful(s, Erase(h))
  {
    var e := s.handles[h].e;
    assert EntryOk(s, e) && HandleOk(s, h);
    HeldIsCached(s, h);
    assert Owns(s'.handles[h], e);
    forall f | 0 <= f < |s.entries| ensures EntryOk(s', f) {
      assert EntryOk(s, f);
      UsersMoved(s.handles, s'.handles, h, f);
    }
    forall k | 0 <= k < |s.handles| ensures HandleOk(s', k) {
      ErasedOther(s, h, k, s');
    }
    forall i ensures InodeOk(s', i) {
      ErasedInode(s, h, i, s');
    }
  }

  lemma SameErasing(s: State, h: nat, s': State)
    requires Enabled(s, Erase(h))
    requires s' == Apply(s, Erase(h))
    ensures SameOthers(s, s', h)
  {
  }

  lemma ErasedInode(s: State, h: nat, i: Ino, s': State)
    requires Inv(s) && Enabled(s, Erase(h))
    requires s' == Apply(s, Erase(h))
    ensures InodeOk(s', i) <==> InodeOk(s, i)
  {
    assert InodeOk(s, i) && HandleOk(s, h);
    HeldIsCached(s, h);
    SameErasing(s, h, s');
    FindSame(s.entries, s'.entries, i, 0);
    assert i != s.entries[s.handles[h].e].ino ==> !Has(s, h, i);
  }

  lemma ErasedOther(s: State, h: nat, k: int, s': State)
    requires Inv(s) && Enabled(s, Erase(h)) && 0 <= k < |s.handles|
    requires s' == Apply(s, Erase(h))
    ensures HandleOk(s', k) <==> HandleOk(s, k)
  {
    var e := s.handles[h].e;
    assert HandleOk(s, k) && HandleOk(s, h);
    SameErasing(s, h, s');
    if At(s, k) && s.entries[s.handles[k].e].ino == s.entries[e].ino {
      Alone(s, h, k);
    } else if s.handles[k] == Claimed(s.entries[e].ino) {
      Alone(s, h, k);
    }
    assert forall i :: !Has(s', h, i);
  }

  // The end of iput, under the cache lock again: ialloc may have handed the inode out in between.
  lemma EndKeeps(s: State, h: nat, s': State)
    requires Inv(s) && Enabled(s, Drop(h))
    requires s' == Apply(s, Drop(h))
    ensures Inv(s') <==> Careful(s, Drop(h))
  {
    var e := s.handles[h].e;
    assert HandleOk(s, h) && Owns(s.handles[h], e);
    SameDropping(s, h, s');
    forall f | 0 <= f < |s.entries| ensures EntryOk(s', f) {
      EndEntry(s, h, f, s');
    }
    forall k | 0 <= k < |s.handles| ensures HandleOk(s', k) {
      assert HandleOk(s, k);
    }
    forall i ensures InodeOk(s', i) {
      EndInode(s, h, i, s');
    }
  }

  lemma SameDropping(s: State, h: nat, s': State)
    requires Enabled(s, Drop(h))
    requires s' == Apply(s, Drop(h))
    ensures SameOthers(s, s', -1)
  {
  }

  lemma EndEntry(s: State, h: nat, f: int, s': State)
    requires Inv(s) && Enabled(s, Drop(h)) && 0 <= f < |s.entries|
    requires s' == Apply(s, Drop(h))
    ensures EntryOk(s', f) <==> EntryOk(s, f)
  {
    assert EntryOk(s, f) && Owns(s.handles[h], s.handles[h].e);
    UsersMoved(s.handles, Apply(s, Drop(h)).handles, h, f);
  }

  lemma EndInode(s: State, h: nat, i: Ino, s': State)
    requires Inv(s) && Enabled(s, Drop(h))
    requires s' == Apply(s, Drop(h))
    ensures InodeOk(s', i) <==> InodeOk(s, i)
  {
    var e := s.handles[h].e;
    assert InodeOk(s, i) && HandleOk(s, h);
    HeldIsCached(s, h);
    SameDropping(s, h, s');
    if i != s.entries[e].ino {
      FindSame(s.entries, s'.entries, i, 0);
    }
  }

  lemma ClaimKeepsIff(s: State, h: nat, ino: Ino, kind: int, s': State)
    requires Inv(s) && Enabled(s, Claim(h, ino, kind))
    requires s' == Apply(s, Claim(h, ino, kind))
    ensures Inv(s') <==> kind != 0
  {
    if kind == 0 {
      assert !HandleOk(s', h);
    } else {
      assert SameOthers(s, s', h);
      forall k | 0 <= k < |s.handles| && k != h ensures !Has(s, k, ino) && HandleOk(s', k) {
        assert HandleOk(s, k);
      }
      forall f | 0 <= f < |s.entries| ensures EntryOk(s', f) {
        ClaimEntry(s, h, ino, kind, f, s');
      }
      forall i ensures InodeOk(s', i) {
        ClaimInode(s, h, ino, kind, i, s');
      }
    }
  }

  // A cached inode that is free on the disk is one that iput is just giving up.
  lemma FreedStill(s: State, f: int)
    requires Inv(s) && 0 <= f < |s.entries| && s.entries[f].ref > 0
    requires s.entries[f].ino in s.disk && s.disk[s.entries[f].ino].kind == 0
    ensures s.entries[f].busy && s.entries[f].valid && s.entries[f].data.nlink == 0
  {
    assert EntryOk(s, f);
    var k :| k in Users(s.handles, f);
    assert HandleOk(s, k);
    assert Owns(s.handles[k], f);
  }

  lemma ClaimEntry(s: State, h: nat, ino: Ino, kind: int, f: int, s': State)
    requires Inv(s) && Enabled(s, Claim(h, ino, kind)) && 0 <= f < |s.entries|
    requires s' == Apply(s, Claim(h, ino, kind))
    ensures EntryOk(s', f) <==> EntryOk(s, f)
  {
    assert EntryOk(s, f);
    UsersMoved(s.handles, s'.handles, h, f);
    if s.entries[f].ref > 0 && s.entries[f].ino == ino {
      FreedStill(s, f);
    }
  }

  lemma ClaimInode(s: State, h: nat, ino: Ino, kind: int, i: Ino, s': State)
    requires Inv(s) && Enabled(s, Claim(h, ino, kind)) && kind != 0
    requires s' == Apply(s, Claim(h, ino, kind))
    ensures InodeOk(s', i) <==> InodeOk(s, i)
  {
    var e := Cached(s, ino);
    assert InodeOk(s, i) && SameOthers(s, s', h);
    assert Has(s', h, ino) && !Has(s, h, i);
    if e != -1 {
      FreedStill(s, e);
    }
  }

  lemma NamesApart(s: State, s': State)
    requires Inv(s) && s' == s.(names := s'.names)
    ensures SameOthers(s, s', -1)
    ensures (forall f | 0 <= f < |s.entries| :: EntryOk(s', f)) && forall k | 0 <= k < |s.handles| :: HandleOk(s', k)
  {
    assert SameOthers(s, s', -1);
    forall f | 0 <= f < |s.entries| ensures EntryOk(s', f) {
      assert EntryOk(s, f);
    }
    forall k | 0 <= k < |s.handles| ensures HandleOk(s', k) {
      assert HandleOk(s, k);
    }
  }

  lemma NameKeepsIff(s: State, step: Step)
    requires Inv(s) && Enabled(s, step) && (step.AddName? || step.DropName?)
    ensures Inv(Apply(s, step)) <==> Careful(s, step)
  {
    var s' := Apply(s, step);
    NamesApart(s, s');
    forall i ensures i != step.ino || Careful(s, step) ==> InodeOk(s', i) {
      assert InodeOk(s, i);
    }
    assert !Careful(s, step) ==> !InodeOk(s', step.ino);
  }

  /** Every step that does not panic keeps the invariant exactly when it is careful. */
  lemma StepKeepsIff(s: State, step: Step)
    requires Inv(s) && Enabled(s, step)
    ensures Inv(Apply(s, step)) <==> Careful(s, step)
  {
    hide Inv, Apply, Open, HandleOk, InodeOk, EntryOk;
    var s' := Apply(s, step);
    match step
    case Claim(h, ino, kind) => ClaimKeepsIff(s, h, ino, kind, s');
    case Get(h, ino) => GetKeepsIff(s, h, ino, s');
    case Dup(h, g) => DupKeeps(s, h, g, s');
    case Lock(h) => if s.entries[s.handles[h].e].busy { SleepKeeps(s, h, s'); } else { TakeKeeps(s, h, s'); }
    case Load(h) => LoadKeeps(s, h, s');
    case Edit(h, data) => EditKeepsIff(s, h, data, s');
    case Update(h) => UpdateKeeps(s, h, s');
    case Unlock(h) => UnlockKeepsIff(s, h, s');
    case Put(h) => PutKeepsIff(s, h, s');
    case Truncate(h) => TruncateKeeps(s, h, s');
    case Erase(h) => EraseKeeps(s, h, s');
    case Drop(h) => EndKeeps(s, h, s');
    case AddName(_) => NameKeepsIff(s, step);
    case DropName(_) => NameKeepsIff(s, step);
  }

  ghost predicate Reaches(s: State, steps: seq<Step>, s': State)
    decreases |steps|
  {
    if steps == [] then s == s' else Enabled(s, steps[0]) && Reaches(Apply(s, steps[0]), steps[1..], s')
  }

  ghost predicate Carefully(s: State, steps: seq<Step>)
    decreases |steps|
  {
    steps == [] || (Enabled(s, steps[0]) && Careful(s, steps[0]) && Carefully(Apply(s, steps[0]), steps[1..]))
  }

  lemma {:induction false} RunKeeps(s: State, steps: seq<Step>, s': State)
    requires Inv(s) && Reaches(s, steps, s') && Carefully(s, steps)
    ensures Inv(s')
    decreases |steps|
  {
    hide Inv, Careful;
    if steps != [] {
      StepKeepsIff(s, steps[0]);
      RunKeeps(Apply(s, steps[0]), steps[1..], s');
    }
  }

  // A disk on which exactly the inodes in use have links, and enough for their names.
  ghost predicate Sound(disk: map<Ino, Dinode>, names: map<Ino, nat>) {
    && (forall ino | ino in disk && disk[ino].kind != 0 :: disk[ino].nlink > 0)
    && (forall ino | ino in names && names[ino] > 0 :: ino in disk && disk[ino].kind != 0
                                                       && names[ino] <= disk[ino].nlink)
  }

  // The cache as iinit leaves it, with n references to give out.
  ghost function Initial(disk: map<Ino, Dinode>, names: map<Ino, nat>, n: nat): State {
    State(seq(NINODE, e => Entry(Ino(0, 0), 0, false, false, Dinode(0, 0, 0))), disk, names, seq(n, k => Free))
  }

  lemma InitialInv(disk: map<Ino, Dinode>, names: map<Ino, nat>, n: nat)
    requires Sound(disk, names)
    ensures Inv(Initial(disk, names, n))
  {
    var s := Initial(disk, names, n);
    forall e | 0 <= e < NINODE ensures EntryOk(s, e) {
      assert Users(s.handles, e) == {};
    }
  }

  ghost predicate Reachable(s: State) {
    exists disk, names, n: nat, steps ::
      Sound(disk, names) && Reaches(Initial(disk, names, n), steps, s) && Carefully(Initial(disk, names, n), steps)
  }

  lemma ReachableInv(s: State)
    requires Reachable(s)
    ensures Inv(s)
  {
    var disk, names, n: nat, steps :|
      Sound(disk, names) && Reaches(Initial(disk, names, n), steps, s) && Carefully(Initial(disk, names, n), steps);
    InitialInv(disk, names, n);
    RunKeeps(Initial(disk, names, n), steps, s);
  }

  /** At most one entry for an inode, whose count is the number of references there are to it. */
  lemma OneEntryPerInode(s: State, e: nat, f: nat)
    requires Reachable(s) && e < |s.entries| && f < |s.entries| && s.entries[e].ref > 0 && s.entries[f].ref > 0
    requires s.entries[e].ino == s.entries[f].ino
    ensures e == f && s.entries[e].ref == |Users(s.handles, e)|
  {
    ReachableInv(s);
    assert EntryOk(s, e);
  }

  /** While iput frees an inode, without the cache lock, its reference is the only one, and nothing names or links
      to the inode. */
  lemma FreedByLast(s: State, h: nat)
    requires Reachable(s) && At(s, h) && (s.handles[h].Frees? || s.handles[h].Erases?)
    ensures Users(s.handles, s.handles[h].e) == {h as int}
    ensures var ino := s.entries[s.handles[h].e].ino;
            && ino in s.disk && Links(s, ino) == 0 && Names(s, ino) == 0
            && forall k | 0 <= k < |s.handles| && k != h :: !Has(s, k, ino)
  {
    ReachableInv(s);
    var e := s.handles[h].e;
    var ino := s.entries[e].ino;
    assert HandleOk(s, h) && InodeOk(s, ino) && EntryOk(s, e);
    HeldIsCached(s, h);
    forall k | 0 <= k < |s.handles| && k != h ensures !Refers(s.handles[k], e) && !Has(s, k, ino) {
      assert HandleOk(s, k);
      if Refers(s.handles[k], e) || Has(s, k, ino) {
        Alone(s, h, k);
      }
    }
  }

  /** One reference at a time has an inode locked, and it has been read in. */
  lemma OneLocker(s: State, h: nat, k: nat)
    requires Reachable(s) && At(s, h) && At(s, k) && s.handles[h].Locked? && s.handles[k].Locked?
    requires s.entries[s.handles[h].e].ino == s.entries[s.handles[k].e].ino
    ensures h == k && s.entries[s.handles[h].e].valid && s.entries[s.handles[h].e].data.kind != 0
  {
    ReachableInv(s);
    SameEntry(s, h, k);
    assert HandleOk(s, h) && Owns(s.handles[h], s.handles[h].e) && Owns(s.handles[k], s.handles[h].e);
  }

  /** Careful callers never meet the panics of ilock, iunlock and iput. */
  lemma NoPanics(s: State, h: nat)
    requires Reachable(s) && At(s, h)
    ensures s.handles[h].Loads? ==> !NoType(s, h) && Enabled(s, Load(h))
    ensures s.handles[h].Locked? ==> s.entries[s.handles[h].e].busy && s.entries[s.handles[h].e].ref > 0
    ensures s.handles[h].Holds? ==> !BusyPut(s, h) && s.entries[s.handles[h].e].ref > 0
  {
    ReachableInv(s);
    assert HandleOk(s, h) && EntryOk(s, s.handles[h].e);
    HeldIsCached(s, h);
    if s.handles[h].Holds? && s.entries[s.handles[h].e].ref == 1 {
      LastIsSynced(s, h);
    }
    assert s.handles[h].Locked? ==> Owns(s.handles[h], s.handles[h].e);
  }

  // Whoever sleeps in ilock sleeps because of another reference to the same inode, which will wake it.
  lemma SleeperHasCause(s: State, h: nat) returns (k: nat)
    requires Reachable(s) && At(s, h) && s.handles[h].Asleep?
    ensures k < |s.handles| && k != h && Owns(s.handles[k], s.handles[h].e)
  {
    ReachableInv(s);
    assert HandleOk(s, h) && EntryOk(s, s.handles[h].e);
    k :| k < |s.handles| && Owns(s.handles[k], s.handles[h].e);
  }

  /** An inode in use that has no links is in somebody's care: it will be freed. */
  lemma NoOrphans(s: State, ino: Ino) returns (k: nat)
    requires Reachable(s) && ino in s.disk && s.disk[ino].kind != 0 && Links(s, ino) == 0
    ensures k < |s.handles| && Has(s, k, ino)
  {
    ReachableInv(s);
    assert InodeOk(s, ino);
    k :| k < |s.handles| && Has(s, k, ino);
  }

  /** A lookup by a name that is there, or by a directory's own entry while it is held, is careful. */
  lemma NamedIsOpen(s: State, ino: Ino)
    requires Reachable(s)
    requires Names(s, ino) > 0 || exists k :: 0 <= k < |s.handles| && Has(s, k, ino) && !Takes(s, k, ino)
    ensures Open(s, ino)
  {
    ReachableInv(s);
    assert InodeOk(s, ino);
    if Names(s, ino) > 0 {
      forall k | 0 <= k < |s.handles| ensures !Takes(s, k, ino) {
        if Takes(s, k, ino) {
          TakenLinks(s, ino, k);
        }
      }
    } else {
      var k :| 0 <= k < |s.handles| && Has(s, k, ino) && !Takes(s, k, ino);
      assert HandleOk(s, k);
    }
  }

  // An inode claimed or about to be freed has no links.
  lemma TakenLinks(s: State, ino: Ino, k: int)
    requires Inv(s) && 0 <= k < |s.handles| && Takes(s, k, ino)
    ensures ino in s.disk && s.disk[ino].kind != 0 && Links(s, ino) == 0
  {
    assert HandleOk(s, k);
    if At(s, k) {
      HeldIsCached(s, k);
    } else if Cached(s, ino) != -1 {
      var e := Cached(s, ino);
      assert EntryOk(s, e);
      var j :| j in Users(s.handles, e);
      assert HandleOk(s, j) && !Has(s, j, ino);
    }
  }

  /** An inode is written on the disk by whoever has it locked, by ialloc when it is free, or by the iput of its last
      reference; only the last of these marks it free. */
  lemma WrittenBy(s: State, step: Step, ino: Ino)
    requires Inv(s) && Enabled(s, step) && ino in s.disk && Apply(s, step).disk[ino] != s.disk[ino]
    ensures match step
            case Claim(h, i, kind) => i == ino && s.disk[ino].kind == 0
                && Apply(s, step).disk[ino] == Dinode(kind, 0, 0)
            case Update(h) => s.entries[s.handles[h].e].ino == ino && Apply(s, step).disk[ino].kind != 0
                && Apply(s, step).disk[ino] == s.entries[s.handles[h].e].data
            case Truncate(h) => s.entries[s.handles[h].e].ino == ino && Apply(s, step).disk[ino].kind != 0
                && Apply(s, step).disk[ino] == Dinode(s.disk[ino].kind, 0, 0)
            case Erase(h) => s.entries[s.handles[h].e].ino == ino && Apply(s, step).disk[ino] == Dinode(0, 0, 0)
            case _ => false
  {
    if step.Update? || step.Truncate? || step.Erase? {
      assert HandleOk(s, step.h);
    }
  }

  /** iput of the only reference to an inode that has been read in and has no links frees it: left alone, it truncates
      the
      inode, marks it free on the disk and gives its entry up. */
  lemma LastPutFrees(s: State, h: nat)
    requires Inv(s) && At(s, h) && s.handles[h].Holds?
    requires var e := s.entries[s.handles[h].e]; e.ref == 1 && e.valid && e.data.nlink == 0
    ensures Enabled(s, Put(h)) && var s1 := Apply(s, Put(h));
            Enabled(s1, Truncate(h)) && var s2 := Apply(s1, Truncate(h));
            Enabled(s2, Erase(h)) && var s3 := Apply(s2, Erase(h));
            Enabled(s3, Drop(h)) && var s4 := Apply(s3, Drop(h));
            var e := s.handles[h].e;
            && s4.disk == s.disk[s.entries[e].ino := Dinode(0, 0, 0)]
            && s4.entries[e].ref == 0 && s4.handles[h] == Free
  {
    LastIsSynced(s, h);
  }

  /** Any other iput only drops the reference. */
  lemma OtherPutDrops(s: State, h: nat)
    requires Inv(s) && At(s, h) && s.handles[h].Holds?
    requires var e := s.entries[s.handles[h].e]; e.ref > 1 || !e.valid || e.data.nlink > 0
    ensures Enabled(s, Put(h)) && var s', e := Apply(s, Put(h)), s.handles[h].e;
            && s'.disk == s.disk && s'.handles == s.handles[h := Free]
            && s'.entries == s.entries[e := s.entries[e].(ref := s.entries[e].ref - 1)]
  {
    HeldIsCached(s, h);
  }

  // Whoever has the inode locked sees it as it is on the disk.
  ghost predicate Sees(s: State, h: nat) {
    At(s, h) && s.handles[h].Locked? ==>
      var e := s.entries[s.handles[h].e]; e.valid && e.ino in s.disk && e.data == s.disk[e.ino]
  }

  lemma SeesOn(s: State, step: Step, h: nat)
    requires Inv(s) && Enabled(s, step) && Careful(s, step) && Sees(s, h) && h < |s.handles|
    requires step.Edit? ==> step.h != h
    ensures h < |Apply(s, step).handles| && Sees(Apply(s, step), h)
  {
    var s' := Apply(s, step);
    assert HandleOk(s, h);
    if At(s, h) {
      assert EntryOk(s, s.handles[h].e);
      HeldIsCached(s, h);
    }
    if !step.AddName? && !step.DropName? {
      assert step.h < |s.handles| && HandleOk(s, step.h);
      if At(s, h) && At(s, step.h) && s.entries[s.handles[step.h].e].ino == s.entries[s.handles[h].e].ino {
        SameEntry(s, h, step.h);
      }
    }
  }

  /** ilock gives the inode as it is on the disk, and it stays so until the holder of the lock edits it. */
  lemma {:induction false} LockSeesDisk(s: State, steps: seq<Step>, s': State, h: nat)
    requires Inv(s) && Reaches(s, steps, s') && Carefully(s, steps) && h < |s.handles| && Sees(s, h)
    requires forall k | 0 <= k < |steps| :: steps[k].Edit? ==> steps[k].h != h
    ensures h < |s'.handles| && Sees(s', h)
    decreases |steps|
  {
    hide Inv, Careful, Sees;
    if steps != [] {
      StepKeepsIff(s, steps[0]);
      SeesOn(s, steps[0], h);
      LockSeesDisk(Apply(s, steps[0]), steps[1..], s', h);
    }
  }

  /** A number whose inode is free, looked up all the same, as by the parent entry of a removed directory: ilock
      panics. */
  lemma StaleLookupPanics(s: State, h: nat, ino: Ino)
    requires Inv(s) && Enabled(s, Get(h, ino)) && s.handles[h].Free? && Cached(s, ino) == -1
    requires ino in s.disk && s.disk[ino].kind == 0
    ensures var s1 := Apply(s, Get(h, ino));
            && !Inv(s1) && Enabled(s1, Lock(h))
            && var s2 := Apply(s1, Lock(h)); At(s2, h) && s2.handles[h].Loads? && NoType(s2, h)
  {
    assert !Open(s, ino);
    GetKeepsIff(s, h, ino, Apply(s, Get(h, ino)));
  }

  // iget's loop.
  method Scan(entries: seq<Entry>, ino: Ino) returns (e: int, empty: int)
    ensures e == Find(entries, ino, 0) && (e == -1 ==> empty == FirstEmpty(entries, 0))
  {
    empty := -1;
    e := 0;
    while e < |entries|
      invariant 0 <= e <= |entries| && Find(entries, ino, 0) == Find(entries, ino, e)
      invariant FirstEmpty(entries, 0) == if empty == -1 then FirstEmpty(entries, e) else empty
    {
      if Matches(entries[e], ino) {
        return;
      }
      if empty == -1 && entries[e].ref == 0 {
        empty := e;
      }
      e := e + 1;
    }
    e := -1;
  }
}
