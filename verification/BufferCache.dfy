/** The buffer cache over the disk queue, with any number of clients and the disk interrupt taking
steps in any order. Each section under a lock is one step; the lists are those that
`BufferLists.BufferList` and `BufferLists.RequestQueue` keep. */
module BufferCache {

  import opened BufferLists

  /** What a client is doing: nothing; looking for a sector in bget; asleep there because buffer b is
      busy; about to start a transfer; waiting for it in iderw; using the buffer, whose data it may
      have edited since it was last in step with the disk. */
  datatype Client = Free | Seeking(dev: int, sector: int) | Queued(dev: int, sector: int, b: int)
                  | Pending(b: int) | Waiting(b: int) | Holding(b: int, edited: bool)

  // The command the disk controller is working on.
  datatype Request = NoRequest | Request(b: int, dev: int, sector: int, write: bool, data: seq<int>)

  type Disk = map<(int, int), seq<int>>

  // owner is the client using each busy buffer.
  datatype State = State(bufs: seq<Buf>, order: seq<int>, queue: seq<int>, active: Request, disk: Disk,
                         clients: seq<Client>, owner: map<int, nat>)

  datatype Step = Seek(c: nat, dev: int, sector: int) | Scan(c: nat) | Start(c: nat) | Resume(c: nat)
                | Edit(c: nat, data: seq<int>) | Write(c: nat) | Release(c: nat) | Interrupt(failed: bool)

  // The controller takes one bit of the device number and 28 bits of the sector number.
  function Key(dev: int, sector: int): (int, int) {
    (dev % 2, sector % 0x1000_0000)
  }

  predicate Plain(dev: int, sector: int) {
    Key(dev, sector) == (dev, sector)
  }

  function Sector(disk: Disk, dev: int, sector: int): seq<int> {
    if Key(dev, sector) in disk then disk[Key(dev, sector)] else []
  }

  predicate Uses(cl: Client, b: int) {
    (cl.Pending? || cl.Waiting? || cl.Holding?) && cl.b == b
  }

  predicate InSync(buf: Buf) {
    buf.valid && !buf.dirty
  }

  function Command(bufs: seq<Buf>, queue: seq<int>): Request {
    if queue == [] || !(0 <= queue[0] < |bufs|) then NoRequest
    else var b := bufs[queue[0]]; Request(queue[0], b.dev, b.sector, b.dirty, if b.dirty then b.data else [])
  }

  function Wake(clients: seq<Client>, b: int): seq<Client> {
    seq(|clients|, c requires 0 <= c < |clients| =>
      if clients[c].Queued? && clients[c].b == b then Seeking(clients[c].dev, clients[c].sector) else clients[c])
  }

  // bget's two scans, under the cache lock.
  function Got(s: State, c: nat, b: int, buf: Buf): State
    requires c < |s.clients| && 0 <= b < |s.bufs|
  {
    var cl := if buf.valid then Holding(b, false) else Pending(b);
    s.(bufs := s.bufs[b := buf], clients := s.clients[c := cl], owner := s.owner[b := c])
  }

  function ScanFor(s: State, c: nat): State
    requires c < |s.clients| && s.clients[c].Seeking? && |s.bufs| == NBUF
  {
    var cl := s.clients[c];
    var b := FirstHolding(s.order, s.bufs, cl.dev, cl.sector);
    if 0 <= b < NBUF then
      if !s.bufs[b].busy then Got(s, c, b, s.bufs[b].(busy := true))
      else s.(clients := s.clients[c := Queued(cl.dev, cl.sector, b)])
    else
      var v := LastFree(s.order, s.bufs);
      if 0 <= v < NBUF then Got(s, c, v, s.bufs[v].(dev := cl.dev, sector := cl.sector, busy := true, valid := false,
                                                    dirty := false))
      else s
  }

  // Where bget panics: no buffer holds the sector and none is free.
  predicate NoBuffers(s: State, c: nat)
    requires c < |s.clients| && s.clients[c].Seeking?
  {
    && !(0 <= FirstHolding(s.order, s.bufs, s.clients[c].dev, s.clients[c].sector) < NBUF)
    && !(0 <= LastFree(s.order, s.bufs) < NBUF)
  }

  // iderw up to its wait: the request goes to the end of the queue, and to the disk if it is alone.
  function Enqueue(s: State, c: nat, b: int): State
    requires c < |s.clients|
  {
    var queue := s.queue + [b];
    s.(queue := queue, active := if s.queue == [] then Command(s.bufs, queue) else s.active,
       clients := s.clients[c := Waiting(b)])
  }

  // ideintr: the first request is done, the next one goes to the disk. After a failure no data has moved.
  function Complete(s: State, failed: bool): State
    requires s.queue != [] && 0 <= s.queue[0] < |s.bufs| && s.active.Request?
  {
    var b := s.queue[0];
    var buf := s.bufs[b];
    var disk := if s.active.write && !failed then s.disk[Key(s.active.dev, s.active.sector) := s.active.data]
        else s.disk;
    var data := if buf.dirty || failed then buf.data else Sector(s.disk, s.active.dev, s.active.sector);
    var bufs := s.bufs[b := buf.(data := data, valid := true, dirty := false)];
    s.(bufs := bufs, queue := s.queue[1..], active := Command(bufs, s.queue[1..]), disk := disk,
       clients := Wake(s.clients, b))
  }

  predicate Enabled(s: State, step: Step) {
    match step
    case Interrupt(failed) => s.queue != [] && 0 <= s.queue[0] < |s.bufs| && s.active.Request?
    case Seek(c, dev, sector) => c < |s.clients| && s.clients[c].Free? && dev != -1
    case Scan(c) => c < |s.clients| && s.clients[c].Seeking? && |s.bufs| == NBUF && !NoBuffers(s, c)
    case Start(c) => c < |s.clients| && s.clients[c].Pending?
    case Resume(c) => c < |s.clients| && s.clients[c].Waiting? && 0 <= s.clients[c].b < |s.bufs|
        && InSync(s.bufs[s.clients[c].b])
    case Edit(c, data) => c < |s.clients| && s.clients[c].Holding? && 0 <= s.clients[c].b < |s.bufs|
    case Write(c) => c < |s.clients| && s.clients[c].Holding? && 0 <= s.clients[c].b < |s.bufs|
    case Release(c) => c < |s.clients| && s.clients[c].Holding? && 0 <= s.clients[c].b < |s.bufs|
  }

  function Apply(s: State, step: Step): State
    requires Enabled(s, step)
  {
    match step
    case Interrupt(failed) => Complete(s, failed)
    case Seek(c, dev, sector) => s.(clients := s.clients[c := Seeking(dev, sector)])
    case Scan(c) => ScanFor(s, c)
    case Start(c) => Enqueue(s, c, s.clients[c].b)
    case Resume(c) => s.(clients := s.clients[c := Holding(s.clients[c].b, false)])
    case Edit(c, data) =>
      var b := s.clients[c].b;
      s.(bufs := s.bufs[b := s.bufs[b].(data := data)], clients := s.clients[c := Holding(b, true)])
    case Write(c) =>
      var b := s.clients[c].b;
      s.(bufs := s.bufs[b := s.bufs[b].(dirty := true)], clients := s.clients[c := Pending(b)])
    case Release(c) =>
      var b := s.clients[c].b;
      s.(bufs := s.bufs[b := s.bufs[b].(busy := false)], order := [b] + Without(s.order, b),
         clients := Wake(s.clients[c := Free], b), owner := s.owner - {b})
  }

  ghost predicate Listed(order: seq<int>) {
    Distinct(order) && forall b | 0 <= b < NBUF :: b in order
  }

  ghost predicate Apart(b: Buf, b': Buf) {
    b.dev == -1 || b'.dev == -1 || Key(b.dev, b.sector) != Key(b'.dev, b'.sector)
  }

  // No two buffers hold the same sector of the disk.
  ghost predicate Unique(bufs: seq<Buf>) {
    forall i, j | 0 <= i < j < |bufs| :: Apart(bufs[i], bufs[j])
  }

  ghost predicate Idle(disk: Disk, buf: Buf) {
    !buf.dirty && (buf.dev != -1 ==> buf.valid && buf.data == Sector(disk, buf.dev, buf.sector))
  }

  // What the client using the buffer may rely on.
  ghost predicate InUse(s: State, b: int, buf: Buf, cl: Client) {
    && buf.dev != -1 && Uses(cl, b)
    && (cl.Holding? ==> InSync(buf) && b !in s.queue
                        && (!cl.edited ==> buf.data == Sector(s.disk, buf.dev, buf.sector)))
    && (cl.Pending? ==> !InSync(buf) && b !in s.queue)
    && (cl.Waiting? ==> if b in s.queue then !InSync(buf)
                        else InSync(buf) && buf.data == Sector(s.disk, buf.dev, buf.sector))
  }

  // A buffer in use has one user; any other is clean and, if it holds a sector, equal to it on disk.
  ghost predicate BufOk(s: State, b: int)
    requires 0 <= b < |s.bufs|
  {
    && (s.bufs[b].busy <==> b in s.owner)
    && (b in s.owner ==> s.owner[b] < |s.clients| && InUse(s, b, s.bufs[b], s.clients[s.owner[b]]))
    && (b !in s.owner ==> Idle(s.disk, s.bufs[b]) && b !in s.queue)
  }

  ghost predicate ClientOk(s: State, c: int)
    requires 0 <= c < |s.clients|
  {
    var cl := s.clients[c];
    && (cl.Pending? || cl.Waiting? || cl.Holding? ==> 0 <= cl.b < |s.bufs| && cl.b in s.owner && s.owner[cl.b] == c)
    && (cl.Seeking? || cl.Queued? ==> cl.dev != -1)
    && (cl.Queued? ==> 0 <= cl.b < |s.bufs| && s.bufs[cl.b].busy && s.bufs[cl.b].dev == cl.dev
                       && s.bufs[cl.b].sector == cl.sector)
  }

  ghost predicate Inv(s: State) {
    && |s.bufs| == NBUF && Listed(s.order) && Unique(s.bufs)
    && (forall b | 0 <= b < NBUF :: BufOk(s, b))
    && (forall c | 0 <= c < |s.clients| :: ClientOk(s, c))
    && Distinct(s.queue) && s.active == Command(s.bufs, s.queue)
    && (forall k | 0 <= k < |s.queue| :: s.queue[k] in s.owner && s.owner[s.queue[k]] < |s.clients|
                                         && s.clients[s.owner[s.queue[k]]].Waiting?)
  }

  // The buffer equals its sector of the disk.
  ghost predicate Equal(s: State, b: int) {
    0 <= b < |s.bufs| && s.bufs[b].data == Sector(s.disk, s.bufs[b].dev, s.bufs[b].sector)
  }

  // The buffer bget would recycle for the client, or NIL if it finds the sector or nothing free.
  function Victim(s: State, c: nat): int
    requires c < |s.clients| && s.clients[c].Seeking?
  {
    if 0 <= FirstHolding(s.order, s.bufs, s.clients[c].dev, s.clients[c].sector) < NBUF then NIL
        else LastFree(s.order, s.bufs)
  }

  /** What the cache leaves to its callers and to the disk: a recycled buffer is not for a sector that
      another buffer holds under other numbers, a released buffer is as on disk, and a transfer that fails
      had nothing to move. */
  ghost predicate Careful(s: State, step: Step)
    requires Enabled(s, step)
  {
    match step
    case Scan(c) =>
      var v := Victim(s, c);
      forall x | 0 <= x < |s.bufs| && 0 <= v < NBUF && x != v ::
        s.bufs[x].dev == -1 || Key(s.bufs[x].dev, s.bufs[x].sector) != Key(s.clients[c].dev, s.clients[c].sector)
    case Release(c) => Equal(s, s.clients[c].b)
    case Interrupt(failed) => failed ==> Equal(s, s.queue[0])
    case _ => true
  }

  // A client moving on without a buffer changing hands.
  lemma SeekKeeps(s: State, c: nat, cl: Client)
    requires Inv(s) && c < |s.clients| && (s.clients[c].Free? || s.clients[c].Seeking?)
    requires (cl.Seeking? && cl.dev != -1) || (cl.Queued? && ClientOk(s.(clients := s.clients[c := cl]), c))
    ensures Inv(s.(clients := s.clients[c := cl]))
  {
    var s' := s.(clients := s.clients[c := cl]);
    forall b | 0 <= b < NBUF ensures BufOk(s', b) {
      assert BufOk(s, b);
    }
    forall d | 0 <= d < |s'.clients| ensures ClientOk(s', d) {
      assert ClientOk(s, d);
    }
  }

  // bget hands out buffer b, found or recycled.
  lemma GotKeeps(s: State, c: nat, b: int, buf: Buf)
    requires Inv(s) && c < |s.clients| && s.clients[c].Seeking? && 0 <= b < NBUF && !s.bufs[b].busy
    requires buf.busy && !buf.dirty && buf.dev == s.clients[c].dev && buf.sector == s.clients[c].sector
    requires buf.valid ==> buf == s.bufs[b].(busy := true)
    ensures Inv(Got(s, c, b, buf)) <==> Unique(s.bufs[b := buf])
  {
    hide Key;
    if !Unique(s.bufs[b := buf]) {
      return;
    }
    var s' := Got(s, c, b, buf);
    assert ClientOk(s, c) && BufOk(s, b);
    forall x | 0 <= x < NBUF ensures BufOk(s', x) {
      assert BufOk(s, x);
    }
    forall d | 0 <= d < |s'.clients| ensures ClientOk(s', d) {
      assert ClientOk(s, d);
    }
  }

  // Replacing one buffer keeps the others apart.
  lemma UniqueUpdate(bufs: seq<Buf>, v: int, buf: Buf)
    requires Unique(bufs) && 0 <= v < |bufs| && buf.dev != -1
    ensures Unique(bufs[v := buf]) <==> forall x | 0 <= x < |bufs| && x != v :: Apart(bufs[x], buf)
  {
    hide Key;
    var bufs' := bufs[v := buf];
    if Unique(bufs') {
      forall x | 0 <= x < |bufs| && x != v ensures Apart(bufs[x], buf) {
        assert if x < v then Apart(bufs'[x], bufs'[v]) else Apart(bufs'[v], bufs'[x]);
      }
    }
  }

  /** bget panics exactly when every buffer is busy and none holds the sector. */
  lemma PanicsIff(s: State, c: nat)
    requires Inv(s) && c < |s.clients| && s.clients[c].Seeking?
    ensures NoBuffers(s, c) <==>
            forall b | 0 <= b < NBUF ::
              s.bufs[b].busy && !(s.bufs[b].dev == s.clients[c].dev && s.bufs[b].sector == s.clients[c].sector)
  {
    FirstHoldingIs(s.order, s.bufs, s.clients[c].dev, s.clients[c].sector);
    LastFreeIs(s.order, s.bufs);
  }

  lemma ScanKeepsIff(s: State, c: nat)
    requires Inv(s) && Enabled(s, Scan(c))
    ensures Inv(ScanFor(s, c)) <==> Careful(s, Scan(c))
  {
    hide Key;
    var cl := s.clients[c];
    FirstHoldingIs(s.order, s.bufs, cl.dev, cl.sector);
    LastFreeIs(s.order, s.bufs);
    assert ClientOk(s, c);
    var b := FirstHolding(s.order, s.bufs, cl.dev, cl.sector);
    var v := Victim(s, c);
    if 0 <= b < NBUF {
      assert BufOk(s, b);
      if s.bufs[b].busy {
        SeekKeeps(s, c, Queued(cl.dev, cl.sector, b));
      } else {
        var buf := s.bufs[b].(busy := true);
        GotKeeps(s, c, b, buf);
        assert Unique(s.bufs[b := buf]);
      }
    } else if 0 <= v < NBUF {
      var buf := s.bufs[v].(dev := cl.dev, sector := cl.sector, busy := true, valid := false, dirty := false);
      GotKeeps(s, c, v, buf);
      UniqueUpdate(s.bufs, v, buf);
      assert forall x | 0 <= x < |s.bufs| :: Apart(s.bufs[x], buf) <==>
          (s.bufs[x].dev == -1 || Key(s.bufs[x].dev, s.bufs[x].sector) != Key(cl.dev, cl.sector));
    }
  }

  // iderw finds its buffer busy and with something to do, and puts it on the queue once.
  lemma StartKeeps(s: State, c: nat)
    requires Inv(s) && c < |s.clients| && s.clients[c].Pending?
    ensures 0 <= s.clients[c].b < NBUF && s.bufs[s.clients[c].b].busy && !InSync(s.bufs[s.clients[c].b])
            && s.clients[c].b !in s.queue
    ensures Inv(Enqueue(s, c, s.clients[c].b))
  {
    var b := s.clients[c].b;
    var s' := Enqueue(s, c, b);
    assert ClientOk(s, c) && BufOk(s, b);
    forall x | 0 <= x < NBUF ensures BufOk(s', x) {
      assert BufOk(s, x);
    }
    forall d | 0 <= d < |s'.clients| ensures ClientOk(s', d) {
      assert ClientOk(s, d);
    }
  }

  // The user of a buffer off the queue changes it or its own state.
  lemma UserKeeps(s: State, c: nat, b: int, buf: Buf, cl: Client)
    requires Inv(s) && c < |s.clients| && Uses(s.clients[c], b) && b !in s.queue && 0 <= b < NBUF
    requires buf.busy && buf.dev == s.bufs[b].dev && buf.sector == s.bufs[b].sector
    requires !cl.Queued? && !cl.Seeking? && InUse(s, b, buf, cl)
    ensures Inv(s.(bufs := s.bufs[b := buf], clients := s.clients[c := cl]))
  {
    var s' := s.(bufs := s.bufs[b := buf], clients := s.clients[c := cl]);
    assert ClientOk(s, c);
    forall k | 0 <= k < |s.queue| ensures s.owner[s.queue[k]] != c {
      assert BufOk(s, s.queue[k]);
    }
    forall x | 0 <= x < NBUF ensures BufOk(s', x) {
      assert BufOk(s, x);
    }
    forall d | 0 <= d < |s'.clients| ensures ClientOk(s', d) {
      assert ClientOk(s, d);
    }
  }

  lemma MovedDistinct(order: seq<int>, p: nat, order': seq<int>)
    requires Distinct(order) && p < |order| && order' == [order[p]] + (order[..p] + order[p + 1..])
    ensures Distinct(order')
  {
  }

  lemma StillThere(order: seq<int>, p: nat, x: int)
    requires p < |order| && x in order
    ensures x in [order[p]] + (order[..p] + order[p + 1..])
  {
  }

  lemma WithoutKeeps(order: seq<int>, b: int)
    requires Listed(order) && 0 <= b < NBUF
    ensures Listed([b] + Without(order, b))
  {
    assert b in order;
    var p :| 0 <= p < |order| && order[p] == b;
    WithoutAt(order, p);
    MovedDistinct(order, p, [b] + Without(order, b));
    forall x | 0 <= x < NBUF ensures x in [b] + Without(order, b) {
      assert x in order;
      StillThere(order, p, x);
    }
  }

  /** brelse wakes whoever sleeps on the buffer, and keeps the invariant if and only if the buffer is as on disk. */
  lemma ReleaseKeepsIff(s: State, c: nat)
    requires Inv(s) && Enabled(s, Release(c))
    ensures Inv(Apply(s, Release(c))) <==> Equal(s, s.clients[c].b)
    ensures forall d | 0 <= d < |s.clients| && s.clients[d].Queued? && s.clients[d].b == s.clients[c].b ::
              Apply(s, Release(c)).clients[d] == Seeking(s.clients[d].dev, s.clients[d].sector)
  {
    hide Key;
    var b := s.clients[c].b;
    var s' := Apply(s, Release(c));
    assert ClientOk(s, c) && BufOk(s, b);
    if !Equal(s, b) {
      assert !BufOk(s', b);
      return;
    }
    WithoutKeeps(s.order, b);
    forall x | 0 <= x < NBUF ensures BufOk(s', x) {
      assert BufOk(s, x);
    }
    forall d | 0 <= d < |s'.clients| ensures ClientOk(s', d) {
      assert ClientOk(s, d);
    }
  }

  lemma InterruptBuf(s: State, failed: bool, x: int)
    requires Inv(s) && s.queue != [] && 0 <= x < NBUF && Enabled(s, Interrupt(failed))
             && (failed ==> Equal(s, s.queue[0]))
    ensures BufOk(Complete(s, failed), x)
  {
    hide Key;
    var b := s.queue[0];
    var s' := Complete(s, failed);
    assert BufOk(s, b) && BufOk(s, x);
    assert x in s'.queue <==> x in s.queue && x != b;
    assert x == b || Apart(s.bufs[if x < b then x else b], s.bufs[if x < b then b else x]);
  }

  /** The interrupt touches only the first request's buffer and those asleep on it, and keeps the invariant if
      and only if the transfer was done or had nothing to move. */
  lemma InterruptKeepsIff(s: State, failed: bool)
    requires Inv(s) && s.queue != []
    ensures Enabled(s, Interrupt(failed))
    ensures Inv(Complete(s, failed)) <==> (failed ==> Equal(s, s.queue[0]))
    ensures var s' := Complete(s, failed);
            && s'.order == s.order && s'.owner == s.owner && s'.queue == s.queue[1..]
            && (forall x | 0 <= x < NBUF && x != s.queue[0] :: s'.bufs[x] == s.bufs[x])
            && (forall d | 0 <= d < |s.clients| && !(s.clients[d].Queued? && s.clients[d].b == s.queue[0]) ::
                s'.clients[d] == s.clients[d])
  {
    hide Key;
    var b := s.queue[0];
    assert BufOk(s, b);
    var s' := Complete(s, failed);
    assert forall x | x in s'.queue :: x in s.queue && x != b;
    if failed && !Equal(s, b) {
      assert !BufOk(s', b);
      return;
    }
    forall x | 0 <= x < NBUF ensures BufOk(s', x) {
      InterruptBuf(s, failed, x);
    }
    forall d | 0 <= d < |s'.clients| ensures ClientOk(s', d) {
      InterruptClient(s, failed, d);
    }
  }

  lemma InterruptClient(s: State, failed: bool, d: int)
    requires Inv(s) && s.queue != [] && Enabled(s, Interrupt(failed)) && 0 <= d < |s.clients|
    requires failed ==> Equal(s, s.queue[0])
    ensures ClientOk(Complete(s, failed), d)
  {
    hide Key;
    assert ClientOk(s, d) && BufOk(s, s.queue[0]);
  }

  /** Every step of every client and of the disk keeps the invariant, if and only if it is careful. */
  lemma StepKeepsIff(s: State, step: Step)
    requires Inv(s) && Enabled(s, step)
    ensures Inv(Apply(s, step)) <==> Careful(s, step)
    ensures |Apply(s, step).clients| == |s.clients|
  {
    hide Key;
    match step
    case Interrupt(failed) => InterruptKeepsIff(s, failed);
    case Seek(c, dev, sector) => SeekKeeps(s, c, Seeking(dev, sector));
    case Scan(c) => ScanKeepsIff(s, c);
    case Start(c) => StartKeeps(s, c);
    case Release(c) => ReleaseKeepsIff(s, c);
    case Resume(c) =>
      assert ClientOk(s, c) && BufOk(s, s.clients[c].b);
      UserKeeps(s, c, s.clients[c].b, s.bufs[s.clients[c].b], Holding(s.clients[c].b, false));
      assert s.bufs[s.clients[c].b := s.bufs[s.clients[c].b]] == s.bufs;
    case Edit(c, data) =>
      assert ClientOk(s, c) && BufOk(s, s.clients[c].b);
      UserKeeps(s, c, s.clients[c].b, s.bufs[s.clients[c].b].(data := data), Holding(s.clients[c].b, true));
    case Write(c) =>
      assert ClientOk(s, c) && BufOk(s, s.clients[c].b);
      UserKeeps(s, c, s.clients[c].b, s.bufs[s.clients[c].b].(dirty := true), Pending(s.clients[c].b));
  }

  // A new cache in front of a disk, and the runs from it.
  function Initial(disk: Disk, n: nat): State {
    State(seq(NBUF, _ => Buf(-1, 0, false, false, false, [])), AllBuffers(), [], NoRequest, disk, seq(n, _ => Free),
          map[])
  }

  ghost predicate Reaches(s: State, steps: seq<Step>, s': State)
    decreases |steps|
  {
    if steps == [] then s == s' else Enabled(s, steps[0]) && Reaches(Apply(s, steps[0]), steps[1..], s')
  }

  // A run of careful steps.
  ghost predicate Carefully(s: State, steps: seq<Step>)
    decreases |steps|
  {
    steps == [] || (Enabled(s, steps[0]) && Careful(s, steps[0]) && Carefully(Apply(s, steps[0]), steps[1..]))
  }

  lemma {:induction false} RunKeeps(s: State, steps: seq<Step>, s': State)
    requires Inv(s) && Reaches(s, steps, s') && Carefully(s, steps)
    ensures Inv(s') && |s'.clients| == |s.clients|
    decreases |steps|
  {
    if steps != [] {
      StepKeepsIff(s, steps[0]);
      RunKeeps(Apply(s, steps[0]), steps[1..], s');
    }
  }

  lemma InitialInv(disk: Disk, n: nat)
    ensures Inv(Initial(disk, n))
  {
  }

  ghost predicate Reachable(s: State) {
    exists disk, n, steps :: Reaches(Initial(disk, n), steps, s) && Carefully(Initial(disk, n), steps)
  }

  lemma ReachableInv(s: State)
    requires Reachable(s)
    ensures Inv(s)
  {
    var disk, n, steps :| Reaches(Initial(disk, n), steps, s) && Carefully(Initial(disk, n), steps);
    InitialInv(disk, n);
    RunKeeps(Initial(disk, n), steps, s);
  }

  /** In every reachable state no sector of the disk is in two buffers. */
  lemma OneBufferPerSector(s: State, i: int, j: int)
    requires Reachable(s) && 0 <= i < |s.bufs| && 0 <= j < |s.bufs| && s.bufs[i].dev != -1 && s.bufs[j].dev != -1
    requires Key(s.bufs[i].dev, s.bufs[i].sector) == Key(s.bufs[j].dev, s.bufs[j].sector)
    ensures i == j
  {
    ReachableInv(s);
  }

  /** A buffer has at most one user, and it has one exactly when it is busy. */
  lemma OneUserPerBuffer(s: State, b: int, c: int, d: int)
    requires Reachable(s) && 0 <= b < |s.bufs| && 0 <= c < |s.clients| && 0 <= d < |s.clients|
    ensures Uses(s.clients[c], b) && Uses(s.clients[d], b) ==> c == d
    ensures Uses(s.clients[c], b) ==> s.bufs[b].busy
    ensures s.bufs[b].busy ==> exists e :: 0 <= e < |s.clients| && Uses(s.clients[e], b)
  {
    ReachableInv(s);
    assert BufOk(s, b) && ClientOk(s, c) && ClientOk(s, d);
    assert s.bufs[b].busy ==> Uses(s.clients[s.owner[b]], b);
  }

  /** A buffer nobody uses is clean, not on the disk queue, and if it holds a sector it equals it, so
      recycling it loses nothing. */
  lemma IdleBufferEqualsDisk(s: State, b: int)
    requires Reachable(s) && 0 <= b < |s.bufs| && !s.bufs[b].busy
    ensures !s.bufs[b].dirty && b !in s.queue
    ensures s.bufs[b].dev != -1 ==> s.bufs[b].valid && s.bufs[b].data == Sector(s.disk, s.bufs[b].dev, s.bufs[b].sector)
  {
    ReachableInv(s);
    assert BufOk(s, b);
  }

  /** A client that has not edited its buffer sees what is on disk, whatever the others do. */
  lemma UserSeesDisk(s: State, c: int)
    requires Reachable(s) && 0 <= c < |s.clients| && s.clients[c].Holding? && !s.clients[c].edited
    ensures 0 <= s.clients[c].b < |s.bufs|
    ensures var buf := s.bufs[s.clients[c].b]; InSync(buf) && buf.data == Sector(s.disk, buf.dev, buf.sector)
  {
    ReachableInv(s);
    assert ClientOk(s, c) && BufOk(s, s.clients[c].b);
  }

  /** The disk queue holds distinct busy buffers that are out of step, the disk works on the first of
      them, and whoever waits in iderw is on the queue or done. */
  lemma QueueDistinct(s: State, j: int, k: int)
    requires Reachable(s) && 0 <= j < |s.queue| && 0 <= k < |s.queue|
    ensures 0 <= s.queue[k] < |s.bufs| && s.bufs[s.queue[k]].busy && !InSync(s.bufs[s.queue[k]])
    ensures s.queue[j] == s.queue[k] ==> j == k
    ensures s.active.Request? && s.active.b == s.queue[0]
  {
    ReachableInv(s);
    assert BufOk(s, s.queue[k]);
  }

  /** A client asleep in bget waits for a busy buffer that holds its sector; one waiting in iderw has its
      buffer on the queue or already in step. */
  lemma SleepersHaveCause(s: State, c: int)
    requires Reachable(s) && 0 <= c < |s.clients|
    ensures s.clients[c].Queued? ==> 0 <= s.clients[c].b < |s.bufs| && s.bufs[s.clients[c].b].busy
                                     && s.bufs[s.clients[c].b].dev == s.clients[c].dev
                                     && s.bufs[s.clients[c].b].sector == s.clients[c].sector
    ensures s.clients[c].Waiting? ==> 0 <= s.clients[c].b < |s.bufs|
                                      && (s.clients[c].b in s.queue || InSync(s.bufs[s.clients[c].b]))
  {
    ReachableInv(s);
    assert ClientOk(s, c);
    assert s.clients[c].Waiting? ==> BufOk(s, s.clients[c].b);
  }

  /** A transfer makes the first buffer of the queue equal to its sector and touches no other sector. */
  lemma TransferExact(s: State, dev: int, sector: int)
    requires Reachable(s) && s.queue != []
    ensures Enabled(s, Interrupt(false))
    ensures var b, s' := s.queue[0], Complete(s, false);
            && InSync(s'.bufs[b]) && Equal(s', b)
            && (s.bufs[b].dirty ==> s'.bufs[b].data == s.bufs[b].data)
            && (Key(dev, sector) != Key(s.bufs[b].dev, s.bufs[b].sector) || !s.bufs[b].dirty
                ==> Sector(s'.disk, dev, sector) == Sector(s.disk, dev, sector))
  {
    hide Key;
    ReachableInv(s);
    InterruptKeepsIff(s, false);
    assert BufOk(s, s.queue[0]);
  }

  // Everything in the cache and in the searches goes by numbers the controller takes whole.
  ghost predicate AllPlain(s: State) {
    && (forall b | 0 <= b < |s.bufs| && s.bufs[b].dev != -1 :: Plain(s.bufs[b].dev, s.bufs[b].sector))
    && (forall c | 0 <= c < |s.clients| && (s.clients[c].Seeking? || s.clients[c].Queued?) ::
        Plain(s.clients[c].dev, s.clients[c].sector))
  }

  // A client that writes what it has edited before it lets go, asks for plain numbers, and a disk without errors.
  ghost predicate Orderly(s: State, step: Step)
    requires Enabled(s, step)
  {
    match step
    case Seek(c, dev, sector) => Plain(dev, sector)
    case Release(c) => !s.clients[c].edited
    case Interrupt(failed) => !failed
    case _ => true
  }

  ghost predicate InOrder(s: State, steps: seq<Step>)
    decreases |steps|
  {
    steps == [] || (Enabled(s, steps[0]) && Orderly(s, steps[0]) && InOrder(Apply(s, steps[0]), steps[1..]))
  }

  lemma OrderlyStep(s: State, step: Step)
    requires Inv(s) && AllPlain(s) && Enabled(s, step) && Orderly(s, step)
    ensures Careful(s, step) && AllPlain(Apply(s, step))
  {
    match step
    case Scan(c) =>
      FirstHoldingIs(s.order, s.bufs, s.clients[c].dev, s.clients[c].sector);
    case Release(c) =>
      assert ClientOk(s, c) && BufOk(s, s.clients[c].b);
    case _ =>
  }

  /** Orderly clients and a disk without errors are all it takes: every such run is careful. */
  lemma {:induction false} OrderlyRun(s: State, steps: seq<Step>)
    requires Inv(s) && AllPlain(s) && InOrder(s, steps)
    ensures Carefully(s, steps)
    decreases |steps|
  {
    if steps != [] {
      OrderlyStep(s, steps[0]);
      StepKeepsIff(s, steps[0]);
      OrderlyRun(Apply(s, steps[0]), steps[1..]);
    }
  }

  // What a step puts on the disk queue and what it takes off.
  function Starts(s: State, step: Step): seq<int>
    requires Enabled(s, step)
  {
    if step.Start? then [s.clients[step.c].b] else []
  }

  function Completes(s: State, step: Step): seq<int>
    requires Enabled(s, step)
  {
    if step.Interrupt? then [s.queue[0]] else []
  }

  ghost function Started(s: State, steps: seq<Step>): seq<int>
    decreases |steps|
  {
    if steps == [] || !Enabled(s, steps[0]) then [] else Starts(s, steps[0]) + Started(Apply(s, steps[0]), steps[1..])
  }

  ghost function Completed(s: State, steps: seq<Step>): seq<int>
    decreases |steps|
  {
    if steps == [] || !Enabled(s, steps[0]) then []
        else Completes(s, steps[0]) + Completed(Apply(s, steps[0]), steps[1..])
  }

  lemma QueueStep(s: State, step: Step)
    requires Enabled(s, step)
    ensures s.queue + Starts(s, step) == Completes(s, step) + Apply(s, step).queue
  {
    match step
    case Scan(c) => hide FirstHolding, LastFree;
    case Interrupt(failed) => assert s.queue == [s.queue[0]] + s.queue[1..];
    case _ =>
  }

  /** Along every run, careful or not, what was on the queue and what was started since is what was completed
      followed by what is still on the queue: requests are served in the order they were made, none twice and
      none skipped. */
  lemma {:induction false} ServedInOrder(s: State, steps: seq<Step>, s': State)
    requires Reaches(s, steps, s')
    ensures s.queue + Started(s, steps) == Completed(s, steps) + s'.queue
    decreases |steps|
  {
    if steps != [] {
      hide Enabled, Apply, Starts, Completes;
      var s1, rest := Apply(s, steps[0]), steps[1..];
      QueueStep(s, steps[0]);
      ServedInOrder(s1, rest, s');
      Regroup(s.queue, Starts(s, steps[0]), Started(s1, rest), Completes(s, steps[0]), s1.queue, Completed(s1, rest),
              s'.queue);
    }
  }

  lemma Regroup(a: seq<int>, b: seq<int>, c: seq<int>, d: seq<int>, e: seq<int>, f: seq<int>, g: seq<int>)
    requires a + b == d + e && e + c == f + g
    ensures a + (b + c) == (d + f) + g
  {
    assert a + (b + c) == (a + b) + c;
    assert (d + e) + c == d + (e + c);
    assert d + (f + g) == (d + f) + g;
  }

  predicate By(step: Step, c: nat) {
    !step.Interrupt? && step.c == c
  }

  ghost predicate NoneBy(steps: seq<Step>, c: nat) {
    forall k | 0 <= k < |steps| :: !By(steps[k], c)
  }

  function Interrupts(steps: seq<Step>): nat {
    if steps == [] then 0 else (if steps[0].Interrupt? then 1 else 0) + Interrupts(steps[1..])
  }

  // Nobody else moves a client that waits for its transfer.
  lemma WaiterKept(s: State, step: Step, c: nat)
    requires Inv(s) && Enabled(s, step) && Careful(s, step) && !By(step, c) && c < |s.clients| && s.clients[c].Waiting?
    ensures Apply(s, step).clients[c] == s.clients[c]
    ensures s.clients[c].b !in s.queue ==> s.clients[c].b !in Apply(s, step).queue
    ensures step.Interrupt? || s.queue <= Apply(s, step).queue
  {
    hide Key;
    assert ClientOk(s, c);
    if step.Start? {
      assert ClientOk(s, step.c);
    }
  }

  /** The client whose buffer is number k on the disk queue can go on exactly when k + 1 interrupts have come,
      whatever the other clients do. */
  lemma {:induction false} ResumesAfter(s: State, steps: seq<Step>, s': State, c: nat, k: nat)
    requires Inv(s) && Reaches(s, steps, s') && Carefully(s, steps) && NoneBy(steps, c)
    requires c < |s.clients| && k < |s.queue| && s.clients[c] == Waiting(s.queue[k])
    ensures Enabled(s', Resume(c)) <==> Interrupts(steps) >= k + 1
    decreases |steps|
  {
    hide Key;
    assert ClientOk(s, c) && BufOk(s, s.queue[k]);
    if steps != [] {
      var step, s1 := steps[0], Apply(s, steps[0]);
      assert !By(steps[0], c) && NoneBy(steps[1..], c);
      WaiterKept(s, step, c);
      StepKeepsIff(s, step);
      if step.Interrupt? && k == 0 {
        DoneStays(s1, steps[1..], s', c);
      } else {
        ResumesAfter(s1, steps[1..], s', c, if step.Interrupt? then k - 1 else k);
      }
    }
  }

  lemma {:induction false} DoneStays(s: State, steps: seq<Step>, s': State, c: nat)
    requires Inv(s) && Reaches(s, steps, s') && Carefully(s, steps) && NoneBy(steps, c)
    requires c < |s.clients| && s.clients[c].Waiting? && s.clients[c].b !in s.queue
    ensures Enabled(s', Resume(c))
    decreases |steps|
  {
    hide Key;
    assert ClientOk(s, c) && BufOk(s, s.clients[c].b);
    if steps != [] {
      assert !By(steps[0], c) && NoneBy(steps[1..], c);
      WaiterKept(s, steps[0], c);
      StepKeepsIff(s, steps[0]);
      DoneStays(Apply(s, steps[0]), steps[1..], s', c);
    }
  }

  // The client is after the sector and has not got it.
  predicate Wants(cl: Client, dev: int, sector: int) {
    (cl.Seeking? || cl.Queued?) && cl.dev == dev && cl.sector == sector
  }

  // After a step c still has the buffer and d still wants the sector; if c has not moved, neither have the two.
  ghost predicate StillHeld(s: State, s': State, step: Step, c: nat, b: int, d: nat)
    requires c < |s.clients| && d < |s.clients| && 0 <= b < |s.bufs|
  {
    && |s'.clients| == |s.clients| && |s'.bufs| == |s.bufs|
    && Uses(s'.clients[c], b) && s'.bufs[b].dev == s.bufs[b].dev && s'.bufs[b].sector == s.bufs[b].sector
    && Wants(s'.clients[d], s.bufs[b].dev, s.bufs[b].sector)
    && (!By(step, c) && s.clients[c].Holding? ==> s'.clients[c] == s.clients[c])
    && (!By(step, c) && s.clients[c].Holding? && s.clients[d].Queued? ==> s'.clients[d] == s.clients[d])
  }

  lemma HeldScan(s: State, e: nat, c: nat, b: int, d: nat)
    requires Inv(s) && Enabled(s, Scan(e)) && c < |s.clients| && d < |s.clients| && 0 <= b < NBUF
    requires Uses(s.clients[c], b) && Wants(s.clients[d], s.bufs[b].dev, s.bufs[b].sector)
    ensures StillHeld(s, ScanFor(s, e), Scan(e), c, b, d)
  {
    hide Key;
    assert ClientOk(s, c) && BufOk(s, b) && ClientOk(s, d);
    FirstHoldingIs(s.order, s.bufs, s.clients[e].dev, s.clients[e].sector);
    LastFreeIs(s.order, s.bufs);
    hide Inv, ClientOk, BufOk;
  }

  lemma HeldStep(s: State, step: Step, c: nat, b: int, d: nat)
    requires Inv(s) && Enabled(s, step) && Careful(s, step) && step != Release(c)
    requires c < |s.clients| && d < |s.clients| && 0 <= b < NBUF && Uses(s.clients[c], b)
    requires Wants(s.clients[d], s.bufs[b].dev, s.bufs[b].sector)
    ensures StillHeld(s, Apply(s, step), step, c, b, d)
  {
    hide Key, ScanFor;
    assert ClientOk(s, c) && BufOk(s, b) && ClientOk(s, d);
    match step
    case Scan(e) => HeldScan(s, e, c, b, d);
    case Interrupt(failed) =>
      assert BufOk(s, s.queue[0]);
    case Release(e) =>
      assert ClientOk(s, e);
    case _ =>
      assert step.c < |s.clients| && ClientOk(s, step.c);
  }

  /** A buffer that its user never releases: whoever wants its sector never gets it, in any run, and if the
      user is gone for good whoever sleeps on it sleeps for ever. */
  lemma {:induction false} NeverReleased(s: State, steps: seq<Step>, s': State, c: nat, b: int, d: nat)
    requires Inv(s) && Reaches(s, steps, s') && Carefully(s, steps) && Release(c) !in steps
    requires c < |s.clients| && d < |s.clients| && 0 <= b < NBUF && Uses(s.clients[c], b)
    requires Wants(s.clients[d], s.bufs[b].dev, s.bufs[b].sector)
    ensures d < |s'.clients| && Wants(s'.clients[d], s.bufs[b].dev, s.bufs[b].sector)
    ensures s.clients[c].Holding? && s.clients[d].Queued? && NoneBy(steps, c) ==> s'.clients[d] == s.clients[d]
    decreases |steps|
  {
    hide Key;
    if steps != [] {
      var s1 := Apply(s, steps[0]);
      HeldStep(s, steps[0], c, b, d);
      StepKeepsIff(s, steps[0]);
      assert NoneBy(steps, c) ==> !By(steps[0], c) && NoneBy(steps[1..], c);
      NeverReleased(s1, steps[1..], s', c, b, d);
    }
  }

  lemma {:induction false} Joined(s: State, xs: seq<Step>, s1: State, ys: seq<Step>, s2: State)
    requires Reaches(s, xs, s1) && Reaches(s1, ys, s2)
    ensures Reaches(s, xs + ys, s2)
    decreases |xs|
  {
    hide Enabled, Apply;
    if xs == [] {
      assert xs + ys == ys;
    } else {
      Joined(Apply(s, xs[0]), xs[1..], s1, ys, s2);
      assert (xs + ys)[1..] == xs[1..] + ys;
    }
  }

  lemma First(s: State, step: Step, steps: seq<Step>, s': State)
    requires Enabled(s, step) && Reaches(Apply(s, step), steps, s')
    ensures Reaches(s, [step] + steps, s')
  {
    hide Enabled, Apply;
    assert ([step] + steps)[1..] == steps;
  }

  // Nothing in flight and nobody asleep.
  ghost predicate Quiet(s: State) {
    |s.bufs| == NBUF && Listed(s.order) && s.queue == [] && s.active == NoRequest && forall d
             | 0 <= d < |s.clients| :: !s.clients[d].Queued?
  }

  // bread of a sector that no buffer holds, with nobody in between.
  lemma Fetch(s: State, c: nat, dev: int, sector: int, w: int) returns (v: int, steps: seq<Step>)
    requires Quiet(s) && c < |s.clients| && s.clients[c].Free? && dev != -1 && 0 <= w < NBUF && !s.bufs[w].busy
    requires forall x | 0 <= x < NBUF :: s.bufs[x].dev != dev || s.bufs[x].sector != sector
    ensures 0 <= v < NBUF && !s.bufs[v].busy
    ensures Reaches(s, steps, s.(bufs := s.bufs[v := Buf(dev, sector, true, true, false, Sector(s.disk, dev, sector))],
                                 clients := s.clients[c := Holding(v, false)], owner := s.owner[v := c]))
  {
    hide Key;
    v := LastFree(s.order, s.bufs);
    LastFreeIs(s.order, s.bufs);
    FirstHoldingIs(s.order, s.bufs, dev, sector);
    var s1 := Apply(s, Seek(c, dev, sector));
    var s2 := Apply(s1, Scan(c));
    var s3 := Apply(s2, Start(c));
    var s4 := Apply(s3, Interrupt(false));
    var s5 := Apply(s4, Resume(c));
    assert s4.clients == s3.clients && s3.queue[1..] == [];
    assert s5 == s.(bufs := s5.bufs, clients := s5.clients, owner := s5.owner);
    assert s5.bufs == s.bufs[v := Buf(dev, sector, true, true, false, Sector(s.disk, dev, sector))];
    assert s5.clients == s.clients[c := Holding(v, false)];
    First(s4, Resume(c), [], s5);
    First(s3, Interrupt(false), [Resume(c)], s5);
    First(s2, Start(c), [Interrupt(false)] + [Resume(c)], s5);
    First(s1, Scan(c), [Start(c)] + ([Interrupt(false)] + [Resume(c)]), s5);
    steps := [Scan(c)] + ([Start(c)] + ([Interrupt(false)] + [Resume(c)]));
    First(s, Seek(c, dev, sector), steps, s5);
    steps := [Seek(c, dev, sector)] + steps;
  }

  // bwrite of new data and the end of its transfer, with nobody in between.
  lemma Overwrite(s: State, c: nat, data: seq<int>) returns (steps: seq<Step>, s': State)
    requires Quiet(s) && c < |s.clients| && s.clients[c].Holding? && 0 <= s.clients[c].b < NBUF
    ensures Reaches(s, steps, s')
    ensures |s'.clients| == |s.clients| && forall d | 0 <= d < |s.clients| && d != c :: s'.clients[d] == s.clients[d]
    ensures |s'.bufs| == NBUF && forall x | 0 <= x < NBUF && x != s.clients[c].b :: s'.bufs[x] == s.bufs[x]
    ensures s'.disk == s.disk[Key(s.bufs[s.clients[c].b].dev, s.bufs[s.clients[c].b].sector) := data]
  {
    hide Key;
    var s1 := Apply(s, Edit(c, data));
    var s2 := Apply(s1, Write(c));
    var s3 := Apply(s2, Start(c));
    s' := Apply(s3, Interrupt(false));
    First(s3, Interrupt(false), [], s');
    First(s2, Start(c), [Interrupt(false)], s');
    First(s1, Write(c), [Start(c)] + [Interrupt(false)], s');
    steps := [Write(c)] + ([Start(c)] + [Interrupt(false)]);
    First(s, Edit(c, data), steps, s');
    steps := [Edit(c, data)] + steps;
  }

  /** Two numbers for one sector: sector 5 read under its own number and written under that number with bit 28
      set goes through two buffers, and the reader no longer sees what is on disk. */
  lemma TwoNumbersOneSector() returns (steps: seq<Step>, s: State)
    ensures Reaches(Initial(map[], 2), steps, s)
    ensures |s.clients| == 2 && s.clients[0].Holding? && !s.clients[0].edited && !Equal(s, s.clients[0].b)
  {
    hide Reaches;
    var s0 := Initial(map[], 2);
    var v, first := Fetch(s0, 0, 0, 5, 0);
    var s1 := s0.(bufs := s0.bufs[v := Buf(0, 5, true, true, false, [])],
                  clients := s0.clients[0 := Holding(v, false)], owner := s0.owner[v := 0]);
    var other := 5 + 0x1000_0000;
    var w, second := Fetch(s1, 1, 0, other, if v == 0 then 1 else 0);
    var s2 := s1.(bufs := s1.bufs[w := Buf(0, other, true, true, false, [])],
                  clients := s1.clients[1 := Holding(w, false)], owner := s1.owner[w := 1]);
    var third;
    third, s := Overwrite(s2, 1, [1]);
    steps := first + second + third;
    assert Reaches(s0, steps, s) by {
      hide Initial, Key;
      Joined(s0, first, s1, second, s2);
      Joined(s0, first + second, s2, third, s);
    }
    assert s.clients[0] == s2.clients[0] == Holding(v, false) && s.bufs[v] == s2.bufs[v];
    assert Key(0, 5) == Key(0, other);
  }

  // The states of a run, before each of its steps and at the end.
  ghost predicate Trace(states: seq<State>, steps: seq<Step>) {
    && |states| == |steps| + 1
    && forall k | 0 <= k < |steps| :: Enabled(states[k], steps[k]) && states[k + 1] == Apply(states[k], steps[k])
  }

  lemma {:induction false} TraceOf(s: State, steps: seq<Step>, s': State) returns (states: seq<State>)
    requires Reaches(s, steps, s')
    ensures Trace(states, steps) && states[0] == s && states[|steps|] == s'
    decreases |steps|
  {
    states := [s];
    if steps != [] {
      var rest := TraceOf(Apply(s, steps[0]), steps[1..], s');
      states := [s] + rest;
    }
  }

  // Step k of the run releases buffer b.
  ghost predicate Releases(states: seq<State>, steps: seq<Step>, k: int, b: int)
    requires Trace(states, steps)
  {
    0 <= k < |steps| && steps[k].Release? && states[k].clients[steps[k].c].b == b
  }

  // The last of the first n steps that releases buffer b, or -1.
  ghost function LastRelease(states: seq<State>, steps: seq<Step>, n: nat, b: int): (k: int)
    requires Trace(states, steps) && n <= |steps|
    ensures -1 <= k < n && (k != -1 ==> Releases(states, steps, k, b))
    ensures forall j | k < j < n :: !Releases(states, steps, j, b)
  {
    if n == 0 then -1 else if Releases(states, steps, n - 1, b) then n - 1 else LastRelease(states, steps, n - 1, b)
  }

  // Every step leaves all buffers on the list, careful or not.
  lemma StepLists(s: State, step: Step)
    requires Enabled(s, step) && |s.bufs| == NBUF && Listed(s.order)
    ensures |Apply(s, step).bufs| == NBUF && Listed(Apply(s, step).order)
    ensures !step.Release? ==> Apply(s, step).order == s.order
  {
    hide Listed, Key;
    if step.Release? {
      WithoutKeeps(s.order, s.clients[step.c].b);
    }
  }

  lemma {:induction false} RunLists(states: seq<State>, steps: seq<Step>, n: nat)
    requires Trace(states, steps) && n <= |steps| && |states[0].bufs| == NBUF && Listed(states[0].order)
    ensures |states[n].bufs| == NBUF && Listed(states[n].order)
  {
    if n > 0 {
      RunLists(states, steps, n - 1);
      StepLists(states[n - 1], steps[n - 1]);
    }
  }

  // Two entries behind the front, after b has come there, were in that order before.
  lemma MovedFrom(order: seq<int>, b: int, i: nat, j: nat) returns (p: nat, q: nat)
    requires Listed(order) && 0 <= b < NBUF && 0 < i < j < |[b] + Without(order, b)|
    ensures p < q < |order| && order[p] == ([b] + Without(order, b))[i] && order[q] == ([b] + Without(order, b))[j]
  {
    assert b in order;
    var at :| 0 <= at < |order| && order[at] == b;
    WithoutAt(order, at);
    p := if i - 1 < at then i - 1 else i;
    q := if j - 1 < at then j - 1 else j;
  }

  // A step that does not release b leaves its last release as it was.
  lemma SameRelease(states: seq<State>, steps: seq<Step>, n: nat, b: int)
    requires Trace(states, steps) && 0 < n <= |steps| && !Releases(states, steps, n - 1, b)
    ensures LastRelease(states, steps, n, b) == LastRelease(states, steps, n - 1, b)
  {
  }

  // Buffer x was released after y, or neither was and x came first on the list at the start.
  ghost predicate Later(states: seq<State>, steps: seq<Step>, n: nat, x: int, y: int)
    requires Trace(states, steps) && n <= |steps|
  {
    var k, l := LastRelease(states, steps, n, x), LastRelease(states, steps, n, y);
    k > l || (k == l == -1 && x > y)
  }

  /** The list is in the order of last use: from a new cache, along every run, a buffer that was released later is
      in front of one that was released earlier or never, and those never released are behind in their first order,
      from the last buffer to the first. */
  lemma {:induction false} OrderIsRecency(disk: Disk, m: nat, states: seq<State>, steps: seq<Step>, n: nat, i: nat,
                                          j: nat)
    requires Trace(states, steps) && states[0] == Initial(disk, m) && n <= |steps| && i < j < |states[n].order|
    ensures Later(states, steps, n, states[n].order[i], states[n].order[j])
    decreases n
  {
    hide Key, Wake, ScanFor, Complete, Enqueue, Without, LastRelease;
    if n > 0 {
      var s, step := states[n - 1], steps[n - 1];
      RunLists(states, steps, n - 1);
      StepLists(s, step);
      var x, y := states[n].order[i], states[n].order[j];
      if !step.Release? {
        OrderIsRecency(disk, m, states, steps, n - 1, i, j);
        SameRelease(states, steps, n, x);
        SameRelease(states, steps, n, y);
      } else if i == 0 {
        assert Releases(states, steps, n - 1, x) && !Releases(states, steps, n - 1, y);
      } else {
        var b := s.clients[step.c].b;
        var p, q := MovedFrom(s.order, b, i, j);
        OrderIsRecency(disk, m, states, steps, n - 1, p, q);
        assert states[n].order[0] == b && x != b && y != b;
        SameRelease(states, steps, n, x);
        SameRelease(states, steps, n, y);
      }
    }
  }

  /** A buffer that bget recycles is, of all that nobody uses, the one released the longest ago. */
  lemma VictimIsOldest(disk: Disk, m: nat, states: seq<State>, steps: seq<Step>, n: nat, c: nat) returns (v: int)
    requires Trace(states, steps) && states[0] == Initial(disk, m) && n <= |steps| && Enabled(states[n], Scan(c))
    requires var s := states[n];
             forall b | 0 <= b < |s.bufs| :: s.bufs[b].dev != s.clients[c].dev
                                             || s.bufs[b].sector != s.clients[c].sector
    ensures var s, s' := states[n], Apply(states[n], Scan(c));
            && 0 <= v < |s.bufs| && !s.bufs[v].busy && s'.clients[c] == Pending(v)
            && s'.bufs[v].dev == s.clients[c].dev && s'.bufs[v].sector == s.clients[c].sector
            && forall x | 0 <= x < |s.bufs| && x != v && !s.bufs[x].busy :: Later(states, steps, n, x, v)
  {
    hide Key, Wake, Complete, Enqueue, Without, LastRelease, Later, AllBuffers;
    var s := states[n];
    RunLists(states, steps, n);
    FirstHoldingIs(s.order, s.bufs, s.clients[c].dev, s.clients[c].sector);
    LastFreeIs(s.order, s.bufs);
    v := LastFree(s.order, s.bufs);
    var q :| LastAt(s.order, s.bufs, q) && s.order[q] == v;
    forall x | 0 <= x < |s.bufs| && x != v && !s.bufs[x].busy ensures Later(states, steps, n, x, v) {
      assert x in s.order;
      var p: nat :| p < |s.order| && s.order[p] == x;
      OrderIsRecency(disk, m, states, steps, n, p, q);
    }
  }

  predicate ByClient(step: Step, c: nat) {
    !step.Interrupt? && step.c == c
  }

  // Client c waits in bwrite for buffer b with the data d: on its way to the disk, or there.
  ghost predicate Writing(s: State, c: nat, b: int, d: seq<int>) {
    && c < |s.clients| && s.clients[c] == Waiting(b) && 0 <= b < |s.bufs| && s.bufs[b].data == d
    && (b in s.queue ==> s.bufs[b].dirty)
  }

  lemma WriteGoesOn(s: State, step: Step, c: nat, b: int, d: seq<int>)
    requires Inv(s) && Enabled(s, step) && Careful(s, step) && Writing(s, c, b, d) && !ByClient(step, c)
    ensures Writing(Apply(s, step), c, b, d)
    ensures Apply(s, step).bufs[b].dev == s.bufs[b].dev && Apply(s, step).bufs[b].sector == s.bufs[b].sector
  {
    hide Key, Unique;
    assert ClientOk(s, c) && BufOk(s, b);
    if !step.Interrupt? {
      assert ClientOk(s, step.c);
    }
    if step.Scan? {
      FirstHoldingIs(s.order, s.bufs, s.clients[step.c].dev, s.clients[step.c].sector);
      LastFreeIs(s.order, s.bufs);
    }
  }

  lemma {:induction false} WriteRuns(s: State, steps: seq<Step>, s': State, c: nat, b: int, d: seq<int>)
    requires Inv(s) && Reaches(s, steps, s') && Carefully(s, steps) && Writing(s, c, b, d)
    requires forall k | 0 <= k < |steps| :: !ByClient(steps[k], c)
    ensures Inv(s') && Writing(s', c, b, d)
    ensures s'.bufs[b].dev == s.bufs[b].dev && s'.bufs[b].sector == s.bufs[b].sector
    decreases |steps|
  {
    if steps != [] {
      StepKeepsIff(s, steps[0]);
      WriteGoesOn(s, steps[0], c, b, d);
      WriteRuns(Apply(s, steps[0]), steps[1..], s', c, b, d);
    }
  }

  // The three steps that bring a client with a buffer into bwrite.
  function Written(s: State, c: nat, d: seq<int>): State
    requires Enabled(s, Edit(c, d))
  {
    Apply(Apply(Apply(s, Edit(c, d)), Write(c)), Start(c))
  }

  /** When bwrite returns, what its caller put into the buffer is on the disk, whatever the others do meanwhile. */
  lemma WrittenIsOnDisk(s: State, c: nat, d: seq<int>, steps: seq<Step>, s': State)
    requires Inv(s) && Enabled(s, Edit(c, d)) && Reaches(Written(s, c, d), steps, s')
             && Carefully(Written(s, c, d), steps)
    requires (forall k | 0 <= k < |steps| :: !ByClient(steps[k], c)) && Enabled(s', Resume(c))
    ensures var buf := s.bufs[s.clients[c].b]; Sector(Apply(s', Resume(c)).disk, buf.dev, buf.sector) == d
  {
    var b := s.clients[c].b;
    var s1 := Apply(s, Edit(c, d));
    StepKeepsIff(s, Edit(c, d));
    StepKeepsIff(s1, Write(c));
    StepKeepsIff(Apply(s1, Write(c)), Start(c));
    hide Key, Inv;
    WriteRuns(Written(s, c, d), steps, s', c, b, d);
    WaitOver(s', c);
  }

  lemma WaitOver(s: State, c: nat)
    requires Inv(s) && Enabled(s, Resume(c))
    ensures var buf := s.bufs[s.clients[c].b]; buf.data == Sector(s.disk, buf.dev, buf.sector)
  {
    assert ClientOk(s, c) && BufOk(s, s.clients[c].b);
  }
}
