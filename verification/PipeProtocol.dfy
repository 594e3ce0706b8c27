/** Readers, writers and closers of one pipe, step by step down to the two locks of sleep: the pipe
lock and the process table lock. A turn with the pipe lock moves bytes as `PipeRing.Ring.Fill` and
`PipeRing.Ring.Drain` do. */
module PipeProtocol {

  import opened Common
  import opened PipeRing

  // marks are the positions in the stream of the bytes a writer has got in so far; a reader's bytes
  // came from position `at` on.
  datatype Call = Write(src: seq<Byte>, marks: seq<nat>) | Read(n: nat, at: nat, got: seq<Byte>) | Close(writable: bool)

  /** Where a thread is in its call: waiting for the pipe lock; holding it; about to wake the other
      side and then sleep; about to take the table lock; holding both; holding the table lock only;
      asleep; about to wake the other side for the last time; about to return, or to return -1. */
  datatype Phase = Enter | Hold | Wake | Doze | Nod | Drop | Asleep | Last | Leave | Fail

  datatype Thread = Idle | In(call: Call, phase: Phase)

  datatype Owner = Nobody | By(t: nat)

  datatype State = State(threads: seq<Thread>, pipe: Owner, table: Owner, killed: set<nat>,
                         readopen: bool, writeopen: bool, accepted: seq<Byte>, delivered: nat)

  datatype Step = Begin(t: nat, call: Call) | Acquire(t: nat) | Work(t: nat) | Wakeup(t: nat)
                | TakeTable(t: nat) | FreePipe(t: nat) | FallAsleep(t: nat) | Return(t: nat) | Kill(t: nat)

  function Queue(s: State): seq<Byte> {
    if s.delivered <= |s.accepted| then s.accepted[s.delivered..] else []
  }

  predicate Writes(th: Thread) { th.In? && th.call.Write? }
  predicate Reads(th: Thread) { th.In? && th.call.Read? }
  predicate Closes(th: Thread, writable: bool) { th.In? && th.call == Close(writable) }

  predicate HoldsPipe(th: Thread) {
    th.In? && th.phase in {Hold, Wake, Doze, Nod, Last, Leave, Fail}
  }

  predicate HoldsTable(th: Thread) {
    th.In? && th.phase in {Nod, Drop}
  }

  // The call of th wakes readers, or else writers.
  predicate WakesReaders(call: Call) {
    call.Write? || call == Close(true)
  }

  predicate Woken(th: Thread, call: Call) {
    th.In? && th.phase == Asleep && (if WakesReaders(call) then th.call.Read? else th.call.Write?)
  }

  function AllWoken(threads: seq<Thread>, call: Call): seq<Thread> {
    seq(|threads|, k requires 0 <= k < |threads| => if Woken(threads[k], call) then threads[k].(phase := Enter)
        else threads[k])
  }

  function Set(s: State, t: nat, th: Thread): State
    requires t < |s.threads|
  {
    s.(threads := s.threads[t := th])
  }

  function Min(a: int, b: int): int { if a <= b then a else b }

  // A call may begin on an end that is open and that nobody is closing; closing is for its last user.
  ghost predicate MayBegin(s: State, call: Call) {
    match call
    case Write(src, marks) => marks == [] && s.writeopen && forall k | 0 <= k < |s.threads| ::
        !Closes(s.threads[k], true)
    case Read(n, at, got) => got == [] && s.readopen && forall k | 0 <= k < |s.threads| :: !Closes(s.threads[k], false)
    case Close(true) => s.writeopen && forall k | 0 <= k < |s.threads| ::
        !Closes(s.threads[k], true) && !Writes(s.threads[k])
    case Close(false) => s.readopen && forall k | 0 <= k < |s.threads| ::
        !Closes(s.threads[k], false) && !Reads(s.threads[k])
  }

  ghost predicate Enabled(s: State, step: Step) {
    step.t < |s.threads| &&
    var th := s.threads[step.t];
    match step
    case Begin(t, call) => th.Idle? && MayBegin(s, call)
    case Acquire(t) => th.In? && th.phase == Enter && s.pipe == Nobody
    case Work(t) => th.In? && th.phase == Hold
    case Wakeup(t) => th.In? && th.phase in {Wake, Last} && s.table == Nobody
    case TakeTable(t) => th.In? && th.phase == Doze && s.table == Nobody
    case FreePipe(t) => th.In? && th.phase == Nod
    case FallAsleep(t) => th.In? && th.phase == Drop
    case Return(t) => th.In? && th.phase in {Leave, Fail}
    case Kill(t) => s.table == Nobody
  }

  // The bytes a writer can put in now.
  function Room(s: State, src: seq<Byte>, marks: seq<nat>): nat {
    if |marks| <= |src| && |Queue(s)| <= 512 then Min(|src| - |marks|, 512 - |Queue(s)|) else 0
  }

  // A turn of pipewrite with the lock, of piperead, of pipeclose.
  function WriteTurn(s: State, t: nat): State
    requires t < |s.threads| && s.threads[t].In? && s.threads[t].call.Write?
  {
    var Write(src, marks) := s.threads[t].call;
    var i, k := |marks|, Room(s, src, marks);
    if i + k > |src| then s
    else
      var marks' := marks + seq(k, j => |s.accepted| + j);
      var phase := if i + k == |src| then Last else if !s.readopen || t in s.killed then Fail else Wake;
      Set(s.(accepted := s.accepted + src[i..i + k]), t, In(Write(src, marks'), phase))
  }

  function ReadTurn(s: State, t: nat): State
    requires t < |s.threads| && s.threads[t].In? && s.threads[t].call.Read?
  {
    var Read(n, at, got) := s.threads[t].call;
    if Queue(s) == [] && s.writeopen then
      Set(s, t, In(s.threads[t].call, if t in s.killed then Fail else Doze))
    else
      var k := Min(n, |Queue(s)|);
      Set(s.(delivered := s.delivered + k), t, In(Read(n, s.delivered, Queue(s)[..k]), Last))
  }

  function CloseTurn(s: State, t: nat): State
    requires t < |s.threads| && s.threads[t].In? && s.threads[t].call.Close?
  {
    var s' := if s.threads[t].call.writable then s.(writeopen := false) else s.(readopen := false);
    Set(s', t, In(s.threads[t].call, Last))
  }

  // The ring holds the stream of the protocol.
  ghost predicate Carries(ring: Ring, s: State)
    reads ring, ring.data
  {
    ring.Valid() && ring.accepted == s.accepted && ring.delivered == s.delivered
  }

  /** The turn of a writer, taken on the ring: the stream is then that of the protocol's next state. */
  method WriterTakesTurn(ring: Ring, s: State, t: nat) returns (i: nat)
    requires Carries(ring, s) && t < |s.threads| && Writes(s.threads[t])
    requires |s.threads[t].call.marks| <= |s.threads[t].call.src|
    modifies ring, ring.data
    ensures Carries(ring, WriteTurn(s, t))
    ensures i == |WriteTurn(s, t).threads[t].call.marks|
  {
    i := ring.Fill(s.threads[t].call.src, |s.threads[t].call.marks|);
  }

  /** The turn of a reader, taken on the ring: so is the stream, and the bytes read are those of the protocol. */
  method ReaderTakesTurn(ring: Ring, s: State, t: nat) returns (sleeps: bool, dst: seq<Byte>)
    requires Carries(ring, s) && t < |s.threads| && Reads(s.threads[t])
    modifies ring
    ensures Carries(ring, ReadTurn(s, t))
    ensures sleeps <==> ReadTurn(s, t).threads[t].phase != Last
    ensures !sleeps ==> dst == ReadTurn(s, t).threads[t].call.got
  {
    var empty := ring.Empty();
    sleeps, dst := empty && s.writeopen, [];
    if !sleeps {
      dst := ring.Drain(s.threads[t].call.n);
    }
  }

  ghost function Apply(s: State, step: Step): State
    requires Enabled(s, step)
  {
    var th := s.threads[step.t];
    match step
    case Begin(t, call) => Set(s, t, In(call, Enter))
    case Acquire(t) => Set(s, t, th.(phase := Hold)).(pipe := By(t))
    case Work(t) => if th.call.Write? then WriteTurn(s, t) else if th.call.Read? then ReadTurn(s, t)
        else CloseTurn(s, t)
    case Wakeup(t) => Set(s.(threads := AllWoken(s.threads, th.call)), t,
                          th.(phase := if th.phase == Wake then Doze else Leave))
    case TakeTable(t) => Set(s, t, th.(phase := Nod)).(table := By(t))
    case FreePipe(t) => Set(s, t, th.(phase := Drop)).(pipe := Nobody)
    case FallAsleep(t) => Set(s, t, th.(phase := Asleep)).(table := Nobody)
    case Return(t) => Set(s, t, Idle).(pipe := Nobody)
    case Kill(t) => Set(s.(killed := s.killed + {t}), t, if th.In? && th.phase == Asleep then th.(phase := Enter)
                        else th)
  }

  // Exactly the owner of a lock is where a thread holds it.
  ghost predicate Locks(s: State) {
    forall t | 0 <= t < |s.threads| ::
      && (HoldsPipe(s.threads[t]) <==> s.pipe == By(t))
      && (HoldsTable(s.threads[t]) <==> s.table == By(t))
  }

  // Whoever uses an end has it open, and an end that is being closed has no other user.
  ghost predicate EndsFor(s: State, t: nat, u: nat)
    requires t < |s.threads| && u < |s.threads|
  {
    && (Writes(s.threads[t]) ==> s.writeopen) && (Reads(s.threads[t]) ==> s.readopen)
    && (Closes(s.threads[t], true) ==> !Writes(s.threads[u])) && (Closes(s.threads[t], false) ==> !Reads(s.threads[u]))
  }

  ghost predicate Ends(s: State) {
    forall t: nat, u: nat | t < |s.threads| && u < |s.threads| :: EndsFor(s, t, u)
  }

  // A thread with the pipe lock is on its way to wake up readers, or else writers.
  ghost predicate Coming(s: State, readers: bool) {
    s.pipe.By? && s.pipe.t < |s.threads| && var th := s.threads[s.pipe.t]; th.In? && th.phase in {Wake, Last}
                                                                           && WakesReaders(th.call) == readers
  }

  ghost predicate Starved(s: State) { Queue(s) == [] && s.writeopen }
  ghost predicate Blocked(s: State) { |Queue(s)| == 512 && s.readopen }

  // Nobody sleeps, or is about to, without reason, unless the wakeup is on its way.
  ghost predicate RestsWell(s: State, th: Thread) {
    && (Reads(th) && th.phase in {Drop, Asleep} ==> Starved(s) || Coming(s, true))
    && (Reads(th) && th.phase in {Doze, Nod} ==> Starved(s))
    && (Writes(th) && th.phase in {Drop, Asleep} ==> Blocked(s) || Coming(s, false))
    && (Writes(th) && th.phase in {Wake, Doze, Nod} ==> Blocked(s))
    && (th.In? && th.phase == Wake ==> Writes(th))
  }

  ghost predicate NoLostWakeup(s: State) {
    forall t | 0 <= t < |s.threads| :: RestsWell(s, s.threads[t])
  }

  // The bytes of a write are in the stream in their order, all of them once it returns.
  ghost predicate WriteInOrder(accepted: seq<Byte>, src: seq<Byte>, marks: seq<nat>) {
    && |marks| <= |src|
    && (forall k | 0 <= k < |marks| :: marks[k] < |accepted| && accepted[marks[k]] == src[k])
    && (forall j, k | 0 <= j < k < |marks| :: marks[j] < marks[k])
  }

  // The bytes of a read are the next of the stream; none means the end of it.
  ghost predicate ReadInOrder(s: State, n: nat, at: nat, got: seq<Byte>) {
    && at + |got| == s.delivered <= |s.accepted| && got == s.accepted[at..s.delivered]
    && (got == [] && n > 0 ==> Queue(s) == [] && !s.writeopen)
  }

  ghost predicate InOrder(s: State, th: Thread) {
    && (Writes(th) ==> WriteInOrder(s.accepted, th.call.src, th.call.marks))
    && (Writes(th) && th.phase in {Last, Leave} ==> |th.call.marks| == |th.call.src|)
    && (Reads(th) && th.phase in {Last, Leave} ==> ReadInOrder(s, th.call.n, th.call.at, th.call.got))
  }

  ghost predicate Fifo(s: State) {
    && s.delivered <= |s.accepted| <= s.delivered + 512
    && (forall t | 0 <= t < |s.threads| :: InOrder(s, s.threads[t]))
  }

  ghost predicate Inv(s: State) {
    Locks(s) && Ends(s) && Fifo(s)
  }

  /** The one way to lose a wakeup: a killed writer that has filled the pipe leaves without waking the
      readers that sleep. */
  ghost predicate Abandons(s: State, step: Step) {
    && step.Work? && step.t < |s.threads| && Writes(s.threads[step.t]) && step.t in s.killed
    && |s.threads[step.t].call.src| - |s.threads[step.t].call.marks| > 512 - |Queue(s)|
    && exists r :: 0 <= r < |s.threads| && Reads(s.threads[r]) && s.threads[r].phase in {Drop, Asleep}
  }

  // What a step of another thread does to a thread: it may wake it.
  lemma Bystander(s: State, step: Step, k: nat)
    requires Enabled(s, step) && k < |s.threads| && k != step.t
    ensures var th, s' := s.threads[k], Apply(s, step);
            |s'.threads| == |s.threads|
            && s'.threads[k] == if step.Wakeup? && Woken(th, s.threads[step.t].call) then th.(phase := Enter) else th
  {
  }

  // Calls of one kind.
  predicate SameKind(a: Call, b: Call) {
    (a.Write? && b.Write?) || (a.Read? && b.Read?) || (a.Close? && a == b)
  }

  // What a step does to the thread that takes it, and to the ends of the pipe.
  lemma Actor(s: State, step: Step)
    requires Enabled(s, step)
    ensures var th, s' := s.threads[step.t], Apply(s, step);
            var th' := s'.threads[step.t];
            && |s'.threads| == |s.threads|
            && (step.Begin? ==> th.Idle? && th' == In(step.call, Enter) && MayBegin(s, step.call))
            && (!step.Begin? && th'.In? ==> th.In? && SameKind(th.call, th'.call))
            && s'.writeopen == (s.writeopen && !(step.Work? && th.call == Close(true)))
            && s'.readopen == (s.readopen && !(step.Work? && th.call == Close(false)))
  {
  }

  // What it does to the locks.
  lemma LockMoves(s: State, step: Step)
    requires Enabled(s, step)
    ensures var th, s' := s.threads[step.t], Apply(s, step);
            var th' := s'.threads[step.t];
            && s'.pipe == (if step.Acquire? then By(step.t) else if step.FreePipe? || step.Return? then Nobody
                           else s.pipe)
            && s'.table == (if step.TakeTable? then By(step.t) else if step.FallAsleep? then Nobody else s.table)
            && (HoldsPipe(th') <==> step.Acquire? || (HoldsPipe(th) && !step.FreePipe? && !step.Return?))
            && (HoldsTable(th') <==> step.TakeTable? || (HoldsTable(th) && !step.FallAsleep?))
            && (step.Acquire? ==> s.pipe == Nobody) && (step.TakeTable? ==> s.table == Nobody)
            && (step.FreePipe? || step.Return? ==> HoldsPipe(th)) && (step.FallAsleep? ==> HoldsTable(th))
  {
  }

  lemma LocksKept(s: State, step: Step)
    requires Enabled(s, step) && Locks(s)
    ensures Locks(Apply(s, step))
  {
    LockMoves(s, step);
    Actor(s, step);
    assert step.t < |s.threads|;
    hide Apply, Enabled;
    var s' := Apply(s, step);
    forall t | 0 <= t < |s'.threads|
      ensures (HoldsPipe(s'.threads[t]) <==> s'.pipe == By(t)) && (HoldsTable(s'.threads[t]) <==> s'.table == By(t))
    {
      if t != step.t {
        Bystander(s, step, t);
      }
    }
  }

  // The kind of call a thread is in after a step: the one it was in, or the one it begins.
  lemma KindKept(s: State, step: Step, k: nat)
    requires Enabled(s, step) && k < |s.threads|
    ensures var th, s' := s.threads[k], Apply(s, step);
            && k < |s'.threads| == |s.threads|
            && (s'.threads[k].In? ==> (step.Begin? && k == step.t && SameKind(step.call, s'.threads[k].call))
                                      || (th.In? && SameKind(th.call, s'.threads[k].call)))
  {
    if k == step.t {
      Actor(s, step);
    } else {
      Bystander(s, step, k);
    }
  }

  lemma EndsForKept(s: State, step: Step, t: nat, u: nat)
    requires Enabled(s, step) && Ends(s) && t < |s.threads| && u < |s.threads|
    ensures |Apply(s, step).threads| == |s.threads| && EndsFor(Apply(s, step), t, u)
  {
    Actor(s, step);
    KindKept(s, step, t);
    KindKept(s, step, u);
    assert EndsFor(s, t, u) && EndsFor(s, step.t, t) && EndsFor(s, step.t, u) && EndsFor(s, t, step.t);
    hide Apply, Enabled, Ends;
  }

  lemma EndsKept(s: State, step: Step)
    requires Enabled(s, step) && Ends(s)
    ensures Ends(Apply(s, step))
  {
    Actor(s, step);
    hide Apply, Enabled;
    var s' := Apply(s, step);
    forall t: nat, u: nat | t < |s'.threads| && u < |s'.threads| ensures EndsFor(s', t, u) {
      EndsForKept(s, step, t, u);
    }
  }

  lemma WriteMore(accepted: seq<Byte>, src: seq<Byte>, marks: seq<nat>, more: seq<Byte>, k: nat)
    requires WriteInOrder(accepted, src, marks) && k <= |more| && |marks| + k <= |src|
    requires src[|marks|..|marks| + k] == more[..k]
    ensures WriteInOrder(accepted + more, src, marks + seq(k, j => |accepted| + j))
  {
  }

  // Another thread's turn leaves a thread's bytes where they are.
  lemma InOrderKept(s: State, step: Step, k: nat)
    requires Enabled(s, step) && Inv(s) && k < |s.threads| && k != step.t
    ensures InOrder(Apply(s, step), Apply(s, step).threads[k])
  {
    var th, s' := s.threads[k], Apply(s, step);
    assert InOrder(s, th);
    if Writes(th) && step.Work? && Writes(s.threads[step.t]) {
      var more := s'.accepted[|s.accepted|..];
      assert s'.accepted == s.accepted + more;
      WriteMore(s.accepted, th.call.src, th.call.marks, more, 0);
      assert th.call.marks + seq(0, j => |s.accepted| + j) == th.call.marks;
    }
  }

  lemma WriterInOrder(s: State, t: nat)
    requires t < |s.threads| && Writes(s.threads[t]) && InOrder(s, s.threads[t])
             && s.delivered <= |s.accepted| <= s.delivered + 512
    ensures InOrder(WriteTurn(s, t), WriteTurn(s, t).threads[t])
  {
    var Write(src, marks) := s.threads[t].call;
    var k := Room(s, src, marks);
    WriteMore(s.accepted, src, marks, src[|marks|..|marks| + k], k);
  }

  lemma ReaderInOrder(s: State, t: nat)
    requires t < |s.threads| && Reads(s.threads[t]) && s.delivered <= |s.accepted|
    ensures InOrder(ReadTurn(s, t), ReadTurn(s, t).threads[t])
  {
  }

  lemma InOrderMoved(s: State, step: Step)
    requires Enabled(s, step) && Inv(s)
    ensures InOrder(Apply(s, step), Apply(s, step).threads[step.t])
  {
    var th := s.threads[step.t];
    assert InOrder(s, th);
    hide Locks, Ends, WriteTurn, ReadTurn, WriteInOrder;
    if step.Work? && Writes(th) {
      WriterInOrder(s, step.t);
    } else if step.Work? && Reads(th) {
      ReaderInOrder(s, step.t);
    }
  }

  lemma FifoKept(s: State, step: Step)
    requires Enabled(s, step) && Inv(s)
    ensures Fifo(Apply(s, step))
  {
    var s' := Apply(s, step);
    assert InOrder(s, s.threads[step.t]);
    forall k | 0 <= k < |s'.threads| ensures InOrder(s', s'.threads[k]) {
      if k != step.t {
        InOrderKept(s, step, k);
      } else {
        InOrderMoved(s, step);
      }
    }
  }

  lemma RestKept(s: State, step: Step, k: nat)
    requires Enabled(s, step) && Inv(s) && NoLostWakeup(s) && k < |s.threads| && k != step.t && !Abandons(s, step)
    ensures RestsWell(Apply(s, step), Apply(s, step).threads[k])
  {
    assert RestsWell(s, s.threads[k]) && RestsWell(s, s.threads[step.t]);
    assert InOrder(s, s.threads[step.t]) && EndsFor(s, step.t, k) && EndsFor(s, k, step.t);
    if !step.Work? {
      RestMeanwhile(s, step, k);
    } else if s.threads[step.t].call.Write? {
      RestAtWrite(s, step, k);
    } else {
      RestAtTurn(s, step, k);
    }
  }

  // The rest of thread k while another takes a step without a turn, a turn of a writer, or another turn.
  ghost predicate Beside(s: State, step: Step, k: nat) {
    && Enabled(s, step) && Locks(s) && s.delivered <= |s.accepted| <= s.delivered + 512 && k < |s.threads|
    && k != step.t
    && !Abandons(s, step) && RestsWell(s, s.threads[k]) && RestsWell(s, s.threads[step.t])
    && InOrder(s, s.threads[step.t]) && EndsFor(s, step.t, k) && EndsFor(s, k, step.t)
  }

  lemma RestMeanwhile(s: State, step: Step, k: nat)
    requires Beside(s, step, k) && !step.Work?
    ensures k < |Apply(s, step).threads| && RestsWell(Apply(s, step), Apply(s, step).threads[k])
  {
    hide WriteTurn, ReadTurn, CloseTurn, InOrder, Abandons;
    Bystander(s, step, k);
  }

  lemma RestAtWrite(s: State, step: Step, k: nat)
    requires Beside(s, step, k) && step.Work? && s.threads[step.t].call.Write?
    ensures k < |Apply(s, step).threads| && RestsWell(Apply(s, step), Apply(s, step).threads[k])
  {
    hide ReadTurn, CloseTurn, AllWoken;
    Bystander(s, step, k);
  }

  lemma RestAtTurn(s: State, step: Step, k: nat)
    requires Beside(s, step, k) && step.Work? && !s.threads[step.t].call.Write?
    ensures k < |Apply(s, step).threads| && RestsWell(Apply(s, step), Apply(s, step).threads[k])
  {
    hide WriteTurn, AllWoken, InOrder;
    Bystander(s, step, k);
  }

  lemma RestMoved(s: State, step: Step)
    requires Enabled(s, step) && Inv(s) && NoLostWakeup(s)
    ensures RestsWell(Apply(s, step), Apply(s, step).threads[step.t])
  {
    assert RestsWell(s, s.threads[step.t]) && InOrder(s, s.threads[step.t]);
  }

  lemma AbandonLoses(s: State, step: Step)
    requires Enabled(s, step) && Inv(s) && Abandons(s, step)
    ensures !NoLostWakeup(Apply(s, step))
  {
    var s' := Apply(s, step);
    var r :| 0 <= r < |s.threads| && Reads(s.threads[r]) && s.threads[r].phase in {Drop, Asleep};
    assert InOrder(s, s.threads[step.t]);
    assert s'.threads[r] == s.threads[r];
    assert !RestsWell(s', s'.threads[r]);
  }

  // Every step of every thread keeps the stream in order.
  lemma StepKeeps(s: State, step: Step)
    requires Enabled(s, step) && Inv(s)
    ensures Inv(Apply(s, step))
  {
    LocksKept(s, step);
    EndsKept(s, step);
    FifoKept(s, step);
  }

  /** A step loses no wakeup if and only if it is not a killed writer abandoning sleeping readers. */
  lemma WakeupKeptIff(s: State, step: Step)
    requires Enabled(s, step) && Inv(s) && NoLostWakeup(s)
    ensures NoLostWakeup(Apply(s, step)) <==> !Abandons(s, step)
  {
    var s' := Apply(s, step);
    if Abandons(s, step) {
      AbandonLoses(s, step);
    } else {
      forall k | 0 <= k < |s'.threads| ensures RestsWell(s', s'.threads[k]) {
        if k != step.t {
          RestKept(s, step, k);
        } else {
          RestMoved(s, step);
        }
      }
    }
  }

  // A new pipe, the runs from it, and those in which no killed writer abandons readers.
  function Initial(n: nat): State {
    State(seq(n, _ => Idle), Nobody, Nobody, {}, true, true, [], 0)
  }

  ghost predicate Reaches(s: State, steps: seq<Step>, s': State)
    decreases |steps|
  {
    if steps == [] then s == s' else Enabled(s, steps[0]) && Reaches(Apply(s, steps[0]), steps[1..], s')
  }

  ghost predicate Faithful(s: State, steps: seq<Step>)
    decreases |steps|
  {
    steps != [] && Enabled(s, steps[0]) ==> !Abandons(s, steps[0]) && Faithful(Apply(s, steps[0]), steps[1..])
  }

  lemma {:induction false} RunKeeps(s: State, steps: seq<Step>, s': State)
    requires Inv(s) && Reaches(s, steps, s')
    ensures Inv(s') && |s'.threads| == |s.threads|
    decreases |steps|
  {
    hide Enabled, Apply, Inv;
    if steps != [] {
      Actor(s, steps[0]);
      StepKeeps(s, steps[0]);
      RunKeeps(Apply(s, steps[0]), steps[1..], s');
    }
  }

  lemma {:induction false} RunLosesNothing(s: State, steps: seq<Step>, s': State)
    requires Inv(s) && NoLostWakeup(s) && Reaches(s, steps, s') && Faithful(s, steps)
    ensures NoLostWakeup(s')
    decreases |steps|
  {
    if steps != [] {
      StepKeeps(s, steps[0]);
      WakeupKeptIff(s, steps[0]);
      RunLosesNothing(Apply(s, steps[0]), steps[1..], s');
    }
  }

  lemma InitialInv(n: nat)
    ensures Inv(Initial(n)) && NoLostWakeup(Initial(n))
  {
  }

  ghost predicate ReaderAsleep(s: State, r: nat) {
    r < |s.threads| && Reads(s.threads[r]) && s.threads[r].phase == Asleep
  }

  ghost predicate WriterAsleep(s: State, w: nat) {
    w < |s.threads| && Writes(s.threads[w]) && s.threads[w].phase == Asleep
  }

  /** In every such run, whenever the pipe lock is free, a sleeping reader means an empty pipe that can
      still be written, a sleeping writer a full pipe that can still be read, and they never both sleep. */
  lemma NobodySleepsInVain(n: nat, steps: seq<Step>, s: State, r: nat, w: nat)
    requires Reaches(Initial(n), steps, s) && Faithful(Initial(n), steps) && s.pipe == Nobody
    ensures ReaderAsleep(s, r) ==> Queue(s) == [] && s.writeopen
    ensures WriterAsleep(s, w) ==> |Queue(s)| == 512 && s.readopen
    ensures !(ReaderAsleep(s, r) && WriterAsleep(s, w))
  {
    InitialInv(n);
    RunLosesNothing(Initial(n), steps, s);
    assert r < |s.threads| ==> RestsWell(s, s.threads[r]);
    assert w < |s.threads| ==> RestsWell(s, s.threads[w]);
  }

  /** In every run the bytes delivered are the first of those accepted and at most 512 are in between;
      a read returns the next bytes of the stream, none only at its end; a write's bytes are in order. */
  lemma PipeIsFifo(n: nat, steps: seq<Step>, s: State, t: nat)
    requires Reaches(Initial(n), steps, s) && t < n
    ensures s.delivered <= |s.accepted| <= s.delivered + 512 && |s.threads| == n
    ensures Reads(s.threads[t]) && s.threads[t].phase == Leave ==>
            ReadInOrder(s, s.threads[t].call.n, s.threads[t].call.at, s.threads[t].call.got)
    ensures Writes(s.threads[t]) ==> WriteInOrder(s.accepted, s.threads[t].call.src, s.threads[t].call.marks)
    ensures Writes(s.threads[t]) && s.threads[t].phase == Leave ==> |s.threads[t].call.marks| == |s.threads[t].call.src|
  {
    InitialInv(n);
    RunKeeps(Initial(n), steps, s);
    assert InOrder(s, s.threads[t]);
  }

  // Two threads of a fresh pipe.
  function Pair(r: Thread, w: Thread, pipe: Owner, table: Owner, killed: set<nat>): State {
    State([r, w], pipe, table, killed, true, true, [], 0)
  }

  lemma PairFirst(s: State, step: Step, r: Thread, w: Thread, pipe: Owner, table: Owner, killed: set<nat>,
                  steps: seq<Step>, s': State)
    requires Enabled(s, step) && Reaches(Pair(r, w, pipe, table, killed), steps, s')
    requires Apply(s, step).threads == [r, w]
             && Apply(s, step) == Pair(r, w, pipe, table, killed).(threads := Apply(s, step).threads)
    ensures Reaches(s, [step] + steps, s')
  {
  }

  // A reader of a fresh pipe that has made up its mind to sleep gets there, killed or not.
  lemma DozerSleeps(n: nat, killed: set<nat>, rest: seq<Step>, s: State) returns (steps: seq<Step>)
    requires Reaches(Pair(In(Read(n, 0, []), Asleep), Idle, Nobody, Nobody, killed), rest, s)
    ensures Reaches(Pair(In(Read(n, 0, []), Doze), Idle, By(0), Nobody, killed), steps, s)
  {
    var read := Read(n, 0, []);
    PairFirst(Pair(In(read, Drop), Idle, Nobody, By(0), killed), FallAsleep(0), In(read, Asleep), Idle, Nobody, Nobody,
              killed, rest, s);
    steps := [FallAsleep(0)] + rest;
    PairFirst(Pair(In(read, Nod), Idle, By(0), By(0), killed), FreePipe(0), In(read, Drop), Idle, Nobody, By(0), killed,
              steps, s);
    steps := [FreePipe(0)] + steps;
    PairFirst(Pair(In(read, Doze), Idle, By(0), Nobody, killed), TakeTable(0), In(read, Nod), Idle, By(0), By(0),
              killed, steps, s);
    steps := [TakeTable(0)] + steps;
  }

  // From a new pipe a reader can come to that point.
  lemma ReaderCanDoze(n: nat, rest: seq<Step>, s: State) returns (steps: seq<Step>)
    requires Reaches(Pair(In(Read(n, 0, []), Doze), Idle, By(0), Nobody, {}), rest, s)
    ensures Reaches(Initial(2), steps, s)
  {
    var read := Read(n, 0, []);
    PairFirst(Pair(In(read, Hold), Idle, By(0), Nobody, {}), Work(0), In(read, Doze), Idle, By(0), Nobody, {}, rest,
              s);
    steps := [Work(0)] + rest;
    PairFirst(Pair(In(read, Enter), Idle, Nobody, Nobody, {}), Acquire(0), In(read, Hold), Idle, By(0), Nobody, {},
              steps, s);
    steps := [Acquire(0)] + steps;
    PairFirst(Initial(2), Begin(0, read), In(read, Enter), Idle, Nobody, Nobody, {}, steps, s);
    steps := [Begin(0, read)] + steps;
  }

  // A writer takes the pipe while the reader sleeps, and is killed.
  lemma WriterComes(src: seq<Byte>) returns (steps: seq<Step>)
    ensures var asleep, write := In(Read(1, 0, []), Asleep), Write(src, []);
            Reaches(Pair(asleep, Idle, Nobody, Nobody, {}), steps, Pair(asleep, In(write, Hold), By(1), Nobody, {1}))
  {
    var asleep, write := In(Read(1, 0, []), Asleep), Write(src, []);
    var last := Pair(asleep, In(write, Hold), By(1), Nobody, {1});
    PairFirst(Pair(asleep, In(write, Hold), By(1), Nobody, {}), Kill(1), asleep, In(write, Hold), By(1), Nobody, {1},
              [], last);
    steps := [Kill(1)] + [];
    PairFirst(Pair(asleep, In(write, Enter), Nobody, Nobody, {}), Acquire(1), asleep, In(write, Hold), By(1), Nobody,
              {}, steps, last);
    steps := [Acquire(1)] + steps;
    PairFirst(Pair(asleep, Idle, Nobody, Nobody, {}), Begin(1, write), asleep, In(write, Enter), Nobody, Nobody, {},
              steps, last);
    steps := [Begin(1, write)] + steps;
  }

  lemma LastAbandons(src: seq<Byte>)
    requires |src| == 513
    ensures var last := Pair(In(Read(1, 0, []), Asleep), In(Write(src, []), Hold), By(1), Nobody, {1});
            Enabled(last, Work(1)) && Abandons(last, Work(1))
  {
    var last := Pair(In(Read(1, 0, []), Asleep), In(Write(src, []), Hold), By(1), Nobody, {1});
    assert Reads(last.threads[0]) && last.threads[0].phase in {Drop, Asleep};
  }

  /** The step that loses a wakeup does happen: a reader sleeps, then a writer of 513 bytes takes the
      pipe, is killed, fills the pipe and leaves. */
  lemma WakeupCanBeLost(src: seq<Byte>)
    requires |src| == 513
    ensures exists steps, s :: Reaches(Initial(2), steps, s) && Enabled(s, Work(1)) && Abandons(s, Work(1))
  {
    hide Enabled, Abandons, Apply, Reaches;
    var last := Pair(In(Read(1, 0, []), Asleep), In(Write(src, []), Hold), By(1), Nobody, {1});
    var steps := WriterComes(src);
    steps := DozerSleeps(1, {}, steps, last);
    steps := ReaderCanDoze(1, steps, last);
    LastAbandons(src);
  }

  // A killed thread is not asleep, nor on its way there.
  ghost predicate Heeds(s: State, t: nat)
    requires t < |s.threads|
  {
    t in s.killed && s.threads[t].In? ==> s.threads[t].phase !in {Wake, Doze, Nod, Drop, Asleep}
  }

  ghost predicate KillsHeeded(s: State) {
    forall t: nat | t < |s.threads| :: Heeds(s, t)
  }

  // The kill comes between the thread's look at its flag and the table lock in sleep.
  ghost predicate Misses(s: State, step: Step) {
    step.Kill? && step.t < |s.threads| && s.threads[step.t].In? && s.threads[step.t].phase in {Wake, Doze}
  }

  /** With the pipe lock a killed thread goes on to return: -1 if there is nothing to read in an open pipe or no room
      for the rest of the write, and otherwise with what it can get. */
  lemma KilledTurn(s: State, t: nat)
    requires Inv(s) && Enabled(s, Work(t)) && t in s.killed
    ensures var th, th' := s.threads[t], Apply(s, Work(t)).threads[t];
            && th'.In? && th'.phase in {Last, Fail}
            && (Reads(th) ==> (th'.phase == Fail <==> |s.accepted| == s.delivered && s.writeopen))
            && (Writes(th) ==> (th'.phase == Fail
                                <==> s.delivered + 512 - |s.accepted| < |th.call.src| - |th.call.marks|))
  {
    assert InOrder(s, s.threads[t]);
  }

  /** A step leaves some killed thread asleep, or on its way there, if and only if it is such a kill. */
  lemma KillHeededIff(s: State, step: Step)
    requires Inv(s) && KillsHeeded(s) && Enabled(s, step)
    ensures KillsHeeded(Apply(s, step)) <==> !Misses(s, step)
  {
    var s' := Apply(s, step);
    forall k: nat | k < |s'.threads| && k != step.t ensures Heeds(s', k) {
      Bystander(s, step, k);
      assert Heeds(s, k);
    }
    assert Heeds(s, step.t);
    if step.Work? && step.t in s.killed {
      KilledTurn(s, step.t);
    }
    assert Heeds(s', step.t) <==> !Misses(s, step);
  }

  // A run without such a kill.
  ghost predicate Prompt(s: State, steps: seq<Step>)
    decreases |steps|
  {
    steps == [] || (Enabled(s, steps[0]) && !Misses(s, steps[0]) && Prompt(Apply(s, steps[0]), steps[1..]))
  }

  lemma {:induction false} RunHeedsKills(s: State, steps: seq<Step>, s': State)
    requires Inv(s) && KillsHeeded(s) && Reaches(s, steps, s') && Prompt(s, steps)
    ensures KillsHeeded(s')
    decreases |steps|
  {
    if steps != [] {
      StepKeeps(s, steps[0]);
      KillHeededIff(s, steps[0]);
      RunHeedsKills(Apply(s, steps[0]), steps[1..], s');
    }
  }

  /** A killed thread that waits for the pipe lock can run to its return as soon as the locks are free. */
  lemma KilledReturns(s: State, t: nat) returns (steps: seq<Step>, s': State)
    requires Inv(s) && t < |s.threads| && t in s.killed && s.threads[t].In? && s.threads[t].phase == Enter
    requires s.pipe == Nobody && s.table == Nobody
    ensures Reaches(s, steps, s') && t < |s'.threads| && s'.threads[t] == Idle
    ensures forall k | 0 <= k < |steps| :: steps[k].t == t
  {
    var s1 := Apply(s, Acquire(t));
    StepKeeps(s, Acquire(t));
    KilledTurn(s1, t);
    steps, s' := LeavesFrom(Apply(s1, Work(t)), t);
    ThenReaches(s1, Work(t), steps, s');
    ThenReaches(s, Acquire(t), [Work(t)] + steps, s');
    steps := [Acquire(t)] + ([Work(t)] + steps);
  }

  // The end of a call, with the pipe lock.
  lemma LeavesFrom(s: State, t: nat) returns (steps: seq<Step>, s': State)
    requires t < |s.threads| && s.threads[t].In? && s.threads[t].phase in {Last, Fail} && s.table == Nobody
    ensures Reaches(s, steps, s') && t < |s'.threads| && s'.threads[t] == Idle
    ensures forall k | 0 <= k < |steps| :: steps[k].t == t
  {
    if s.threads[t].phase == Fail {
      s' := Apply(s, Return(t));
      steps := [Return(t)];
    } else {
      var s1 := Apply(s, Wakeup(t));
      s' := Apply(s1, Return(t));
      steps := [Wakeup(t), Return(t)];
      assert Reaches(s1, steps[1..], s');
    }
  }

  lemma ThenReaches(s: State, step: Step, steps: seq<Step>, s': State)
    requires Enabled(s, step) && Reaches(Apply(s, step), steps, s')
    ensures Reaches(s, [step] + steps, s')
  {
    assert ([step] + steps)[1..] == steps;
  }

  /** The kill that is missed does happen: the reader of an empty pipe is killed just before it sleeps, and sleeps. */
  lemma KillCanBeMissed()
    ensures exists steps, s :: Reaches(Initial(2), steps, s) && |s.threads| == 2 && 0 in s.killed
                               && s.threads[0] == In(Read(1, 0, []), Asleep)
  {
    var read := Read(1, 0, []);
    var last := Pair(In(read, Asleep), Idle, Nobody, Nobody, {0});
    var steps := DozerSleeps(1, {0}, [], last);
    PairFirst(Pair(In(read, Doze), Idle, By(0), Nobody, {}), Kill(0), In(read, Doze), Idle, By(0), Nobody, {0}, steps,
              last);
    steps := ReaderCanDoze(1, [Kill(0)] + steps, last);
  }
}
