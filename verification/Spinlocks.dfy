/** Spinlocks on several CPUs, one exchange at a time, with the nesting of pushcli and popcli. */
module Spinlocks {

  // cpu is the holder the lock records, -1 for none.
  datatype Lock = Lock(locked: bool, cpu: int)

  /** Where a CPU is: outside the lock functions; spinning in acquire; past the winning exchange; past the
      check in release; past the exchange that frees the lock. */
  datatype Place = Outside | Spinning(l: nat) | Won(l: nat) | Freeing(l: nat) | Popping

  // held are the locks between a winning acquire and its release; pushes counts the pushcli calls outside the
  // lock functions less the popcli calls there.
  datatype Cpu = Cpu(place: Place, ncli: nat, intena: bool, interrupts: bool, held: set<nat>, pushes: int)

  datatype State = State(locks: seq<Lock>, cpus: seq<Cpu>)

  // Pop is the popcli at the end of release; PushCli and PopCli are calls from elsewhere in the kernel.
  datatype Step = Acquire(c: nat, l: nat) | Exchange(c: nat) | Record(c: nat) | Release(c: nat, l: nat) | Free(c: nat)
                | Pop(c: nat)
                | PushCli(c: nat) | PopCli(c: nat) | Interrupts(c: nat, on: bool)

  predicate Holding(s: State, c: nat, l: nat) {
    l < |s.locks| && s.locks[l].locked && s.locks[l].cpu == c
  }

  function Pushed(p: Cpu): Cpu {
    p.(interrupts := false, ncli := p.ncli + 1, intena := if p.ncli == 0 then p.interrupts else p.intena)
  }

  function Popped(p: Cpu): Cpu
    requires p.ncli > 0
  {
    p.(ncli := p.ncli - 1, interrupts := p.interrupts || (p.ncli == 1 && p.intena))
  }

  // acquire and release panic when the caller does or does not hold the lock, popcli when interrupts are on
  // or there is no nesting to end.
  predicate Enabled(s: State, step: Step) {
    step.c < |s.cpus| &&
    var p := s.cpus[step.c];
    match step
    case Acquire(c, l) => p.place == Outside && l < |s.locks| && !Holding(s, c, l)
    case Exchange(c) => p.place.Spinning? && p.place.l < |s.locks|
    case Record(c) => p.place.Won? && p.place.l < |s.locks|
    case Release(c, l) => p.place == Outside && Holding(s, c, l)
    case Free(c) => p.place.Freeing? && p.place.l < |s.locks|
    case Pop(c) => p.place == Popping && !p.interrupts && p.ncli > 0
    case PushCli(c) => p.place == Outside
    case PopCli(c) => p.place == Outside && !p.interrupts && p.ncli > 0
    case Interrupts(c, on) => p.place == Outside && p.ncli == 0
  }

  function Apply(s: State, step: Step): State
    requires Enabled(s, step)
  {
    var p := s.cpus[step.c];
    match step
    case Acquire(c, l) => s.(cpus := s.cpus[c := Pushed(p).(place := Spinning(l))])
    case Exchange(c) =>
      if s.locks[p.place.l].locked then s
      else State(s.locks[p.place.l := s.locks[p.place.l].(locked := true)],
                 s.cpus[c := p.(place := Won(p.place.l), held := p.held + {p.place.l})])
    case Record(c) => State(s.locks[p.place.l := s.locks[p.place.l].(cpu := c)], s.cpus[c := p.(place := Outside)])
    case Release(c, l) => State(s.locks[l := s.locks[l].(cpu := -1)], s.cpus[c := p.(place := Freeing(l))])
    case Free(c) => State(s.locks[p.place.l := s.locks[p.place.l].(locked := false)],
                          s.cpus[c := p.(place := Popping, held := p.held - {p.place.l})])
    case Pop(c) => s.(cpus := s.cpus[c := Popped(p).(place := Outside)])
    case PushCli(c) => s.(cpus := s.cpus[c := Pushed(p).(pushes := p.pushes + 1)])
    case PopCli(c) => s.(cpus := s.cpus[c := Popped(p).(pushes := p.pushes - 1)])
    case Interrupts(c, on) => s.(cpus := s.cpus[c := p.(interrupts := on)])
  }

  // One pushcli for each lock held, one for the call in progress that has not got its lock or has given it back,
  // and those made elsewhere.
  ghost predicate CpuOk(s: State, c: int)
    requires 0 <= c < |s.cpus|
  {
    var p := s.cpus[c];
    && p.pushes >= 0 && p.ncli == |p.held| + p.pushes + (if p.place.Spinning? || p.place == Popping then 1 else 0)
    && (p.ncli > 0 ==> !p.interrupts)
    && (forall l | l in p.held :: l < |s.locks| && s.locks[l].locked)
    && (p.place.Won? || p.place.Freeing? ==> p.place.l in p.held)
    && (p.place.Spinning? ==> p.place.l < |s.locks| && p.place.l !in p.held)
  }

  // A lock that is taken is held by some CPU, and the one it records, if any, holds it.
  ghost predicate LockOk(s: State, l: int)
    requires 0 <= l < |s.locks|
  {
    && (s.locks[l].locked ==> exists c :: 0 <= c < |s.cpus| && l in s.cpus[c].held)
    && (s.locks[l].cpu != -1 ==> 0 <= s.locks[l].cpu < |s.cpus| && l in s.cpus[s.locks[l].cpu].held)
    && (forall c | 0 <= c < |s.cpus| && l in s.cpus[c].held ::
          s.locks[l].cpu == if s.cpus[c].place == Won(l) || s.cpus[c].place == Freeing(l) then -1 else c)
  }

  ghost predicate Inv(s: State) {
    && (forall c | 0 <= c < |s.cpus| :: CpuOk(s, c))
    && (forall l | 0 <= l < |s.locks| :: LockOk(s, l))
    && (forall c, d, l | 0 <= c < |s.cpus| && 0 <= d < |s.cpus| && l in s.cpus[c].held && l in s.cpus[d].held :: c == d)
  }

  // A popcli outside the lock functions answers a pushcli there.
  predicate Balanced(s: State, step: Step)
    requires Enabled(s, step)
  {
    step.PopCli? ==> s.cpus[step.c].pushes > 0
  }

  // The CPU that takes the step, and any other.
  lemma ActorKept(s: State, step: Step)
    requires Inv(s) && Enabled(s, step) && Balanced(s, step)
    ensures CpuOk(Apply(s, step), step.c)
  {
    assert CpuOk(s, step.c);
    if step.Acquire? || step.Release? {
      assert LockOk(s, step.l);
    }
  }

  lemma BystanderKept(s: State, step: Step, c: int)
    requires Inv(s) && Enabled(s, step) && 0 <= c < |s.cpus| && c != step.c
    ensures CpuOk(Apply(s, step), c)
  {
    assert CpuOk(s, c) && CpuOk(s, step.c);
  }

  lemma LockKept(s: State, step: Step, l: int)
    requires Inv(s) && Enabled(s, step) && 0 <= l < |s.locks|
    ensures LockOk(Apply(s, step), l)
  {
    var s' := Apply(s, step);
    assert LockOk(s, l) && CpuOk(s, step.c);
    if s.locks[l].cpu != -1 {
      assert CpuOk(s, s.locks[l].cpu);
    }
    if s.locks[l].locked && s'.locks[l].locked {
      var c :| 0 <= c < |s.cpus| && l in s.cpus[c].held;
      assert l in s'.cpus[c].held;
    } else if s'.locks[l].locked {
      assert l in s'.cpus[step.c].held;
    }
  }

  /** Every step of every CPU keeps the invariant, if and only if it is not a popcli too many. */
  lemma StepKeepsIff(s: State, step: Step)
    requires Inv(s) && Enabled(s, step)
    ensures Inv(Apply(s, step)) <==> Balanced(s, step)
    ensures |Apply(s, step).cpus| == |s.cpus| && |Apply(s, step).locks| == |s.locks|
  {
    var s' := Apply(s, step);
    assert CpuOk(s, step.c);
    if !Balanced(s, step) {
      assert !CpuOk(s', step.c);
      return;
    }
    forall c | 0 <= c < |s'.cpus| ensures CpuOk(s', c) {
      if c == step.c {
        ActorKept(s, step);
      } else {
        BystanderKept(s, step, c);
      }
    }
    forall l | 0 <= l < |s'.locks| ensures LockOk(s', l) {
      LockKept(s, step, l);
    }
    forall c, d, l | 0 <= c < |s'.cpus| && 0 <= d < |s'.cpus| && l in s'.cpus[c].held && l in s'.cpus[d].held
      ensures c == d {
      assert CpuOk(s, c) && CpuOk(s, d) && CpuOk(s, step.c);
    }
  }

  function Initial(locks: nat, cpus: nat): State {
    State(seq(locks, _ => Lock(false, -1)), seq(cpus, _ => Cpu(Outside, 0, false, false, {}, 0)))
  }

  ghost predicate Reaches(s: State, steps: seq<Step>, s': State)
    decreases |steps|
  {
    if steps == [] then s == s' else Enabled(s, steps[0]) && Reaches(Apply(s, steps[0]), steps[1..], s')
  }

  // A run without a popcli too many.
  ghost predicate AllBalanced(s: State, steps: seq<Step>)
    decreases |steps|
  {
    steps == [] || (Enabled(s, steps[0]) && Balanced(s, steps[0]) && AllBalanced(Apply(s, steps[0]), steps[1..]))
  }

  lemma {:induction false} RunKeeps(s: State, steps: seq<Step>, s': State)
    requires Inv(s) && Reaches(s, steps, s') && AllBalanced(s, steps)
    ensures Inv(s') && |s'.cpus| == |s.cpus| && |s'.locks| == |s.locks|
    decreases |steps|
  {
    if steps != [] {
      StepKeepsIff(s, steps[0]);
      RunKeeps(Apply(s, steps[0]), steps[1..], s');
    }
  }

  /** In every interleaving at most one CPU is between a winning acquire and its release of a lock, and a CPU
      has one level of interrupt nesting for each lock it holds and each pushcli not yet answered, and interrupts
      off while it has any. The release of a lock that is held never panics, nor does a popcli that is due. */
  lemma MutualExclusion(nlocks: nat, ncpus: nat, steps: seq<Step>, s: State, c: nat, d: nat, l: nat)
    requires Reaches(Initial(nlocks, ncpus), steps, s) && AllBalanced(Initial(nlocks, ncpus), steps) && c < ncpus
             && d < ncpus
    ensures |s.cpus| == ncpus
    ensures l in s.cpus[c].held && l in s.cpus[d].held ==> c == d
    ensures s.cpus[c].ncli >= |s.cpus[c].held| + s.cpus[c].pushes
    ensures s.cpus[c].held != {} || s.cpus[c].pushes > 0 ==> !s.cpus[c].interrupts
    ensures s.cpus[c].place == Outside && l in s.cpus[c].held ==> Enabled(s, Release(c, l))
    ensures s.cpus[c].place == Popping ==> Enabled(s, Pop(c))
    ensures s.cpus[c].place == Outside && s.cpus[c].pushes > 0 ==> Enabled(s, PopCli(c))
  {
    assert Inv(Initial(nlocks, ncpus));
    RunKeeps(Initial(nlocks, ncpus), steps, s);
    assert CpuOk(s, c);
    if s.cpus[c].place == Outside && l in s.cpus[c].held {
      assert LockOk(s, l);
    }
  }

  // Along the whole run the CPU is inside some nesting.
  ghost predicate Nested(s: State, steps: seq<Step>, c: nat)
    decreases |steps|
  {
    c < |s.cpus| && s.cpus[c].ncli > 0 && (steps != [] ==> Enabled(s, steps[0])
                                                           && Nested(Apply(s, steps[0]), steps[1..], c))
  }

  lemma {:induction false} FlagKept(s: State, steps: seq<Step>, s': State, c: nat)
    requires Reaches(s, steps, s') && Nested(s, steps, c)
    ensures c < |s'.cpus| && s'.cpus[c].intena == s.cpus[c].intena
    decreases |steps|
  {
    if steps != [] {
      FlagKept(Apply(s, steps[0]), steps[1..], s', c);
    }
  }

  /** However acquires, releases, pushclis and popclis nest and whatever the other CPUs do meanwhile, the popcli
      that ends the nesting leaves the interrupt flag as it was before the call that began it. */
  lemma InterruptsRestored(s: State, first: Step, steps: seq<Step>, s': State, last: Step)
    requires (first.Acquire? || first.PushCli?) && (last == Pop(first.c) || last == PopCli(first.c))
    requires Enabled(s, first) && s.cpus[first.c].ncli == 0
    requires Reaches(Apply(s, first), steps, s') && Nested(Apply(s, first), steps, first.c) && Enabled(s', last)
    ensures s'.cpus[first.c].ncli == 1 ==> Apply(s', last).cpus[first.c].interrupts == s.cpus[first.c].interrupts
    ensures s'.cpus[first.c].ncli > 1 ==> !Apply(s', last).cpus[first.c].interrupts
  {
    FlagKept(Apply(s, first), steps, s', first.c);
  }

  /** A popcli too many: a CPU with interrupts on takes a lock, makes one popcli, and holds the lock with
      interrupts on. */
  lemma OneTooMany() returns (steps: seq<Step>, s: State)
    ensures Reaches(Initial(1, 1), steps, s)
    ensures |s.cpus| == 1 && 0 in s.cpus[0].held && s.cpus[0].interrupts
  {
    var s0 := Initial(1, 1);
    var s1 := Apply(s0, Interrupts(0, true));
    var s2 := Apply(s1, Acquire(0, 0));
    var s3 := Apply(s2, Exchange(0));
    var s4 := Apply(s3, Record(0));
    s := Apply(s4, PopCli(0));
    First(s4, PopCli(0), [], s);
    First(s3, Record(0), [PopCli(0)], s);
    First(s2, Exchange(0), [Record(0)] + [PopCli(0)], s);
    steps := [Exchange(0)] + ([Record(0)] + [PopCli(0)]);
    First(s1, Acquire(0, 0), steps, s);
    steps := [Acquire(0, 0)] + steps;
    First(s0, Interrupts(0, true), steps, s);
    steps := [Interrupts(0, true)] + steps;
  }

  lemma First(s: State, step: Step, steps: seq<Step>, s': State)
    requires Enabled(s, step) && Reaches(Apply(s, step), steps, s')
    ensures Reaches(s, [step] + steps, s')
  {
    hide Enabled, Apply;
    assert ([step] + steps)[1..] == steps;
  }
}
