/** The multi-level feedback queue scheduler on one CPU, with every runnable process CPU-bound: each
round boosts the starved, runs the first process of the best level for one tick and charges it.

The question is how long a runnable process can wait. With at most 20 competitors the wait is
bounded; 22 processes started together leave the last of them without the CPU for ever. */
module Mlfq {

  import opened Common

  const NPRIOR := 4

  type Level = n: nat | n < 4

  // last is the tick at which the process was last given the CPU.
  datatype Proc = Proc(runnable: bool, priority: Level, ticks: nat, last: int)

  type Table = seq<Proc>

  function Quota(level: Level): nat {
    if level < 2 then 5 else if level == 2 then 10 else 20
  }

  function Boosted(p: Proc, now: int): Proc {
    if p.runnable && 0 < p.priority && p.last + 100 < now then p.(priority := p.priority - 1) else p
  }

  function Boost(t: Table, now: int): Table {
    seq(|t|, k requires 0 <= k < |t| => Boosted(t[k], now))
  }

  // A tick used by the running process; the count is kept across boosts.
  function Charged(p: Proc): Proc {
    if p.priority < 3 && p.ticks + 1 >= Quota(p.priority) then p.(priority := p.priority + 1, ticks := 0)
    else p.(ticks := p.ticks + 1)
  }

  // k is the first runnable process of the best level that has one.
  ghost predicate Chosen(t: Table, k: int) {
    && 0 <= k < |t| && t[k].runnable
    && forall j | 0 <= j < |t| && t[j].runnable :: t[k].priority < t[j].priority
                                                   || (t[k].priority == t[j].priority && k <= j)
  }

  ghost predicate Runs(t: Table, now: int, i: int) {
    Chosen(Boost(t, now), i)
  }

  ghost function Round(t: Table, now: int): Table {
    if i :| Runs(t, now, i) then Boost(t, now)[i := Charged(Boost(t, now)[i].(last := now))] else Boost(t, now)
  }

  ghost function Run(t: Table, now: int, n: nat): Table
    decreases n
  {
    if n == 0 then t else Run(Round(t, now), now + 1, n - 1)
  }

  // Process i gets the CPU in one of the first n rounds.
  ghost predicate RunsWithin(t: Table, now: int, i: int, n: nat)
    decreases n
  {
    n > 0 && (Runs(t, now, i) || RunsWithin(Round(t, now), now + 1, i, n - 1))
  }

  class Scheduler {
    var table: Table
    var ticks: int

    constructor (table: Table, ticks: int)
      ensures this.table == table && this.ticks == ticks
    {
      this.table, this.ticks := table, ticks;
    }

    // The pass that lifts every process that has waited too long by one level.
    method BoostAll(now: int)
      modifies `table
      ensures table == Boost(old(table), now)
    {
      var k := 0;
      while k < |table|
        invariant 0 <= k <= |table| == |old(table)|
        invariant forall j | 0 <= j < k :: table[j] == Boosted(old(table)[j], now)
        invariant forall j | k <= j < |table| :: table[j] == old(table)[j]
      {
        var p := table[k];
        if p.runnable && 0 < p.priority && p.last + 100 < now {
          table := table[k := p.(priority := p.priority - 1)];
        }
        k := k + 1;
      }
    }

    // The level-by-level search for a process to run; -1 when there is none.
    method Pick() returns (k: int)
      ensures k == -1 ==> forall j | 0 <= j < |table| :: !table[j].runnable
      ensures k != -1 ==> Chosen(table, k)
    {
      var priority := 0;
      while priority < NPRIOR
        invariant priority <= NPRIOR
        invariant forall j | 0 <= j < |table| && table[j].runnable :: table[j].priority >= priority
      {
        k := 0;
        while k < |table|
          invariant 0 <= k <= |table|
          invariant forall j | 0 <= j < k && table[j].runnable :: table[j].priority > priority
        {
          if table[k].runnable && table[k].priority == priority {
            return;
          }
          k := k + 1;
        }
        priority := priority + 1;
      }
      k := -1;
    }

    // Account for the tick the process in slot k has used.
    method UpdateTicks(k: nat)
      requires k < |table|
      modifies `table
      ensures table == old(table)[k := Charged(old(table)[k])]
    {
      table := table[k := table[k].(ticks := table[k].ticks + 1)];
      if table[k].priority < NPRIOR - 1 && table[k].ticks >= Quota(table[k].priority) {
        table := table[k := table[k].(priority := table[k].priority + 1)];
        table := table[k := table[k].(ticks := 0)];
      }
    }

    // One pass of the scheduler loop and the tick that ends it.
    method Schedule() returns (k: int)
      modifies this
      ensures table == Round(old(table), old(ticks)) && ticks == old(ticks) + 1
      ensures k == -1 <==> forall j | 0 <= j < |old(table)| :: !old(table)[j].runnable
      ensures k != -1 ==> Runs(old(table), old(ticks), k)
    {
      var now := ticks;
      BoostAll(now);
      k := Pick();
      if k != -1 {
        RoundIs(old(table), now, k);
        table := table[k := table[k].(last := now)];
        UpdateTicks(k);
      }
      assert forall j | 0 <= j < |old(table)| :: Boost(old(table), now)[j].runnable == old(table)[j].runnable;
      ticks := ticks + 1;
    }
  }

  lemma ChosenUnique(t: Table, k: int)
    requires Chosen(t, k)
    ensures forall j | Chosen(t, j) :: j == k
  {
  }

  // The least of the first n processes in the order of the search.
  lemma {:induction false} BestOf(t: Table, n: nat) returns (k: int)
    requires n <= |t|
    ensures k == -1 ==> forall j | 0 <= j < n :: !t[j].runnable
    ensures k != -1 ==> 0 <= k < n && Chosen(t[..n], k)
  {
    if n == 0 {
      return -1;
    }
    k := BestOf(t, n - 1);
    if t[n - 1].runnable && (k == -1 || t[n - 1].priority < t[k].priority) {
      k := n - 1;
    }
  }

  // What one round does to the table, with k the process that gets the CPU.
  lemma RoundIs(t: Table, now: int, k: int)
    requires Runs(t, now, k)
    ensures Round(t, now) == Boost(t, now)[k := Charged(Boost(t, now)[k].(last := now))]
  {
  }

  // The level at which a process enters the round: one better if it has waited for more than 100 ticks.
  function EntryLevel(p: Proc, now: int): nat {
    if p.runnable && 0 < p.priority && now - p.last > 100 then p.priority - 1 else p.priority
  }

  /** A round for every table, with k the process that gets the CPU. At level 0 and 1 it goes down a level with its
      fifth tick there, at level 2 with its tenth, and starts counting anew; at level 3 it stays. Everybody else keeps
      its ticks and can only go up. */
  lemma RoundExact(t: Table, now: int, k: int)
    requires Runs(t, now, k)
    ensures var t' := Round(t, now); var l := EntryLevel(t[k], now);
            && |t'| == |t|
            && t'[k].last == now && t'[k].runnable
            && (t'[k].priority == l || t'[k].priority == l + 1)
            && (t'[k].priority == l + 1 <==> (l <= 1 && t[k].ticks >= 4) || (l == 2 && t[k].ticks >= 9))
            && t'[k].ticks == (if t'[k].priority == l then t[k].ticks + 1 else 0)
            && forall j | 0 <= j < |t| && j != k :: t'[j] == t[j].(priority := EntryLevel(t[j], now))
  {
    RoundIs(t, now, k);
  }

  // A process alone after n rounds from tick 1 on.
  function AloneAfter(n: nat): Proc {
    if n < 5 then Proc(true, 0, n, n)
    else if n < 10 then Proc(true, 1, n - 5, n)
    else if n < 20 then Proc(true, 2, n - 10, n)
    else Proc(true, 3, n - 20, n)
  }

  lemma AloneRound(n: nat)
    ensures Round([AloneAfter(n)], n + 1) == [AloneAfter(n + 1)]
  {
    var t := [AloneAfter(n)];
    assert Chosen(Boost(t, n + 1), 0);
    RoundExact(t, n + 1, 0);
    assert Round(t, n + 1)[0] == AloneAfter(n + 1);
  }

  lemma {:induction false} AloneRun(m: nat, n: nat)
    ensures Run([AloneAfter(m)], m + 1, n) == [AloneAfter(m + n)]
    decreases n
  {
    if n > 0 {
      AloneRound(m);
      AloneRun(m + 1, n - 1);
    }
  }

  /** A process alone is at level 0 for five rounds, at level 1 for five, at level 2 for ten, and then at level 3. */
  lemma AloneSinks(n: nat)
    ensures |Run(Fresh(1), 1, n)| == 1
    ensures Run(Fresh(1), 1, n)[0].priority == if n < 5 then 0 else if n < 10 then 1 else if n < 20 then 2 else 3
  {
    assert Fresh(1) == [AloneAfter(0)];
    AloneRun(0, n);
  }

  // Somebody runs whenever anybody can.
  lemma SomeoneRuns(t: Table, now: int, i: nat) returns (k: int)
    requires i < |t| && t[i].runnable
    ensures Runs(t, now, k)
  {
    var b := Boost(t, now);
    assert b[..|b|] == b && b[i].runnable;
    k := BestOf(b, |b|);
  }

  // Everybody got the CPU last in the past.
  ghost predicate Past(t: Table, now: int) {
    forall j | 0 <= j < |t| :: t[j].last < now
  }

  function Competitors(t: Table, i: int, n: nat): nat
    requires n <= |t|
  {
    if n == 0 then 0 else Competitors(t, i, n - 1) + if n - 1 != i && t[n - 1].runnable then 1 else 0
  }

  ghost function Rivals(t: Table, i: int): nat {
    Competitors(t, i, |t|)
  }

  // The rounds p can still take before a process waiting at level 0 since `start`.
  function Budget(p: Proc, start: int): nat {
    if !p.runnable then 0 else if p.last < start then 5 else if p.priority == 0 && p.ticks < 5 then 5 - p.ticks else 0
  }

  ghost function Total(t: Table, i: int, start: int, n: nat): nat
    requires n <= |t|
  {
    if n == 0 then 0 else Total(t, i, start, n - 1) + if n - 1 != i then Budget(t[n - 1], start) else 0
  }

  lemma {:induction false} TotalBound(t: Table, i: int, start: int, n: nat)
    requires n <= |t|
    ensures Total(t, i, start, n) <= 5 * Competitors(t, i, n)
  {
    if n > 0 {
      TotalBound(t, i, start, n - 1);
    }
  }

  // Sums compare when their terms do, and one smaller term makes the sum smaller.
  lemma {:induction false} TotalDrops(t: Table, t': Table, i: int, start: int, n: nat, k: int)
    requires n <= |t| == |t'| && k != i
    requires forall j | 0 <= j < n && j != k :: Budget(t'[j], start) <= Budget(t[j], start)
    requires 0 <= k < n ==> Budget(t'[k], start) < Budget(t[k], start)
    ensures Total(t', i, start, n) <= Total(t, i, start, n) - if 0 <= k < n then 1 else 0
  {
    if n > 0 {
      TotalDrops(t, t', i, start, n - 1, k);
    }
  }

  lemma {:induction false} SameRivals(t: Table, t': Table, i: int, n: nat)
    requires n <= |t| == |t'| && forall j | 0 <= j < n :: t'[j].runnable == t[j].runnable
    ensures Competitors(t', i, n) == Competitors(t, i, n)
  {
    if n > 0 {
      SameRivals(t, t', i, n - 1);
    }
  }

  // Process i waits at level 0 since `start`, and whoever ran since then has not used up level 0 and stayed.
  ghost predicate Waiting(t: Table, now: int, i: int, start: int) {
    && 0 <= i < |t| && t[i].runnable && Boosted(t[i], now).priority == 0
    && forall j | 0 <= j < |t| && t[j].last >= start && t[j].priority == 0 :: t[j].ticks < 5
  }

  // In the 100 rounds after `start` nobody who ran since then is boosted, so each round uses up budget.
  lemma WaitStep(t: Table, now: int, i: int, start: int, k: int)
    requires Waiting(t, now, i, start) && start <= now <= start + 100
    requires Runs(t, now, k) && k != i
    ensures Waiting(Round(t, now), now + 1, i, start)
    ensures Total(Round(t, now), i, start, |Round(t, now)|) < Total(t, i, start, |t|)
  {
    RoundIs(t, now, k);
    var t' := Round(t, now);
    assert Boost(t, now)[i].priority == 0 && Boost(t, now)[k].priority == 0;
    TotalDrops(t, t', i, start, |t|, k);
  }

  lemma {:induction false} WaitEnds(t: Table, now: int, i: int, start: int)
    requires Waiting(t, now, i, start) && start <= now && now + Total(t, i, start, |t|) <= start + 100
    ensures RunsWithin(t, now, i, Total(t, i, start, |t|) + 1)
    decreases Total(t, i, start, |t|)
  {
    if !Runs(t, now, i) {
      var k := SomeoneRuns(t, now, i);
      WaitStep(t, now, i, start, k);
      WaitEnds(Round(t, now), now + 1, i, start);
      MoreRounds(Round(t, now), now + 1, i, Total(Round(t, now), i, start, |Round(t, now)|) + 1,
                 Total(t, i, start, |t|));
    }
  }

  lemma {:induction false} MoreRounds(t: Table, now: int, i: int, n: nat, n': nat)
    requires RunsWithin(t, now, i, n) && n <= n'
    ensures RunsWithin(t, now, i, n')
    decreases n
  {
    if !Runs(t, now, i) {
      MoreRounds(Round(t, now), now + 1, i, n - 1, n' - 1);
    }
  }

  /** A process at level 0 with at most 20 competitors runs within five rounds per competitor. */
  lemma LevelZeroWait(t: Table, now: int, i: int)
    requires 0 <= i < |t| && t[i].runnable && Boosted(t[i], now).priority == 0
    requires Past(t, now) && Rivals(t, i) <= 20
    ensures RunsWithin(t, now, i, 5 * Rivals(t, i) + 1)
  {
    TotalBound(t, i, now, |t|);
    WaitEnds(t, now, i, now);
    MoreRounds(t, now, i, Total(t, i, now, |t|) + 1, 5 * Rivals(t, i) + 1);
  }

  // A round in which i does not run changes only its level, and only when it is starved.
  lemma PassedOver(t: Table, now: int, i: int)
    requires 0 <= i < |t| && t[i].runnable && !Runs(t, now, i)
    ensures |Round(t, now)| == |t| && Round(t, now)[i] == Boosted(t[i], now)
    ensures Past(t, now) ==> Past(Round(t, now), now + 1)
    ensures Rivals(Round(t, now), i) == Rivals(t, i)
  {
    var k := SomeoneRuns(t, now, i);
    RoundIs(t, now, k);
    SameRivals(t, Round(t, now), i, |t|);
  }

  /** A starved process runs within n rounds or climbs one level in each. */
  lemma {:induction false} StarvedClimbs(t: Table, now: int, i: int, n: nat)
    requires 0 <= i < |t| && t[i].runnable && t[i].last + 100 < now && !RunsWithin(t, now, i, n)
    ensures |Run(t, now, n)| == |t|
    ensures Run(t, now, n)[i] == t[i].(priority := if t[i].priority <= n then 0 else t[i].priority - n)
    decreases n
  {
    if n > 0 {
      PassedOver(t, now, i);
      StarvedClimbs(Round(t, now), now + 1, i, n - 1);
    }
  }

  // With at most 20 competitors the climb and the wait at level 0 add up.
  lemma {:induction false} StarvedClimb(t: Table, now: int, i: int, n: nat)
    requires 0 <= i < |t| && t[i].runnable && t[i].last + 100 < now
    requires Past(t, now) && Rivals(t, i) <= 20
    requires n >= (if t[i].priority <= 1 then 0 else t[i].priority - 1) + 5 * Rivals(t, i) + 1
    ensures RunsWithin(t, now, i, n)
    decreases t[i].priority
  {
    if t[i].priority <= 1 {
      LevelZeroWait(t, now, i);
      MoreRounds(t, now, i, 5 * Rivals(t, i) + 1, n);
    } else if !Runs(t, now, i) {
      PassedOver(t, now, i);
      StarvedClimb(Round(t, now), now + 1, i, n - 1);
    }
  }

  // The ticks until p counts as starved.
  function Patience(p: Proc, now: int): nat {
    if p.last + 101 <= now then 0 else p.last + 101 - now
  }

  /** No starvation: with at most 20 competitors every runnable process runs again within 100 ticks of
      its last run, the climb to level 0 and five rounds per competitor. */
  lemma {:induction false} BoundedWait(t: Table, now: int, i: int, n: nat)
    requires 0 <= i < |t| && t[i].runnable
    requires Past(t, now) && Rivals(t, i) <= 20
    requires n >= Patience(t[i], now) + 2 + 5 * Rivals(t, i) + 1
    ensures RunsWithin(t, now, i, n)
    decreases n
  {
    if Patience(t[i], now) == 0 {
      StarvedClimb(t, now, i, n);
    } else if !Runs(t, now, i) {
      PassedOver(t, now, i);
      BoundedWait(Round(t, now), now + 1, i, n - 1);
    }
  }

  // The starving crowd: 21 processes take turns of five rounds, number m being r rounds into its
  // turn; everybody above is at level 0 and waits.
  function Crowd(n: nat, now: int, m: int, r: int): Table
    requires 0 <= r < 5
  {
    seq(n, j => if j >= 21 then Proc(true, 0, 0, 0)
                else if j == m && r > 0 then Proc(true, 0, r, now - 1)
                else Proc(true, 1, 0, now - r - 5 * (m - j) + 4 - if j < m then 0 else 105))
  }

  lemma CrowdRound(n: nat, now: int, m: int, r: int)
    requires 22 <= n && 0 <= m < 21 && 0 <= r < 5
    ensures Runs(Crowd(n, now, m, r), now, m)
    ensures Round(Crowd(n, now, m, r), now) ==
            if r < 4 then Crowd(n, now + 1, m, r + 1) else Crowd(n, now + 1, if m < 20 then m + 1 else 0, 0)
  {
    var t := Crowd(n, now, m, r);
    var b := Boost(t, now);
    var t' := if r < 4 then Crowd(n, now + 1, m, r + 1) else Crowd(n, now + 1, if m < 20 then m + 1 else 0, 0);
    assert Chosen(b, m);
    RoundIs(t, now, m);
    assert b[m] == Proc(true, 0, r, b[m].last) && Charged(b[m].(last := now)) == t'[m];
    forall j | 0 <= j < n && j != m ensures b[j] == t'[j] {
    }
    assert b[m := t'[m]] == t';
  }

  lemma {:induction false} CrowdStarves(n: nat, now: int, m: int, r: int, i: int, k: nat)
    requires 22 <= n && 0 <= m < 21 && 0 <= r < 5 && i >= 21
    ensures !RunsWithin(Crowd(n, now, m, r), now, i, k)
    decreases k
  {
    if k > 0 {
      var t := Crowd(n, now, m, r);
      CrowdRound(n, now, m, r);
      ChosenUnique(Boost(t, now), m);
      if r < 4 {
        CrowdStarves(n, now + 1, m, r + 1, i, k - 1);
      } else {
        CrowdStarves(n, now + 1, if m < 20 then m + 1 else 0, 0, i, k - 1);
      }
    }
  }

  lemma {:induction false} CrowdRivals(t: Table, i: nat, n: nat)
    requires n <= |t| && forall j | 0 <= j < n :: t[j].runnable
    ensures Competitors(t, i, n) == if i < n then n - 1 else n
  {
    if n > 0 {
      CrowdRivals(t, i, n - 1);
    }
  }

  // Processes that have just been made.
  function Fresh(n: nat): Table {
    seq(n, _ => Proc(true, 0, 0, 0))
  }

  // The first pass over 21 of them, at five rounds each from tick 1 on: number m is r rounds into its turn.
  function Warm(n: nat, m: int, r: int): Table
    requires 0 <= r < 5
  {
    seq(n, j => if j < m then Proc(true, 1, 0, 5 * j + 5)
                else if j == m && r > 0 then Proc(true, 0, r, 5 * m + r)
                else Proc(true, 0, 0, 0))
  }

  lemma WarmRound(n: nat, m: int, r: int)
    requires 22 <= n && 0 <= m < 21 && 0 <= r < 5
    ensures Runs(Warm(n, m, r), 5 * m + r + 1, m)
    ensures Round(Warm(n, m, r), 5 * m + r + 1) == if r < 4 then Warm(n, m, r + 1) else Warm(n, m + 1, 0)
  {
    var t, now := Warm(n, m, r), 5 * m + r + 1;
    var b := Boost(t, now);
    var t' := if r < 4 then Warm(n, m, r + 1) else Warm(n, m + 1, 0);
    assert Chosen(b, m);
    RoundIs(t, now, m);
    assert b[m := t'[m]] == t';
  }

  // The first pass ends in the starving crowd.
  lemma {:induction false} WarmStarves(n: nat, m: int, r: int, k: nat)
    requires 22 <= n && 0 <= m <= 21 && 0 <= r < 5 && (m == 21 ==> r == 0)
    ensures !RunsWithin(Warm(n, m, r), 5 * m + r + 1, 21, k)
    decreases k
  {
    hide Round, Boost;
    if m == 21 {
      assert Warm(n, 21, 0) == Crowd(n, 106, 0, 0);
      CrowdStarves(n, 106, 0, 0, 21, k);
    } else if k > 0 {
      WarmRound(n, m, r);
      ChosenUnique(Boost(Warm(n, m, r), 5 * m + r + 1), m);
      if r < 4 {
        WarmStarves(n, m, r + 1, k - 1);
      } else {
        WarmStarves(n, m + 1, 0, k - 1);
      }
    }
  }

  // A runnable process, at any level, with m competitors.
  ghost predicate Situation(t: Table, now: int, i: int, m: nat) {
    0 <= i < |t| && |t| <= NPROC && t[i].runnable && Past(t, now) && Rivals(t, i) == m
  }

  ghost predicate RunsEventually(t: Table, now: int, i: int) {
    exists n: nat :: RunsWithin(t, now, i, n)
  }

  // Process i of m + 1 made at the start gets the CPU some time.
  ghost predicate GetsTurn(m: nat, i: int) {
    RunsEventually(Fresh(m + 1), 1, i)
  }

  /** Of 22 or more processes made at the start, number 21 never gets the CPU. */
  lemma FreshStarves(m: nat)
    requires 21 <= m
    ensures !GetsTurn(m, 21)
  {
    var t := Fresh(m + 1);
    assert t == Warm(m + 1, 0, 0);
    forall n: nat ensures !RunsWithin(t, 1, 21, n) {
      WarmStarves(m + 1, 0, 0, n);
    }
  }

  lemma FreshSituation(m: nat, i: nat)
    requires i <= m < NPROC
    ensures Situation(Fresh(m + 1), 1, i, m)
  {
    CrowdRivals(Fresh(m + 1), i, m + 1);
  }

  /** The bound is exact: m competitors can keep no process, whatever its level, waiting for ever if and only if
      there are at most 20 of them; and the same holds of m + 1 processes made at the start. */
  lemma NobodyStarvesIff(m: nat)
    requires m < NPROC
    ensures (forall t, now, i | Situation(t, now, i, m) :: RunsEventually(t, now, i)) <==> m <= 20
    ensures (forall i | 0 <= i <= m :: GetsTurn(m, i)) <==> m <= 20
  {
    if m <= 20 {
      forall t, now, i | Situation(t, now, i, m) ensures RunsEventually(t, now, i) {
        BoundedWait(t, now, i, Patience(t[i], now) + 2 + 5 * Rivals(t, i) + 1);
      }
      forall i | 0 <= i <= m ensures GetsTurn(m, i) {
        FreshSituation(m, i);
      }
    } else {
      FreshStarves(m);
      FreshSituation(m, 21);
    }
  }
}
