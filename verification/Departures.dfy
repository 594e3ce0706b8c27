/** Runs in which the kernel does not do what one would expect of it. Each is at one input; the conditions
    under which this happens are with the operations. */
module Departures {

  import opened AddressSpaces
  import opened Common
  import opened Processes
  import opened VirtualMemory

  // The first process runs alone.
  ghost predicate Alone(k: Kernel)
    reads k, k.refs, k.mem
  {
    && k.Valid() && |k.procs| == NPROC && k.procs[0].state == Running
    && (forall s | 1 <= s < NPROC :: k.procs[s].state == Unused)
    && k.procs[0].sz == 4096 && k.procs[0].shm == USERTOP && k.procs[0].mask == {}
    && Users(k.procs, k.procs[0].pgdir) == {0}
  }

  lemma OnlyUser(procs: ProcTable, s: nat)
    requires s < |procs| && Active(procs[s]) && forall t | 0 <= t < |procs| && t != s && Active(procs[t]) ::
             procs[t].pgdir != procs[s].pgdir
    ensures Users(procs, procs[s].pgdir) == {s}
  {
    assert Runs(procs[s], procs[s].pgdir);
  }

  // A kernel that has n free pages once its first process runs.
  method Boot(n: nat) returns (k: Kernel)
    ensures fresh(k) && fresh(k.mem) && fresh(k.refs) && Alone(k) && LostPages(k.mem.owner) == {} && |k.mem.free| == n
  {
    hide ValidMem, Consistent, Stacked;
    var mem := new Memory(seq(n + 2 + DIR_PAGES, i => i));
    k := new Kernel(mem);
    var ok := k.UserInit();
    k.SetState(0, Running);
    k.KeysInRange(0);
    OnlyUser(k.procs, 0);
  }

  /** fork with five free pages: setupkvm fails on the four that the kernel stack leaves, and they are lost. */
  method ForkLosesPages() returns (k: Kernel, np: int)
    ensures np == -1 && k.Valid() && LostPages(k.mem.owner) != {}
  {
    hide ValidMem, Consistent, Stacked;
    k := Boot(5);
    assert k.procs[1].state == Unused;
    np := k.Fork(0);
  }

  /** clone with a stack at the end of memory: -1, and a second thread all the same. */
  method CloneFailsWithChild() returns (k: Kernel, r: int)
    ensures r == -1 && k.Valid() && |k.procs| == NPROC && k.procs[1].state == Runnable
            && k.procs[1].pgdir == k.procs[0].pgdir
  {
    hide ValidMem, Consistent, Stacked;
    k := Boot(1);
    ghost var child;
    r, child := k.Clone(0, 8);
    assert Touches(8 + 4088, 8, 1);
  }

  /** shmgetat for four pages with three free: it fails, and no page is left. */
  method AttachLosesPages() returns (k: Kernel, r: int)
    ensures r == -1 && k.Valid() && LostPages(k.mem.owner) != {}
  {
    hide ValidMem, Consistent, Stacked;
    k := Boot(3);
    k.Unheld(0);
    assert k.mem.free[0] in k.mem.AttachLoss(0, 4, 4096, USERTOP);
    r := k.ShmGetAt(0, 0, 4, [0, 0, 0, 0]);
  }

  /** growproc by minus the whole size: the page is gone and the record says it is there. */
  method ShrinkBreaksRecord() returns (k: Kernel, ok: bool)
    ensures !ok && !k.Valid()
  {
    hide ValidMem, Consistent, Stacked;
    k := Boot(0);
    ok := k.GrowProc(0, -4096);
  }

  /** growproc by a thread of two: the other thread's record of their memory is wrong. */
  method ThreadLeftBehind() returns (k: Kernel, ok: bool)
    ensures ok && !k.Valid()
  {
    hide ValidMem, Consistent, Stacked;
    k := Boot(3);
    ghost var child;
    var r;
    assert k.procs[1].state == Unused;
    r, child := k.Clone(0, 0);
    assert Runs(k.procs[1], k.procs[0].pgdir) && 1 in Users(k.procs, k.procs[0].pgdir);
    ok := k.GrowProc(0, -1);
    assert k.procs[0].sz == 4095;
  }

  // Two processes run, each alone in its address space.
  ghost predicate Pair(k: Kernel)
    reads k, k.refs, k.mem
  {
    && k.Valid() && |k.procs| == NPROC && k.procs[0].state == Running && k.procs[1].state == Running
    && k.procs[1].parent == 0
    && (forall s | 2 <= s < NPROC :: k.procs[s].state == Unused)
    && Users(k.procs, k.procs[0].pgdir) == {0} && Users(k.procs, k.procs[1].pgdir) == {1}
    && k.procs[0].pgdir != k.procs[1].pgdir
  }

  // The first process forks.
  method Second(k: Kernel)
    requires Alone(k) && |k.mem.free| >= 2 + DIR_PAGES
    modifies k, k.refs, k.mem
    ensures Pair(k) && LostPages(k.mem.owner) == old(LostPages(k.mem.owner))
            && |k.mem.free| == |old(k.mem.free)| - 2 - DIR_PAGES
    ensures k.procs[0] == old(k.procs)[0] && k.procs[1].sz == 4096 && k.procs[1].shm == USERTOP && k.procs[1].mask == {}
  {
    hide ValidMem, Consistent, Stacked;
    k.KeysInRange(0);
    assert k.procs[1].state == Unused && !k.Crowded();
    var np := k.Fork(0);
    assert np == 1;
    k.KeysInRange(1);
    k.SetState(1, Running);
    OnlyUser(k.procs, 0);
    OnlyUser(k.procs, 1);
  }

  // The child grows to 157 pages while its parent attaches four.
  method Diverge(k: Kernel)
    requires Pair(k) && |k.mem.free| >= 160 && k.procs[0].sz == k.procs[1].sz == 4096
             && k.procs[0].shm == k.procs[1].shm == USERTOP
    requires k.procs[0].mask == k.procs[1].mask == {}
    modifies k, k.refs, k.mem
    ensures Pair(k) && LostPages(k.mem.owner) == old(LostPages(k.mem.owner))
    ensures k.procs[1].sz == 157 * 4096 && k.procs[0].shm == 156
  {
    hide ValidMem, Consistent, Stacked;
    var ok := k.GrowProc(1, 156 * 4096);
    OnlyUser(k.procs, 0);
    OnlyUser(k.procs, 1);
    k.Unheld(0);
    var r := k.ShmGetAt(0, 0, 4, [0, 0, 0, 0]);
    k.KeysInRange(0);
    OnlyUser(k.procs, 0);
    OnlyUser(k.procs, 1);
  }

  /** wait for a child that is larger than the caller's private part may be: the child's last page is lost. */
  method WaitLosesPages() returns (k: Kernel, s: int)
    ensures s == 1 && k.Valid() && LostPages(k.mem.owner) != {}
  {
    hide ValidMem, Consistent, Stacked;
    k := Boot(2 + DIR_PAGES + 160);
    Second(k);
    Diverge(k);
    k.Exit(1);
    assert k.ChildOf(1, 0, false);
    OnlyUser(k.procs, 1);
    s := k.Wait(0, false);
  }

  // The parent has four pages under key 0, and the child asks for one of them.
  method AskForOne(k: Kernel) returns (r: int)
    requires Pair(k) && |k.mem.free| >= 4 && k.procs[0].sz == k.procs[1].sz == 4096
             && k.procs[0].shm == k.procs[1].shm == USERTOP
    requires k.procs[0].mask == k.procs[1].mask == {}
    modifies k, k.refs, k.mem
    ensures r != -1 && !k.Valid()
  {
    hide ValidMem, Consistent, Stacked;
    k.Unheld(0);
    r := k.ShmGetAt(0, 0, 4, [0, 0, 0, 0]);
    OnlyUser(k.procs, 0);
    OnlyUser(k.procs, 1);
    var pages := k.mem.tab[0].pages;
    var junk := seq(4, _ => pages[1] + 1);
    assert AttachArray(pages, 1, junk)[..4][1] == junk[1] != pages[..4][1];
    r := k.ShmGetAt(1, 0, 1, junk);
  }

  /** shmgetat for one page of a segment of four: it succeeds, and maps what was in the array in place of the rest. */
  method ShortRequestMapsWrongPages() returns (k: Kernel, r: int)
    ensures r != -1 && !k.Valid()
  {
    hide ValidMem, Consistent, Stacked;
    k := Boot(2 + DIR_PAGES + 4);
    Second(k);
    r := AskForOne(k);
  }
}
