/** Processes and threads: each system call as one step on the process table, the table of page
    directory reference counts and the memory behind the directories. */
module Processes {

  import opened AddressSpaces
  import opened Common
  import opened PageDirs
  import opened VirtualMemory

  datatype ProcState = Unused | Embryo | Sleeping | Runnable | Running | Zombie

  // kstack is the page of the kernel stack, parent is a slot number; -1 for none.
  datatype Proc = Proc(state: ProcState, kstack: int, pgdir: int, parent: int, sz: nat, shm: int, mask: set<int>,
                       va: map<int, int>)

  type ProcTable = seq<Proc>

  // The slot has its directory counted.
  predicate Active(p: Proc) {
    p.state != Unused && p.state != Embryo
  }

  ghost predicate Runs(p: Proc, d: int) {
    Active(p) && p.pgdir == d
  }

  // The slots that use directory d.
  ghost function Users(procs: ProcTable, d: int): set<int> {
    set s | 0 <= s < |procs| && Runs(procs[s], d)
  }

  // The thread's own record of its address space is right.
  ghost predicate Agrees(p: Proc, sp: Space) {
    p.sz == sp.sz && p.shm == sp.shm && p.mask == sp.mask && forall k | k in p.mask ::
        k in p.va && k in sp.va && p.va[k] == sp.va[k]
  }

  ghost predicate Recorded(p: Proc, spaces: map<int, Space>) {
    Active(p) ==> p.pgdir in spaces && Agrees(p, spaces[p.pgdir])
  }

  /** Every directory is counted once for each slot that uses it, a directory exists exactly as long as
      somebody uses it, and all its users know its address space. */
  ghost predicate Consistent(procs: ProcTable, refs: seq<Ref>, spaces: map<int, Space>) {
    && |procs| == NPROC
    && (forall d :: CountOf(refs, d) == |Users(procs, d)|)
    && (forall d :: d in spaces <==> CountOf(refs, d) > 0)
    && (forall s | 0 <= s < NPROC :: Recorded(procs[s], spaces))
  }

  /** Every process has a kernel stack of its own, and no page is a stack of anything else. */
  ghost predicate Stacked(procs: ProcTable, stacks: map<Page, int>) {
    && (forall s | 0 <= s < |procs| && Active(procs[s]) :: procs[s].kstack in stacks && stacks[procs[s].kstack] == s)
    && (forall p | p in stacks :: 0 <= stacks[p] < |procs| && Active(procs[stacks[p]]) && procs[stacks[p]].kstack == p)
  }

  lemma StackAdded(procs: ProcTable, stacks: map<Page, int>, s: nat, p: Proc)
    requires Stacked(procs, stacks) && s < |procs| && !Active(procs[s]) && Active(p) && p.kstack !in stacks
    ensures Stacked(procs[s := p], stacks[p.kstack := s])
  {
  }

  lemma StackRemoved(procs: ProcTable, stacks: map<Page, int>, s: nat, p: Proc)
    requires Stacked(procs, stacks) && s < |procs| && Active(procs[s]) && !Active(p)
    ensures procs[s].kstack in stacks && Stacked(procs[s := p], stacks - {procs[s].kstack})
  {
  }

  lemma StacksSame(procs: ProcTable, procs': ProcTable, stacks: map<Page, int>)
    requires Stacked(procs, stacks) && |procs'| == |procs|
    requires forall s | 0 <= s < |procs| :: Active(procs'[s]) == Active(procs[s]) && procs'[s].kstack == procs[s].kstack
    ensures Stacked(procs', stacks)
  {
  }

  lemma TakenBack(stacks: map<Page, int>, p: Page, s: int)
    requires p !in stacks
    ensures stacks[p := s] - {p} == stacks
  {
  }

  lemma StackKept(procs: ProcTable, stacks: map<Page, int>, s: nat, p: Proc)
    requires Stacked(procs, stacks) && s < |procs| && Active(procs[s]) && Active(p) && p.kstack == procs[s].kstack
    ensures Stacked(procs[s := p], stacks)
  {
  }

  lemma UsersWith(procs: ProcTable, s: nat, p: Proc, d: int)
    requires s < |procs| && !Active(procs[s]) && Active(p)
    ensures |Users(procs[s := p], d)| == |Users(procs, d)| + if p.pgdir == d then 1 else 0
  {
    assert Users(procs[s := p], d) == if p.pgdir == d then Users(procs, d) + {s} else Users(procs, d);
  }

  lemma UsersWithout(procs: ProcTable, s: nat, p: Proc, d: int)
    requires s < |procs| && Active(procs[s]) && !Active(p)
    ensures |Users(procs[s := p], d)| == |Users(procs, d)| - if procs[s].pgdir == d then 1 else 0
  {
    assert Users(procs[s := p], d) == Users(procs, d) - {s};
    assert procs[s].pgdir == d <==> s in Users(procs, d);
  }

  lemma UsersSame(procs: ProcTable, procs': ProcTable, d: int)
    requires |procs| == |procs'| && forall s | 0 <= s < |procs| :: Runs(procs'[s], d) <==> Runs(procs[s], d)
    ensures Users(procs', d) == Users(procs, d)
  {
  }

  // One user for each of the first n entries, all different slots.
  lemma {:induction false} OneUserEach(procs: ProcTable, refs: seq<Ref>, n: nat) returns (slots: seq<int>)
    requires n <= |refs| && forall i | 0 <= i < n :: Users(procs, refs[i].addr) != {}
    ensures |slots| == n && forall i | 0 <= i < n :: slots[i] in Users(procs, refs[i].addr)
  {
    if n == 0 {
      return [];
    }
    slots := OneUserEach(procs, refs, n - 1);
    var s :| s in Users(procs, refs[n - 1].addr);
    slots := slots + [s];
  }

  // Users of different directories are different, and none of them is the free slot.
  lemma FewerUsers(procs: ProcTable, refs: seq<Ref>, slots: seq<int>, np: nat)
    requires |procs| == NPROC && np < NPROC && !Active(procs[np]) && Unique(refs) && |slots| <= |refs|
    requires forall i | 0 <= i < |slots| :: refs[i].count > 0 && slots[i] in Users(procs, refs[i].addr)
    ensures |slots| < NPROC
  {
    Distincts(slots);
    forall k | k in slots ensures k in UpTo(NPROC) - {np} {
      UpToIs(NPROC, k);
    }
    UpToIs(NPROC, np);
    SubsetSize((set k | k in slots), UpTo(NPROC) - {np});
  }

  /** The pigeonhole: while some slot is not in use, some entry of the reference table is free. */
  lemma EntryFree(procs: ProcTable, refs: seq<Ref>, np: nat)
    requires |procs| == NPROC == |refs| && np < NPROC && !Active(procs[np]) && Unique(refs)
    requires forall d :: CountOf(refs, d) == |Users(procs, d)|
    ensures exists i :: 0 <= i < NPROC && refs[i].count == 0
  {
    if forall i | 0 <= i < NPROC :: refs[i].count > 0 {
      forall i | 0 <= i < NPROC ensures Users(procs, refs[i].addr) != {} {
        CountAt(refs, i);
      }
      var slots := OneUserEach(procs, refs, NPROC);
      FewerUsers(procs, refs, slots, np);
    }
  }

  // Slot np, free before, runs p in directory d.
  lemma JoinedConsistent(procs: ProcTable, refs: seq<Ref>, spaces: map<int, Space>, np: nat, p: Proc, refs': seq<Ref>,
                         spaces': map<int, Space>)
    requires Consistent(procs, refs, spaces) && np < NPROC && !Active(procs[np]) && Active(p)
    requires forall d :: CountOf(refs', d) == CountOf(refs, d) + if d == p.pgdir then 1 else 0
    requires p.pgdir in spaces' && Agrees(p, spaces'[p.pgdir])
    requires if p.pgdir in spaces then spaces' == spaces else spaces' == spaces[p.pgdir := spaces'[p.pgdir]]
    ensures Consistent(procs[np := p], refs', spaces')
  {
    var procs' := procs[np := p];
    forall d ensures CountOf(refs', d) == |Users(procs', d)| && (d in spaces' <==> CountOf(refs', d) > 0) {
      UsersWith(procs, np, p, d);
    }
    forall s | 0 <= s < NPROC ensures Recorded(procs'[s], spaces') {
      assert Recorded(procs[s], spaces);
    }
  }

  // Slot s, in use before, is given up; its directory goes if nobody else uses it.
  lemma LeftConsistent(procs: ProcTable, refs: seq<Ref>, spaces: map<int, Space>, s: nat, p: Proc, refs': seq<Ref>,
                       spaces': map<int, Space>)
    requires Consistent(procs, refs, spaces) && s < NPROC && Active(procs[s]) && !Active(p)
    requires forall d :: CountOf(refs', d) == CountOf(refs, d) - if d == procs[s].pgdir then 1 else 0
    requires spaces' == if CountOf(refs, procs[s].pgdir) == 1 then spaces - {procs[s].pgdir} else spaces
    ensures Consistent(procs[s := p], refs', spaces')
  {
    var procs' := procs[s := p];
    forall d ensures CountOf(refs', d) == |Users(procs', d)| && (d in spaces' <==> CountOf(refs', d) > 0) {
      UsersWithout(procs, s, p, d);
    }
    forall t | 0 <= t < NPROC ensures Recorded(procs'[t], spaces') {
      assert Recorded(procs[t], spaces);
      if Active(procs'[t]) && procs[t].pgdir == procs[s].pgdir {
        TwoUsers(Users(procs, procs[s].pgdir), s, t);
      }
    }
  }

  lemma TwoUsers(users: set<int>, s: int, t: int)
    requires s in users && t in users && s != t
    ensures |users| >= 2
  {
    assert {s, t} <= users;
    SubsetSize({s, t}, users);
  }

  class Kernel {
    var procs: ProcTable
    const refs: RefTable
    const mem: Memory

    ghost predicate Valid()
      reads this, refs, mem
    {
      && |procs| == NPROC && refs.Valid() && mem.Valid()
      && Consistent(procs, refs.refs, mem.spaces) && Stacked(procs, Stacks(mem.owner))
    }

    // The kernel before the first process.
    constructor (mem: Memory)
      requires mem.Valid() && mem.spaces == map[] && Stacks(mem.owner) == map[]
      ensures Valid() && this.mem == mem && fresh(refs)
      ensures |procs| == NPROC && forall s | 0 <= s < NPROC :: procs[s].state == Unused
    {
      this.mem := mem;
      refs := new RefTable();
      procs := seq(NPROC, _ => Proc(Unused, -1, 0, -1, 0, USERTOP, {}, map[]));
      new;
      assert forall d :: Users(procs, d) == {};
    }

    // Slot np is the first that is free.
    ghost predicate Slot(np: int)
      reads this
    {
      0 <= np < |procs| && procs[np].state == Unused && forall s | 0 <= s < np :: procs[s].state != Unused
    }

    // The first free slot; -1 if there is none.
    method FindSlot() returns (np: int)
      requires |procs| == NPROC
      ensures np == -1 ==> forall s | 0 <= s < NPROC :: procs[s].state != Unused
      ensures np != -1 ==> Slot(np)
    {
      np := 0;
      while np < NPROC
        invariant 0 <= np <= NPROC
        invariant forall s | 0 <= s < np :: procs[s].state != Unused
      {
        if procs[np].state == Unused {
          return;
        }
        np := np + 1;
      }
      np := -1;
    }

    // Copy the attachment addresses of the keys in mask.
    method CopyVa(mask: set<int>, from: map<int, int>, to: map<int, int>) returns (va: map<int, int>)
      requires forall k | k in mask :: 0 <= k < 8 && k in from
      ensures forall k | k in mask :: k in va && va[k] == from[k]
    {
      va := to;
      var i := 0;
      while i < MAX_SHM_KEY
        invariant 0 <= i <= 8
        invariant forall k | k in mask && k < i :: k in va && va[k] == from[k]
      {
        if i in mask {
          va := va[i := from[i]];
        }
        i := i + 1;
      }
    }

    lemma KeysInRange(cur: int)
      requires Valid() && 0 <= cur < NPROC && Active(procs[cur])
      ensures procs[cur].pgdir in mem.spaces && procs[cur].pgdir in mem.dirs
              && Agrees(procs[cur], mem.spaces[procs[cur].pgdir])
      ensures forall k | k in procs[cur].mask :: 0 <= k < 8 && k in procs[cur].va
    {
    }

    /** The first process, in slot 0, with one page. It takes fifteen pages, with its kernel stack and its
        directory, and the kernel panics without them. */
    method UserInit() returns (ok: bool)
      requires Valid() && procs[0].state == Unused
      modifies this, refs, mem
      ensures ok <==> 2 + DIR_PAGES <= |old(mem.free)|
      ensures ok ==> Valid() && LostPages(mem.owner) == old(LostPages(mem.owner)) && mem.tab == old(mem.tab)
      ensures ok ==> |mem.free| == |old(mem.free)| - 2 - DIR_PAGES
      ensures ok ==> |procs| == NPROC && procs == old(procs)[0 := procs[0]] && procs[0].state == Runnable
                     && procs[0].parent == -1
                     && procs[0].pgdir !in old(mem.spaces)
                     && mem.spaces == old(mem.spaces)[procs[0].pgdir := FreshSpace(4096)]
    {
      hide ValidMem, Stacked;
      ghost var spaces0, stacks0 := mem.spaces, Stacks(mem.owner);
      var kstack := mem.TakeStack(0);
      if kstack == -1 {
        return false;
      }
      var d := mem.NewSpace(4096, USERTOP);
      if d == -1 {
        return false;
      }
      AddFirst(d, kstack, spaces0, stacks0);
      return true;
    }

    method AddFirst(d: int, kstack: int, ghost spaces0: map<int, Space>, ghost stacks0: map<Page, int>)
      requires |procs| == NPROC && procs[0].state == Unused && refs.Valid() && Consistent(procs, refs.refs, spaces0)
      requires d !in spaces0 && mem.spaces == spaces0[d := FreshSpace(4096)] && Stacked(procs, stacks0)
               && kstack !in stacks0
      modifies this, refs
      ensures refs.Valid() && Consistent(procs, refs.refs, mem.spaces) && Stacked(procs, stacks0[kstack := 0])
      ensures procs == old(procs)[0 := procs[0]] && procs[0].state == Runnable && procs[0].pgdir == d
              && procs[0].parent == -1
    {
      hide ValidMem, Stacked;
      EntryFree(procs, refs.refs, 0);
      ghost var refs0 := refs.refs;
      refs.AddRef(d);
      var first := Proc(Runnable, kstack, d, -1, 4096, USERTOP, {}, procs[0].va);
      JoinedConsistent(procs, refs0, spaces0, 0, first, refs.refs, mem.spaces);
      StackAdded(procs, stacks0, 0, first);
      procs := procs[0 := first];
    }

    // Slot np becomes a runnable child of cur in directory d, whose address space is like cur's.
    method Enroll(np: nat, cur: nat, d: int, kstack: int, ghost spaces0: map<int, Space>, ghost stacks0: map<Page, int>)
      requires |procs| == NPROC && np < NPROC && cur < NPROC && procs[np].state == Unused && Active(procs[cur])
      requires refs.Valid() && Consistent(procs, refs.refs, spaces0)
      requires forall k | k in procs[cur].mask :: 0 <= k < 8 && k in procs[cur].va
      requires d in mem.spaces && Agrees(procs[cur], mem.spaces[d])
      requires if d in spaces0 then mem.spaces == spaces0 else mem.spaces == spaces0[d := mem.spaces[d]]
      requires Stacked(procs, stacks0) && kstack !in stacks0
      modifies this, refs
      ensures refs.Valid() && Consistent(procs, refs.refs, mem.spaces) && Stacked(procs, stacks0[kstack := np])
      ensures procs == old(procs)[np := procs[np]] && procs[np].state == Runnable && procs[np].parent == cur
              && procs[np].pgdir == d
    {
      hide ValidMem, Stacked;
      var p := procs[cur];
      var va := CopyVa(p.mask, p.va, procs[np].va);
      EntryFree(procs, refs.refs, np);
      ghost var refs0 := refs.refs;
      refs.AddRef(d);
      var child := Proc(Runnable, kstack, d, cur, p.sz, p.shm, p.mask, va);
      JoinedConsistent(procs, refs0, spaces0, np, child, refs.refs, mem.spaces);
      StackAdded(procs, stacks0, np, child);
      procs := procs[np := child];
    }

    // No slot is free.
    ghost predicate Crowded()
      reads this
    {
      forall s | 0 <= s < |procs| :: procs[s].state != Unused
    }

    // The pages that fork loses: setupkvm fails on what the kernel stack has left, and keeps it.
    ghost function ForkLoss(): set<Page>
      reads this, mem
    {
      if !Crowded() && 0 < |mem.free| <= DIR_PAGES then set p | p in mem.free[1..] else {}
    }

    /** fork: a child with a directory of its own, a copy of the caller's. It takes a page for the kernel
        stack, thirteen for the directory and those it copies, and fails exactly without a slot or with fewer
        free pages. Then the tables are as they were, but pages are lost if and only if there were from two
        to thirteen of them. */
    method Fork(cur: nat) returns (np: int)
      requires Valid() && cur < NPROC && procs[cur].state == Running
      modifies this, refs, mem
      ensures Valid() && LostPages(mem.owner) == old(LostPages(mem.owner)) + old(ForkLoss())
      ensures LostPages(mem.owner) == old(LostPages(mem.owner))
              <==> old(Crowded()) || !(2 <= |old(mem.free)| <= DIR_PAGES)
      ensures np == -1 <==> old(Crowded()) || |old(mem.free)| < 1 + DIR_PAGES + Pages(old(procs)[cur].sz)
      ensures np == -1 ==> mem.spaces == old(mem.spaces) && procs == old(procs) && refs.refs == old(refs.refs)
      ensures np != -1 ==> old(Slot(np)) && procs == old(procs)[np := procs[np]]
                           && procs[np].state == Runnable && procs[np].parent == cur
                           && procs[np].pgdir !in old(mem.spaces)
                           && mem.spaces == old(mem.spaces)[procs[np].pgdir := old(mem.spaces)[old(procs)[cur].pgdir]]
      ensures np != -1 ==> procs[np].pgdir in mem.dirs && Copied(old(mem.frames), mem.frames, old(mem.owner),
                             old(mem.dirs[procs[cur].pgdir]), mem.dirs[procs[np].pgdir], Pages(old(procs)[cur].sz))
      ensures np != -1 ==> |mem.free| == |old(mem.free)| - 1 - DIR_PAGES - Pages(old(procs)[cur].sz)
    {
      hide ValidMem, Stacked, Copied, Consistent;
      np := FindSlot();
      if np == -1 {
        return;
      }
      KeysInRange(cur);
      LossIff(mem.Value());
      ghost var stacks0 := Stacks(mem.owner);
      var kstack := mem.TakeStack(np);
      if kstack == -1 {
        return -1;
      }
      ghost var owner1, frames1 := mem.owner, mem.frames;
      ghost var src := mem.dirs[procs[cur].pgdir];
      np := ForkInto(np, cur, kstack, stacks0);
      if np != -1 {
        CopiedFewer(frames1, mem.frames, old(mem.owner), owner1, src, mem.dirs[procs[np].pgdir],
                    Pages(old(procs)[cur].sz));
      }
    }

    // The part of fork after allocproc.
    method ForkInto(np0: nat, cur: nat, kstack: Page, ghost stacks0: map<Page, int>) returns (np: int)
      requires refs.Valid() && mem.Valid() && Consistent(procs, refs.refs, mem.spaces) && cur < NPROC && np0 < NPROC
      requires procs[np0].state == Unused && Active(procs[cur]) && Stacked(procs, stacks0)
      requires kstack !in stacks0 && Stacks(mem.owner) == stacks0[kstack := np0]
      requires forall k | k in procs[cur].mask :: 0 <= k < 8 && k in procs[cur].va
      modifies this, refs, mem
      ensures Valid()
      ensures LostPages(mem.owner)
              == old(LostPages(mem.owner)) + if |old(mem.free)| < DIR_PAGES then set p | p in old(mem.free) else {}
      ensures np == if |old(mem.free)| < DIR_PAGES + Pages(old(procs)[cur].sz) then -1 else np0
      ensures np == -1 ==> mem.spaces == old(mem.spaces) && procs == old(procs) && refs.refs == old(refs.refs)
      ensures np != -1 ==> procs == old(procs)[np := procs[np]] && procs[np].state == Runnable
                           && procs[np].parent == cur
                           && procs[np].pgdir !in old(mem.spaces)
                           && mem.spaces == old(mem.spaces)[procs[np].pgdir := old(mem.spaces)[old(procs)[cur].pgdir]]
      ensures np != -1 ==> procs[np].pgdir in mem.dirs && Copied(old(mem.frames), mem.frames, old(mem.owner),
                             old(mem.dirs[procs[cur].pgdir]), mem.dirs[procs[np].pgdir], Pages(old(procs)[cur].sz))
      ensures np != -1 ==> |mem.free| == |old(mem.free)| - DIR_PAGES - Pages(old(procs)[cur].sz)
    {
      hide ValidMem, Stacked;
      assert Recorded(procs[cur], mem.spaces);
      var p := procs[cur];
      ghost var spaces0 := mem.spaces;
      var d := mem.ForkSpace(p.pgdir, p.sz, p.shm, p.mask);
      if d == -1 {
        mem.ReturnStack(kstack);
        TakenBack(stacks0, kstack, np0);
        return -1;
      }
      Enroll(np0, cur, d, kstack, spaces0, stacks0);
      return np0;
    }

    // The bytes from va to va + n lie in pages that the process has.
    static ghost predicate Covered(p: Proc, va: nat, n: nat) {
      forall v: nat | Touches(va, n, v) :: v < Pages(p.sz) || p.shm <= v < USERTOP
    }

    /** clone: a child thread in the caller's own address space; it takes a slot and a page for the kernel
        stack. The child is made and counted before its user stack, a page from `stack` on, is written to:
        if the end of that page is not there, -1 is returned although the child lives. */
    method Clone(cur: nat, stack: nat) returns (r: int, ghost child: int)
      requires Valid() && cur < NPROC && procs[cur].state == Running && stack + 4 <= procs[cur].sz
      modifies this, refs, mem
      ensures Valid() && LostPages(mem.owner) == old(LostPages(mem.owner)) && mem.spaces == old(mem.spaces)
      ensures child == -1 <==> old(Crowded()) || old(mem.free) == []
      ensures child == -1 ==> procs == old(procs)
      ensures child != -1 ==> old(Slot(child)) && procs == old(procs)[child := procs[child]]
                              && procs[child].state == Runnable && procs[child].parent == cur
                              && procs[child].pgdir == procs[cur].pgdir
      ensures r == if child != -1 && Covered(old(procs)[cur], stack + 4088, 8) then child else -1
    {
      hide ValidMem, Stacked;
      var np := FindSlot();
      if np == -1 {
        return -1, -1;
      }
      KeysInRange(cur);
      Bounds(cur);
      ghost var stacks0 := Stacks(mem.owner);
      var kstack := mem.TakeStack(np);
      if kstack == -1 {
        return -1, -1;
      }
      child := np;
      Enroll(np, cur, procs[cur].pgdir, kstack, mem.spaces, stacks0);
      PagesThere(cur, stack + 4088, 8);
      var ok := mem.CanWrite(procs[cur].pgdir, stack + 4088, 8);
      r := if ok then np else -1;
    }

    // The pages a process has are those its directory maps.
    lemma PagesThere(cur: int, va: nat, n: nat)
      requires Valid() && 0 <= cur < NPROC && Active(procs[cur])
      ensures procs[cur].pgdir in mem.dirs
              && (Covered(procs[cur], va, n) <==> Mapped(mem.dirs[procs[cur].pgdir], va, n))
    {
      hide Touches, Accounted, SpaceOk;
      assert Recorded(procs[cur], mem.spaces) && Settled(mem.Value(), procs[cur].pgdir);
      ghost var pt := mem.dirs[procs[cur].pgdir];
      forall v: nat | Touches(va, n, v) ensures v in pt <==> v < Pages(procs[cur].sz) || procs[cur].shm <= v < USERTOP {
      }
    }

    // The commit section of exec, up to the release of the old directory.
    method SwitchDir(cur: nat, d: int, sz: nat, ghost spaces0: map<int, Space>) returns (count: int)
      requires |procs| == NPROC && cur < NPROC && procs[cur].state == Running && d !in spaces0
      requires refs.Valid() && Consistent(procs, refs.refs, spaces0)
      modifies this, refs
      ensures refs.Valid() && count == CountOf(old(refs.refs), old(procs)[cur].pgdir) - 1
      ensures procs == old(procs)[cur := old(procs)[cur].(pgdir := d, sz := sz, shm := USERTOP, mask := {})]
      ensures var rest := if count == 0 then spaces0 - {old(procs)[cur].pgdir} else spaces0;
              Consistent(procs, refs.refs, rest[d := FreshSpace(sz)])
    {
      hide ValidMem, Stacked;
      var p := procs[cur];
      assert Recorded(p, spaces0);
      ghost var refs0 := refs.refs;
      count := refs.DeleteRef(p.pgdir);
      ghost var idle := p.(state := Embryo);
      ghost var rest := if count == 0 then spaces0 - {p.pgdir} else spaces0;
      LeftConsistent(procs, refs0, spaces0, cur, idle, refs.refs, rest);
      EntryFree(procs[cur := idle], refs.refs, cur);
      ghost var refs1 := refs.refs;
      refs.AddRef(d);
      var p' := p.(pgdir := d, sz := sz, shm := USERTOP, mask := {});
      JoinedConsistent(procs[cur := idle], refs1, rest, cur, p', refs.refs, rest[d := FreshSpace(sz)]);
      assert procs[cur := idle][cur := p'] == procs[cur := p'];
      procs := procs[cur := p'];
    }

    /** exec: the caller moves to a new address space of sz bytes. The old one goes, whole, exactly when
        the caller was its last user. When exec fails the tables are as they were, but pages are lost if and
        only if there were from one to twelve free ones. */
    method Exec(cur: nat, sz: nat) returns (ok: bool)
      requires Valid() && cur < NPROC && procs[cur].state == Running
      modifies this, refs, mem
      ensures Valid()
      ensures LostPages(mem.owner)
              == old(LostPages(mem.owner)) + if |old(mem.free)| < DIR_PAGES then set p | p in old(mem.free) else {}
      ensures LostPages(mem.owner) == old(LostPages(mem.owner)) <==> !(0 < |old(mem.free)| < DIR_PAGES)
      ensures ok <==> 0 < sz <= 4096 * old(procs)[cur].shm && DIR_PAGES + Pages(sz) <= |old(mem.free)|
      ensures !ok ==> procs == old(procs) && mem.spaces == old(mem.spaces) && refs.refs == old(refs.refs)
      ensures ok ==> procs == old(procs)[cur := procs[cur]] && procs[cur].state == Running
                     && procs[cur].pgdir !in old(mem.spaces)
                     && procs[cur].parent == old(procs)[cur].parent && procs[cur].kstack == old(procs)[cur].kstack
      ensures ok ==> var d0 := old(procs)[cur].pgdir;
                     var rest := if Users(old(procs), d0) == {cur} then old(mem.spaces) - {d0} else old(mem.spaces);
                     mem.spaces == rest[procs[cur].pgdir := FreshSpace(sz)]
    {
      hide ValidMem, Stacked, Consistent, Users;
      KeysInRange(cur);
      ghost var spaces0 := mem.spaces;
      Bounds(cur);
      LossIff(mem.Value());
      var d := mem.NewSpace(sz, procs[cur].shm);
      if d == -1 {
        return false;
      }
      MoveTo(cur, d, sz, spaces0);
      return true;
    }

    // The end of exec: the caller moves to the new directory d.
    method MoveTo(cur: nat, d: Page, sz: nat, ghost spaces0: map<int, Space>)
      requires refs.Valid() && mem.Valid() && |procs| == NPROC && cur < NPROC && procs[cur].state == Running
      requires Consistent(procs, refs.refs, spaces0) && Stacked(procs, Stacks(mem.owner))
      requires d !in spaces0 && mem.spaces == spaces0[d := FreshSpace(sz)] && sz <= 4096 * USERTOP
      requires procs[cur].pgdir in spaces0 && Agrees(procs[cur], spaces0[procs[cur].pgdir])
               && 0 <= procs[cur].shm && procs[cur].sz <= 4096 * procs[cur].shm
      modifies this, refs, mem
      ensures Valid() && LostPages(mem.owner) == old(LostPages(mem.owner))
      ensures |procs| == NPROC && procs == old(procs)[cur := procs[cur]] && procs[cur].state == Running
              && procs[cur].pgdir == d && procs[cur].parent == old(procs)[cur].parent
              && procs[cur].kstack == old(procs)[cur].kstack
      ensures var d0 := old(procs)[cur].pgdir;
              var rest := if Users(old(procs), d0) == {cur} then spaces0 - {d0} else spaces0;
              mem.spaces == rest[d := FreshSpace(sz)]
    {
      hide ValidMem, Stacked, LostPages, Users;
      var p := procs[cur];
      var count := SwitchDir(cur, d, sz, spaces0);
      LastUser(old(procs), cur);
      SwapSpaces(spaces0, p.pgdir, d, FreshSpace(sz));
      StackKept(old(procs), Stacks(mem.owner), cur, procs[cur]);
      if count == 0 {
        ReleaseWhole(p);
      }
    }

    // Release the address space p ran in, with its own bound: nothing is lost.
    method ReleaseWhole(p: Proc)
      requires mem.Valid() && p.pgdir in mem.spaces && Agrees(p, mem.spaces[p.pgdir]) && 0 <= p.shm
               && p.sz <= 4096 * p.shm
      modifies mem
      ensures mem.Valid() && mem.spaces == old(mem.spaces) - {p.pgdir}
      ensures LostPages(mem.owner) == old(LostPages(mem.owner)) && Stacks(mem.owner) == old(Stacks(mem.owner))
    {
      hide ValidMem, Stacked;
      FreedWholeIff(mem.Value(), p.pgdir, p.shm);
      mem.ReleaseSpace(p.pgdir, p.shm, p.mask, p.shm);
    }

    lemma Bounds(cur: int)
      requires Valid() && 0 <= cur < NPROC && Active(procs[cur])
      ensures 128 <= procs[cur].shm <= USERTOP && procs[cur].sz <= 4096 * procs[cur].shm
    {
      KeysInRange(cur);
      assert Settled(mem.Value(), procs[cur].pgdir);
      SharedFitsAbove(mem.tab, mem.spaces[procs[cur].pgdir]);
    }

    // The children of cur go to init, slot 0.
    method Disown(cur: nat)
      requires |procs| == NPROC
      modifies this
      ensures |procs| == NPROC
      ensures forall t | 0 <= t < NPROC :: procs[t] == old(procs)[t].(parent := procs[t].parent)
      ensures forall t | 0 <= t < NPROC ::
              procs[t].parent == if old(procs)[t].parent == cur then 0 else old(procs)[t].parent
    {
      var s := 0;
      while s < NPROC
        invariant 0 <= s <= NPROC && |procs| == NPROC
        invariant forall t | 0 <= t < s :: procs[t] == old(procs)[t].(parent := procs[t].parent)
        invariant forall t | 0 <= t < s ::
                  procs[t].parent == if old(procs)[t].parent == cur then 0 else old(procs)[t].parent
        invariant forall t | s <= t < NPROC :: procs[t] == old(procs)[t]
      {
        if procs[s].parent == cur {
          procs := procs[s := procs[s].(parent := 0)];
        }
        s := s + 1;
      }
    }

    // A key that no process has attached has no segment.
    lemma Unheld(key: int)
      requires Valid() && 0 <= key < 8 && forall s | 0 <= s < NPROC && Active(procs[s]) :: key !in procs[s].mask
      ensures |mem.tab| == 8 && mem.tab[key].count == 0
    {
      forall d | d in mem.spaces ensures key !in mem.spaces[d].mask {
        assert CountOf(refs.refs, d) == |Users(procs, d)| > 0;
        var s :| s in Users(procs, d);
        assert Recorded(procs[s], mem.spaces);
      }
      assert Holders(mem.spaces, key) == {};
    }

    /** exit: the children go to init, slot 0, which can then wait for those that are not its threads, and the
        caller waits to be reaped with its directory. */
    method Exit(cur: nat)
      requires Valid() && 0 < cur < NPROC && procs[cur].state == Running
      modifies this
      ensures Valid() && |procs| == NPROC
      ensures procs[cur].state == Zombie
      ensures forall t | 0 <= t < NPROC && t != cur :: procs[t].state == old(procs)[t].state
      ensures forall t | 0 <= t < NPROC ::
              procs[t] == old(procs)[t].(parent := procs[t].parent, state := procs[t].state)
      ensures forall t | 0 <= t < NPROC && old(procs)[t].parent == cur :: procs[t].parent == 0
      ensures forall t | 0 <= t < NPROC && old(procs)[t].parent != cur :: procs[t].parent == old(procs)[t].parent
      ensures forall t | 0 <= t < NPROC :: procs[t].parent != cur
      ensures forall t | 0 <= t < NPROC && old(procs)[t].parent == cur ::
              ChildOf(t, 0, old(procs)[t].pgdir == old(procs)[0].pgdir)
    {
      hide ValidMem, Stacked, Consistent;
      Disown(cur);
      ghost var adopted := procs;
      procs := procs[cur := procs[cur].(state := Zombie)];
      ExitKeeps(old(procs), refs.refs, mem.spaces, Stacks(mem.owner), cur, adopted, procs);
    }

    // The process table after exit.
    static lemma ExitKeeps(procs: ProcTable, refs: seq<Ref>, spaces: map<int, Space>, stacks: map<Page, int>, cur: nat,
                           adopted: ProcTable, procs': ProcTable)
      requires Consistent(procs, refs, spaces) && Stacked(procs, stacks) && cur < NPROC && procs[cur].state == Running
      requires |adopted| == NPROC && forall t | 0 <= t < NPROC :: adopted[t] == procs[t].(parent := adopted[t].parent)
      requires procs' == adopted[cur := adopted[cur].(state := Zombie)]
      ensures Consistent(procs', refs, spaces) && Stacked(procs', stacks)
    {
      SameUsersConsistent(procs, refs, spaces, procs');
      StacksSame(procs, procs', stacks);
    }

    // The scheduler and the sleep and wakeup calls move a slot between the states of a live process.
    method SetState(s: nat, state: ProcState)
      requires Valid() && s < NPROC && Active(procs[s]) && state !in {Unused, Embryo}
      modifies this
      ensures Valid() && procs == old(procs)[s := old(procs)[s].(state := state)]
    {
      hide ValidMem, Stacked;
      procs := procs[s := procs[s].(state := state)];
      SameUsersConsistent(old(procs), refs.refs, mem.spaces, procs);
      StacksSame(old(procs), procs, Stacks(mem.owner));
    }

    // Drop a zombie's reference; the table with the slot empty, as `last` or `other`, is consistent.
    method DropRef(s: nat, ghost last: Proc, ghost other: Proc) returns (count: int)
      requires refs.Valid() && Consistent(procs, refs.refs, mem.spaces)
      requires s < NPROC && procs[s].state == Zombie && !Active(last) && !Active(other)
      modifies refs
      ensures refs.Valid() && count == CountOf(old(refs.refs), procs[s].pgdir) - 1 >= 0
      ensures if count == 0 then Consistent(procs[s := last], refs.refs, mem.spaces - {procs[s].pgdir})
              else Consistent(procs[s := other], refs.refs, mem.spaces)
    {
      hide ValidMem, Stacked;
      assert Recorded(procs[s], mem.spaces);
      ghost var refs0 := refs.refs;
      count := refs.DeleteRef(procs[s].pgdir);
      if count == 0 {
        LeftConsistent(procs, refs0, mem.spaces, s, last, refs.refs, mem.spaces - {procs[s].pgdir});
      } else {
        LeftConsistent(procs, refs0, mem.spaces, s, other, refs.refs, mem.spaces);
      }
    }

    /** Reap a zombie process: its directory goes exactly when it was the last user, and the pages it had
        above the caller's bound are lost with it. */
    method Reap(s: nat, bound: nat)
      requires Valid() && s < NPROC && procs[s].state == Zombie
      modifies this, refs, mem
      ensures Valid() && procs == old(procs)[s := procs[s]] && procs[s].state == Unused && procs[s].parent == -1
      ensures var d := old(procs)[s].pgdir;
              if Users(old(procs), d) == {s}
              then mem.spaces == old(mem.spaces) - {d} && d in old(mem.spaces) && d in old(mem.dirs)
                   && LostPages(mem.owner) == old(LostPages(mem.owner)) + old(Stranded(mem.Value(), procs[s].pgdir,
                           bound))
              else mem.spaces == old(mem.spaces) && LostPages(mem.owner) == old(LostPages(mem.owner))
    {
      hide ValidMem, Stacked;
      KeysInRange(s);
      LastUser(procs, s);
      var p := procs[s];
      var empty := p.(state := Unused, kstack := -1, parent := -1);
      StackRemoved(procs, Stacks(mem.owner), s, empty);
      StackRemoved(procs, Stacks(mem.owner), s, empty.(shm := USERTOP, mask := {}));
      mem.ReturnStack(p.kstack);
      var count := DropRef(s, empty.(shm := USERTOP, mask := {}), empty);
      if count == 0 {
        mem.ReleaseSpace(p.pgdir, p.shm, p.mask, bound);
        empty := empty.(shm := USERTOP, mask := {});
      }
      procs := procs[s := empty];
    }

    // Slot s is a child of cur that runs in another directory, or else a thread in the same one.
    ghost predicate ChildOf(s: int, cur: int, thread: bool)
      reads this
    {
      0 <= s < |procs| && 0 <= cur < |procs| && procs[s].parent == cur && (procs[s].pgdir == procs[cur].pgdir) == thread
    }

    // One scan of wait or join: the first zombie child of the kind looked for, and whether there are any.
    method FindZombie(cur: nat, thread: bool) returns (s: int, havekids: bool)
      requires |procs| == NPROC && cur < NPROC
      ensures s == -1 || 0 <= s < NPROC
      ensures s >= 0 ==> ChildOf(s, cur, thread) && procs[s].state == Zombie && havekids
      ensures forall t | 0 <= t < NPROC && (s == -1 || t < s) :: ChildOf(t, cur, thread) ==> procs[t].state != Zombie
      ensures s == -1 ==> (havekids <==> exists t :: ChildOf(t, cur, thread))
    {
      s, havekids := 0, false;
      while s < NPROC
        invariant 0 <= s <= NPROC
        invariant forall t | 0 <= t < s :: ChildOf(t, cur, thread) ==> procs[t].state != Zombie && havekids
        invariant havekids ==> exists t :: ChildOf(t, cur, thread)
      {
        if procs[s].parent == cur && (procs[s].pgdir == procs[cur].pgdir) == thread {
          assert ChildOf(s, cur, thread);
          havekids := true;
          if procs[s].state == Zombie {
            return;
          }
        }
        s := s + 1;
      }
      s := -1;
    }

    /** wait: reap the first zombie child process. -1 when there is no child to wait for, or the caller has
        been killed; -2 when it has to sleep. */
    method Wait(cur: nat, killed: bool) returns (s: int)
      requires Valid() && cur < NPROC && procs[cur].state == Running
      modifies this, refs, mem
      ensures Valid() && -2 <= s < NPROC
      ensures s < 0 ==> procs == old(procs) && mem.spaces == old(mem.spaces) && refs.refs == old(refs.refs)
      ensures s < 0 ==> forall t | 0 <= t < NPROC :: ChildOf(t, cur, false) ==> procs[t].state != Zombie
      ensures s < 0 ==> (s == -1 <==> killed || !exists t :: ChildOf(t, cur, false))
      ensures s >= 0 ==> forall t | 0 <= t < s :: old(ChildOf(t, cur, false)) ==> old(procs)[t].state != Zombie
      ensures s >= 0 ==> old(ChildOf(s, cur, false)) && old(procs)[s].state == Zombie
                         && procs == old(procs)[s := procs[s]] && procs[s].state == Unused && procs[s].parent == -1
      ensures s >= 0 ==> var d := old(procs)[s].pgdir;
                         mem.spaces == if Users(old(procs), d) == {s} then old(mem.spaces) - {d} else old(mem.spaces)
      ensures s >= 0 ==> (LostPages(mem.owner) == old(LostPages(mem.owner)) <==>
                          Users(old(procs), old(procs)[s].pgdir) != {s}
                              || old(procs)[s].sz <= 4096 * old(procs)[cur].shm)
    {
      hide ValidMem, Stacked;
      var havekids;
      s, havekids := FindZombie(cur, false);
      if s >= 0 {
        Bounds(cur);
        KeysInRange(s);
        WholeIfBelow(mem.Value(), procs[s], procs[cur].shm);
        Reap(s, procs[cur].shm);
      } else {
        s := if !havekids || killed then -1 else -2;
      }
    }

    /** A process that exits leaves no zombie behind: init, woken, reaps the child, or one before it in the table. */
    method OrphanReaped(cur: nat, child: nat) returns (s: int)
      requires Valid() && 0 < cur < NPROC && procs[cur].state == Running && Active(procs[0])
      requires child < NPROC && procs[child].parent == cur && procs[child].state == Zombie
               && procs[child].pgdir != procs[0].pgdir
      modifies this, refs, mem
      ensures Valid() && 0 <= s <= child && |procs| == NPROC && procs[s].state == Unused
    {
      hide ValidMem, Stacked, Consistent;
      Exit(cur);
      SetState(0, Running);
      assert ChildOf(child, 0, false) && procs[child].state == Zombie;
      s := Wait(0, false);
    }

    /** join: reap the first zombie child thread. Its directory has another user, the caller, so the
        reference count never drops to zero here. */
    method Join(cur: nat, killed: bool) returns (s: int)
      requires Valid() && cur < NPROC && procs[cur].state == Running
      modifies this, refs, mem
      ensures Valid() && -2 <= s < NPROC && LostPages(mem.owner) == old(LostPages(mem.owner))
              && mem.spaces == old(mem.spaces)
      ensures s < 0 ==> procs == old(procs) && refs.refs == old(refs.refs)
      ensures s < 0 ==> forall t | 0 <= t < NPROC :: ChildOf(t, cur, true) ==> procs[t].state != Zombie
      ensures s < 0 ==> (s == -1 <==> killed || !exists t :: ChildOf(t, cur, true))
      ensures s >= 0 ==> forall t | 0 <= t < s :: old(ChildOf(t, cur, true)) ==> old(procs)[t].state != Zombie
      ensures s >= 0 ==> old(ChildOf(s, cur, true)) && old(procs)[s].state == Zombie
                         && procs == old(procs)[s := procs[s]] && procs[s].state == Unused && procs[s].parent == -1
      ensures s >= 0 ==> CountOf(refs.refs, procs[cur].pgdir) == CountOf(old(refs.refs), procs[cur].pgdir) - 1 >= 1
    {
      hide ValidMem, Stacked;
      var havekids;
      s, havekids := FindZombie(cur, true);
      if s >= 0 {
        ReapThread(s, cur);
      } else {
        s := if !havekids || killed then -1 else -2;
      }
    }

    // Reap a zombie thread of the caller's own address space.
    method ReapThread(s: nat, cur: nat)
      requires Valid() && s < NPROC && cur < NPROC && procs[s].state == Zombie && procs[cur].state == Running
               && procs[s].pgdir == procs[cur].pgdir
      modifies this, refs, mem
      ensures Valid() && procs == old(procs)[s := procs[s]] && procs[s].state == Unused && procs[s].parent == -1
      ensures LostPages(mem.owner) == old(LostPages(mem.owner)) && mem.spaces == old(mem.spaces)
      ensures CountOf(refs.refs, procs[cur].pgdir) == CountOf(old(refs.refs), procs[cur].pgdir) - 1 >= 1
    {
      hide ValidMem, Stacked;
      var p := procs[s];
      TwoUsers(Users(procs, p.pgdir), s, cur);
      var empty := p.(state := Unused, kstack := -1, parent := -1);
      StackRemoved(procs, Stacks(mem.owner), s, empty);
      mem.ReturnStack(p.kstack);
      var count := DropRef(s, empty, empty);
      assert count > 0;
      procs := procs[s := empty];
      ThreadLeft(old(procs), s, procs[s], cur);
    }

    // The caller is the only thread of its address space.
    ghost predicate Sole(cur: nat)
      reads this
    {
      cur < |procs| && Users(procs, procs[cur].pgdir) == {cur}
    }

    // A thread records a change to its address space.
    method Record(cur: nat, p: Proc, ghost spaces0: map<int, Space>)
      requires |procs| == NPROC && cur < NPROC && Active(procs[cur])
      requires Consistent(procs, refs.refs, spaces0) && p.state == procs[cur].state && p.pgdir == procs[cur].pgdir
               && p.pgdir in spaces0
      requires p.pgdir in mem.spaces && mem.spaces == spaces0[p.pgdir := mem.spaces[p.pgdir]]
               && Agrees(p, mem.spaces[p.pgdir])
      requires var sp, sp' := spaces0[p.pgdir], mem.spaces[p.pgdir]; sp' == sp || sp'.sz != sp.sz || sp'.mask != sp.mask
      requires Stacked(procs, Stacks(mem.owner)) && p.kstack == procs[cur].kstack
      modifies this
      ensures Stacked(procs, Stacks(mem.owner)) && procs == old(procs)[cur := p]
      ensures Consistent(procs, refs.refs, mem.spaces) <==> old(Sole(cur)) || mem.spaces[p.pgdir] == spaces0[p.pgdir]
    {
      hide ValidMem, Stacked;
      StackKept(procs, Stacks(mem.owner), cur, p);
      ChangedConsistent(procs, refs.refs, spaces0, cur, p, mem.spaces[p.pgdir]);
      procs := procs[cur := p];
    }

    // The record of a process that has attached a key at r.
    static function Attaching(p: Proc, key: int, r: int): Proc {
      p.(va := p.va[key := r], shm := r, mask := p.mask + {key})
    }

    // Attach a key the caller does not hold; 0 if that fails.
    method AttachKey(cur: nat, key: nat, n: nat, junk: seq<Page>) returns (r: int)
      requires Valid() && cur < NPROC && procs[cur].state == Running && |junk| == 4
      requires key < 8 && n <= 4 && key !in procs[cur].mask
      modifies this, mem
      ensures Valid() <==> r == 0 || old(Sole(cur) && mem.RightPages(key, n, junk))
      ensures r != 0 <==> old(mem.CanAttach(key, n, procs[cur].sz, procs[cur].shm))
      ensures r == 0 ==> procs == old(procs) && mem.spaces == old(mem.spaces)
      ensures r == 0 ==> LostPages(mem.owner) == old(LostPages(mem.owner)) + old(mem.AttachLoss(key, n, procs[cur].sz,
              procs[cur].shm))
      ensures r != 0 ==> LostPages(mem.owner) == old(LostPages(mem.owner))
                         && r == old(procs[cur].shm - mem.SegmentSize(key, n)) > 0
      ensures r != 0 ==> |procs| == NPROC && procs == old(procs)[cur := Attaching(old(procs)[cur], key, r)]
      ensures r != 0 ==> mem.spaces == SpacesWith(old(mem.spaces), old(procs)[cur].pgdir, key, r)
      ensures r != 0 ==> OneMoreHolder(old(mem.tab), mem.tab, key, old(mem.SegmentSize(key, n)))
    {
      hide ValidMem, Stacked;
      KeysInRange(cur);
      Bounds(cur);
      TabShape(mem.Value());
      var p := procs[cur];
      ghost var spaces0 := mem.spaces;
      r := mem.Attach(p.pgdir, key, n, p.sz, p.shm, junk);
      if r != 0 {
        Record(cur, Attaching(p, key, r), spaces0);
      }
    }

    // A held key is attached at or above the shared part.
    lemma HeldAbove(cur: int, key: int)
      requires Valid() && 0 <= cur < NPROC && Active(procs[cur]) && key in procs[cur].mask
      ensures key in procs[cur].va && procs[cur].va[key] >= 128
    {
      KeysInRange(cur);
      Bounds(cur);
      ghost var sp := mem.spaces[procs[cur].pgdir];
      assert Settled(mem.Value(), procs[cur].pgdir);
      var j :| 0 <= j < |sp.order| && sp.order[j] == key;
      TotalPrefix(mem.tab, sp.order, j + 1);
    }

    /** shmgetat: the segment goes just below those attached before. The tables stay consistent if and only if
        nothing new is attached, or the caller is the only thread of its address space and the pages mapped
        are those of the segment. */
    method ShmGetAt(cur: nat, key: int, n: int, junk: seq<Page>) returns (r: int)
      requires Valid() && cur < NPROC && procs[cur].state == Running && |junk| == 4
      modifies this, mem
      ensures Valid() <==> r == -1 || key in old(procs)[cur].mask
                           || old(Sole(cur) && 0 <= n && mem.RightPages(key, n, junk))
      ensures r == -1 ==> procs == old(procs) && mem.spaces == old(mem.spaces)
      ensures r == -1 && 0 <= key < 8 && 0 <= n <= 4 ==>
              LostPages(mem.owner) == old(LostPages(mem.owner)) + old(mem.AttachLoss(key, n, procs[cur].sz,
                                                                                     procs[cur].shm))
      ensures r != -1 <==> 0 <= key < 8 && 0 <= n <= 4
                           && (key in old(procs)[cur].mask || old(mem.CanAttach(key, n, procs[cur].sz, procs[cur].shm)))
      ensures r != -1 ==> 0 <= key < 8 && |procs| == NPROC && key in procs[cur].mask && key in procs[cur].va
                          && procs[cur].va[key] == r
      ensures r != -1 && key in old(procs)[cur].mask ==> procs == old(procs) && mem.spaces == old(mem.spaces)
      ensures r != -1 && key !in old(procs)[cur].mask ==>
              && procs == old(procs)[cur := Attaching(old(procs)[cur], key, r)]
              && OneMoreHolder(old(mem.tab), mem.tab, key, old(mem.SegmentSize(key, n)))
              && r == old(procs)[cur].shm - (if old(mem.tab)[key].count == 0 then n else old(mem.tab)[key].num)
              && LostPages(mem.owner) == old(LostPages(mem.owner))
              && mem.spaces == SpacesWith(old(mem.spaces), old(procs)[cur].pgdir, key, r)
    {
      hide ValidMem, Stacked;
      if key < 0 || MAX_SHM_KEY <= key || n < 0 || MAX_SHM_PGNUM < n {
        return -1;
      }
      if key in procs[cur].mask {
        HeldAbove(cur, key);
        return procs[cur].va[key];
      }
      r := AttachKey(cur, key, n, junk);
      r := if r == 0 then -1 else r;
    }

    /** growproc. The tables stay consistent if and only if it does not shrink to nothing, which frees the
        pages, fails and leaves the old size on record, and no other thread of the address space is left with
        the old size. */
    method GrowProc(cur: nat, n: int) returns (ok: bool)
      requires Valid() && cur < NPROC && procs[cur].state == Running
      modifies this, mem
      ensures Valid() <==> (n >= 0 || old(procs)[cur].sz + n != 0) && (!ok || old(Sole(cur)) || procs == old(procs))
      ensures LostPages(mem.owner) == old(LostPages(mem.owner))
      ensures !ok ==> procs == old(procs) && mem.spaces == old(mem.spaces)
      ensures ok ==> |procs| == NPROC && procs == old(procs)[cur := old(procs)[cur].(sz := procs[cur].sz)]
      ensures ok <==> var p := old(procs)[cur];
              if n > 0 then p.sz + n <= 4096 * p.shm && Pages(p.sz + n) - Pages(p.sz) <= |old(mem.free)|
              else n == 0 || (p.sz > 0 && p.sz + n != 0)
      ensures ok ==> procs[cur].sz == if old(procs)[cur].sz + n >= 0 then old(procs)[cur].sz + n else old(procs)[cur].sz
      ensures ok && n > 0 ==> |mem.free| == |old(mem.free)| - (Pages(procs[cur].sz) - Pages(old(procs)[cur].sz))
    {
      hide ValidMem, Stacked;
      KeysInRange(cur);
      var p := procs[cur];
      ghost var spaces0 := mem.spaces;
      var sz := mem.Resize(p.pgdir, p.sz, n, p.shm);
      ok := n == 0 || sz != 0;
      if ok {
        assert mem.spaces == SpacesSized(spaces0, p.pgdir, sz);
        Record(cur, p.(sz := sz), spaces0);
      }
    }
  }

  /** A user of a directory changes its address space, and its own record of it with it. The other users'
      records are then right only if there is nothing to record. */
  lemma ChangedConsistent(procs: ProcTable, refs: seq<Ref>, spaces: map<int, Space>, cur: nat, p: Proc, sp: Space)
    requires Consistent(procs, refs, spaces) && cur < NPROC && Active(procs[cur])
    requires p.state == procs[cur].state && p.pgdir == procs[cur].pgdir && Agrees(p, sp)
    ensures p.pgdir in spaces && (sp == spaces[p.pgdir] || sp.sz != spaces[p.pgdir].sz
                                  || sp.mask != spaces[p.pgdir].mask ==>
              (Consistent(procs[cur := p], refs, spaces[p.pgdir := sp])
               <==> Users(procs, p.pgdir) == {cur} || sp == spaces[p.pgdir]))
  {
    assert Recorded(procs[cur], spaces);
    if Users(procs, p.pgdir) == {cur} || sp == spaces[p.pgdir] {
      ChangeRecorded(procs, refs, spaces, cur, p, sp);
    } else if sp.sz != spaces[p.pgdir].sz || sp.mask != spaces[p.pgdir].mask {
      assert cur in Users(procs, p.pgdir);
      var t :| t in Users(procs, p.pgdir) && t != cur;
      assert Recorded(procs[t], spaces) && !Recorded(procs[cur := p][t], spaces[p.pgdir := sp]);
    }
  }

  lemma ChangeRecorded(procs: ProcTable, refs: seq<Ref>, spaces: map<int, Space>, cur: nat, p: Proc, sp: Space)
    requires Consistent(procs, refs, spaces) && cur < NPROC && Active(procs[cur]) && procs[cur].pgdir in spaces
    requires p.state == procs[cur].state && p.pgdir == procs[cur].pgdir && Agrees(p, sp)
    requires Users(procs, p.pgdir) == {cur} || sp == spaces[p.pgdir]
    ensures Consistent(procs[cur := p], refs, spaces[p.pgdir := sp])
  {
    var procs' := procs[cur := p];
    forall d ensures Users(procs', d) == Users(procs, d) {
      UsersSame(procs, procs', d);
    }
    forall s | 0 <= s < NPROC ensures Recorded(procs'[s], spaces[p.pgdir := sp]) {
      assert Recorded(procs[s], spaces);
      assert Runs(procs[s], p.pgdir) ==> s in Users(procs, p.pgdir);
    }
  }

  lemma ThreadLeft(procs: ProcTable, s: nat, p: Proc, cur: nat)
    requires s < |procs| && cur < |procs| && s != cur && Active(procs[s]) && !Active(p)
             && procs[s].pgdir == procs[cur].pgdir
    ensures |Users(procs[s := p], procs[cur].pgdir)| == |Users(procs, procs[cur].pgdir)| - 1
  {
    UsersWithout(procs, s, p, procs[cur].pgdir);
  }

  // An address space that ends below the bound leaves nothing behind.
  lemma WholeIfBelow(m: Mem, p: Proc, bound: nat)
    requires ValidMem(m) && p.pgdir in m.spaces && Agrees(p, m.spaces[p.pgdir])
    ensures LostPages(m.owner) + Stranded(m, p.pgdir, bound) == LostPages(m.owner) <==> p.sz <= 4096 * bound
  {
    FreedWholeIff(m, p.pgdir, bound);
  }

  // Changes that leave every slot's use of its directory alone.
  lemma SameUsersConsistent(procs: ProcTable, refs: seq<Ref>, spaces: map<int, Space>, procs': ProcTable)
    requires Consistent(procs, refs, spaces) && |procs'| == NPROC
    requires forall s | 0 <= s < NPROC :: procs'[s] == procs[s].(state := procs'[s].state, parent := procs'[s].parent)
                                          && (Active(procs'[s]) <==> Active(procs[s]))
    ensures Consistent(procs', refs, spaces)
  {
    forall d ensures Users(procs', d) == Users(procs, d) {
      UsersSame(procs, procs', d);
    }
    forall s | 0 <= s < NPROC ensures Recorded(procs'[s], spaces) {
      assert Recorded(procs[s], spaces);
    }
  }

  lemma SwapSpaces(spaces: map<int, Space>, d0: int, d: int, sp: Space)
    requires d0 != d
    ensures spaces[d := sp] - {d0} == (spaces - {d0})[d := sp]
  {
  }

  // A user of a directory is the last exactly when it is the only one.
  lemma LastUser(procs: ProcTable, s: nat)
    requires s < |procs| && Active(procs[s])
    ensures |Users(procs, procs[s].pgdir)| == 1 <==> Users(procs, procs[s].pgdir) == {s}
  {
    var users := Users(procs, procs[s].pgdir);
    assert s in users && |users - {s}| == |users| - 1;
    assert users == (users - {s}) + {s};
  }
}
