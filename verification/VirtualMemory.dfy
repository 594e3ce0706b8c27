/** The operations on page directories and shared memory segments: the loops of vm.c, each keeping every
    page accounted for. */
module VirtualMemory {

  import opened AddressSpaces
  import opened Common

  class Memory {
    var tab: seq<Segment>
    var dirs: map<Page, PageMap>
    var free: seq<Page>
    var frames: map<Page, seq<int>>
    ghost var owner: map<Page, Use>
    ghost var spaces: map<Page, Space>

    // All pages are free.
    constructor (free: seq<Page>)
      requires forall j | 0 <= j < |free| :: free[j] >= 0
      requires forall j, k | 0 <= j < k < |free| :: free[j] != free[k]
      ensures Valid() && this.free == free && spaces == map[] && LostPages(owner) == {} && Stacks(owner) == map[]
      ensures |tab| == 8 && forall k | 0 <= k < 8 :: tab[k].count == 0
    {
      this.free, dirs, owner, spaces, frames := free, map[], map[], map[], map[];
      tab := seq(8, _ => Segment(0, 0, [0, 0, 0, 0]));
    }

    ghost predicate Sound()
      reads `dirs, `tab, `owner, `free
    {
      Accounted(dirs, tab, owner, free)
    }

    method Kalloc() returns (p: int)
      requires Sound()
      modifies `free, `owner
      ensures Sound()
      ensures p == -1 <==> old(free) == []
      ensures p == -1 ==> free == old(free) && owner == old(owner)
      ensures p != -1 ==> p !in old(owner) && owner == old(owner)[p := InHand] && old(free) == [p] + free
    {
      if free == [] {
        return -1;
      }
      p := free[0];
      free := free[1..];
      owner := owner[p := InHand];
    }

    method Kfree(p: Page)
      requires Sound() && p in owner && owner[p] == InHand
      modifies `free, `owner
      ensures Sound() && owner == old(owner) - {p} && free == [p] + old(free)
    {
      free := [p] + free;
      owner := owner - {p};
    }

    // Map a page in hand at v; mappages panics if v is mapped.
    method MapPrivate(d: Page, v: int, p: Page)
      requires Sound() && d in dirs && v !in dirs[d] && p in owner && owner[p] == InHand
      modifies `dirs, `owner
      ensures Sound() && dirs == old(dirs)[d := old(dirs)[d][v := p]] && owner == old(owner)[p := Private(d, v)]
    {
      MapSound(dirs, tab, owner, free, d, v, p, dirs[d := dirs[d][v := p]], owner[p := Private(d, v)]);
      dirs := dirs[d := dirs[d][v := p]];
      owner := owner[p := Private(d, v)];
    }

    method UnmapPrivate(d: Page, v: int) returns (p: Page)
      requires Sound() && d in dirs && v in dirs[d] && owner[dirs[d][v]] == Private(d, v)
      modifies `dirs, `owner
      ensures p == old(dirs)[d][v]
      ensures Sound() && dirs == old(dirs)[d := old(dirs)[d] - {v}] && owner == old(owner)[p := InHand]
    {
      p := dirs[d][v];
      UnmapSound(dirs, tab, owner, free, d, v, p, dirs[d := dirs[d] - {v}], owner[p := InHand]);
      dirs := dirs[d := dirs[d] - {v}];
      owner := owner[p := InHand];
    }

    method MapShared(d: Page, v: int, p: Page)
      requires Sound() && d in dirs && v !in dirs[d] && p in owner && owner[p].Shared?
      modifies `dirs
      ensures Sound() && dirs == old(dirs)[d := old(dirs)[d][v := p]]
    {
      dirs := dirs[d := dirs[d][v := p]];
    }

    // Give one mapped private page back.
    method Drop(d: Page, v: int)
      requires Sound() && d in dirs && v in dirs[d] && owner[dirs[d][v]] == Private(d, v)
      modifies `dirs, `owner, `free
      ensures Sound() && dirs == old(dirs)[d := old(dirs)[d] - {v}] && owner == old(owner) - {old(dirs)[d][v]}
      ensures Pool(free, owner) == old(Pool(free, owner))
    {
      var p := UnmapPrivate(d, v);
      Kfree(p);
    }

    // The private pages of d in [lo, v) have been given back, those in [v, hi) are next.
    ghost predicate Shrinking(d: Page, lo: int, v: int, hi: int, dirs0: map<Page, PageMap>, owner0: map<Page, Use>,
                              pool: set<Page>)
      reads `dirs, `tab, `owner, `free
    {
      && lo <= v <= hi && Sound() && d in dirs0 && AllPrivate(dirs, owner, d, v, hi)
      && dirs == dirs0[d := Trim(dirs0[d], lo, v)]
      && owner == Reclaimed(owner0, d, lo, v)
      && Pool(free, owner) == pool
    }

    method DropNext(d: Page, ghost lo: int, v: int, ghost hi: int, ghost dirs0: map<Page, PageMap>,
                    ghost owner0: map<Page, Use>, ghost pool: set<Page>)
      requires Shrinking(d, lo, v, hi, dirs0, owner0, pool) && v < hi
      modifies `dirs, `owner, `free
      ensures Shrinking(d, lo, v + 1, hi, dirs0, owner0, pool)
    {
      TrimNext(dirs0[d], lo, v);
      ReclaimedNext(dirs, tab, owner, free, owner0, d, lo, v);
      if v in dirs[d] {
        Drop(d, v);
      } else {
        assert dirs[d] - {v} == dirs[d];
      }
    }

    // Shrink the private part of d from oldsz to newsz bytes.
    method DeallocUvm(d: Page, oldsz: nat, newsz: nat) returns (sz: nat)
      requires Sound() && AllPrivate(dirs, owner, d, Pages(newsz), Pages(oldsz))
      modifies `dirs, `owner, `free
      ensures Sound() && sz == if newsz >= oldsz then oldsz else newsz
      ensures newsz >= oldsz ==> unchanged(this)
      ensures newsz < oldsz ==> dirs == old(dirs)[d := Trim(old(dirs)[d], Pages(newsz), Pages(oldsz))]
      ensures newsz < oldsz ==> owner == Reclaimed(old(owner), d, Pages(newsz), Pages(oldsz))
      ensures Pool(free, owner) == old(Pool(free, owner))
    {
      if newsz >= oldsz {
        return oldsz;
      }
      TrimNone(dirs[d], Pages(newsz));
      ReclaimedNone(owner, d, Pages(newsz));
      DropLoop(d, oldsz, newsz, dirs, owner, Pool(free, owner));
      return newsz;
    }

    method DropLoop(d: Page, oldsz: nat, newsz: nat, ghost dirs0: map<Page, PageMap>, ghost owner0: map<Page, Use>,
                    ghost pool: set<Page>)
      requires newsz < oldsz && Shrinking(d, Pages(newsz), Pages(newsz), Pages(oldsz), dirs0, owner0, pool)
      modifies `dirs, `owner, `free
      ensures Shrinking(d, Pages(newsz), Pages(oldsz), Pages(oldsz), dirs0, owner0, pool)
    {
      ghost var lo, hi := Pages(newsz), Pages(oldsz);
      var v := Pages(newsz);
      while 4096 * v < oldsz
        invariant lo <= v <= hi && Shrinking(d, lo, v, hi, dirs0, owner0, pool)
        decreases hi - v
      {
        DropNext(d, lo, v, hi, dirs0, owner0, pool);
        v := v + 1;
      }
    }

    // Map a free page at v, if there is one.
    method MapFresh(d: Page, v: int) returns (ok: bool)
      requires Sound() && d in dirs && v !in dirs[d]
      modifies `dirs, `owner, `free
      ensures ok <==> old(free) != []
      ensures !ok ==> unchanged(this)
      ensures ok ==> Sound() && free == old(free)[1..] && Pool(free, owner) == old(Pool(free, owner))
      ensures ok ==> old(free)[0] !in old(owner) && owner == old(owner)[old(free)[0] := Private(d, v)]
      ensures ok ==> dirs == old(dirs)[d := old(dirs)[d][v := old(free)[0]]]
    {
      var p := Kalloc();
      if p == -1 {
        return false;
      }
      MapPrivate(d, v, p);
      return true;
    }

    // Pages [lo, v) of d have been mapped to fresh private pages, up to hi there was nothing.
    ghost predicate Growing(d: Page, lo: int, v: int, hi: int, dirs0: map<Page, PageMap>, owner0: map<Page, Use>,
                            pool: set<Page>)
      reads `dirs, `tab, `owner, `free
    {
      && lo <= v <= hi && Sound() && d in dirs0 && d in dirs
      && (forall x | lo <= x < hi :: x !in dirs0[d])
      && (forall x | lo <= x < v :: x in dirs[d])
      && AllPrivate(dirs, owner, d, lo, v)
      && dirs == dirs0[d := dirs[d]] && Trim(dirs[d], lo, v) == dirs0[d]
      && Reclaimed(owner, d, lo, v) == owner0
      && Pool(free, owner) == pool
    }

    method GrowNext(d: Page, ghost lo: int, v: int, ghost hi: int, ghost dirs0: map<Page, PageMap>,
                    ghost owner0: map<Page, Use>, ghost pool: set<Page>)
      returns (ok: bool)
      requires Growing(d, lo, v, hi, dirs0, owner0, pool) && v < hi
      modifies `dirs, `owner, `free
      ensures ok <==> old(free) != []
      ensures ok ==> Growing(d, lo, v + 1, hi, dirs0, owner0, pool) && |free| == |old(free)| - 1
      ensures ok ==> old(free)[0] !in old(owner) && dirs == old(dirs)[d := old(dirs)[d][v := old(free)[0]]]
      ensures !ok ==> unchanged(this)
    {
      assert v !in dirs0[d] && v !in Trim(dirs[d], lo, v);
      if free != [] {
        GrownNext(dirs, tab, owner, free, d, lo, v, free[0]);
      }
      hide Accounted, Trim, Reclaimed;
      ok := MapFresh(d, v);
    }

    // Undo the growth: the pages go back.
    method Undo(d: Page, newsz: nat, oldsz: nat, ghost v: int, ghost dirs0: map<Page, PageMap>,
                ghost owner0: map<Page, Use>, ghost pool: set<Page>)
      requires oldsz < newsz && Growing(d, Pages(oldsz), v, Pages(newsz), dirs0, owner0, pool)
      modifies `dirs, `owner, `free
      ensures Sound() && dirs == dirs0 && owner == owner0 && Pool(free, owner) == pool
    {
      TrimSame(dirs[d], Pages(oldsz), v, Pages(newsz), dirs0[d]);
      ReclaimedSame(dirs, tab, owner, free, d, Pages(oldsz), v, Pages(newsz), dirs0[d]);
      var _ := DeallocUvm(d, newsz, oldsz);
    }

    // The loop of allocuvm; it stops at v when pages run out.
    method GrowLoop(d: Page, oldsz: nat, newsz: nat, ghost dirs0: map<Page, PageMap>, ghost owner0: map<Page, Use>,
                    ghost pool: set<Page>)
      returns (ok: bool, ghost v: int)
      requires oldsz <= newsz && Growing(d, Pages(oldsz), Pages(oldsz), Pages(newsz), dirs0, owner0, pool)
      modifies `dirs, `owner, `free
      ensures Growing(d, Pages(oldsz), v, Pages(newsz), dirs0, owner0, pool)
      ensures ok <==> Pages(newsz) - Pages(oldsz) <= |old(free)|
      ensures if ok then v == Pages(newsz) && |free| == |old(free)| - (Pages(newsz) - Pages(oldsz))
              else v < Pages(newsz)
    {
      hide Accounted, Trim, Reclaimed, AllPrivate;
      ghost var lo, hi, n := Pages(oldsz), Pages(newsz), |free|;
      var a := Pages(oldsz);
      while 4096 * a < newsz
        invariant Growing(d, lo, a, hi, dirs0, owner0, pool) && |free| == n - (a - lo)
        decreases hi - a
      {
        ok := GrowNext(d, lo, a, hi, dirs0, owner0, pool);
        if !ok {
          v := a;
          return;
        }
        a := a + 1;
      }
      return true, a;
    }

    method GrowTo(d: Page, oldsz: nat, newsz: nat, ghost pool: set<Page>) returns (ok: bool)
      requires Sound() && d in dirs && oldsz <= newsz && Pool(free, owner) == pool
      requires forall x | Pages(oldsz) <= x < Pages(newsz) :: x !in dirs[d]
      modifies `dirs, `owner, `free
      ensures ok <==> Pages(newsz) - Pages(oldsz) <= |old(free)|
      ensures ok ==> Growing(d, Pages(oldsz), Pages(newsz), Pages(newsz), old(dirs), old(owner), pool)
      ensures ok ==> |free| == |old(free)| - (Pages(newsz) - Pages(oldsz))
      ensures !ok ==> Sound() && dirs == old(dirs) && owner == old(owner) && Pool(free, owner) == pool
    {
      ghost var dirs0, owner0, v := dirs, owner, 0;
      TrimNone(dirs[d], Pages(oldsz));
      ReclaimedNone(owner, d, Pages(oldsz));
      ok, v := GrowLoop(d, oldsz, newsz, dirs0, owner0, pool);
      if !ok {
        Undo(d, newsz, oldsz, v, dirs0, owner0, pool);
      }
    }

    /** Grow the private part of d from oldsz to newsz bytes, if that leaves room below bound. Without
        enough free pages nothing changes. */
    method AllocUvm(d: Page, oldsz: nat, newsz: nat, bound: int) returns (sz: nat)
      requires Sound() && d in dirs
      requires newsz <= 4096 * bound ==> forall x | Pages(oldsz) <= x < Pages(newsz) :: x !in dirs[d]
      modifies `dirs, `owner, `free
      ensures newsz > 4096 * bound ==> sz == 0 && unchanged(this)
      ensures newsz <= 4096 * bound && newsz < oldsz ==> sz == oldsz && unchanged(this)
      ensures newsz <= 4096 * bound && oldsz <= newsz ==>
              if Pages(newsz) - Pages(oldsz) <= |old(free)|
              then sz == newsz && |free| == |old(free)| - (Pages(newsz) - Pages(oldsz))
                   && Growing(d, Pages(oldsz), Pages(newsz), Pages(newsz), old(dirs), old(owner),
                              old(Pool(free, owner)))
              else sz == 0 && Sound() && dirs == old(dirs) && owner == old(owner)
                   && Pool(free, owner) == old(Pool(free, owner))
    {
      if newsz > 4096 * bound {
        return 0;
      }
      if newsz < oldsz {
        return oldsz;
      }
      var ok := GrowTo(d, oldsz, newsz, Pool(free, owner));
      return if ok then newsz else 0;
    }

    // The directory d, whose tables used up the last page, is forgotten, and its pages with it.
    method Strand(d: Page, ghost v: int, ghost dirs0: map<Page, PageMap>, ghost owner0: map<Page, Use>,
                  ghost free0: seq<Page>)
      requires Growing(d, -TABLES, v, 0, dirs0[d := map[]], owner0[d := Table], Pool(free0, owner0)) && free == []
      requires d !in dirs0 && d !in owner0
      modifies `dirs, `owner
      ensures Sound() && dirs == dirs0 && owner == LostAlso(owner0, free0) && Pool(free, owner) == Pool(free0, owner0)
    {
      assert dirs0 == dirs - {d};
      StrandSound(dirs, tab, owner, d, v, dirs0, owner0, free0);
      dirs := dirs - {d};
      owner := LostAlso(owner0, free0);
    }

    // The page of a new directory, and then its tables.
    method NewTables(d: Page, ghost dirs0: map<Page, PageMap>, ghost owner0: map<Page, Use>, ghost pool: set<Page>)
      returns (ok: bool, ghost v: int)
      requires Growing(d, -TABLES, -TABLES, 0, dirs0[d := map[]], owner0[d := Table], pool)
      modifies `dirs, `owner, `free
      ensures Growing(d, -TABLES, v, 0, dirs0[d := map[]], owner0[d := Table], pool)
      ensures ok <==> TABLES <= |old(free)|
      ensures if ok then v == 0 && |free| == |old(free)| - TABLES else free == []
    {
      ghost var n := |free|;
      var j := -TABLES;
      while j < 0
        invariant Growing(d, -TABLES, j, 0, dirs0[d := map[]], owner0[d := Table], pool) && |free| == n - TABLES - j
      {
        ok := GrowNext(d, -TABLES, j, 0, dirs0[d := map[]], owner0[d := Table], pool);
        if !ok {
          v := j;
          return;
        }
        j := j + 1;
      }
      return true, 0;
    }

    method NewDir() returns (d: int)
      requires Sound()
      modifies `dirs, `owner, `free
      ensures d == -1 <==> old(free) == []
      ensures d == -1 ==> unchanged(this)
      ensures d != -1 ==> d !in old(dirs) && d !in old(owner) && |free| == |old(free)| - 1
      ensures d != -1 ==> Growing(d, -TABLES, -TABLES, 0, old(dirs)[d := map[]], old(owner)[d := Table],
                                  old(Pool(free, owner)))
    {
      hide Accounted;
      d := Kalloc();
      if d != -1 {
        SetupSound(dirs, tab, owner, free, d, dirs[d := map[]], owner[d := Table]);
        dirs := dirs[d := map[]];
        owner := owner[d := Table];
        TrimNone(dirs[d], -TABLES);
        ReclaimedNone(owner, d, -TABLES);
      }
    }

    /** setupkvm: a new directory with its tables and an empty user part. It fails exactly with fewer than
        thirteen free pages, and then every page there was is lost. */
    method SetupDir() returns (d: int)
      requires Sound()
      modifies `dirs, `owner, `free
      ensures d != -1 <==> DIR_PAGES <= |old(free)|
      ensures d == -1 ==> Sound() && free == [] && dirs == old(dirs) && owner == LostAlso(old(owner), old(free))
      ensures d == -1 ==> Pool(free, owner) == old(Pool(free, owner))
      ensures d != -1 ==> d !in old(dirs) && d !in old(owner) && |free| == |old(free)| - DIR_PAGES
      ensures d != -1 ==> Growing(d, -TABLES, 0, 0, old(dirs)[d := map[]], old(owner)[d := Table],
                                  old(Pool(free, owner)))
    {
      ghost var dirs0, owner0, free0 := dirs, owner, free;
      LostAlsoIs(owner, free);
      d := NewDir();
      if d != -1 {
        var ok;
        ghost var v;
        ok, v := NewTables(d, dirs0, owner0, Pool(free0, owner0));
        if !ok {
          Strand(d, v, dirs0, owner0, free0);
          d := -1;
        }
      }
    }

    // Give the tables of d back.
    method FreeTables(d: Page)
      requires Sound() && AllPrivate(dirs, owner, d, -TABLES, 0)
      modifies `dirs, `owner, `free
      ensures Sound() && dirs == old(dirs)[d := Trim(old(dirs)[d], -TABLES, 0)]
              && owner == Reclaimed(old(owner), d, -TABLES, 0)
      ensures Pool(free, owner) == old(Pool(free, owner))
    {
      ghost var dirs0, owner0, pool := dirs, owner, Pool(free, owner);
      TrimNone(dirs[d], -TABLES);
      ReclaimedNone(owner, d, -TABLES);
      var j := -TABLES;
      while j < 0
        invariant Shrinking(d, -TABLES, j, 0, dirs0, owner0, pool)
      {
        DropNext(d, -TABLES, j, 0, dirs0, owner0, pool);
        j := j + 1;
      }
    }

    // Give back directory d, its tables and its pages below bound. Pages above it are never seen again.
    method FreeVm(d: Page, bound: nat)
      requires Sound() && d in dirs && forall v | v in dirs[d] :: v >= -TABLES && owner[dirs[d][v]] == Private(d, v)
      modifies `dirs, `owner, `free
      ensures Sound() && dirs == old(dirs) - {d} && owner == Discarded(old(owner), d, bound)
      ensures Pool(free, owner) == old(Pool(free, owner))
    {
      ghost var owner0, dirs0 := owner, dirs;
      AllItsOwn(dirs, tab, owner, free, d, bound);
      hide Accounted, Trim, Reclaimed, AllPrivate, Discarded;
      FreePages(d, bound);
      FreeDir(d);
      DiscardedIs(owner0, d, bound);
      Replaced(dirs0, d, Trim(dirs0[d], 0, bound));
    }

    method FreePages(d: Page, bound: nat)
      requires Sound() && AllPrivate(dirs, owner, d, -TABLES, bound)
      modifies `dirs, `owner, `free
      ensures Sound() && dirs == old(dirs)[d := Trim(old(dirs)[d], 0, bound)]
              && owner == Reclaimed(old(owner), d, 0, bound)
      ensures Pool(free, owner) == old(Pool(free, owner)) && AllPrivate(dirs, owner, d, -TABLES, 0)
    {
      TrimNone(dirs[d], 0);
      ReclaimedNone(owner, d, 0);
      StillPrivate(dirs, owner, d, bound);
      hide Accounted, Trim, Reclaimed, AllPrivate;
      var _ := DeallocUvm(d, 4096 * bound, 0);
    }

    method FreeDir(d: Page)
      requires Sound() && AllPrivate(dirs, owner, d, -TABLES, 0)
      modifies `dirs, `owner, `free
      ensures Sound() && dirs == old(dirs) - {d} && owner == Discarded(Reclaimed(old(owner), d, -TABLES, 0), d, -TABLES)
      ensures Pool(free, owner) == old(Pool(free, owner))
    {
      FreeTables(d);
      DiscardDir(d);
    }

    // The directory page itself goes back; what it still maps is lost.
    method DiscardDir(d: Page)
      requires Sound() && d in dirs
      modifies `dirs, `owner, `free
      ensures Sound() && dirs == old(dirs) - {d} && owner == Discarded(old(owner), d, -TABLES)
      ensures Pool(free, owner) == old(Pool(free, owner))
    {
      DiscardSound(dirs, tab, owner, free, d, Discarded(owner, d, -TABLES)[d := InHand]);
      assert forall p | p in owner :: !PrivateIn(owner[p], d, -TABLES, -TABLES);
      dirs := dirs - {d};
      owner := Discarded(owner, d, -TABLES)[d := InHand];
      Kfree(d);
    }

    // Give up a directory begun with its first i pages, all below bound.
    method Abandon(d: Page, bound: nat, ghost i: int, ghost n: int, ghost dirs0: map<Page, PageMap>,
                   ghost owner0: map<Page, Use>, ghost pool: set<Page>)
      requires Growing(d, -TABLES, i, n, dirs0[d := map[]], owner0[d := Table], pool) && i <= bound
      requires d !in dirs0 && d !in owner0
      modifies `dirs, `owner, `free
      ensures Sound() && dirs == dirs0 && owner == owner0 && Pool(free, owner) == pool
    {
      TrimmedAway(dirs[d], -TABLES, i);
      AbandonedIs(dirs, tab, owner, free, d, i, bound, owner0);
      FreeVm(d, bound);
    }

    // The first i of n pages of the directory pt have been copied to d.
    ghost predicate Copying(d: Page, pt: PageMap, i: int, n: int, dirs0: map<Page, PageMap>, owner0: map<Page, Use>,
                            pool: set<Page>, frames0: map<Page, seq<int>>)
      reads this
    {
      && 0 <= i && Growing(d, -TABLES, i, n, dirs0, owner0, pool)
      && (forall v | 0 <= v < n :: v in pt) && (forall v | v in pt :: pt[v] in owner0)
      && Copied(frames0, frames, owner0, pt, dirs[d], i)
    }

    // Page i of d is new and gets the contents of page i of pt.
    method CopyFrame(d: Page, pt: PageMap, i: int, ghost n: int, ghost dirs0: map<Page, PageMap>,
                     ghost owner0: map<Page, Use>, ghost pool: set<Page>,
                     ghost frames0: map<Page, seq<int>>, ghost owner1: map<Page, Use>, ghost pt1: PageMap)
      requires Growing(d, -TABLES, i + 1, n, dirs0, owner0, pool) && 0 <= i < n && i in dirs[d]
      requires (forall v | 0 <= v < n :: v in pt) && (forall v | v in pt :: pt[v] in owner0)
      requires Copied(frames0, frames, owner0, pt, pt1, i) && owner0.Keys <= owner1.Keys
      requires dirs[d][i] !in owner1 && dirs[d] == pt1[i := dirs[d][i]] && forall v | 0 <= v < i && v in pt1 ::
               pt1[v] in owner1
      modifies `frames
      ensures Copying(d, pt, i + 1, n, dirs0, owner0, pool, frames0)
    {
      CopiedNext(frames0, frames, owner0, owner1, pt, pt1, i, dirs[d][i], frames[dirs[d][i] := Frame(frames, pt[i])],
                 dirs[d]);
      frames := frames[dirs[d][i] := Frame(frames, pt[i])];
    }

    // One round of copyuvm: page i is copied to a fresh page of d.
    method CopyNext(d: Page, pt: PageMap, i: int, ghost n: int, ghost dirs0: map<Page, PageMap>,
                    ghost owner0: map<Page, Use>, ghost pool: set<Page>,
                    ghost frames0: map<Page, seq<int>>)
      returns (ok: bool)
      requires Copying(d, pt, i, n, dirs0, owner0, pool, frames0) && 0 <= i < n
      modifies `dirs, `owner, `free, `frames
      ensures ok <==> old(free) != []
      ensures ok ==> Copying(d, pt, i + 1, n, dirs0, owner0, pool, frames0) && |free| == |old(free)| - 1
      ensures !ok ==> unchanged(this)
    {
      ghost var pt1, owner1 := dirs[d], owner;
      assert owner0.Keys <= owner1.Keys by {
        assert owner0 == Reclaimed(owner, d, -TABLES, i);
      }
      assert forall v | 0 <= v < i :: pt1[v] in owner1;
      ok := GrowNext(d, -TABLES, i, n, dirs0, owner0, pool);
      if ok {
        CopyFrame(d, pt, i, n, dirs0, owner0, pool, frames0, owner1, pt1);
      }
    }

    method CopyLoop(d: Page, pt: PageMap, sz: nat, ghost dirs0: map<Page, PageMap>, ghost owner0: map<Page, Use>,
                    ghost pool: set<Page>, ghost frames0: map<Page, seq<int>>)
      returns (ok: bool, ghost i: int)
      requires Copying(d, pt, 0, Pages(sz), dirs0, owner0, pool, frames0)
      modifies `dirs, `owner, `free, `frames
      ensures Copying(d, pt, i, Pages(sz), dirs0, owner0, pool, frames0) && (ok ==> i == Pages(sz))
      ensures ok <==> Pages(sz) <= |old(free)|
      ensures ok ==> |free| == |old(free)| - Pages(sz)
    {
      var v := 0;
      ghost var n, avail := Pages(sz), |free|;
      while 4096 * v < sz
        invariant Copying(d, pt, v, n, dirs0, owner0, pool, frames0) && |free| == avail - v
        decreases n - v
      {
        ok := CopyNext(d, pt, v, n, dirs0, owner0, pool, frames0);
        if !ok {
          i := v;
          return;
        }
        v := v + 1;
      }
      return true, v;
    }

    // Fill the new directory d with copies of the pages of pt, or give it up.
    method CopyInto(d: Page, pt: PageMap, sz: nat, bound: nat, ghost dirs0: map<Page, PageMap>,
                    ghost owner0: map<Page, Use>, ghost pool: set<Page>,
                    ghost frames0: map<Page, seq<int>>) returns (ok: bool)
      requires d !in dirs0 && d !in owner0 && Pages(sz) <= bound
      requires Copying(d, pt, 0, Pages(sz), dirs0[d := map[]], owner0[d := Table], pool, frames0)
      modifies `dirs, `owner, `free, `frames
      ensures Sound() && Pool(free, owner) == pool
      ensures ok <==> Pages(sz) <= |old(free)|
      ensures ok ==> |free| == |old(free)| - Pages(sz)
      ensures !ok ==> dirs == dirs0 && owner == owner0
      ensures ok ==> d in dirs && dirs == dirs0[d := dirs[d]] && Begun(dirs0, owner0, owner, d, dirs[d], Pages(sz))
                     && Copied(frames0, frames, owner0, pt, dirs[d], Pages(sz))
    {
      ghost var i;
      ok, i := CopyLoop(d, pt, sz, dirs0[d := map[]], owner0[d := Table], pool, frames0);
      if !ok {
        Abandon(d, bound, i, Pages(sz), dirs0, owner0, pool);
      } else {
        GrownBegun(dirs, owner, dirs0, owner0, d, Pages(sz));
      }
    }

    /** copyuvm: a new directory whose first pages are fresh copies of those of src. Without enough free
        pages -1: what was taken is given back, unless setupkvm was the one to fail. */
    method CopyUvm(src: Page, sz: nat, bound: nat) returns (d: int)
      requires Sound() && src in dirs && Pages(sz) <= bound && forall v | 0 <= v < Pages(sz) :: v in dirs[src]
      modifies `dirs, `owner, `free, `frames
      ensures Sound() && Pool(free, owner) == old(Pool(free, owner))
      ensures d != -1 <==> DIR_PAGES + Pages(sz) <= |old(free)|
      ensures d != -1 ==> |free| == |old(free)| - DIR_PAGES - Pages(sz)
      ensures d == -1 ==> dirs == old(dirs) && owner == Spent(old(owner), old(free))
      ensures d != -1 ==> d in dirs && dirs == old(dirs)[d := dirs[d]]
                          && Begun(old(dirs), old(owner), owner, d, dirs[d], Pages(sz))
                          && Copied(old(frames), frames, old(owner), old(dirs)[src], dirs[d], Pages(sz))
    {
      ghost var pool, dirs0, owner0 := Pool(free, owner), dirs, owner;
      var pt := dirs[src];
      d := SetupDir();
      if d != -1 {
        var ok := CopyInto(d, pt, sz, bound, dirs0, owner0, pool, frames);
        d := if ok then d else -1;
      }
    }

    // The mappings of d in [v, hi) have been taken away.
    ghost predicate Forgetting(d: Page, v: int, hi: int, dirs0: map<Page, PageMap>, owner0: map<Page, Use>,
                               pool: set<Page>)
      reads `dirs, `tab, `owner, `free
    {
      && v <= hi && Sound() && d in dirs0 && dirs == dirs0[d := Trim(dirs0[d], v, hi)]
      && owner == Leaked(owner0, d, v, hi) && Pool(free, owner) == pool
    }

    method ForgetNext(d: Page, v: int, ghost hi: int, ghost dirs0: map<Page, PageMap>, ghost owner0: map<Page, Use>,
                      ghost pool: set<Page>)
      requires Forgetting(d, v, hi, dirs0, owner0, pool)
      modifies `dirs, `owner
      ensures Forgetting(d, v - 1, hi, dirs0, owner0, pool)
    {
      ForgetSound(dirs, tab, owner, free, d, v - 1, dirs[d := dirs[d] - {v - 1}], Leaked(owner, d, v - 1, v));
      LeakedNext(owner0, d, v, hi);
      TrimBelow(dirs0[d], v, hi);
      owner := Leaked(owner, d, v - 1, v);
      if v - 1 in dirs[d] {
        dirs := dirs[d := dirs[d] - {v - 1}];
      } else {
        assert dirs[d] - {v - 1} == dirs[d];
        assert dirs[d := dirs[d] - {v - 1}] == dirs;
      }
    }

    // Take the mappings of d in [lo, hi) away, from the top; no page is given back.
    method DeallocShm(d: Page, lo: int, hi: int)
      requires Sound() && d in dirs && lo <= hi
      modifies `dirs, `owner
      ensures Forgetting(d, lo, hi, old(dirs), old(owner), old(Pool(free, owner)))
    {
      ghost var dirs0, owner0, pool := dirs, owner, Pool(free, owner);
      TrimNone(dirs[d], hi);
      LeakedNone(owner, d, hi);
      var v := hi;
      while v > lo
        invariant lo <= v && Forgetting(d, v, hi, dirs0, owner0, pool)
      {
        ForgetNext(d, v, hi, dirs0, owner0, pool);
        v := v - 1;
      }
    }

    // What src maps in [lo, v) is mapped in dst as well.
    ghost predicate Overlaying(src: Page, dst: Page, lo: int, v: int, hi: int, dirs0: map<Page, PageMap>)
      reads `dirs, `tab, `owner, `free
    {
      && lo <= v <= hi && Sound() && src in dirs0 && dst in dirs0 && src != dst
      && (forall x | lo <= x < hi :: x in dirs0[src] && x !in dirs0[dst] && dirs0[src][x] in owner
                                     && owner[dirs0[src][x]].Shared?)
      && dirs == dirs0[dst := Overlay(dirs0[dst], dirs0[src], lo, v)]
    }

    method OverlayNext(src: Page, dst: Page, ghost lo: int, v: int, ghost hi: int, ghost dirs0: map<Page, PageMap>)
      requires Overlaying(src, dst, lo, v, hi, dirs0) && v < hi
      modifies `dirs
      ensures Overlaying(src, dst, lo, v + 1, hi, dirs0)
    {
      OverlayStep(dirs0[dst], dirs0[src], lo, v);
      MapShared(dst, v, dirs[src][v]);
    }

    // Map what src maps from lo up into dst, which maps nothing there.
    method CopyShm(src: Page, lo: int, dst: Page)
      requires Sound() && src in dirs && dst in dirs && src != dst && lo <= USERTOP
      requires forall v | lo <= v < USERTOP :: v in dirs[src] && v !in dirs[dst] && owner[dirs[src][v]].Shared?
      modifies `dirs
      ensures Overlaying(src, dst, lo, USERTOP, USERTOP, old(dirs))
    {
      ghost var dirs0 := dirs;
      OverlayNone(dirs[dst], dirs[src], lo);
      var v := lo;
      while v < USERTOP
        invariant Overlaying(src, dst, lo, v, USERTOP, dirs0)
      {
        OverlayNext(src, dst, lo, v, USERTOP, dirs0);
        v := v + 1;
      }
    }

    // Pages have run out: the mappings made so far are taken away and their pages lost.
    method LosePages(d: Page, lo: int, hi: int, ghost v: int, ghost dirs0: map<Page, PageMap>,
                     ghost owner0: map<Page, Use>, ghost free0: seq<Page>)
      requires Growing(d, lo, v, hi, dirs0, owner0, Pool(free0, owner0)) && free == []
      modifies `dirs, `owner
      ensures Sound() && dirs == dirs0 && owner == LostAlso(owner0, free0) && Pool(free, owner) == Pool(free0, owner0)
    {
      OutOfPages(dirs, tab, owner, owner0, free0, d, lo, v, hi, dirs0[d]);
      DeallocShm(d, lo, hi);
    }

    // The pages mapped at [lo, v), in order.
    ghost predicate Gathered(d: Page, lo: int, v: int, phys: seq<Page>)
      reads `dirs
    {
      d in dirs && |phys| == v - lo && forall i | 0 <= i < |phys| :: Lies(dirs[d], lo, phys, i)
    }

    method GatherNext(d: Page, lo: int, v: int, ghost hi: int, phys: seq<Page>, ghost dirs0: map<Page, PageMap>,
                      ghost owner0: map<Page, Use>, ghost pool: set<Page>)
      returns (ok: bool, phys': seq<Page>)
      requires Growing(d, lo, v, hi, dirs0, owner0, pool) && v < hi && Gathered(d, lo, v, phys)
      modifies `dirs, `owner, `free
      ensures ok <==> old(free) != []
      ensures ok ==> Growing(d, lo, v + 1, hi, dirs0, owner0, pool) && |free| == |old(free)| - 1
                     && Gathered(d, lo, v + 1, phys')
      ensures !ok ==> unchanged(this)
    {
      ghost var pt := dirs[d];
      ok := GrowNext(d, lo, v, hi, dirs0, owner0, pool);
      phys' := phys;
      if ok {
        phys' := phys + [dirs[d][v]];
        forall i | 0 <= i < |phys'| ensures Lies(dirs[d], lo, phys', i) {
          assert i < |phys| ==> Lies(pt, lo, phys, i);
        }
      }
    }

    /** Map fresh pages at [newShm, oldShm), if that is above the private part. When pages run out the
        mappings go away again, and the pages with them. */
    method AllocShm(d: Page, oldShm: int, newShm: int, sz: nat) returns (r: int, phys: seq<Page>)
      requires Sound() && d in dirs && 0 < newShm <= oldShm
               && (sz <= 4096 * newShm ==> forall v | newShm <= v < oldShm :: v !in dirs[d])
      modifies `dirs, `owner, `free
      ensures r == if sz <= 4096 * newShm && oldShm - newShm <= |old(free)| then newShm else 0
      ensures r == newShm ==> Growing(d, newShm, oldShm, oldShm, old(dirs), old(owner), old(Pool(free, owner)))
                              && Gathered(d, newShm, oldShm, phys)
      ensures r != 0 ==> |free| == |old(free)| - (oldShm - newShm)
      ensures 4096 * newShm < sz ==> unchanged(this)
      ensures r == 0 && sz <= 4096 * newShm ==> Sound() && dirs == old(dirs) && free == []
                                                && owner == LostAlso(old(owner), old(free))
                                                && Pool(free, owner) == old(Pool(free, owner))
    {
      phys := [];
      if 4096 * newShm < sz {
        return 0, phys;
      }
      ghost var dirs0, owner0, free0, pool, n := dirs, owner, free, Pool(free, owner), |free|;
      TrimNone(dirs[d], newShm);
      ReclaimedNone(owner, d, newShm);
      var v := newShm;
      while v < oldShm
        invariant Growing(d, newShm, v, oldShm, dirs0, owner0, pool) && |free| == n - (v - newShm)
                  && Gathered(d, newShm, v, phys)
      {
        var ok;
        ok, phys := GatherNext(d, newShm, v, oldShm, phys, dirs0, owner0, pool);
        if !ok {
          LosePages(d, newShm, oldShm, v, dirs0, owner0, free0);
          return 0, phys;
        }
        v := v + 1;
      }
      return newShm, phys;
    }

    // The pages mapped at [lo, hi) of d become segment k, with one user.
    method ShmAdd(k: nat, d: Page, phys: seq<Page>, ghost lo: int)
      requires Sound() && k < |tab| && tab[k].count <= 0 && |tab[k].pages| == 4 && |phys| <= 4
      requires Gathered(d, lo, lo + |phys|, phys) && AllPrivate(dirs, owner, d, lo, lo + |phys|)
      modifies `tab, `owner
      ensures Sound() && owner == Donated(old(owner), d, lo, |phys|, k)
      ensures |tab| == |old(tab)| && tab == old(tab)[k := tab[k]] && tab[k].count == 1 && tab[k].num == |phys|
              && |tab[k].pages| == 4
      ensures tab[k].pages[..|phys|] == phys
    {
      ghost var tab0, owner0 := tab, owner;
      tab := tab[k := tab[k].(count := 1, num := |phys|)];
      var i := 0;
      while i < |phys|
        invariant 0 <= i <= |phys| && |tab| == |tab0| && tab == tab0[k := tab[k]] && |tab[k].pages| == 4
        invariant tab[k].count == 1 && tab[k].num == |phys|
        invariant forall j | 0 <= j < i :: tab[k].pages[j] == phys[j]
        modifies `tab
      {
        tab := tab[k := tab[k].(pages := tab[k].pages[i := phys[i]])];
        i := i + 1;
      }
      GatheredAll(d, lo, phys);
      DonateSound(dirs, tab0, owner0, free, d, lo, |phys|, k, tab, Donated(owner0, d, lo, |phys|, k));
      owner := Donated(owner0, d, lo, |phys|, k);
    }

    lemma GatheredAll(d: Page, lo: int, phys: seq<Page>)
      requires Gathered(d, lo, lo + |phys|, phys)
      ensures forall v | lo <= v < lo + |phys| :: v in dirs[d] && dirs[d][v] == phys[v - lo]
    {
      forall v | lo <= v < lo + |phys| ensures v in dirs[d] && dirs[d][v] == phys[v - lo] {
        assert Lies(dirs[d], lo, phys, v - lo);
      }
    }

    // The pages ps[i..] are in hand, ps[..i] have been given back.
    ghost predicate Returning(ps: seq<Page>, i: int, owner1: map<Page, Use>, pool: set<Page>)
      reads `dirs, `tab, `owner, `free
    {
      && Sound() && 0 <= i <= |ps| && Pool(free, owner) == pool
      && (forall j | i <= j < |ps| :: ps[j] in owner && owner[ps[j]] == InHand)
      && (forall j, l | 0 <= j < l < |ps| :: ps[j] != ps[l])
      && owner == owner1 - (set p | p in ps[..i])
    }

    method ReturnNext(ghost ps: seq<Page>, ghost i: int, p: Page, ghost owner1: map<Page, Use>, ghost pool: set<Page>)
      requires Returning(ps, i, owner1, pool) && i < |ps| && p == ps[i]
      modifies `free, `owner
      ensures Returning(ps, i + 1, owner1, pool)
    {
      assert ps[..i + 1] == ps[..i] + [ps[i]];
      Kfree(p);
    }

    /** Give back the pages of segment k, which nothing maps any more. */
    method ShmRm(k: nat)
      requires Sound() && k < |tab| && tab[k].count > 0 && tab[k].num <= |tab[k].pages| && Unmapped(dirs, owner, k)
      modifies `tab, `owner, `free
      ensures Sound() && tab == old(tab)[k := old(tab)[k].(count := 0)] && owner == Unshared(old(owner), k)
      ensures Pool(free, owner) == old(Pool(free, owner))
    {
      ghost var owner0, pool, ps := owner, Pool(free, owner), tab[k].pages[..tab[k].num];
      SegmentPages(dirs, tab, owner, free, k);
      ReclaimSound(dirs, tab, owner, free, k, tab[k := tab[k].(count := 0)], Reclaiming(owner, k));
      tab := tab[k := tab[k].(count := 0)];
      owner := Reclaiming(owner, k);
      var i := 0;
      while i < tab[k].num
        invariant 0 <= i <= tab[k].num && Returning(ps, i, Reclaiming(owner0, k), pool)
        modifies `owner, `free
      {
        ReturnNext(ps, i, tab[k].pages[i], Reclaiming(owner0, k), pool);
        i := i + 1;
      }
      assert ps[..i] == ps;
      ReturnedIs(owner0, k, ps);
    }

    ghost function Value(): Mem
      reads this
    {
      Mem(tab, dirs, owner, free, spaces)
    }

    ghost predicate Valid()
      reads this
    {
      ValidMem(Value())
    }

    // One more user for each key in mask.
    method ShmAddCount(mask: set<int>)
      modifies `tab
      requires |tab| == 8
      ensures tab == Counted(old(tab), mask, 8)
    {
      var key := 0;
      while key < MAX_SHM_KEY
        invariant 0 <= key <= 8 && |tab| == 8
        invariant forall k | 0 <= k < 8 :: tab[k] == Counted(old(tab), mask, key)[k]
      {
        if key in mask {
          tab := tab[key := tab[key].(count := tab[key].count + 1)];
        }
        key := key + 1;
      }
    }

    // The rest of fork, once d has its private pages: the shared pages and their counts.
    method ShareWith(ghost m: Mem, src: Page, shm: int, mask: set<int>, d: Page, ghost pt: PageMap)
      requires Sound() && tab == m.tab && spaces == m.spaces && |tab| == 8 && dirs == m.dirs[d := pt]
      requires src in m.spaces && src in m.dirs && src != d && m.spaces[src].shm == shm <= USERTOP
               && m.spaces[src].mask == mask
      requires Begun(m.dirs, m.owner, owner, d, pt, Pages(m.spaces[src].sz))
      requires forall v | shm <= v < USERTOP :: v in dirs[src] && v !in pt && dirs[src][v] in owner
                                                && owner[dirs[src][v]].Shared?
      modifies `dirs, `tab, `spaces
      ensures Forked(m, Value(), src, d, pt) && Accounted(dirs, m.tab, owner, free)
    {
      hide Accounted, Overlay, Counted;
      CopyShm(src, shm, d);
      ShmAddCount(mask);
      spaces := spaces[d := spaces[src]];
    }

    // The private part of fork; -1 when pages run out.
    method ForkPrivate(src: Page, sz: nat, shm: int, ghost m: Mem) returns (d: int)
      requires Valid() && m == Value() && src in spaces && spaces[src].sz == sz && spaces[src].shm == shm
      modifies `dirs, `owner, `free, `frames
      ensures d != -1 <==> DIR_PAGES + Pages(sz) <= |m.free|
      ensures d != -1 ==> |free| == |m.free| - DIR_PAGES - Pages(sz)
      ensures d == -1 ==> Valid() && owner == Spent(m.owner, m.free) && dirs == m.dirs
                          && Pool(free, owner) == Pool(m.free, m.owner)
      ensures d != -1 ==> Sound() && d in dirs && dirs == m.dirs[d := dirs[d]]
                          && Begun(m.dirs, m.owner, owner, d, dirs[d], Pages(sz))
      ensures d != -1 ==> Pool(free, owner) == Pool(m.free, m.owner)
                          && Copied(old(frames), frames, m.owner, m.dirs[src], dirs[d], Pages(sz))
    {
      assert Settled(m, src);
      d := CopyUvm(src, sz, shm);
      if d == -1 {
        AsideValid(m, Value());
      }
    }

    /** The memory part of fork: an address space with fresh copies of the private pages and the same
        shared pages. -1 when pages run out; with fewer than thirteen of them, all are lost. */
    method ForkSpace(src: Page, sz: nat, shm: int, mask: set<int>) returns (d: int)
      requires Valid() && src in spaces && spaces[src].sz == sz && spaces[src].shm == shm && spaces[src].mask == mask
      modifies this
      ensures Valid() && Pool(free, owner) == old(Pool(free, owner)) && Stacks(owner) == old(Stacks(owner))
      ensures LostPages(owner) == old(LostPages(owner)) + if |old(free)| < DIR_PAGES then set p | p in old(free) else {}
      ensures d != -1 <==> DIR_PAGES + Pages(sz) <= |old(free)|
      ensures d != -1 ==> |free| == |old(free)| - DIR_PAGES - Pages(sz)
      ensures d == -1 ==> spaces == old(spaces) && tab == old(tab) && dirs == old(dirs)
      ensures d != -1 ==> d !in old(spaces) && spaces == old(spaces)[d := old(spaces)[src]]
      ensures d != -1 ==> d in dirs && Copied(old(frames), frames, old(owner), old(dirs)[src], dirs[d], Pages(sz))
    {
      ghost var m := Value();
      LostAlsoIs(owner, free);
      hide ValidMem, Accounted, Copied, LostPages, LostAlso;
      d := ForkPrivate(src, sz, shm, m);
      if d != -1 {
        Share(m, src, sz, shm, mask, d, old(frames));
      }
    }

    // The directory d with the private pages gets the shared ones, and is an address space.
    method Share(ghost m: Mem, src: Page, ghost sz: nat, shm: int, mask: set<int>, d: Page,
                 ghost frames0: map<Page, seq<int>>)
      requires ValidMem(m) && src in m.spaces && m.spaces[src].sz == sz && m.spaces[src].shm == shm
               && m.spaces[src].mask == mask
      requires Sound() && tab == m.tab && spaces == m.spaces && d in dirs && dirs == m.dirs[d := dirs[d]]
      requires Begun(m.dirs, m.owner, owner, d, dirs[d], Pages(sz)) && src in m.dirs
      requires Copied(frames0, frames, m.owner, m.dirs[src], dirs[d], Pages(sz))
      modifies `dirs, `tab, `spaces
      ensures Valid() && LostPages(owner) == LostPages(m.owner) && Stacks(owner) == Stacks(m.owner)
      ensures d !in m.spaces && spaces == m.spaces[d := m.spaces[src]]
      ensures d in dirs && Copied(frames0, frames, m.owner, m.dirs[src], dirs[d], Pages(sz))
    {
      TabShape(m);
      hide ValidMem, Accounted, Overlay, Counted, LostPages;
      ghost var pt := dirs[d];
      ForkReady(m, Value(), src, d, pt);
      ShareWith(m, src, shm, mask, d, pt);
      ForkValid(m, Value(), src, d, pt);
      CopiedShared(frames0, frames, m.owner, m.dirs[src], pt, m.dirs[src], shm, Pages(sz));
    }

    // Segments that only d holds are mapped nowhere any more.
    ghost predicate MayRelease(mask: set<int>)
      reads this
    {
      |tab| == 8 && forall k | 0 <= k < 8 && k in mask ::
        tab[k].count >= 1 && tab[k].num <= |tab[k].pages| && (tab[k].count == 1 ==> Unmapped(dirs, owner, k))
    }

    // The keys in mask below j have lost a holder, and their pages are free if it was the last one.
    ghost predicate Releasing(mask: set<int>, j: int, tab0: seq<Segment>, owner0: map<Page, Use>, pool: set<Page>)
      reads this
    {
      && Sound() && |tab0| == 8 && 0 <= j <= 8 && tab == Dropped(tab0, mask, j)
      && owner == Survivors(owner0, tab0, mask, j)
      && Pool(free, owner) == pool
      && (forall k | j <= k < 8 && k in mask ::
            tab[k].count >= 1 && tab[k].num <= |tab[k].pages| && (tab[k].count == 1 ==> Unmapped(dirs, owner, k)))
    }

    method ReleaseNext(mask: set<int>, j: nat, ghost tab0: seq<Segment>, ghost owner0: map<Page, Use>,
                       ghost pool: set<Page>)
      requires Releasing(mask, j, tab0, owner0, pool) && j < 8
      modifies `tab, `owner, `free
      ensures Releasing(mask, j + 1, tab0, owner0, pool)
    {
      SurvivorsNext(owner0, tab0, mask, j);
      if j in mask {
        var count := tab[j].count - 1;
        if count == 0 {
          ShmRm(j);
        } else {
          CountedSound(Value(), tab[j := tab[j].(count := count)]);
          tab := tab[j := tab[j].(count := count)];
        }
      }
    }

    // The loop of shm_release.
    method ReleaseKeys(mask: set<int>)
      requires Sound() && MayRelease(mask)
      modifies `tab, `owner, `free
      ensures Releasing(mask, 8, old(tab), old(owner), old(Pool(free, owner)))
    {
      ghost var tab0, owner0, pool := tab, owner, Pool(free, owner);
      SurvivorsNone(owner, tab, mask);
      var k := 0;
      while k < MAX_SHM_KEY
        invariant 0 <= k <= 8 && Releasing(mask, k, tab0, owner0, pool)
      {
        ReleaseNext(mask, k, tab0, owner0, pool);
        k := k + 1;
      }
    }

    // Release the shared memory of d: its mappings, and the pages of segments nobody else holds.
    method ShmRelease(d: Page, shm: int, mask: set<int>, ghost m: Mem)
      requires Valid() && m == Value() && d in spaces && spaces[d].shm == shm && spaces[d].mask == mask
      modifies `dirs, `tab, `owner, `free
      ensures Releasing(mask, 8, m.tab, m.owner, Pool(m.free, m.owner))
              && dirs == m.dirs[d := Trim(m.dirs[d], shm, USERTOP)]
    {
      assert Settled(m, d);
      DeallocShm(d, shm, USERTOP);
      SharedNotLost(m, d);
      forall k | 0 <= k < 8 && k in mask ensures tab[k].count >= 1 && (tab[k].count == 1 ==> Unmapped(dirs, owner, k)) {
        assert d in Holders(m.spaces, k);
        if tab[k].count == 1 {
          LastHolderUnmaps(m, d, k);
        }
      }
      ReleaseKeys(mask);
    }

    // Free the directory of d, whose shared memory has been released.
    method FreeRest(d: Page, bound: nat, ghost m: Mem)
      requires ValidMem(m) && d in m.spaces && spaces == m.spaces
               && dirs == m.dirs[d := Trim(m.dirs[d], m.spaces[d].shm, USERTOP)]
      requires Releasing(m.spaces[d].mask, 8, m.tab, m.owner, Pool(m.free, m.owner))
      modifies this
      ensures Departed(m, Value(), d, bound) && Accounted(dirs, tab, owner, free)
              && Pool(free, owner) == Pool(m.free, m.owner)
    {
      hide ValidMem, Survivors, Dropped, Discarded;
      forall v | v in dirs[d]
        ensures v >= -TABLES && dirs[d][v] in owner && owner[dirs[d][v]] == Private(d, v)
      {
        PrivateRemains(m, d, v);
      }
      FreeVm(d, bound);
      spaces := spaces - {d};
      assert dirs == m.dirs - {d};
    }

    /** The end of an address space: its shared memory is released, its directory and its pages below
        bound are freed. Pages at bound and above are lost. */
    method ReleaseSpace(d: Page, shm: int, mask: set<int>, bound: nat)
      requires Valid() && d in spaces && spaces[d].shm == shm && spaces[d].mask == mask
      modifies this
      ensures Valid() && spaces == old(spaces) - {d} && Pool(free, owner) == old(Pool(free, owner))
      ensures tab == Dropped(old(tab), mask, 8) && Stacks(owner) == old(Stacks(owner))
      ensures LostPages(owner) == old(LostPages(owner)) + old(Stranded(Value(), d, bound))
    {
      ghost var m := Value();
      ShmRelease(d, shm, mask, m);
      FreeRest(d, bound, m);
      DepartValid(m, Value(), d, bound);
      DepartLoses(m, d, bound);
    }

    // The pages of the directory d just set up; it is given up if that fails.
    method FillDir(d: Page, sz: nat, bound: nat, ghost dirs0: map<Page, PageMap>, ghost owner0: map<Page, Use>,
                   ghost pool: set<Page>) returns (ok: bool)
      requires Growing(d, -TABLES, 0, 0, dirs0[d := map[]], owner0[d := Table], pool) && d !in dirs0 && d !in owner0
      modifies `dirs, `owner, `free
      ensures Sound() && Pool(free, owner) == pool
      ensures ok <==> 0 < sz <= 4096 * bound && Pages(sz) <= |old(free)|
      ensures ok ==> |free| == |old(free)| - Pages(sz)
      ensures !ok ==> dirs == dirs0 && owner == owner0
      ensures ok ==> d in dirs && dirs == dirs0[d := dirs[d]] && Begun(dirs0, owner0, owner, d, dirs[d], Pages(sz))
    {
      hide Trim, Reclaimed, Accounted;
      ghost var pt1, owner1 := dirs[d], owner;
      TrimmedAway(pt1, -TABLES, 0);
      var r := AllocUvm(d, 0, sz, bound);
      ok := r != 0;
      if ok {
        GrownOn(dirs[d], pt1, owner, owner1, owner0[d := Table], d, Pages(sz));
        FilledBegun(dirs[d], pt1, owner, owner1, dirs0, owner0, d, Pages(sz));
      } else {
        TrimNone(dirs[d], 0);
        ReclaimedNone(owner, d, 0);
        Abandon(d, bound, 0, 0, dirs0, owner0, pool);
      }
    }

    // Build the directory exec will run in, of sz bytes.
    method BuildDir(sz: nat, bound: nat) returns (d: int)
      requires Sound()
      modifies `dirs, `owner, `free
      ensures Sound() && Pool(free, owner) == old(Pool(free, owner))
      ensures d != -1 <==> 0 < sz <= 4096 * bound && DIR_PAGES + Pages(sz) <= |old(free)|
      ensures d != -1 ==> |free| == |old(free)| - DIR_PAGES - Pages(sz)
      ensures d == -1 ==> dirs == old(dirs) && owner == Spent(old(owner), old(free))
      ensures d != -1 ==> d in dirs && dirs == old(dirs)[d := dirs[d]]
                          && Begun(old(dirs), old(owner), owner, d, dirs[d], Pages(sz))
    {
      ghost var pool, dirs0, owner0 := Pool(free, owner), dirs, owner;
      d := SetupDir();
      if d != -1 {
        var ok := FillDir(d, sz, bound, dirs0, owner0, pool);
        d := if ok then d else -1;
      }
    }

    /** A new address space of sz bytes without shared memory, for exec. With fewer than thirteen free
        pages all of them are lost. */
    method NewSpace(sz: nat, bound: nat) returns (d: int)
      requires Valid() && bound <= USERTOP
      modifies this
      ensures Valid() && Pool(free, owner) == old(Pool(free, owner)) && Stacks(owner) == old(Stacks(owner))
              && tab == old(tab)
      ensures LostPages(owner) == old(LostPages(owner)) + if |old(free)| < DIR_PAGES then set p | p in old(free) else {}
      ensures d != -1 <==> 0 < sz <= 4096 * bound && DIR_PAGES + Pages(sz) <= |old(free)|
      ensures d != -1 ==> |free| == |old(free)| - DIR_PAGES - Pages(sz)
      ensures d == -1 ==> spaces == old(spaces) && dirs == old(dirs)
      ensures d != -1 ==> d !in old(spaces) && spaces == old(spaces)[d := FreshSpace(sz)]
    {
      ghost var m := Value();
      LostAlsoIs(owner, free);
      d := BuildDir(sz, bound);
      if d == -1 {
        AsideValid(m, Value());
      } else {
        spaces := spaces[d := FreshSpace(sz)];
        FreshValid(m, Value(), d, sz);
        BegunUses(m.dirs, m.owner, owner, d, dirs[d], Pages(sz));
      }
    }

    // copyout to d, as far as it says whether it succeeds.
    method CanWrite(d: Page, va: nat, len: nat) returns (ok: bool)
      requires d in dirs
      ensures ok <==> Mapped(dirs[d], va, len)
    {
      var a, n := va, len;
      while n > 0
        invariant a + n == va + len && va <= a && (a == va || n == 0 || a % 4096 == 0)
        invariant Mapped(dirs[d], va, a - va)
      {
        var v := a / 4096;
        if v !in dirs[d] {
          return false;
        }
        var m := if 4096 - a % 4096 > n then n else 4096 - a % 4096;
        a, n := a + m, n - m;
      }
      return true;
    }

    /** The kernel stack of slot s, -1 without a free page. */
    method TakeStack(s: int) returns (p: int)
      requires Valid()
      modifies `owner, `free
      ensures Valid() && LostPages(owner) == old(LostPages(owner))
      ensures p == -1 <==> old(free) == []
      ensures p == -1 ==> free == old(free) && owner == old(owner)
      ensures p != -1 ==> p !in old(owner) && free == old(free)[1..] && owner == old(owner)[p := Stack(s)]
      ensures p != -1 ==> Stacks(owner) == old(Stacks(owner))[p := s]
    {
      ghost var m := Value();
      p := Kalloc();
      if p != -1 {
        HandAside(dirs, tab, owner, free, p, s);
        owner := owner[p := Stack(s)];
        AsideValid(m, Value());
      }
    }

    method ReturnStack(p: Page)
      requires Valid() && p in Stacks(owner)
      modifies `owner, `free
      ensures Valid() && LostPages(owner) == old(LostPages(owner))
      ensures Stacks(owner) == old(Stacks(owner)) - {p} && free == [p] + old(free)
    {
      ghost var m := Value();
      StackInHand(m, p);
      hide ValidMem, Accounted;
      owner := owner[p := InHand];
      Kfree(p);
      AsideValid(m, Value());
    }

    // The pages growproc adds; without enough of them everything stays as it was.
    method GrowPages(d: Page, sz: nat, newsz: nat, shm: int, ghost m: Mem) returns (r: nat)
      requires Valid() && m == Value() && d in spaces && spaces[d].sz == sz < newsz && spaces[d].shm == shm
      modifies `dirs, `owner, `free
      ensures r == if newsz <= 4096 * shm && Pages(newsz) - Pages(sz) <= |m.free| then newsz else 0
      ensures r != 0 ==> |free| == |m.free| - (Pages(newsz) - Pages(sz))
      ensures r == 0 ==> Valid() && dirs == m.dirs && owner == m.owner && Pool(free, owner) == Pool(m.free, m.owner)
      ensures r != 0 ==> Growing(d, Pages(sz), Pages(newsz), Pages(newsz), m.dirs, m.owner, Pool(m.free, m.owner))
    {
      assert Settled(m, d);
      r := AllocUvm(d, sz, newsz, shm);
      if r == 0 {
        AsideValid(m, Value());
      }
    }

    // growproc upwards.
    method GrowUp(d: Page, sz: nat, newsz: nat, shm: int) returns (r: nat)
      requires Valid() && d in spaces && spaces[d].sz == sz < newsz && spaces[d].shm == shm
      modifies this
      ensures Valid() && Pool(free, owner) == old(Pool(free, owner)) && tab == old(tab)
      ensures LostPages(owner) == old(LostPages(owner)) && Stacks(owner) == old(Stacks(owner))
      ensures r == if newsz <= 4096 * shm && Pages(newsz) - Pages(sz) <= |old(free)| then newsz else 0
      ensures r != 0 ==> |free| == |old(free)| - (Pages(newsz) - Pages(sz))
      ensures spaces == if r == 0 then old(spaces) else old(spaces)[d := old(spaces)[d].(sz := newsz)]
    {
      ghost var m := Value();
      r := GrowPages(d, sz, newsz, shm, m);
      if r != 0 {
        spaces := spaces[d := spaces[d].(sz := newsz)];
        GrownResized(m, Value(), d, newsz);
        ResizeValid(m, Value(), d, newsz);
      }
    }

    // growproc downwards: the pages go, and with them the record, unless nothing is left.
    method GrowDown(d: Page, sz: nat, newsz: nat) returns (r: nat)
      requires Valid() && d in spaces && spaces[d].sz == sz && newsz < sz
      modifies this
      ensures r == newsz && Pool(free, owner) == old(Pool(free, owner)) && tab == old(tab)
      ensures LostPages(owner) == old(LostPages(owner)) && Stacks(owner) == old(Stacks(owner))
      ensures newsz > 0 ==> Valid() && spaces == old(spaces)[d := old(spaces)[d].(sz := newsz)]
      ensures newsz == 0 ==> !Valid() && spaces == old(spaces)
                             && ValidMem(Value().(spaces := spaces[d := spaces[d].(sz := 0)]))
    {
      ghost var m := Value();
      assert Settled(m, d);
      ShrinkReady(m, d, newsz);
      r := DeallocUvm(d, sz, newsz);
      ghost var m' := Value().(spaces := spaces[d := spaces[d].(sz := newsz)]);
      ShrunkResized(m, m', d, newsz);
      ResizeValid(m, m', d, newsz);
      if r != 0 {
        spaces := spaces[d := spaces[d].(sz := newsz)];
      } else {
        assert 0 !in dirs[d] && !Settled(Value(), d);
      }
    }

    // Map the pages in the array at [newShm, oldShm), if that is above the private part.
    method MapShm(d: Page, oldShm: int, newShm: int, sz: nat, phys: seq<Page>) returns (r: int)
      requires d in dirs && 0 < newShm <= oldShm <= newShm + |phys|
      requires sz <= 4096 * newShm ==> forall v | newShm <= v < oldShm :: v !in dirs[d]
      modifies `dirs
      ensures r == if sz <= 4096 * newShm then newShm else 0
      ensures r == 0 ==> unchanged(this)
      ensures r != 0 ==> dirs == old(dirs)[d := MappedAt(old(dirs)[d], newShm, phys, oldShm - newShm)]
    {
      if 4096 * newShm < sz {
        return 0;
      }
      ghost var dirs0 := dirs;
      var v := newShm;
      while v < oldShm
        invariant newShm <= v <= oldShm && dirs == dirs0[d := MappedAt(dirs0[d], newShm, phys, v - newShm)]
      {
        dirs := dirs[d := dirs[d][v := phys[v - newShm]]];
        v := v + 1;
      }
      return newShm;
    }

    // The pages of a new segment; when they run out, those there were are lost.
    method ReservePages(d: Page, n: nat, sz: nat, shm: int, ghost m: Mem) returns (r: int, phys: seq<Page>)
      requires Valid() && m == Value() && d in spaces && spaces[d].sz == sz && spaces[d].shm == shm && n < shm
      modifies `dirs, `owner, `free
      ensures r == if sz <= 4096 * (shm - n) && n <= |m.free| then shm - n else 0
      ensures r != 0 ==> |free| == |m.free| - n
      ensures r != 0 ==> Growing(d, r, shm, shm, m.dirs, m.owner, Pool(m.free, m.owner)) && Gathered(d, r, shm, phys)
      ensures r == 0 ==> Valid() && dirs == m.dirs && Pool(free, owner) == Pool(m.free, m.owner)
      ensures r == 0 ==> LostPages(owner) == LostPages(m.owner) + if sz <= 4096 * (shm - n) then set p | p in m.free
                         else {}
      ensures r == 0 ==> Stacks(owner) == Stacks(m.owner) && (sz <= 4096 * (shm - n) ==> free == [])
    {
      assert Settled(m, d);
      r, phys := AllocShm(d, shm, shm - n, sz);
      if r == 0 && sz <= 4096 * (shm - n) {
        LostAlsoIs(m.owner, m.free);
        AsideValid(m, Value());
      }
    }

    // The pages just mapped at [lo, shm) become segment key.
    method Publish(d: Page, key: nat, lo: int, shm: int, phys: seq<Page>, ghost m: Mem)
      requires ValidMem(m) && tab == m.tab && spaces == m.spaces && d in spaces && spaces[d].shm == shm
               && spaces[d].sz <= 4096 * lo
      requires key < 8 && key !in spaces[d].mask && tab[key].count == 0 && shm - lo <= 4
      requires Growing(d, lo, shm, shm, m.dirs, m.owner, Pool(m.free, m.owner)) && Gathered(d, lo, shm, phys)
      modifies `tab, `owner, `spaces
      ensures AttachedTo(m, Value(), d, key, lo) && Sound() && Pool(free, owner) == Pool(m.free, m.owner)
      ensures LostPages(owner) == LostPages(m.owner) && Stacks(owner) == Stacks(m.owner)
    {
      DonatedUses(m.owner, owner, d, lo, |phys|, key);
      ShmAdd(key, d, phys, lo);
      spaces := spaces[d := WithSegment(spaces[d], key, lo)];
      forall i | 0 <= i < tab[key].num ensures Lies(dirs[d], lo, tab[key].pages, i) {
        LiesSame(dirs[d], lo, phys, tab[key].pages, i);
      }
    }

    // shmgetat for a key nobody holds: a new segment of n pages.
    method AttachNew(d: Page, key: nat, n: nat, sz: nat, shm: int) returns (r: int)
      requires Valid() && d in spaces && spaces[d].sz == sz && spaces[d].shm == shm && n < shm
      requires key < 8 && n <= 4 && key !in spaces[d].mask && tab[key].count == 0
      modifies this
      ensures Valid() && Pool(free, owner) == old(Pool(free, owner)) && Stacks(owner) == old(Stacks(owner))
      ensures r == if sz <= 4096 * (shm - n) && n <= |old(free)| then shm - n else 0
      ensures r != 0 ==> |free| == |old(free)| - n
      ensures r != 0 ==> spaces == SpacesWith(old(spaces), d, key, r)
      ensures r == 0 ==> spaces == old(spaces)
      ensures r != 0 ==> LostPages(owner) == old(LostPages(owner)) && OneMoreHolder(old(tab), tab, key, n)
      ensures r == 0 ==> LostPages(owner)
                         == old(LostPages(owner)) + if sz <= 4096 * (shm - n) then set p | p in old(free) else {}
    {
      ghost var m := Value();
      hide ValidMem, Accounted, LostPages;
      var phys;
      r, phys := ReservePages(d, n, sz, shm, m);
      if r != 0 {
        Publish(d, key, r, shm, phys, m);
        AttachValid(m, Value(), d, key, r);
      }
    }

    // The copy of the page addresses that shmgetat makes before it maps them.
    method CopyAddresses(key: nat, asked: nat, junk: seq<Page>) returns (phys: seq<Page>)
      requires key < |tab| && |tab[key].pages| == 4 && |junk| == 4 && asked <= 4
      ensures phys == AttachArray(tab[key].pages, asked, junk)
    {
      phys := junk;
      var i := 0;
      while i < asked
        invariant 0 <= i <= asked && |phys| == 4
        invariant forall j | 0 <= j < 4 :: phys[j] == if j < i then tab[key].pages[j] else junk[j]
      {
        phys := phys[i := tab[key].pages[i]];
        i := i + 1;
      }
    }

    // Map the pages of a segment others hold.
    method MapSegment(d: Page, key: nat, asked: nat, sz: nat, shm: int, junk: seq<Page>, ghost m: Mem) returns (r: int)
      requires Valid() && m == Value() && d in spaces && spaces[d].sz == sz && spaces[d].shm == shm
      requires key < 8 && key !in spaces[d].mask && tab[key].count > 0 && asked <= 4 && |junk| == 4
               && tab[key].num < shm
      modifies `dirs
      ensures r == if sz <= 4096 * (shm - tab[key].num) then shm - tab[key].num else 0
      ensures r == 0 ==> dirs == m.dirs
      ensures r != 0 ==> dirs == m.dirs[d := MappedAt(m.dirs[d], r, AttachArray(tab[key].pages, asked, junk),
                                                      tab[key].num)]
    {
      assert Settled(m, d);
      var phys := CopyAddresses(key, asked, junk);
      var n := tab[key].num;
      r := MapShm(d, shm, shm - n, sz, phys);
    }

    /** shmgetat for a key others hold: the segment's pages as far as they were asked for, and then whatever
        the array held, are mapped. Memory stays valid if and only if that is the whole segment. */
    method AttachOld(d: Page, key: nat, asked: nat, sz: nat, shm: int, junk: seq<Page>) returns (r: int)
      requires Valid() && d in spaces && spaces[d].sz == sz && spaces[d].shm == shm
      requires key < 8 && key !in spaces[d].mask && tab[key].count > 0 && asked <= 4 && |junk| == 4
               && tab[key].num < shm
      modifies `dirs, `tab, `spaces
      ensures r == if sz <= 4096 * (shm - old(tab)[key].num) then shm - old(tab)[key].num else 0
      ensures r != 0 ==> dirs == old(dirs)[d := MappedAt(old(dirs)[d], r,
                                                         AttachArray(old(tab)[key].pages, asked, junk),
                                                             old(tab)[key].num)]
      ensures r != 0 ==> spaces == SpacesWith(old(spaces), d, key, r)
      ensures r != 0 ==> OneMoreHolder(old(tab), tab, key, old(tab)[key].num)
      ensures r == 0 ==> unchanged(this)
      ensures Valid() <==> r == 0 || AttachArray(old(tab)[key].pages, asked,
                                                 junk)[..old(tab)[key].num] == old(tab)[key].pages[..old(tab)[key].num]
    {
      hide ValidMem;
      ghost var m := Value();
      TabShape(m);
      r := MapSegment(d, key, asked, sz, shm, junk, m);
      if r != 0 {
        AttachedOldIff(m, d, key, r, AttachArray(tab[key].pages, asked, junk));
        tab := tab[key := tab[key].(count := tab[key].count + 1)];
        spaces := spaces[d := WithSegment(spaces[d], key, r)];
      }
    }

    // The pages a segment has, or will have.
    ghost function SegmentSize(key: int, n: nat): nat
      reads this
    {
      if 0 <= key < |tab| && tab[key].count != 0 then tab[key].num else n
    }

    // There is room for the segment below shm, and pages if it is new.
    ghost predicate CanAttach(key: int, n: nat, sz: nat, shm: int)
      reads this
    {
      sz <= 4096 * (shm - SegmentSize(key, n)) && (0 <= key < |tab| && tab[key].count == 0 ==> n <= |free|)
    }

    // The pages that are lost when a segment cannot be attached: all there are, if a new one runs out of them.
    ghost function AttachLoss(key: int, n: nat, sz: nat, shm: int): set<Page>
      reads this
    {
      if 0 <= key < |tab| && tab[key].count == 0 && sz <= 4096 * (shm - n) then set p | p in free else {}
    }

    // What shmgetat maps is the segment: it is new, or the array has all its pages.
    ghost predicate RightPages(key: int, n: nat, junk: seq<Page>)
      reads `tab
    {
      0 <= key < |tab| && tab[key].count > 0 && tab[key].num <= |tab[key].pages| == 4 == |junk| && n <= 4 ==>
        AttachArray(tab[key].pages, n, junk)[..tab[key].num] == tab[key].pages[..tab[key].num]
    }

    /** Attach a key that d does not hold: a new segment if nobody holds it. */
    method Attach(d: Page, key: nat, n: nat, sz: nat, shm: int, junk: seq<Page>) returns (r: int)
      requires Valid() && d in spaces && spaces[d].sz == sz && spaces[d].shm == shm && 4 < shm
      requires key < 8 && n <= 4 && key !in spaces[d].mask && |junk| == 4
      modifies this
      ensures Pool(free, owner) == old(Pool(free, owner)) && Stacks(owner) == old(Stacks(owner))
      ensures Valid() <==> r == 0 || old(RightPages(key, n, junk))
      ensures r == if old(CanAttach(key, n, sz, shm)) then shm - old(SegmentSize(key, n)) else 0
      ensures r != 0 ==> spaces == SpacesWith(old(spaces), d, key, r)
      ensures r != 0 ==> OneMoreHolder(old(tab), tab, key, old(SegmentSize(key, n)))
      ensures r == 0 ==> spaces == old(spaces)
      ensures r != 0 ==> LostPages(owner) == old(LostPages(owner))
      ensures r == 0 ==> LostPages(owner) == old(LostPages(owner)) + old(AttachLoss(key, n, sz, shm))
    {
      assert tab[key].count == |Holders(spaces, key)| && tab[key].num <= 4;
      hide ValidMem, OneMoreHolder, LostPages;
      if tab[key].count == 0 {
        r := AttachNew(d, key, n, sz, shm);
      } else {
        r := AttachOld(d, key, n, sz, shm, junk);
      }
    }

    // The size after a change by n bytes, 0 when it fails; a shrinking past 0 wraps and changes nothing.
    ghost function SizeAfter(sz: nat, n: int, shm: int): nat
      reads `free
    {
      if n > 0 then if sz + n <= 4096 * shm && Pages(sz + n) - Pages(sz) <= |free| then sz + n else 0
      else if sz + n >= 0 then sz + n else sz
    }

    /** Resize the private part of d by n bytes: the new size, or 0 if that fails. Shrinking to nothing
        frees the pages and yields 0 like a failure. */
    method Resize(d: Page, sz: nat, n: int, shm: int) returns (r: nat)
      requires Valid() && d in spaces && spaces[d].sz == sz && spaces[d].shm == shm
      modifies this
      ensures Valid() <==> n >= 0 || sz + n != 0
      ensures LostPages(owner) == old(LostPages(owner)) && Stacks(owner) == old(Stacks(owner))
      ensures r == 0 ==> spaces == old(spaces)
      ensures r != 0 ==> spaces == SpacesSized(old(spaces), d, r)
      ensures r == old(SizeAfter(sz, n, shm)) && (n > 0 && r != 0 ==> |free| == |old(free)| - (Pages(r) - Pages(sz)))
    {
      r := sz;
      assert spaces[d := spaces[d].(sz := sz)] == spaces;
      if n > 0 {
        r := GrowUp(d, sz, sz + n, shm);
      } else if n < 0 {
        if sz + n >= 0 {
          r := GrowDown(d, sz, sz + n);
        }
      }
    }
  }
}
