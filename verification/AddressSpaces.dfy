/** Physical pages, page directories and shared memory segments.

    A page directory is a map from virtual page numbers to physical pages. Private pages grow from 0,
    shared segments are attached downwards from page 160. The twelve page tables that a directory needs for
    the kernel's mappings are pages of its own too; they are kept under the numbers -12 to -1. `shm` and
    `shm_va` are page aligned and kept as page numbers, `sz` is in bytes. The ghost map `owner` says what
    every page in use is used for. */
module AddressSpaces {

  import opened Common

  // The page tables of a directory, and with the directory itself the pages setupkvm takes.
  const TABLES := 12
  const DIR_PAGES := 13
  const MAX_SHM_KEY := 8
  const MAX_SHM_PGNUM := 4

  type Page = int
  type PageMap = map<int, Page>

  datatype Segment = Segment(count: int, num: nat, pages: seq<Page>)

  /** What the kernel holds about an address space, in every thread that runs in it: its size, the lower
      end of its shared memory, the keys it has attached, where, and in which order. */
  datatype Space = Space(sz: nat, shm: int, mask: set<int>, va: map<int, int>, order: seq<int>)

  /** A page is a directory; a page of one directory only, a table of it or mapped in one place; part of a
      segment; the kernel stack of a process slot; in the hands of the kernel; or lost. */
  datatype Use = Table | Private(d: Page, v: int) | Shared(key: int, i: int) | Stack(s: int) | InHand | Lost

  function Pages(sz: nat): (n: nat)
    ensures 4096 * n < sz + 4096 <= 4096 * n + 4096
  {
    (sz + 4095) / 4096
  }

  ghost predicate Live(tab: seq<Segment>, k: int, i: int) {
    0 <= k < |tab| && tab[k].count > 0 && 0 <= i < tab[k].num <= |tab[k].pages|
  }

  ghost predicate UsedAs(dirs: map<Page, PageMap>, tab: seq<Segment>, p: Page, u: Use) {
    match u
    case Table => p in dirs
    case Private(d, v) => d in dirs && v in dirs[d] && dirs[d][v] == p
    case Shared(k, i) => Live(tab, k, i) && tab[k].pages[i] == p
    case Stack(_) => true
    case InHand => true
    case Lost => true
  }

  ghost predicate MappedFor(owner: map<Page, Use>, p: Page, d: Page, v: int) {
    p in owner && (owner[p] == Private(d, v) || owner[p].Shared?)
  }

  ghost predicate FreeOk(free: seq<Page>, owner: map<Page, Use>) {
    && (forall j | 0 <= j < |free| :: free[j] >= 0 && free[j] !in owner)
    && (forall j, k | 0 <= j < k < |free| :: free[j] != free[k])
  }

  /** Every page in use is used as its owner says, and no page in use is free. */
  ghost predicate Accounted(dirs: map<Page, PageMap>, tab: seq<Segment>, owner: map<Page, Use>, free: seq<Page>) {
    && (forall d | d in dirs :: d in owner && owner[d] == Table)
    && (forall d, v | d in dirs && v in dirs[d] :: MappedFor(owner, dirs[d][v], d, v))
    && (forall k, i | Live(tab, k, i) :: tab[k].pages[i] in owner && owner[tab[k].pages[i]] == Shared(k, i))
    && (forall p | p in owner :: p >= 0 && UsedAs(dirs, tab, p, owner[p]))
    && FreeOk(free, owner)
  }

  // The pages there are: conserved by everything.
  ghost function Pool(free: seq<Page>, owner: map<Page, Use>): set<Page> {
    (set p | p in free) + owner.Keys
  }

  // A directory without its mappings in [lo, hi), and the owners without its private pages there.
  ghost function Trim(pt: PageMap, lo: int, hi: int): PageMap {
    map v | v in pt && !(lo <= v < hi) :: pt[v]
  }

  ghost predicate PrivateIn(u: Use, d: Page, lo: int, hi: int) {
    u.Private? && u.d == d && lo <= u.v < hi
  }

  ghost function Reclaimed(owner: map<Page, Use>, d: Page, lo: int, hi: int): map<Page, Use> {
    map p | p in owner && !PrivateIn(owner[p], d, lo, hi) :: owner[p]
  }

  // The private pages of d in [lo, hi) are lost.
  ghost function Leaked(owner: map<Page, Use>, d: Page, lo: int, hi: int): map<Page, Use> {
    map p | p in owner :: if PrivateIn(owner[p], d, lo, hi) then Lost else owner[p]
  }

  // Directory d is given back with its tables and its private pages below bound; those above are lost.
  ghost function Discarded(owner: map<Page, Use>, d: Page, bound: int): map<Page, Use> {
    map p | p in owner && p != d && !PrivateIn(owner[p], d, -TABLES, bound) ::
      if owner[p].Private? && owner[p].d == d then Lost else owner[p]
  }

  // The contents of a page.
  function Frame(frames: map<Page, seq<int>>, p: Page): seq<int> {
    if p in frames then frames[p] else []
  }

  // The first n pages of dst have the contents that those of src had, and no page in use before has changed.
  ghost predicate Copied(frames0: map<Page, seq<int>>, frames: map<Page, seq<int>>, owner0: map<Page, Use>,
                         src: PageMap, dst: PageMap, n: int) {
    && (forall v | 0 <= v < n && v in src && v in dst :: Frame(frames, dst[v]) == Frame(frames0, src[v]))
    && (forall p | p in owner0 :: Frame(frames, p) == Frame(frames0, p))
  }

  lemma CopiedFewer(frames0: map<Page, seq<int>>, frames: map<Page, seq<int>>, owner: map<Page, Use>,
                    owner': map<Page, Use>, src: PageMap, dst: PageMap, n: int)
    requires Copied(frames0, frames, owner', src, dst, n) && owner.Keys <= owner'.Keys
    ensures Copied(frames0, frames, owner, src, dst, n)
  {
  }

  // The pages ps are lost too.
  ghost function LostAlso(owner: map<Page, Use>, ps: seq<Page>): map<Page, Use> {
    map p | p in owner.Keys + (set q | q in ps) :: if p in owner then owner[p] else Lost
  }

  // What is mapped in [lo, hi) is private to d.
  ghost predicate AllPrivate(dirs: map<Page, PageMap>, owner: map<Page, Use>, d: Page, lo: int, hi: int) {
    d in dirs && forall v | lo <= v < hi && v in dirs[d] :: dirs[d][v] in owner && owner[dirs[d][v]] == Private(d, v)
  }

  // Once the pages of d below bound have gone, its tables are still its own.
  lemma StillPrivate(dirs: map<Page, PageMap>, owner: map<Page, Use>, d: Page, bound: nat)
    requires AllPrivate(dirs, owner, d, -TABLES, bound)
    ensures AllPrivate(dirs, owner, d, Pages(0), Pages(4096 * bound))
    ensures bound == Pages(4096 * bound) && Pages(0) == 0
    ensures AllPrivate(dirs[d := Trim(dirs[d], 0, bound)], Reclaimed(owner, d, 0, bound), d, -TABLES, 0)
  {
    var dirs', owner' := dirs[d := Trim(dirs[d], 0, bound)], Reclaimed(owner, d, 0, bound);
    forall v | -TABLES <= v < 0 && v in dirs'[d] ensures dirs'[d][v] in owner' && owner'[dirs'[d][v]] == Private(d, v) {
      assert owner[dirs[d][v]] == Private(d, v) && !PrivateIn(Private(d, v), d, 0, bound);
    }
  }

  lemma AllItsOwn(dirs: map<Page, PageMap>, tab: seq<Segment>, owner: map<Page, Use>, free: seq<Page>, d: Page, hi: int)
    requires Accounted(dirs, tab, owner, free) && d in dirs && forall v | v in dirs[d] ::
             owner[dirs[d][v]] == Private(d, v)
    ensures AllPrivate(dirs, owner, d, -TABLES, hi)
  {
  }

  lemma Replaced(dirs: map<Page, PageMap>, d: Page, pt: PageMap)
    ensures dirs[d := pt] - {d} == dirs - {d}
  {
  }

  lemma TrimNone(pt: PageMap, lo: int)
    ensures Trim(pt, lo, lo) == pt
  {
  }

  lemma TrimNext(pt: PageMap, lo: int, v: int)
    requires lo <= v
    ensures Trim(pt, lo, v + 1) == Trim(pt, lo, v) - {v}
  {
  }

  lemma TrimmedAway(pt: PageMap, lo: int, hi: int)
    requires Trim(pt, lo, hi) == map[]
    ensures forall v | v in pt :: lo <= v < hi
  {
    forall v | v in pt ensures lo <= v < hi {
      var rest := Trim(pt, lo, hi);
      assert v in rest <==> !(lo <= v < hi);
    }
  }

  lemma ReclaimedNone(owner: map<Page, Use>, d: Page, lo: int)
    ensures Reclaimed(owner, d, lo, lo) == owner
  {
    assert forall p | p in owner :: !PrivateIn(owner[p], d, lo, lo);
  }

  // The private page of d at v, if there is one, is the only page with that use.
  lemma ReclaimedNext(dirs: map<Page, PageMap>, tab: seq<Segment>, owner: map<Page, Use>, free: seq<Page>,
                      owner0: map<Page, Use>, d: Page, lo: int, v: int)
    requires Accounted(dirs, tab, owner, free) && d in dirs && lo <= v && owner == Reclaimed(owner0, d, lo, v)
    requires v in dirs[d] ==> owner[dirs[d][v]] == Private(d, v)
    ensures Reclaimed(owner0, d, lo, v + 1) == if v in dirs[d] then owner - {dirs[d][v]} else owner
  {
    forall p | p in owner && owner[p] == Private(d, v) ensures v in dirs[d] && p == dirs[d][v] {
      assert UsedAs(dirs, tab, p, owner[p]);
    }
    assert forall p | p in owner0 ::
        PrivateIn(owner0[p], d, lo, v + 1) <==> PrivateIn(owner0[p], d, lo, v) || owner0[p] == Private(d, v);
  }

  // A fresh page mapped at v, where nothing was, is what giving back one page more would undo.
  lemma GrownNext(dirs: map<Page, PageMap>, tab: seq<Segment>, owner: map<Page, Use>, free: seq<Page>, d: Page,
                  lo: int, v: int, p: Page)
    requires Accounted(dirs, tab, owner, free) && d in dirs && lo <= v && v !in dirs[d] && p !in owner
    ensures Reclaimed(owner[p := Private(d, v)], d, lo, v + 1) == Reclaimed(owner, d, lo, v)
    ensures Trim(dirs[d][v := p], lo, v + 1) == Trim(dirs[d], lo, v)
  {
    forall q | q in owner ensures owner[q] != Private(d, v) {
      assert UsedAs(dirs, tab, q, owner[q]);
    }
    assert forall q | q in owner :: PrivateIn(owner[q], d, lo, v + 1) <==> PrivateIn(owner[q], d, lo, v);
  }

  lemma MapSound(dirs: map<Page, PageMap>, tab: seq<Segment>, owner: map<Page, Use>, free: seq<Page>, d: Page, v: int,
                 p: Page,
                 dirs': map<Page, PageMap>, owner': map<Page, Use>)
    requires Accounted(dirs, tab, owner, free) && d in dirs && v !in dirs[d] && p in owner && owner[p] == InHand
    requires dirs' == dirs[d := dirs[d][v := p]] && owner' == owner[p := Private(d, v)]
    ensures Accounted(dirs', tab, owner', free)
  {
    forall q | q in owner' ensures q >= 0 && UsedAs(dirs', tab, q, owner'[q]) {
      assert UsedAs(dirs, tab, q, owner[q]);
    }
    forall e, w | e in dirs' && w in dirs'[e] ensures MappedFor(owner', dirs'[e][w], e, w) {
      assert e != d || w != v ==> MappedFor(owner, dirs[e][w], e, w);
    }
  }

  lemma UnmapSound(dirs: map<Page, PageMap>, tab: seq<Segment>, owner: map<Page, Use>, free: seq<Page>, d: Page,
                   v: int, p: Page,
                   dirs': map<Page, PageMap>, owner': map<Page, Use>)
    requires Accounted(dirs, tab, owner, free) && d in dirs && v in dirs[d] && p == dirs[d][v] && p in owner
             && owner[p] == Private(d, v)
    requires dirs' == dirs[d := dirs[d] - {v}] && owner' == owner[p := InHand]
    ensures Accounted(dirs', tab, owner', free)
  {
    forall q | q in owner' ensures q >= 0 && UsedAs(dirs', tab, q, owner'[q]) {
      assert UsedAs(dirs, tab, q, owner[q]);
    }
    forall e, w | e in dirs' && w in dirs'[e] ensures MappedFor(owner', dirs'[e][w], e, w) {
      assert MappedFor(owner, dirs[e][w], e, w);
    }
  }

  // A directory with what `from` maps in [lo, hi).
  ghost function Overlay(pt: PageMap, from: PageMap, lo: int, hi: int): PageMap {
    pt + map v | v in from && lo <= v < hi :: from[v]
  }

  lemma OverlayNone(pt: PageMap, from: PageMap, lo: int)
    ensures Overlay(pt, from, lo, lo) == pt
  {
  }

  lemma OverlayStep(pt: PageMap, from: PageMap, lo: int, v: int)
    requires lo <= v && v in from
    ensures Overlay(pt, from, lo, v + 1) == Overlay(pt, from, lo, v)[v := from[v]]
    ensures v !in pt ==> v !in Overlay(pt, from, lo, v)
  {
  }

  // Taking the mapping at v away; a private page there is lost.
  lemma ForgetSound(dirs: map<Page, PageMap>, tab: seq<Segment>, owner: map<Page, Use>, free: seq<Page>, d: Page,
                    v: int,
                    dirs': map<Page, PageMap>, owner': map<Page, Use>)
    requires Accounted(dirs, tab, owner, free) && d in dirs
    requires dirs' == dirs[d := dirs[d] - {v}] && owner' == Leaked(owner, d, v, v + 1)
    ensures Accounted(dirs', tab, owner', free)
  {
    forall q | q in owner' ensures q >= 0 && UsedAs(dirs', tab, q, owner'[q]) {
      assert UsedAs(dirs, tab, q, owner[q]);
    }
    forall e, w | e in dirs' && w in dirs'[e] ensures MappedFor(owner', dirs'[e][w], e, w) {
      assert MappedFor(owner, dirs[e][w], e, w);
    }
  }

  lemma LeakedNext(owner: map<Page, Use>, d: Page, v: int, hi: int)
    requires v <= hi
    ensures Leaked(Leaked(owner, d, v, hi), d, v - 1, v) == Leaked(owner, d, v - 1, hi)
  {
    forall p | p in owner
      ensures PrivateIn(owner[p], d, v - 1, hi) <==> PrivateIn(owner[p], d, v, hi) || PrivateIn(owner[p], d, v - 1, v) {
    }
  }

  lemma LeakedNone(owner: map<Page, Use>, d: Page, hi: int)
    ensures Leaked(owner, d, hi, hi) == owner
  {
    assert forall p | p in owner :: !PrivateIn(owner[p], d, hi, hi);
  }

  lemma TrimBelow(pt: PageMap, v: int, hi: int)
    requires v <= hi
    ensures Trim(pt, v - 1, hi) == Trim(pt, v, hi) - {v - 1}
  {
  }

  // The private pages of d at [lo, lo + n) become segment k.
  ghost function Donated(owner: map<Page, Use>, d: Page, lo: int, n: int, k: int): map<Page, Use> {
    map p | p in owner :: if PrivateIn(owner[p], d, lo, lo + n) then Shared(k, owner[p].v - lo) else owner[p]
  }

  lemma DonateSound(dirs: map<Page, PageMap>, tab: seq<Segment>, owner: map<Page, Use>, free: seq<Page>, d: Page,
                    lo: int, n: nat, k: nat,
                    tab': seq<Segment>, owner': map<Page, Use>)
    requires Accounted(dirs, tab, owner, free) && d in dirs && k < |tab| && tab[k].count <= 0
    requires AllPrivate(dirs, owner, d, lo, lo + n) && forall v | lo <= v < lo + n :: v in dirs[d]
    requires |tab'| == |tab| && tab' == tab[k := tab'[k]] && tab'[k].count > 0 && tab'[k].num == n <= |tab'[k].pages|
    requires forall i | 0 <= i < n :: tab'[k].pages[i] == dirs[d][lo + i]
    requires owner' == Donated(owner, d, lo, n, k)
    ensures Accounted(dirs, tab', owner', free)
  {
    forall p | p in owner' ensures p >= 0 && UsedAs(dirs, tab', p, owner'[p]) {
      assert UsedAs(dirs, tab, p, owner[p]);
    }
    forall e, w | e in dirs && w in dirs[e] ensures MappedFor(owner', dirs[e][w], e, w) {
      assert MappedFor(owner, dirs[e][w], e, w);
    }
    forall j, i | Live(tab', j, i) ensures tab'[j].pages[i] in owner' && owner'[tab'[j].pages[i]] == Shared(j, i) {
      assert j != k ==> Live(tab, j, i);
      assert j == k ==> dirs[d][lo + i] in owner && owner[dirs[d][lo + i]] == Private(d, lo + i);
    }
  }

  ghost predicate OfSegment(u: Use, k: int) {
    u.Shared? && u.key == k
  }

  // The owners with the pages of segment k in hand, and without them.
  ghost function Reclaiming(owner: map<Page, Use>, k: int): map<Page, Use> {
    map p | p in owner :: if OfSegment(owner[p], k) then InHand else owner[p]
  }

  ghost function Unshared(owner: map<Page, Use>, k: int): map<Page, Use> {
    map p | p in owner && !OfSegment(owner[p], k) :: owner[p]
  }

  // Nothing maps segment k any more.
  ghost predicate Unmapped(dirs: map<Page, PageMap>, owner: map<Page, Use>, k: int) {
    forall d, v | d in dirs && v in dirs[d] :: dirs[d][v] in owner && !OfSegment(owner[dirs[d][v]], k)
  }

  lemma ReclaimSound(dirs: map<Page, PageMap>, tab: seq<Segment>, owner: map<Page, Use>, free: seq<Page>, k: nat,
                     tab': seq<Segment>, owner': map<Page, Use>)
    requires Accounted(dirs, tab, owner, free) && k < |tab| && Unmapped(dirs, owner, k)
    requires tab' == tab[k := tab[k].(count := 0)] && owner' == Reclaiming(owner, k)
    ensures Accounted(dirs, tab', owner', free)
  {
    forall p | p in owner' ensures p >= 0 && UsedAs(dirs, tab', p, owner'[p]) {
      assert UsedAs(dirs, tab, p, owner[p]);
    }
    forall e, w | e in dirs && w in dirs[e] ensures MappedFor(owner', dirs[e][w], e, w) {
      assert MappedFor(owner, dirs[e][w], e, w);
    }
    forall j, i | Live(tab', j, i) ensures tab'[j].pages[i] in owner' && owner'[tab'[j].pages[i]] == Shared(j, i) {
      assert Live(tab, j, i);
    }
  }

  function Num(tab: seq<Segment>, k: int): nat {
    if 0 <= k < |tab| then tab[k].num else 0
  }

  // Pages of the segments attached in this order.
  function Total(tab: seq<Segment>, order: seq<int>): nat {
    if order == [] then 0 else Total(tab, order[..|order| - 1]) + Num(tab, order[|order| - 1])
  }

  ghost predicate TabOk(tab: seq<Segment>) {
    |tab| == 8 && forall k | 0 <= k < 8 :: tab[k].num <= 4 && |tab[k].pages| == 4
  }

  /** The attached segments tile the pages from shm up to 160, each below the ones attached before it,
      and the private part ends below them. */
  ghost predicate SpaceOk(tab: seq<Segment>, sp: Space) {
    && Pages(sp.sz) <= sp.shm && sp.shm == USERTOP - Total(tab, sp.order)
    && (forall j | 0 <= j < |sp.order| :: 0 <= sp.order[j] < 8)
    && (forall i, j | 0 <= i < j < |sp.order| :: sp.order[i] != sp.order[j])
    && (forall k :: k in sp.mask <==> k in sp.order)
    && (forall j | 0 <= j < |sp.order| :: sp.order[j] in sp.va
                                          && sp.va[sp.order[j]] == USERTOP - Total(tab, sp.order[..j + 1]))
  }

  // The page mapped at v from shm on is the page of an attached segment that belongs there.
  ghost predicate AttachedAt(sp: Space, owner: map<Page, Use>, p: Page, v: int) {
    p in owner && owner[p].Shared? && owner[p].key in sp.mask && owner[p].key in sp.va
        && v == sp.va[owner[p].key] + owner[p].i
  }

  ghost predicate Places(tab: seq<Segment>, sp: Space, pt: PageMap, k: int, i: int) {
    0 <= k < |tab| && k in sp.va && sp.va[k] + i in pt && 0 <= i < |tab[k].pages| && pt[sp.va[k] + i] == tab[k].pages[i]
  }

  /** Exactly the tables, the private part and the shared part are there, the first two with pages of their
      own, the third with the pages of the attached segments. */
  ghost predicate MapOk(tab: seq<Segment>, sp: Space, d: Page, pt: PageMap, owner: map<Page, Use>) {
    && (forall v :: v in pt <==> -TABLES <= v < Pages(sp.sz) || sp.shm <= v < USERTOP)
    && (forall v | v in pt && v < Pages(sp.sz) :: pt[v] in owner && owner[pt[v]] == Private(d, v))
    && (forall v | v in pt && v >= sp.shm :: AttachedAt(sp, owner, pt[v], v))
    && (forall k, i | k in sp.mask && 0 <= i < Num(tab, k) :: Places(tab, sp, pt, k, i))
  }

  ghost function Holders(spaces: map<Page, Space>, k: int): set<Page> {
    set d | d in spaces && k in spaces[d].mask
  }

  // The whole state of memory between system calls.
  datatype Mem = Mem(tab: seq<Segment>, dirs: map<Page, PageMap>, owner: map<Page, Use>, free: seq<Page>,
                     spaces: map<Page, Space>)

  ghost predicate Settled(m: Mem, d: Page) {
    d in m.dirs && d in m.spaces && SpaceOk(m.tab, m.spaces[d]) && MapOk(m.tab, m.spaces[d], d, m.dirs[d], m.owner)
  }

  ghost predicate ValidMem(m: Mem) {
    && Accounted(m.dirs, m.tab, m.owner, m.free) && TabOk(m.tab)
    && m.spaces.Keys == m.dirs.Keys
    && (forall d | d in m.spaces :: Settled(m, d))
    && (forall k | 0 <= k < 8 :: m.tab[k].count == |Holders(m.spaces, k)|)
    && (forall p | p in m.owner :: m.owner[p] != InHand)
  }

  // The kernel stacks and the slots they are for.
  ghost function Stacks(owner: map<Page, Use>): map<Page, int> {
    map p | p in owner && owner[p].Stack? :: owner[p].s
  }

  // The owners after setupkvm has failed for want of pages: it takes what there is and gives nothing back.
  ghost function Spent(owner: map<Page, Use>, free: seq<Page>): map<Page, Use> {
    if |free| < DIR_PAGES then LostAlso(owner, free) else owner
  }

  ghost function LostPages(owner: map<Page, Use>): set<Page> {
    set p | p in owner && owner[p] == Lost
  }

  // The segments are the same up to their counts, at least for the keys in mask.
  ghost predicate SameSegments(tab: seq<Segment>, tab': seq<Segment>, mask: set<int>) {
    |tab'| == |tab| && forall k | 0 <= k < |tab| && k in mask ::
        tab'[k].num == tab[k].num && tab'[k].pages == tab[k].pages
  }

  lemma {:induction false} TotalSame(tab: seq<Segment>, tab': seq<Segment>, order: seq<int>, mask: set<int>)
    requires SameSegments(tab, tab', mask) && forall k | k in order :: k in mask
    ensures Total(tab', order) == Total(tab, order)
  {
    if order != [] {
      TotalSame(tab, tab', order[..|order| - 1], mask);
    }
  }

  lemma SpaceSame(tab: seq<Segment>, tab': seq<Segment>, sp: Space)
    requires SpaceOk(tab, sp) && SameSegments(tab, tab', sp.mask)
    ensures SpaceOk(tab', sp)
  {
    TotalSame(tab, tab', sp.order, sp.mask);
    forall j | 0 <= j < |sp.order|
      ensures sp.order[j] in sp.va && sp.va[sp.order[j]] == USERTOP - Total(tab', sp.order[..j + 1]) {
      TotalSame(tab, tab', sp.order[..j + 1], sp.mask);
    }
  }

  // An address space is not disturbed when its segments and the uses of its pages stay.
  lemma SettledKept(m: Mem, m': Mem, d: Page)
    requires Settled(m, d) && d in m'.dirs && d in m'.spaces && m'.dirs[d] == m.dirs[d] && m'.spaces[d] == m.spaces[d]
    requires SameSegments(m.tab, m'.tab, m.spaces[d].mask)
    requires forall v | v in m.dirs[d] :: m.dirs[d][v] in m'.owner && m'.owner[m.dirs[d][v]] == m.owner[m.dirs[d][v]]
    ensures Settled(m', d)
  {
    var sp := m.spaces[d];
    SpaceSame(m.tab, m'.tab, sp);
    forall k, i | k in sp.mask && 0 <= i < Num(m'.tab, k) ensures Places(m'.tab, sp, m.dirs[d], k, i) {
      assert Places(m.tab, sp, m.dirs[d], k, i);
    }
  }

  // The counts of the keys in mask below n go up by one.
  ghost function Counted(tab: seq<Segment>, mask: set<int>, n: int): seq<Segment> {
    seq(|tab|, k requires 0 <= k < |tab| => if k in mask && k < n then tab[k].(count := tab[k].count + 1) else tab[k])
  }

  lemma CountedSound(m: Mem, tab': seq<Segment>)
    requires Accounted(m.dirs, m.tab, m.owner, m.free) && |tab'| == |m.tab|
             && (forall k | 0 <= k < |tab'| :: tab'[k].num == m.tab[k].num && tab'[k].pages == m.tab[k].pages)
    requires forall k | 0 <= k < |tab'| :: tab'[k].count > 0 <==> m.tab[k].count > 0
    ensures Accounted(m.dirs, tab', m.owner, m.free)
  {
  }

  // d is a new directory with its tables and n pages in pt, all its own; the other uses are as before.
  ghost predicate Begun(dirs0: map<Page, PageMap>, owner0: map<Page, Use>, owner: map<Page, Use>, d: Page, pt: PageMap,
                        n: int) {
    && d !in dirs0 && d !in owner0
    && Trim(pt, -TABLES, n) == map[]
    && (forall x | -TABLES <= x < n :: x in pt && pt[x] in owner && owner[pt[x]] == Private(d, x))
    && Reclaimed(owner, d, -TABLES, n) == owner0[d := Table]
  }

  lemma GrownBegun(dirs: map<Page, PageMap>, owner: map<Page, Use>, dirs0: map<Page, PageMap>, owner0: map<Page, Use>,
                   d: Page, n: int)
    requires d in dirs && d !in dirs0 && d !in owner0
    requires (forall x | -TABLES <= x < n :: x in dirs[d]) && AllPrivate(dirs, owner, d, -TABLES, n)
    requires dirs == dirs0[d := map[]][d := dirs[d]] && Trim(dirs[d], -TABLES, n) == dirs0[d := map[]][d]
    requires Reclaimed(owner, d, -TABLES, n) == owner0[d := Table]
    ensures dirs == dirs0[d := dirs[d]] && Begun(dirs0, owner0, owner, d, dirs[d], n)
  {
  }

  // A copy of src: d has pages pt of its own below and shares everything from shm up.
  ghost predicate Forked(m: Mem, m': Mem, src: Page, d: Page, pt: PageMap) {
    && src in m.spaces && src in m.dirs && Begun(m.dirs, m.owner, m'.owner, d, pt, Pages(m.spaces[src].sz))
    && m'.dirs == m.dirs[d := Overlay(pt, m.dirs[src], m.spaces[src].shm, USERTOP)]
    && m'.tab == Counted(m.tab, m.spaces[src].mask, 8) && m'.spaces == m.spaces[d := m.spaces[src]]
  }

  lemma ForkedMap(m: Mem, m': Mem, src: Page, d: Page, pt: PageMap)
    requires ValidMem(m) && Forked(m, m', src, d, pt)
    ensures Settled(m', d)
  {
    var sp := m.spaces[src];
    var n, pt' := Pages(sp.sz), Overlay(pt, m.dirs[src], sp.shm, USERTOP);
    assert Settled(m, src);
    SpaceSame(m.tab, m'.tab, sp);
    TrimmedAway(pt, -TABLES, n);
    forall v | v in pt' && v >= sp.shm ensures AttachedAt(sp, m'.owner, pt'[v], v) {
      assert AttachedAt(sp, m.owner, m.dirs[src][v], v);
      OldUse(m, m', d, n, m.dirs[src][v]);
    }
    forall k, i | k in sp.mask && 0 <= i < Num(m'.tab, k) ensures Places(m'.tab, sp, pt', k, i) {
      SharedPlaces(m, src, pt, m'.tab, k, i);
    }
  }

  // A directory that shares what src maps from shm up has the segments of src in the same places.
  lemma SharedPlaces(m: Mem, src: Page, pt: PageMap, tab': seq<Segment>, k: int, i: int)
    requires Settled(m, src) && k in m.spaces[src].mask && 0 <= i < Num(m.tab, k)
    requires SameSegments(m.tab, tab', {k})
    ensures Places(tab', m.spaces[src], Overlay(pt, m.dirs[src], m.spaces[src].shm, USERTOP), k, i)
  {
    assert Places(m.tab, m.spaces[src], m.dirs[src], k, i);
    AttachedAbove(m, src, k, i);
  }

  // With its private pages copied, d has nothing where the shared pages of src go.
  lemma ForkReady(m: Mem, m': Mem, src: Page, d: Page, pt: PageMap)
    requires ValidMem(m) && src in m.spaces && m'.dirs == m.dirs[d := pt]
    requires Begun(m.dirs, m.owner, m'.owner, d, pt, Pages(m.spaces[src].sz))
    ensures m.spaces[src].shm <= USERTOP && src in m'.dirs && src != d
    ensures forall v | m.spaces[src].shm <= v < USERTOP :: v in m'.dirs[src] && v !in pt && m'.dirs[src][v] in m'.owner
                                                           && m'.owner[m'.dirs[src][v]].Shared?
  {
    assert Settled(m, src);
    var sp := m.spaces[src];
    forall v | sp.shm <= v < USERTOP
      ensures v in m'.dirs[src] && v !in pt && m'.dirs[src][v] in m'.owner && m'.owner[m'.dirs[src][v]].Shared? {
      assert v in pt ==> v in Trim(pt, -TABLES, Pages(sp.sz));
      assert AttachedAt(sp, m.owner, m.dirs[src][v], v);
      OldUse(m, m', d, Pages(sp.sz), m.dirs[src][v]);
    }
  }

  lemma HoldersWith(spaces: map<Page, Space>, d: Page, sp: Space, k: int)
    requires d !in spaces
    ensures |Holders(spaces[d := sp], k)| == |Holders(spaces, k)| + if k in sp.mask then 1 else 0
  {
    assert Holders(spaces[d := sp], k) == if k in sp.mask then Holders(spaces, k) + {d} else Holders(spaces, k);
  }

  lemma ForkedSettled(m: Mem, m': Mem, src: Page, d: Page, pt: PageMap, e: Page)
    requires ValidMem(m) && Forked(m, m', src, d, pt) && e in m'.spaces
    ensures Settled(m', e)
  {
    if e == d {
      ForkedMap(m, m', src, d, pt);
    } else {
      assert Settled(m, e);
      forall v | v in m.dirs[e] ensures m.dirs[e][v] in m'.owner && m'.owner[m.dirs[e][v]] == m.owner[m.dirs[e][v]] {
        assert MappedFor(m.owner, m.dirs[e][v], e, v);
        OldUse(m, m', d, Pages(m.spaces[src].sz), m.dirs[e][v]);
      }
      SettledKept(m, m', e);
    }
  }

  lemma ForkValid(m: Mem, m': Mem, src: Page, d: Page, pt: PageMap)
    requires ValidMem(m) && Forked(m, m', src, d, pt) && Accounted(m'.dirs, m.tab, m'.owner, m'.free)
    ensures ValidMem(m') && LostPages(m'.owner) == LostPages(m.owner) && Stacks(m'.owner) == Stacks(m.owner)
  {
    var sp := m.spaces[src];
    assert Settled(m, src);
    forall k | 0 <= k < 8
      ensures m'.tab[k].count == |Holders(m'.spaces, k)| && (m'.tab[k].count > 0 <==> m.tab[k].count > 0) {
      HoldersWith(m.spaces, d, sp, k);
      assert k in sp.mask ==> src in Holders(m.spaces, k);
    }
    CountedSound(Mem(m.tab, m'.dirs, m'.owner, m'.free, m'.spaces), m'.tab);
    forall e | e in m'.spaces ensures Settled(m', e) {
      ForkedSettled(m, m', src, d, pt, e);
    }
    BegunUses(m.dirs, m.owner, m'.owner, d, pt, Pages(sp.sz));
  }

  // Pages in use before are used as before.
  lemma OldUse(m: Mem, m': Mem, d: Page, n: int, p: Page)
    requires d !in m.owner && Reclaimed(m'.owner, d, -TABLES, n) == m.owner[d := Table] && p in m.owner
    ensures p in m'.owner && m'.owner[p] == m.owner[p]
  {
    assert p in Reclaimed(m'.owner, d, -TABLES, n);
  }

  // A segment lies at or above shm.
  lemma AttachedAbove(m: Mem, d: Page, k: int, i: int)
    requires Settled(m, d) && k in m.spaces[d].mask && 0 <= i < Num(m.tab, k)
    ensures m.spaces[d].shm <= m.spaces[d].va[k] && m.spaces[d].va[k] + i < USERTOP
  {
    var sp := m.spaces[d];
    var j :| 0 <= j < |sp.order| && sp.order[j] == k;
    TotalPrefix(m.tab, sp.order, j + 1);
    assert sp.order[..j + 1][..j] == sp.order[..j];
  }

  lemma {:induction false} TotalPrefix(tab: seq<Segment>, order: seq<int>, j: nat)
    requires j <= |order|
    ensures Total(tab, order[..j]) <= Total(tab, order)
  {
    if j < |order| {
      TotalPrefix(tab, order[..|order| - 1], j);
      assert order[..|order| - 1][..j] == order[..j];
    } else {
      assert order[..j] == order;
    }
  }

  // u is a page of a segment with key in mask, below j, that has one holder left.
  ghost predicate Dying(tab: seq<Segment>, mask: set<int>, j: int, u: Use) {
    u.Shared? && u.key in mask && u.key < j && 0 <= u.key < |tab| && tab[u.key].count == 1
  }

  ghost function Survivors(owner: map<Page, Use>, tab: seq<Segment>, mask: set<int>, j: int): map<Page, Use> {
    map p | p in owner && !Dying(tab, mask, j, owner[p]) :: owner[p]
  }

  // One holder less for the keys in mask below j.
  ghost function Dropped(tab: seq<Segment>, mask: set<int>, j: int): seq<Segment> {
    seq(|tab|, k requires 0 <= k < |tab| => if k in mask && k < j then tab[k].(count := tab[k].count - 1) else tab[k])
  }

  lemma SurvivorsNone(owner: map<Page, Use>, tab: seq<Segment>, mask: set<int>)
    ensures Survivors(owner, tab, mask, 0) == owner
  {
    assert forall p | p in owner :: !Dying(tab, mask, 0, owner[p]);
  }

  lemma SurvivorsNext(owner: map<Page, Use>, tab: seq<Segment>, mask: set<int>, j: nat)
    requires j < |tab|
    ensures Survivors(owner, tab, mask, j + 1) ==
            if j in mask && tab[j].count == 1 then Unshared(Survivors(owner, tab, mask, j), j)
                else Survivors(owner, tab, mask, j)
  {
    forall p | p in owner
      ensures Dying(tab, mask, j + 1, owner[p]) <==> Dying(tab, mask, j, owner[p])
                                                     || (OfSegment(owner[p], j) && j in mask && tab[j].count == 1)
    {
    }
  }

  // The shared pages of d are of segments it holds, so once d has unmapped them the segments only d holds are mapped
  // nowhere.
  lemma LastHolderUnmaps(m: Mem, d: Page, k: int)
    requires ValidMem(m) && d in m.spaces && k in m.spaces[d].mask && 0 <= k < 8 && m.tab[k].count == 1
    ensures Unmapped(m.dirs[d := Trim(m.dirs[d], m.spaces[d].shm, USERTOP)], m.owner, k)
  {
    var dirs' := m.dirs[d := Trim(m.dirs[d], m.spaces[d].shm, USERTOP)];
    forall e, v | e in dirs' && v in dirs'[e] ensures dirs'[e][v] in m.owner && !OfSegment(m.owner[dirs'[e][v]], k) {
      assert Settled(m, e) && MappedFor(m.owner, m.dirs[e][v], e, v);
      if e != d && OfSegment(m.owner[m.dirs[e][v]], k) {
        assert AttachedAt(m.spaces[e], m.owner, m.dirs[e][v], v);
        OnlyHolder(Holders(m.spaces, k), d, e);
      }
    }
  }

  lemma OnlyHolder(s: set<Page>, d: Page, e: Page)
    requires |s| == 1 && d in s && e in s
    ensures d == e
  {
    assert |s - {d}| == 0;
    assert e != d ==> e in s - {d};
  }

  // What is left when d goes, with its pages from bound on lost.
  ghost function LeftBy(m: Mem, d: Page, bound: int): map<Page, Use>
    requires d in m.spaces
  {
    Discarded(Survivors(m.owner, m.tab, m.spaces[d].mask, 8), d, bound)
  }

  ghost predicate Departed(m: Mem, m': Mem, d: Page, bound: int) {
    && d in m.spaces && m'.dirs == m.dirs - {d} && m'.spaces == m.spaces - {d}
    && m'.tab == Dropped(m.tab, m.spaces[d].mask, 8) && m'.owner == LeftBy(m, d, bound)
  }

  lemma HoldersWithout(spaces: map<Page, Space>, d: Page, k: int)
    requires d in spaces
    ensures |Holders(spaces - {d}, k)| == |Holders(spaces, k)| - if k in spaces[d].mask then 1 else 0
  {
    assert Holders(spaces - {d}, k) == Holders(spaces, k) - {d};
  }

  // The pages of another address space stay in use as they were.
  lemma OthersStay(m: Mem, d: Page, bound: int, e: Page, v: int)
    requires ValidMem(m) && d in m.spaces && e in m.spaces && e != d && v in m.dirs[e]
    ensures var p := m.dirs[e][v]; p in LeftBy(m, d, bound) && LeftBy(m, d, bound)[p] == m.owner[p]
  {
    var p := m.dirs[e][v];
    assert Settled(m, e) && MappedFor(m.owner, p, e, v);
    if Dying(m.tab, m.spaces[d].mask, 8, m.owner[p]) {
      assert AttachedAt(m.spaces[e], m.owner, p, v);
      OnlyHolder(Holders(m.spaces, m.owner[p].key), d, e);
    }
  }

  lemma DepartValid(m: Mem, m': Mem, d: Page, bound: int)
    requires ValidMem(m) && Departed(m, m', d, bound) && Accounted(m'.dirs, m'.tab, m'.owner, m'.free)
    ensures ValidMem(m')
  {
    forall k | 0 <= k < 8 ensures m'.tab[k].count == |Holders(m'.spaces, k)| {
      HoldersWithout(m.spaces, d, k);
    }
    forall e | e in m'.spaces ensures Settled(m', e) {
      DepartSettled(m, m', d, bound, e);
    }
  }

  lemma DepartSettled(m: Mem, m': Mem, d: Page, bound: int, e: Page)
    requires ValidMem(m) && Departed(m, m', d, bound) && e in m'.spaces
    ensures Settled(m', e)
  {
    assert Settled(m, e);
    forall v | v in m.dirs[e] ensures m.dirs[e][v] in m'.owner && m'.owner[m.dirs[e][v]] == m.owner[m.dirs[e][v]] {
      OthersStay(m, d, bound, e, v);
    }
    SettledKept(m, m', e);
  }

  // The private pages of d at bound and above.
  ghost function Stranded(m: Mem, d: Page, bound: int): set<Page>
    requires d in m.spaces && d in m.dirs
  {
    set v | v in m.dirs[d] && bound <= v < Pages(m.spaces[d].sz) :: m.dirs[d][v]
  }

  // The pages lost are exactly those of d at bound and above.
  lemma DepartLoses(m: Mem, d: Page, bound: nat)
    requires ValidMem(m) && d in m.spaces
    ensures LostPages(LeftBy(m, d, bound)) == LostPages(m.owner) + Stranded(m, d, bound)
    ensures Stacks(LeftBy(m, d, bound)) == Stacks(m.owner)
  {
    DepartStacks(m, d, bound);
    hide ValidMem, LostPages, LeftBy, Stranded;
    forall p ensures p in LostPages(LeftBy(m, d, bound)) <==> p in LostPages(m.owner) || p in Stranded(m, d, bound) {
      DepartLosesPage(m, d, bound, p);
    }
  }

  lemma DepartStacks(m: Mem, d: Page, bound: nat)
    requires ValidMem(m) && d in m.spaces
    ensures Stacks(LeftBy(m, d, bound)) == Stacks(m.owner)
  {
    assert d in m.owner && m.owner[d] == Table;
    StacksLeft(m, d, bound);
  }

  lemma StacksLeft(m: Mem, d: Page, bound: nat)
    requires d in m.spaces && d in m.dirs && d in m.owner && m.owner[d] == Table
    ensures Stacks(LeftBy(m, d, bound)) == Stacks(m.owner)
  {
    var left := LeftBy(m, d, bound);
    forall p ensures p in left && left[p].Stack? <==> p in m.owner && m.owner[p].Stack? {
    }
    forall p | p in left && left[p].Stack? ensures left[p] == m.owner[p] {
    }
  }

  lemma DepartLosesPage(m: Mem, d: Page, bound: nat, p: Page)
    requires ValidMem(m) && d in m.spaces
    ensures p in LostPages(LeftBy(m, d, bound)) <==> p in LostPages(m.owner) || p in Stranded(m, d, bound)
  {
  }

  /** A space is freed whole exactly when it ends below the bound. */
  lemma FreedWholeIff(m: Mem, d: Page, bound: nat)
    requires ValidMem(m) && d in m.spaces
    ensures Stranded(m, d, bound) == {} <==> m.spaces[d].sz <= 4096 * bound
    ensures LostPages(m.owner) + Stranded(m, d, bound) == LostPages(m.owner) <==> m.spaces[d].sz <= 4096 * bound
  {
    assert Settled(m, d);
    forall p | p in Stranded(m, d, bound) ensures p !in LostPages(m.owner) {
      var v :| v in m.dirs[d] && bound <= v < Pages(m.spaces[d].sz) && p == m.dirs[d][v];
      assert m.owner[p] == Private(d, v);
    }
    if m.spaces[d].sz > 4096 * bound {
      assert m.dirs[d][bound] in Stranded(m, d, bound);
    }
  }

  // An address space without shared memory.
  function FreshSpace(sz: nat): Space {
    Space(sz, USERTOP, {}, map[], [])
  }

  lemma FreshSettled(m: Mem, m': Mem, d: Page, sz: nat, e: Page)
    requires ValidMem(m) && sz <= 4096 * USERTOP && d in m'.dirs && e in m'.spaces
    requires m'.dirs == m.dirs[d := m'.dirs[d]] && Begun(m.dirs, m.owner, m'.owner, d, m'.dirs[d], Pages(sz))
    requires m'.tab == m.tab && m'.spaces == m.spaces[d := FreshSpace(sz)]
    ensures Settled(m', e)
  {
    if e == d {
      TrimmedAway(m'.dirs[d], -TABLES, Pages(sz));
    } else {
      assert Settled(m, e);
      forall v | v in m.dirs[e] ensures m.dirs[e][v] in m'.owner && m'.owner[m.dirs[e][v]] == m.owner[m.dirs[e][v]] {
        assert MappedFor(m.owner, m.dirs[e][v], e, v);
        OldUse(m, m', d, Pages(sz), m.dirs[e][v]);
      }
      SettledKept(m, m', e);
    }
  }

  lemma FreshValid(m: Mem, m': Mem, d: Page, sz: nat)
    requires ValidMem(m) && Accounted(m'.dirs, m'.tab, m'.owner, m'.free) && sz <= 4096 * USERTOP && d in m'.dirs
    requires m'.dirs == m.dirs[d := m'.dirs[d]] && Begun(m.dirs, m.owner, m'.owner, d, m'.dirs[d], Pages(sz))
    requires m'.tab == m.tab && m'.spaces == m.spaces[d := FreshSpace(sz)]
    ensures ValidMem(m')
  {
    forall k | 0 <= k < 8 ensures m'.tab[k].count == |Holders(m'.spaces, k)| {
      HoldersWith(m.spaces, d, FreshSpace(sz), k);
    }
    forall e | e in m'.spaces ensures Settled(m', e) {
      FreshSettled(m, m', d, sz, e);
    }
    BegunUses(m.dirs, m.owner, m'.owner, d, m'.dirs[d], Pages(sz));
  }

  // Nothing is lost or in hand that was not.
  lemma BegunUses(dirs0: map<Page, PageMap>, owner0: map<Page, Use>, owner: map<Page, Use>, d: Page, pt: PageMap,
                  n: int)
    requires Begun(dirs0, owner0, owner, d, pt, n)
    ensures LostPages(owner) == LostPages(owner0) && Stacks(owner) == Stacks(owner0)
    ensures (forall p | p in owner0 :: owner0[p] != InHand) ==> forall p | p in owner :: owner[p] != InHand
  {
    forall p | p in owner ensures owner[p] == Table || owner[p].Private? || (p in owner0 && owner0[p] == owner[p]) {
      assert !PrivateIn(owner[p], d, -TABLES, n) ==> p in Reclaimed(owner, d, -TABLES, n);
    }
    forall p | p in owner0 ensures p in owner && owner[p] == owner0[p] {
      assert p in Reclaimed(owner, d, -TABLES, n);
    }
  }

  lemma {:induction false} TotalBound(tab: seq<Segment>, order: seq<int>)
    requires TabOk(tab)
    ensures Total(tab, order) <= 4 * |order|
  {
    if order != [] {
      TotalBound(tab, order[..|order| - 1]);
    }
  }

  ghost function UpTo(n: nat): set<int> {
    if n == 0 then {} else UpTo(n - 1) + {n - 1}
  }

  lemma {:induction false} UpToIs(n: nat, k: int)
    ensures k in UpTo(n) <==> 0 <= k < n
    ensures |UpTo(n)| == n
  {
    if n > 0 {
      UpToIs(n - 1, k);
      UpToIs(n - 1, n - 1);
    }
  }

  // Distinct keys are at most eight.
  lemma KeysBound(order: seq<int>, n: nat)
    requires forall j | 0 <= j < |order| :: 0 <= order[j] < n
    requires forall i, j | 0 <= i < j < |order| :: order[i] != order[j]
    ensures |order| <= n
  {
    Distincts(order);
    forall k | k in order ensures k in UpTo(n) {
      UpToIs(n, k);
    }
    UpToIs(n, 0);
    SubsetSize((set k | k in order), UpTo(n));
  }

  lemma {:induction false} Distincts(order: seq<int>)
    requires forall i, j | 0 <= i < j < |order| :: order[i] != order[j]
    ensures |set k | k in order| == |order|
  {
    if order != [] {
      var rest := order[..|order| - 1];
      Distincts(rest);
      assert (set k | k in order) == (set k | k in rest) + {order[|order| - 1]};
    }
  }

  /** Shared memory never reaches below page 128, 32 pages from the top. */
  lemma SharedFitsAbove(tab: seq<Segment>, sp: Space)
    requires TabOk(tab) && SpaceOk(tab, sp)
    ensures sp.shm >= USERTOP - 4 * |sp.order| >= 128
  {
    TotalBound(tab, sp.order);
    KeysBound(sp.order, 8);
  }

  // The space with segment k attached at lo.
  function WithSegment(sp: Space, k: int, lo: int): Space {
    sp.(shm := lo, mask := sp.mask + {k}, va := sp.va[k := lo], order := sp.order + [k])
  }

  ghost function SpacesWith(spaces: map<Page, Space>, d: Page, k: int, lo: int): map<Page, Space> {
    if d in spaces then spaces[d := WithSegment(spaces[d], k, lo)] else spaces
  }

  ghost function SpacesSized(spaces: map<Page, Space>, d: Page, sz: nat): map<Page, Space> {
    if d in spaces then spaces[d := spaces[d].(sz := sz)] else spaces
  }

  ghost predicate Lies(pt: PageMap, lo: int, pages: seq<Page>, i: int) {
    0 <= i < |pages| && lo + i in pt && pt[lo + i] == pages[i]
  }

  lemma LiesSame(pt: PageMap, lo: int, phys: seq<Page>, pages: seq<Page>, i: int)
    requires Lies(pt, lo, phys, i) && |phys| <= |pages| && pages[..|phys|] == phys
    ensures Lies(pt, lo, pages, i)
  {
  }

  // Segment k has num pages and one more holder; the other segments are as they were.
  ghost predicate OneMoreHolder(tab: seq<Segment>, tab': seq<Segment>, k: int, num: nat) {
    && 0 <= k < |tab| == |tab'| && (forall j | 0 <= j < |tab| && j != k :: tab'[j] == tab[j])
    && tab'[k].count == tab[k].count + 1 && tab'[k].num == num && |tab'[k].pages| == 4
    && (tab[k].count > 0 ==> tab'[k].pages == tab[k].pages)
  }

  /** Segment k is attached to d: its pages are mapped just below what was attached before, and it has
      one holder more. A segment that had no holder may be new. */
  ghost predicate AttachedTo(m: Mem, m': Mem, d: Page, k: int, lo: int) {
    && d in m.spaces && d in m.dirs && d in m'.dirs && 0 <= k < |m.tab| == |m'.tab| && k !in m.spaces[d].mask
    && (forall j | 0 <= j < |m.tab| && j != k :: m'.tab[j] == m.tab[j])
    && m'.tab[k].count == m.tab[k].count + 1 && m'.tab[k].num <= 4 && |m'.tab[k].pages| == 4
    && (m.tab[k].count > 0 ==> m'.tab[k].num == m.tab[k].num && m'.tab[k].pages == m.tab[k].pages)
    && lo == m.spaces[d].shm - m'.tab[k].num && m.spaces[d].sz <= 4096 * lo
    && m'.dirs == m.dirs[d := m'.dirs[d]] && Trim(m'.dirs[d], lo, m.spaces[d].shm) == m.dirs[d]
    && (forall i | 0 <= i < m'.tab[k].num :: Lies(m'.dirs[d], lo, m'.tab[k].pages, i))
    && m'.spaces == m.spaces[d := WithSegment(m.spaces[d], k, lo)]
    && (forall p | p in m.owner :: p in m'.owner && m'.owner[p] == m.owner[p])
    && (forall p | p in m'.owner :: m'.owner[p] != InHand)
  }

  lemma TotalAppend(tab: seq<Segment>, order: seq<int>, k: int)
    ensures Total(tab, order + [k]) == Total(tab, order) + Num(tab, k)
  {
    assert (order + [k])[..|order|] == order;
  }

  lemma AttachedSpace(tab: seq<Segment>, tab': seq<Segment>, sp: Space, k: int, lo: int)
    requires SpaceOk(tab, sp) && k !in sp.mask && 0 <= k < 8 && |tab| == |tab'| && SameSegments(tab, tab', sp.mask)
    requires lo == sp.shm - Num(tab', k) && sp.sz <= 4096 * lo
    ensures SpaceOk(tab', WithSegment(sp, k, lo))
  {
    hide Total;
    var order, order', va' := sp.order, sp.order + [k], sp.va[k := lo];
    SpaceSame(tab, tab', sp);
    TotalAppend(tab', order, k);
    forall j | 0 <= j < |order'| ensures order'[j] in va' && va'[order'[j]] == USERTOP - Total(tab', order'[..j + 1]) {
      if j < |order| {
        assert order'[..j + 1] == order[..j + 1] && order[j] in sp.va;
      } else {
        assert order'[..j + 1] == order';
      }
    }
  }

  // Outside [lo, shm) the directory is as it was; inside it has the pages of segment k.
  lemma AttachedPage(m: Mem, m': Mem, d: Page, k: int, lo: int, v: int)
    requires Settled(m, d) && AttachedTo(m, m', d, k, lo)
    ensures v in m'.dirs[d] <==> -TABLES <= v < Pages(m.spaces[d].sz) || lo <= v < USERTOP
    ensures v in m'.dirs[d] && !(lo <= v < m.spaces[d].shm) ==> v in m.dirs[d] && m'.dirs[d][v] == m.dirs[d][v]
    ensures lo <= v < m.spaces[d].shm ==> Lies(m'.dirs[d], lo, m'.tab[k].pages, v - lo)
  {
    var sp, pt' := m.spaces[d], m'.dirs[d];
    if lo <= v < sp.shm {
      assert Lies(pt', lo, m'.tab[k].pages, v - lo);
    } else {
      assert v in pt' <==> v in Trim(pt', lo, sp.shm);
    }
  }

  lemma AttachedUse(m: Mem, m': Mem, d: Page, k: int, lo: int, v: int)
    requires Settled(m, d) && AttachedTo(m, m', d, k, lo) && Accounted(m'.dirs, m'.tab, m'.owner, m'.free)
             && m'.tab[k].count > 0
    requires v in m'.dirs[d] && v >= lo
    ensures AttachedAt(WithSegment(m.spaces[d], k, lo), m'.owner, m'.dirs[d][v], v)
  {
    AttachedPage(m, m', d, k, lo, v);
    if v < m.spaces[d].shm {
      assert Live(m'.tab, k, v - lo);
    } else {
      assert AttachedAt(m.spaces[d], m.owner, m.dirs[d][v], v);
    }
  }

  lemma AttachedPlaces(m: Mem, m': Mem, d: Page, k: int, lo: int, j: int, i: int)
    requires Settled(m, d) && AttachedTo(m, m', d, k, lo) && (j == k || j in m.spaces[d].mask)
             && 0 <= i < Num(m'.tab, j)
    ensures Places(m'.tab, WithSegment(m.spaces[d], k, lo), m'.dirs[d], j, i)
  {
    if j == k {
      assert Lies(m'.dirs[d], lo, m'.tab[k].pages, i);
    } else {
      assert Places(m.tab, m.spaces[d], m.dirs[d], j, i);
      assert m.spaces[d].va[j] + i in Trim(m'.dirs[d], lo, m.spaces[d].shm);
    }
  }

  lemma AttachedMap(m: Mem, m': Mem, d: Page, k: int, lo: int)
    requires Settled(m, d) && AttachedTo(m, m', d, k, lo) && Accounted(m'.dirs, m'.tab, m'.owner, m'.free)
             && m'.tab[k].count > 0
    ensures MapOk(m'.tab, WithSegment(m.spaces[d], k, lo), d, m'.dirs[d], m'.owner)
  {
    var sp', pt' := WithSegment(m.spaces[d], k, lo), m'.dirs[d];
    forall v ensures v in pt' <==> -TABLES <= v < Pages(sp'.sz) || lo <= v < USERTOP {
      AttachedPage(m, m', d, k, lo, v);
    }
    forall v | v in pt' && v < Pages(sp'.sz) ensures pt'[v] in m'.owner && m'.owner[pt'[v]] == Private(d, v) {
      AttachedPage(m, m', d, k, lo, v);
    }
    forall v | v in pt' && v >= lo ensures AttachedAt(sp', m'.owner, pt'[v], v) {
      AttachedUse(m, m', d, k, lo, v);
    }
    forall j, i | j in sp'.mask && 0 <= i < Num(m'.tab, j) ensures Places(m'.tab, sp', pt', j, i) {
      AttachedPlaces(m, m', d, k, lo, j, i);
    }
  }

  lemma AttachValid(m: Mem, m': Mem, d: Page, k: int, lo: int)
    requires ValidMem(m) && AttachedTo(m, m', d, k, lo) && Accounted(m'.dirs, m'.tab, m'.owner, m'.free)
    ensures ValidMem(m')
  {
    forall j | 0 <= j < 8 ensures m'.tab[j].count == |Holders(m'.spaces, j)| {
      HoldersAttached(m.spaces, d, WithSegment(m.spaces[d], k, lo), k, j);
    }
    forall e | e in m'.spaces ensures Settled(m', e) {
      AttachSettled(m, m', d, k, lo, e);
    }
  }

  lemma HoldersAttached(spaces: map<Page, Space>, d: Page, sp: Space, k: int, j: int)
    requires d in spaces && k !in spaces[d].mask && sp.mask == spaces[d].mask + {k}
    ensures |Holders(spaces[d := sp], j)| == |Holders(spaces, j)| + if j == k then 1 else 0
  {
    assert Holders(spaces[d := sp], j) == if j == k then Holders(spaces, j) + {d} else Holders(spaces, j);
  }

  lemma AttachSettled(m: Mem, m': Mem, d: Page, k: int, lo: int, e: Page)
    requires ValidMem(m) && AttachedTo(m, m', d, k, lo) && Accounted(m'.dirs, m'.tab, m'.owner, m'.free)
             && e in m'.spaces
    ensures Settled(m', e)
  {
    assert Settled(m, e);
    if e == d {
      AttachedSpace(m.tab, m'.tab, m.spaces[d], k, lo);
      AttachedMap(m, m', d, k, lo);
    } else {
      assert k in m.spaces[e].mask ==> e in Holders(m.spaces, k);
      forall v | v in m.dirs[e] ensures m.dirs[e][v] in m'.owner && m'.owner[m.dirs[e][v]] == m.owner[m.dirs[e][v]] {
        assert MappedFor(m.owner, m.dirs[e][v], e, v);
      }
      SettledKept(m, m', e);
    }
  }

  /** From shm up to the top every page belongs to exactly one place in one attached segment. */
  lemma SegmentsTile(m: Mem, d: Page, v: int)
    requires ValidMem(m) && d in m.spaces && m.spaces[d].shm <= v < USERTOP
    ensures exists k, i :: k in m.spaces[d].mask && 0 <= i < Num(m.tab, k)
                           && Places(m.tab, m.spaces[d], m.dirs[d], k, i) && v == m.spaces[d].va[k] + i
    ensures forall k, i, k', i' | k in m.spaces[d].mask && 0 <= i < Num(m.tab, k) && k' in m.spaces[d].mask
            && 0 <= i' < Num(m.tab, k')
                                  && Places(m.tab, m.spaces[d], m.dirs[d], k, i)
                                  && Places(m.tab, m.spaces[d], m.dirs[d], k', i')
                                  && m.spaces[d].va[k] + i == v == m.spaces[d].va[k'] + i' :: k == k' && i == i'
  {
    hide ValidMem;
    var p := PlaceOf(m, d, v);
    forall k, i | k in m.spaces[d].mask && 0 <= i < Num(m.tab, k) && Places(m.tab, m.spaces[d], m.dirs[d], k, i)
        && m.spaces[d].va[k] + i == v
      ensures p in m.owner && m.owner[p] == Shared(k, i)
    {
      UsedThere(m, d, k, i);
    }
  }

  // The page mapped at v belongs to a segment that is attached, and lies where it belongs.
  lemma PlaceOf(m: Mem, d: Page, v: int) returns (p: Page)
    requires ValidMem(m) && d in m.spaces && m.spaces[d].shm <= v < USERTOP
    ensures d in m.dirs && v in m.dirs[d] && p == m.dirs[d][v] && p in m.owner && m.owner[p].Shared?
    ensures var Shared(k, i) := m.owner[p];
            && k in m.spaces[d].mask && 0 <= i < Num(m.tab, k) && Places(m.tab, m.spaces[d], m.dirs[d], k, i)
            && v == m.spaces[d].va[k] + i
  {
    hide SpaceOk;
    assert Settled(m, d);
    p := m.dirs[d][v];
    assert AttachedAt(m.spaces[d], m.owner, p, v) && UsedAs(m.dirs, m.tab, p, m.owner[p]);
    assert Places(m.tab, m.spaces[d], m.dirs[d], m.owner[p].key, m.owner[p].i);
  }

  // The page at the place of page i of segment k is used as such.
  lemma UsedThere(m: Mem, d: Page, k: int, i: int)
    requires ValidMem(m) && d in m.spaces && d in m.dirs && k in m.spaces[d].mask && 0 <= i < Num(m.tab, k)
    requires Places(m.tab, m.spaces[d], m.dirs[d], k, i)
    ensures var p := m.dirs[d][m.spaces[d].va[k] + i]; p in m.owner && m.owner[p] == Shared(k, i)
  {
    assert Settled(m, d) && d in Holders(m.spaces, k) && k in m.spaces[d].order;
    assert Live(m.tab, k, i);
  }

  /** All holders of a key see the same pages. */
  lemma SharersSeeSamePages(m: Mem, d: Page, e: Page, k: int, i: int)
    requires ValidMem(m) && d in m.spaces && e in m.spaces && k in m.spaces[d].mask && k in m.spaces[e].mask
             && 0 <= i < Num(m.tab, k)
    ensures k in m.spaces[d].va && k in m.spaces[e].va
    ensures var v, w := m.spaces[d].va[k] + i, m.spaces[e].va[k] + i;
            v in m.dirs[d] && w in m.dirs[e] && m.dirs[d][v] == m.dirs[e][w]
  {
    SegmentAt(m, d, k, i);
    SegmentAt(m, e, k, i);
  }

  lemma SegmentAt(m: Mem, d: Page, k: int, i: int)
    requires ValidMem(m) && d in m.spaces && k in m.spaces[d].mask && 0 <= i < Num(m.tab, k)
    ensures d in m.dirs && Places(m.tab, m.spaces[d], m.dirs[d], k, i)
  {
  }

  /** No page is free and mapped, and no page is mapped privately in two places. */
  lemma MappedPagesDistinct(m: Mem, d: Page, v: int, e: Page, w: int)
    requires ValidMem(m) && d in m.dirs && v in m.dirs[d] && e in m.dirs && w in m.dirs[e]
    ensures m.dirs[d][v] !in m.free
    ensures m.dirs[d][v] == m.dirs[e][w] && v < Pages(m.spaces[d].sz) ==> d == e && v == w
  {
  }

  // What shmgetat has in its array when it attaches: the first `asked` pages of the segment, then whatever was there.
  function AttachArray(pages: seq<Page>, asked: nat, junk: seq<Page>): seq<Page>
    requires |pages| == 4 && |junk| == 4 && asked <= 4
  {
    pages[..asked] + junk[asked..]
  }

  // The first n pages of phys mapped in order from lo on.
  ghost function MappedAt(pt: PageMap, lo: int, phys: seq<Page>, n: nat): PageMap
    requires n <= |phys|
  {
    if n == 0 then pt else MappedAt(pt, lo, phys, n - 1)[lo + n - 1 := phys[n - 1]]
  }

  lemma {:induction false} MappedAtIs(pt: PageMap, lo: int, phys: seq<Page>, n: nat, v: int)
    requires n <= |phys|
    ensures v in MappedAt(pt, lo, phys, n) <==> v in pt || lo <= v < lo + n
    ensures lo <= v < lo + n ==> MappedAt(pt, lo, phys, n)[v] == phys[v - lo]
    ensures v in pt && !(lo <= v < lo + n) ==> MappedAt(pt, lo, phys, n)[v] == pt[v]
  {
    if n > 0 {
      MappedAtIs(pt, lo, phys, n - 1, v);
    }
  }

  lemma MappedAtTrim(pt: PageMap, lo: int, phys: seq<Page>, n: nat)
    requires n <= |phys| && forall v | lo <= v < lo + n :: v !in pt
    ensures Trim(MappedAt(pt, lo, phys, n), lo, lo + n) == pt
  {
    var pt' := MappedAt(pt, lo, phys, n);
    forall v ensures v in Trim(pt', lo, lo + n) <==> v in pt {
      MappedAtIs(pt, lo, phys, n, v);
      TrimmedAt(pt', lo, lo + n, v);
    }
    forall v | v in pt ensures Trim(pt', lo, lo + n)[v] == pt[v] {
      MappedAtIs(pt, lo, phys, n, v);
    }
  }

  /** Attaching maps the segment's pages, whatever was in the array, if and only if at least as many pages
      were asked for as the segment has. */
  lemma AttachExactIff(pt: PageMap, lo: int, pages: seq<Page>, num: nat, asked: nat)
    requires |pages| == 4 && num <= 4 && asked <= 4
    ensures (forall junk: seq<Page>, i | |junk| == 4 && 0 <= i < num ::
             Lies(MappedAt(pt, lo, AttachArray(pages, asked, junk), num), lo, pages, i))
            <==> asked >= num
  {
    if asked < num {
      var junk := [pages[asked] + 1, pages[asked] + 1, pages[asked] + 1, pages[asked] + 1];
      MappedAtIs(pt, lo, AttachArray(pages, asked, junk), num, lo + asked);
      assert !Lies(MappedAt(pt, lo, AttachArray(pages, asked, junk), num), lo, pages, asked);
    } else {
      forall junk: seq<Page>, i | |junk| == 4 && 0 <= i < num
        ensures Lies(MappedAt(pt, lo, AttachArray(pages, asked, junk), num), lo, pages, i) {
        MappedAtIs(pt, lo, AttachArray(pages, asked, junk), num, lo + i);
      }
    }
  }

  // Memory after shmgetat has attached a segment that others hold.
  ghost function AttachedOld(m: Mem, d: Page, k: int, lo: int, phys: seq<Page>): Mem
    requires d in m.dirs && d in m.spaces && 0 <= k < |m.tab| && m.tab[k].num <= |phys|
  {
    m.(dirs := m.dirs[d := MappedAt(m.dirs[d], lo, phys, m.tab[k].num)],
       tab := m.tab[k := m.tab[k].(count := m.tab[k].count + 1)],
       spaces := m.spaces[d := WithSegment(m.spaces[d], k, lo)])
  }

  ghost predicate MayAttach(m: Mem, d: Page, k: int, lo: int, phys: seq<Page>) {
    && ValidMem(m) && d in m.spaces && 0 <= k < 8 && k !in m.spaces[d].mask && m.tab[k].count > 0 && |phys| == 4
    && lo == m.spaces[d].shm - m.tab[k].num && m.spaces[d].sz <= 4096 * lo
  }

  lemma TabShape(m: Mem)
    requires ValidMem(m)
    ensures TabOk(m.tab) && m.spaces.Keys == m.dirs.Keys
  {
  }

  // Page i of the segment, mapped at its place.
  lemma AttachedRight(m: Mem, d: Page, k: int, lo: int, phys: seq<Page>, i: nat)
    requires MayAttach(m, d, k, lo, phys) && TabOk(m.tab) && i < m.tab[k].num <= 4 && d in m.dirs
    requires phys[i] == m.tab[k].pages[i]
    ensures phys[i] in m.owner && m.owner[phys[i]].Shared?
    ensures Lies(MappedAt(m.dirs[d], lo, phys, m.tab[k].num), lo, m.tab[k].pages, i)
  {
    hide MappedAt;
    MappedAtIs(m.dirs[d], lo, phys, m.tab[k].num, lo + i);
    assert Live(m.tab, k, i);
  }

  // The place of the segment is free, and there is no page in hand.
  lemma AttachRoom(m: Mem, d: Page, k: int, lo: int, phys: seq<Page>)
    requires MayAttach(m, d, k, lo, phys)
    ensures Accounted(m.dirs, m.tab, m.owner, m.free) && TabOk(m.tab) && d in m.dirs
    ensures forall v | lo <= v < m.spaces[d].shm :: v !in m.dirs[d]
    ensures forall p | p in m.owner :: m.owner[p] != InHand
  {
    hide Accounted, SpaceOk;
    assert Settled(m, d);
  }

  lemma AttachedOldSound(m: Mem, d: Page, k: int, lo: int, phys: seq<Page>)
    requires MayAttach(m, d, k, lo, phys) && phys[..m.tab[k].num] == m.tab[k].pages[..m.tab[k].num]
    ensures var m' := AttachedOld(m, d, k, lo, phys);
            Accounted(m'.dirs, m'.tab, m'.owner, m'.free) && AttachedTo(m, m', d, k, lo)
  {
    hide Accounted, ValidMem, MappedAt, Trim, Lies;
    AttachRoom(m, d, k, lo, phys);
    var n, m' := m.tab[k].num, AttachedOld(m, d, k, lo, phys);
    forall i | 0 <= i < n ensures phys[i] == m.tab[k].pages[i] {
      assert phys[..n][i] == m.tab[k].pages[..n][i];
    }
    forall i | 0 <= i < n
      ensures phys[i] in m.owner && m.owner[phys[i]].Shared? && Lies(m'.dirs[d], lo, m.tab[k].pages, i)
    {
      AttachedRight(m, d, k, lo, phys, i);
    }
    MappedAtTrim(m.dirs[d], lo, phys, n);
    MappedSound(m.dirs, m.tab, m.owner, m.free, d, lo, phys, n);
    CountedSound(m.(dirs := m'.dirs), m'.tab);
  }

  // Pages of segments may be mapped anywhere.
  lemma MappedSound(dirs: map<Page, PageMap>, tab: seq<Segment>, owner: map<Page, Use>, free: seq<Page>, d: Page,
                    lo: int, phys: seq<Page>, n: nat)
    requires Accounted(dirs, tab, owner, free) && d in dirs && n <= |phys|
             && (forall v | lo <= v < lo + n :: v !in dirs[d])
    requires forall i | 0 <= i < n :: phys[i] in owner && owner[phys[i]].Shared?
    ensures Accounted(dirs[d := MappedAt(dirs[d], lo, phys, n)], tab, owner, free)
  {
    var dirs' := dirs[d := MappedAt(dirs[d], lo, phys, n)];
    forall w ensures w in dirs'[d] <==> w in dirs[d] || lo <= w < lo + n {
      MappedAtIs(dirs[d], lo, phys, n, w);
    }
    forall w | w in dirs'[d] ensures dirs'[d][w] == if lo <= w < lo + n then phys[w - lo] else dirs[d][w] {
      MappedAtIs(dirs[d], lo, phys, n, w);
    }
    forall p | p in owner ensures p >= 0 && UsedAs(dirs', tab, p, owner[p]) {
      assert UsedAs(dirs, tab, p, owner[p]);
    }
    forall e, w | e in dirs' && w in dirs'[e] ensures MappedFor(owner, dirs'[e][w], e, w) {
      assert !(e == d && lo <= w < lo + n) ==> MappedFor(owner, dirs[e][w], e, w);
    }
  }

  /** Memory stays valid exactly when the pages mapped are those of the segment. */
  lemma AttachedOldIff(m: Mem, d: Page, k: int, lo: int, phys: seq<Page>)
    requires MayAttach(m, d, k, lo, phys)
    ensures ValidMem(AttachedOld(m, d, k, lo, phys)) <==> phys[..m.tab[k].num] == m.tab[k].pages[..m.tab[k].num]
  {
    var n, m' := m.tab[k].num, AttachedOld(m, d, k, lo, phys);
    if phys[..n] == m.tab[k].pages[..n] {
      hide Accounted, SpaceOk, MappedAt;
      AttachedOldSound(m, d, k, lo, phys);
      AttachValid(m, m', d, k, lo);
    } else {
      hide Accounted, SpaceOk, MappedAt;
      var i :| 0 <= i < n && phys[i] != m.tab[k].pages[i];
      WrongPage(m, d, k, lo, phys, i);
    }
  }

  // A page of the segment that is not where it belongs.
  lemma WrongPage(m: Mem, d: Page, k: int, lo: int, phys: seq<Page>, i: nat)
    requires MayAttach(m, d, k, lo, phys) && i < m.tab[k].num && phys[i] != m.tab[k].pages[i]
    ensures !Settled(AttachedOld(m, d, k, lo, phys), d)
  {
    hide Accounted, SpaceOk, MappedAt;
    var m' := AttachedOld(m, d, k, lo, phys);
    MappedAtIs(m.dirs[d], lo, phys, m.tab[k].num, lo + i);
    assert !Places(m'.tab, m'.spaces[d], m'.dirs[d], k, i);
  }

  // The private part of d now has sz bytes, all else is as before.
  ghost predicate Resized(m: Mem, m': Mem, d: Page, sz: nat) {
    && d in m.spaces && d in m.dirs && d in m'.dirs && sz <= 4096 * m.spaces[d].shm
    && m'.tab == m.tab && m'.dirs == m.dirs[d := m'.dirs[d]] && m'.spaces == m.spaces[d := m.spaces[d].(sz := sz)]
    && (forall v :: v in m'.dirs[d] <==> -TABLES <= v < Pages(sz) || m.spaces[d].shm <= v < USERTOP)
    && (forall v | v in m'.dirs[d] && v < Pages(sz) :: m'.dirs[d][v] in m'.owner
                                                       && m'.owner[m'.dirs[d][v]] == Private(d, v))
    && (forall v | v in m'.dirs[d] && v >= m.spaces[d].shm :: v in m.dirs[d] && m'.dirs[d][v] == m.dirs[d][v])
    && (forall p | p in m.owner && !(m.owner[p].Private? && m.owner[p].d == d) ::
        p in m'.owner && m'.owner[p] == m.owner[p])
    && (forall p | p in m'.owner :: m'.owner[p] != InHand)
  }

  lemma ResizedPlaces(m: Mem, m': Mem, d: Page, sz: nat, k: int, i: int)
    requires Settled(m, d) && Resized(m, m', d, sz) && k in m.spaces[d].mask && 0 <= i < Num(m.tab, k)
    ensures Places(m.tab, m'.spaces[d], m'.dirs[d], k, i)
  {
    assert Places(m.tab, m.spaces[d], m.dirs[d], k, i);
    AttachedAbove(m, d, k, i);
  }

  lemma ResizedOwn(m: Mem, m': Mem, d: Page, sz: nat)
    requires Settled(m, d) && Resized(m, m', d, sz)
    ensures Settled(m', d)
  {
    var sp, sp' := m.spaces[d], m'.spaces[d];
    forall v | v in m'.dirs[d] && v >= sp.shm ensures AttachedAt(sp', m'.owner, m'.dirs[d][v], v) {
      assert AttachedAt(sp, m.owner, m.dirs[d][v], v);
    }
    forall k, i | k in sp'.mask && 0 <= i < Num(m'.tab, k) ensures Places(m'.tab, sp', m'.dirs[d], k, i) {
      ResizedPlaces(m, m', d, sz, k, i);
    }
    assert SpaceOk(m'.tab, sp');
  }

  lemma ResizedSettled(m: Mem, m': Mem, d: Page, sz: nat, e: Page)
    requires ValidMem(m) && Resized(m, m', d, sz) && e in m'.spaces
    ensures Settled(m', e)
  {
    assert Settled(m, e);
    if e == d {
      ResizedOwn(m, m', d, sz);
    } else {
      forall v | v in m.dirs[e] ensures m.dirs[e][v] in m'.owner && m'.owner[m.dirs[e][v]] == m.owner[m.dirs[e][v]] {
        assert MappedFor(m.owner, m.dirs[e][v], e, v);
      }
      SettledKept(m, m', e);
    }
  }

  lemma ResizeValid(m: Mem, m': Mem, d: Page, sz: nat)
    requires ValidMem(m) && Resized(m, m', d, sz) && Accounted(m'.dirs, m'.tab, m'.owner, m'.free)
    ensures ValidMem(m')
  {
    forall k | 0 <= k < 8 ensures m'.tab[k].count == |Holders(m'.spaces, k)| {
      assert Holders(m'.spaces, k) == Holders(m.spaces, k);
    }
    forall e | e in m'.spaces ensures Settled(m', e) {
      ResizedSettled(m, m', d, sz, e);
    }
  }

  lemma GrownResized(m: Mem, m': Mem, d: Page, sz: nat)
    requires ValidMem(m) && d in m.spaces && m.spaces[d].sz < sz <= 4096 * m.spaces[d].shm && d in m'.dirs
    requires m'.tab == m.tab && m'.dirs == m.dirs[d := m'.dirs[d]] && m'.spaces == m.spaces[d := m.spaces[d].(sz := sz)]
    requires Trim(m'.dirs[d], Pages(m.spaces[d].sz), Pages(sz)) == m.dirs[d]
    requires forall v | Pages(m.spaces[d].sz) <= v < Pages(sz) :: v in m'.dirs[d]
    requires AllPrivate(m'.dirs, m'.owner, d, Pages(m.spaces[d].sz), Pages(sz))
    requires Reclaimed(m'.owner, d, Pages(m.spaces[d].sz), Pages(sz)) == m.owner
    ensures Resized(m, m', d, sz) && LostPages(m'.owner) == LostPages(m.owner) && Stacks(m'.owner) == Stacks(m.owner)
  {
    assert Settled(m, d);
    var lo, hi := Pages(m.spaces[d].sz), Pages(sz);
    GrownUses(m.owner, m'.owner, d, lo, hi);
    assert lo <= hi <= m.spaces[d].shm;
    forall v ensures v in m'.dirs[d] <==> -TABLES <= v < hi || m.spaces[d].shm <= v < USERTOP {
      TrimmedAt(m'.dirs[d], lo, hi, v);
    }
    forall v | v in m'.dirs[d] && !(lo <= v < hi) ensures v in m.dirs[d] && m'.dirs[d][v] == m.dirs[d][v] {
      TrimmedAt(m'.dirs[d], lo, hi, v);
    }
    forall v | v in m'.dirs[d] && v < hi ensures m'.dirs[d][v] in m'.owner && m'.owner[m'.dirs[d][v]] == Private(d, v) {
      assert v < lo ==> m.dirs[d][v] in m.owner;
    }
  }

  lemma TrimmedAt(pt: PageMap, lo: int, hi: int, v: int)
    ensures v in Trim(pt, lo, hi) <==> v in pt && !(lo <= v < hi)
    ensures v in Trim(pt, lo, hi) ==> Trim(pt, lo, hi)[v] == pt[v]
  {
  }

  // The uses before are the uses after but for the new private pages.
  lemma GrownUses(owner0: map<Page, Use>, owner: map<Page, Use>, d: Page, lo: int, hi: int)
    requires Reclaimed(owner, d, lo, hi) == owner0
    ensures forall p | p in owner0 :: p in owner && owner[p] == owner0[p]
    ensures forall p | p in owner :: owner[p].Private? || (p in owner0 && owner[p] == owner0[p])
    ensures LostPages(owner) == LostPages(owner0) && Stacks(owner) == Stacks(owner0)
  {
  }

  lemma ShrinkReady(m: Mem, d: Page, sz: nat)
    requires ValidMem(m) && d in m.spaces
    ensures AllPrivate(m.dirs, m.owner, d, Pages(sz), Pages(m.spaces[d].sz))
  {
  }

  lemma ShrunkResized(m: Mem, m': Mem, d: Page, sz: nat)
    requires ValidMem(m) && d in m.spaces && sz < m.spaces[d].sz && d in m.dirs
    requires m'.tab == m.tab && m'.spaces == m.spaces[d := m.spaces[d].(sz := sz)]
    requires m'.dirs == m.dirs[d := Trim(m.dirs[d], Pages(sz), Pages(m.spaces[d].sz))]
    requires m'.owner == Reclaimed(m.owner, d, Pages(sz), Pages(m.spaces[d].sz))
    ensures Resized(m, m', d, sz) && LostPages(m'.owner) == LostPages(m.owner) && Stacks(m'.owner) == Stacks(m.owner)
  {
    assert Settled(m, d);
    var lo, hi := Pages(sz), Pages(m.spaces[d].sz);
    GrownUses(m'.owner, m.owner, d, lo, hi);
    forall v ensures v in m'.dirs[d] <==> -TABLES <= v < lo || m.spaces[d].shm <= v < USERTOP {
      TrimmedAt(m.dirs[d], lo, hi, v);
    }
    forall v | v in m'.dirs[d] && v < lo ensures m'.dirs[d][v] in m'.owner && m'.owner[m'.dirs[d][v]] == Private(d, v) {
      TrimmedAt(m.dirs[d], lo, hi, v);
      assert !PrivateIn(m.owner[m.dirs[d][v]], d, lo, hi);
    }
    forall p | p in m.owner && !(m.owner[p].Private? && m.owner[p].d == d)
      ensures p in m'.owner && m'.owner[p] == m.owner[p] {
      assert !PrivateIn(m.owner[p], d, lo, hi);
    }
  }

  lemma DonatedUses(owner0: map<Page, Use>, owner: map<Page, Use>, d: Page, lo: int, n: nat, k: int)
    requires Reclaimed(owner, d, lo, lo + n) == owner0
    ensures forall p | p in owner0 :: p in Donated(owner, d, lo, n, k) && Donated(owner, d, lo, n, k)[p] == owner0[p]
    ensures (forall p | p in owner0 :: owner0[p] != InHand) ==> forall p | p in Donated(owner, d, lo, n, k) ::
            Donated(owner, d, lo, n, k)[p] != InHand
    ensures LostPages(Donated(owner, d, lo, n, k)) == LostPages(owner0)
            && Stacks(Donated(owner, d, lo, n, k)) == Stacks(owner0)
  {
  }

  lemma LostAlsoIs(owner: map<Page, Use>, free: seq<Page>)
    requires FreeOk(free, owner)
    ensures LostPages(LostAlso(owner, free)) == LostPages(owner) + (set p | p in free)
            && Stacks(LostAlso(owner, free)) == Stacks(owner)
    ensures free == [] ==> LostAlso(owner, free) == owner
  {
  }

  // Free pages were not lost before.
  lemma LossIff(m: Mem)
    requires ValidMem(m)
    ensures LostPages(m.owner) + (set p | p in m.free) == LostPages(m.owner) <==> m.free == []
    ensures m.free != [] ==> (LostPages(m.owner) + (set p | p in m.free[1..]) == LostPages(m.owner) <==> |m.free| == 1)
  {
    if m.free != [] {
      assert m.free[0] in (set p | p in m.free) && m.free[0] !in LostPages(m.owner);
      if |m.free| > 1 {
        assert m.free[1..][0] in (set p | p in m.free[1..]) && m.free[1] !in LostPages(m.owner);
      }
    }
  }

  // Some of the n bytes from va on is in page v.
  predicate Touches(va: nat, n: nat, v: nat) {
    4096 * v < va + n && va < 4096 * v + 4096 && n > 0
  }

  // Every page that the n bytes from va on touch is mapped.
  ghost predicate Mapped(pt: PageMap, va: nat, n: nat) {
    forall v: nat | Touches(va, n, v) :: v in pt
  }

  lemma HandAside(dirs: map<Page, PageMap>, tab: seq<Segment>, owner: map<Page, Use>, free: seq<Page>, p: Page, s: int)
    requires Accounted(dirs, tab, owner, free) && p in owner && owner[p] == InHand
    ensures Accounted(dirs, tab, owner[p := Stack(s)], free)
  {
  }

  // A kernel stack taken in hand.
  lemma StackInHand(m: Mem, p: Page)
    requires ValidMem(m) && p in Stacks(m.owner)
    ensures Accounted(m.dirs, m.tab, m.owner[p := InHand], m.free)
    ensures forall q | q in m.owner :: m.owner[q] != InHand
  {
    hide Settled, Holders, TabOk;
  }

  // Taking free pages for something else, or giving kernel stacks back, disturbs no address space.
  lemma AsideValid(m: Mem, m': Mem)
    requires ValidMem(m) && m' == m.(owner := m'.owner, free := m'.free)
             && Accounted(m'.dirs, m'.tab, m'.owner, m'.free)
    requires forall p | p in m.owner && !m.owner[p].Stack? :: p in m'.owner && m'.owner[p] == m.owner[p]
    requires forall p | p in m'.owner :: m'.owner[p] != InHand
    ensures ValidMem(m')
  {
    forall d | d in m'.spaces ensures Settled(m', d) {
      assert Settled(m, d);
      forall v | v in m.dirs[d] ensures m.dirs[d][v] in m'.owner && m'.owner[m.dirs[d][v]] == m.owner[m.dirs[d][v]] {
        assert MappedFor(m.owner, m.dirs[d][v], d, v);
      }
      SettledKept(m, m', d);
    }
  }

  // Taking the shared mappings of d away loses nothing.
  lemma SharedNotLost(m: Mem, d: Page)
    requires ValidMem(m) && d in m.spaces
    ensures Leaked(m.owner, d, m.spaces[d].shm, USERTOP) == m.owner
  {
    assert Settled(m, d);
    forall p | p in m.owner ensures !PrivateIn(m.owner[p], d, m.spaces[d].shm, USERTOP) {
      assert UsedAs(m.dirs, m.tab, p, m.owner[p]);
      assert PrivateIn(m.owner[p], d, m.spaces[d].shm, USERTOP) ==> AttachedAt(m.spaces[d], m.owner, p, m.owner[p].v);
    }
  }

  // What d still maps below its shared part is its own.
  lemma PrivateRemains(m: Mem, d: Page, v: int)
    requires ValidMem(m) && d in m.spaces && v in Trim(m.dirs[d], m.spaces[d].shm, USERTOP)
    ensures var p, left := m.dirs[d][v], Survivors(m.owner, m.tab, m.spaces[d].mask, 8);
            v >= -TABLES && p in left && left[p] == Private(d, v)
  {
  }

  // The pages of a live segment are exactly those whose use says so, and they are distinct.
  lemma SegmentPages(dirs: map<Page, PageMap>, tab: seq<Segment>, owner: map<Page, Use>, free: seq<Page>, k: nat)
    requires Accounted(dirs, tab, owner, free) && k < |tab| && tab[k].count > 0 && tab[k].num <= |tab[k].pages|
    ensures var ps := tab[k].pages[..tab[k].num];
            && (forall j | 0 <= j < |ps| :: ps[j] in owner && OfSegment(owner[ps[j]], k))
            && (forall j, l | 0 <= j < l < |ps| :: ps[j] != ps[l])
            && (forall p | p in owner && OfSegment(owner[p], k) :: p in ps)
  {
  }

  // Without its pages the segment is gone.
  lemma ReturnedIs(owner: map<Page, Use>, k: int, ps: seq<Page>)
    requires forall j | 0 <= j < |ps| :: ps[j] in owner && OfSegment(owner[ps[j]], k)
    requires forall p | p in owner && OfSegment(owner[p], k) :: p in ps
    ensures Reclaiming(owner, k) - (set p | p in ps) == Unshared(owner, k)
  {
    forall p | p in owner ensures p in ps <==> OfSegment(owner[p], k) {
    }
  }

  // With every free page mapped in [lo, v) and none left, forgetting [lo, hi) loses exactly those pages.
  lemma OutOfPages(dirs: map<Page, PageMap>, tab: seq<Segment>, owner: map<Page, Use>, owner0: map<Page, Use>,
                   free0: seq<Page>,
                   d: Page, lo: int, v: int, hi: int, pt0: PageMap)
    requires Accounted(dirs, tab, owner, []) && d in dirs && lo <= v <= hi
    requires Trim(dirs[d], lo, v) == pt0 && (forall x | lo <= x < hi :: x !in pt0)
    requires Reclaimed(owner, d, lo, v) == owner0 && Pool([], owner) == Pool(free0, owner0)
    ensures Leaked(owner, d, lo, hi) == LostAlso(owner0, free0)
    ensures Trim(dirs[d], lo, hi) == pt0
  {
    TrimSame(dirs[d], lo, v, hi, pt0);
    ReclaimedSame(dirs, tab, owner, [], d, lo, v, hi, pt0);
    assert owner.Keys == Pool([], owner);
    forall p | p in owner ensures Leaked(owner, d, lo, hi)[p] == LostAlso(owner0, free0)[p] {
      assert p in owner0 <==> p in Reclaimed(owner, d, lo, hi);
    }
  }

  lemma CopiedShared(frames0: map<Page, seq<int>>, frames: map<Page, seq<int>>, owner0: map<Page, Use>, src: PageMap,
                     dst: PageMap, from: PageMap, shm: int, n: int)
    requires Copied(frames0, frames, owner0, src, dst, n) && n <= shm && forall v | 0 <= v < n :: v in dst
    ensures Copied(frames0, frames, owner0, src, Overlay(dst, from, shm, USERTOP), n)
  {
  }

  lemma CopiedNext(frames0: map<Page, seq<int>>, frames: map<Page, seq<int>>, owner0: map<Page, Use>,
                   owner: map<Page, Use>,
                   src: PageMap, dst: PageMap, i: int, p: Page, frames': map<Page, seq<int>>, dst': PageMap)
    requires Copied(frames0, frames, owner0, src, dst, i) && i in src && src[i] in owner0 && owner0.Keys <= owner.Keys
    requires p !in owner && (forall v | 0 <= v < i && v in dst :: dst[v] in owner)
    requires frames' == frames[p := Frame(frames, src[i])] && dst' == dst[i := p]
    ensures Copied(frames0, frames', owner0, src, dst', i + 1)
  {
  }

  lemma AbandonedIs(dirs: map<Page, PageMap>, tab: seq<Segment>, owner: map<Page, Use>, free: seq<Page>, d: Page,
                    i: int, bound: nat, owner0: map<Page, Use>)
    requires Accounted(dirs, tab, owner, free) && d in dirs && d !in owner0 && i <= bound
    requires forall v | v in dirs[d] :: -TABLES <= v < i
    requires Reclaimed(owner, d, -TABLES, i) == owner0[d := Table]
    ensures Discarded(owner, d, bound) == owner0
  {
    forall p | p in owner && owner[p].Private? && owner[p].d == d ensures PrivateIn(owner[p], d, -TABLES, i) {
      assert UsedAs(dirs, tab, p, owner[p]);
    }
    forall p | p in owner0 ensures p in Discarded(owner, d, bound) && owner0[p] == owner[p] {
      assert p in owner0[d := Table] && p in Reclaimed(owner, d, -TABLES, i);
    }
    forall p | p in Discarded(owner, d, bound) ensures p in owner0 {
      assert p in Reclaimed(owner, d, -TABLES, i);
    }
  }

  lemma SetupSound(dirs: map<Page, PageMap>, tab: seq<Segment>, owner: map<Page, Use>, free: seq<Page>, d: Page,
                   dirs': map<Page, PageMap>, owner': map<Page, Use>)
    requires Accounted(dirs, tab, owner, free) && d in owner && owner[d] == InHand
    requires dirs' == dirs[d := map[]] && owner' == owner[d := Table]
    ensures d !in dirs && Accounted(dirs', tab, owner', free)
  {
    forall q | q in owner' ensures q >= 0 && UsedAs(dirs', tab, q, owner'[q]) {
      assert UsedAs(dirs, tab, q, owner[q]);
    }
    forall e, w | e in dirs' && w in dirs'[e] ensures MappedFor(owner', dirs'[e][w], e, w) {
      assert MappedFor(owner, dirs[e][w], e, w);
    }
  }

  lemma DiscardSound(dirs: map<Page, PageMap>, tab: seq<Segment>, owner: map<Page, Use>, free: seq<Page>, d: Page,
                     owner': map<Page, Use>)
    requires Accounted(dirs, tab, owner, free) && d in dirs && owner' == Discarded(owner, d, -TABLES)[d := InHand]
    ensures Accounted(dirs - {d}, tab, owner', free)
  {
    forall p | p in owner
      ensures p in owner' && (p != d && !(owner[p].Private? && owner[p].d == d) ==> owner'[p] == owner[p]) {
      assert !PrivateIn(owner[p], d, -TABLES, -TABLES);
    }
    forall p | p in owner' ensures p >= 0 && UsedAs(dirs - {d}, tab, p, owner'[p]) {
      assert UsedAs(dirs, tab, p, owner[p]);
    }
    forall e, w | e in dirs - {d} && w in (dirs - {d})[e] ensures MappedFor(owner', (dirs - {d})[e][w], e, w) {
      assert MappedFor(owner, dirs[e][w], e, w);
    }
    forall k, i | Live(tab, k, i) ensures tab[k].pages[i] in owner' && owner'[tab[k].pages[i]] == Shared(k, i) {
      assert owner[tab[k].pages[i]] == Shared(k, i);
    }
  }

  // A directory begun when the pages ran out is lost with all its tables: every page that was free is.
  lemma StrandSound(dirs: map<Page, PageMap>, tab: seq<Segment>, owner: map<Page, Use>, d: Page, v: int,
                    dirs0: map<Page, PageMap>, owner0: map<Page, Use>, free0: seq<Page>)
    requires Accounted(dirs, tab, owner, []) && d in dirs && d !in owner0 && dirs0 == dirs - {d}
    requires Trim(dirs[d], -TABLES, v) == map[] && Reclaimed(owner, d, -TABLES, v) == owner0[d := Table]
    requires Pool([], owner) == Pool(free0, owner0)
    ensures Accounted(dirs0, tab, LostAlso(owner0, free0), [])
  {
    var owner' := Discarded(owner, d, -TABLES)[d := InHand];
    DiscardSound(dirs, tab, owner, [], d, owner');
    StrandUses(dirs, tab, owner, d, v, owner0, free0);
    HandLost(dirs0, tab, owner', d, LostAlso(owner0, free0));
  }

  lemma HandLost(dirs: map<Page, PageMap>, tab: seq<Segment>, owner: map<Page, Use>, p: Page, owner': map<Page, Use>)
    requires Accounted(dirs, tab, owner, []) && p in owner && owner[p] == InHand && owner' == owner[p := Lost]
    ensures Accounted(dirs, tab, owner', [])
  {
  }

  lemma StrandUses(dirs: map<Page, PageMap>, tab: seq<Segment>, owner: map<Page, Use>, d: Page, v: int,
                   owner0: map<Page, Use>, free0: seq<Page>)
    requires Accounted(dirs, tab, owner, []) && d in dirs && d !in owner0 && Trim(dirs[d], -TABLES, v) == map[]
    requires Reclaimed(owner, d, -TABLES, v) == owner0[d := Table] && Pool([], owner) == Pool(free0, owner0)
    ensures LostAlso(owner0, free0) == Discarded(owner, d, -TABLES)[d := Lost]
  {
    var owner' := Discarded(owner, d, -TABLES)[d := Lost];
    assert owner.Keys == Pool([], owner);
    TrimmedAway(dirs[d], -TABLES, v);
    forall p | p in owner ensures p in owner' && owner'[p] == if p in owner0 then owner0[p] else Lost {
      assert UsedAs(dirs, tab, p, owner[p]);
      assert p in owner0[d := Table] <==> p in Reclaimed(owner, d, -TABLES, v);
    }
  }

  // The tables first, then the private pages.
  lemma GrownOn(pt: PageMap, pt1: PageMap, owner: map<Page, Use>, owner1: map<Page, Use>, owner0: map<Page, Use>,
                d: Page, n: nat)
    requires Trim(pt, 0, n) == pt1 && Trim(pt1, -TABLES, 0) == map[]
    requires Reclaimed(owner, d, 0, n) == owner1 && Reclaimed(owner1, d, -TABLES, 0) == owner0
    ensures Trim(pt, -TABLES, n) == map[] && Reclaimed(owner, d, -TABLES, n) == owner0
  {
    TrimmedAway(pt1, -TABLES, 0);
    forall v | v in pt ensures -TABLES <= v < n {
      TrimmedAt(pt, 0, n, v);
    }
    forall p | p in owner
      ensures PrivateIn(owner[p], d, -TABLES, n) <==> PrivateIn(owner[p], d, 0, n)
                                                      || PrivateIn(owner[p], d, -TABLES, 0) {
    }
  }

  lemma FilledBegun(pt: PageMap, pt1: PageMap, owner: map<Page, Use>, owner1: map<Page, Use>,
                    dirs0: map<Page, PageMap>, owner0: map<Page, Use>, d: Page, n: nat)
    requires Trim(pt, 0, n) == pt1 && Trim(pt, -TABLES, n) == map[] && Reclaimed(owner, d, 0, n) == owner1
    requires Reclaimed(owner, d, -TABLES, n) == owner0[d := Table] && d !in dirs0 && d !in owner0
    requires forall x | -TABLES <= x < 0 :: x in pt1 && pt1[x] in owner1 && owner1[pt1[x]] == Private(d, x)
    requires forall x | 0 <= x < n :: x in pt && pt[x] in owner && owner[pt[x]] == Private(d, x)
    ensures Begun(dirs0, owner0, owner, d, pt, n)
  {
    forall x | -TABLES <= x < 0 ensures x in pt && pt[x] in owner && owner[pt[x]] == Private(d, x) {
      TrimmedAt(pt, 0, n, x);
      assert pt[x] in Reclaimed(owner, d, 0, n);
    }
  }

  lemma DiscardedIs(owner: map<Page, Use>, d: Page, bound: nat)
    ensures Discarded(Reclaimed(Reclaimed(owner, d, 0, bound), d, -TABLES, 0), d, -TABLES) == Discarded(owner, d, bound)
  {
  }

  lemma TrimSame(pt: PageMap, lo: int, v: int, hi: int, pt0: PageMap)
    requires lo <= v <= hi && Trim(pt, lo, v) == pt0 && forall x | lo <= x < hi :: x !in pt0
    ensures Trim(pt, lo, hi) == pt0
  {
  }

  lemma ReclaimedSame(dirs: map<Page, PageMap>, tab: seq<Segment>, owner: map<Page, Use>, free: seq<Page>, d: Page,
                      lo: int, v: int, hi: int, pt0: PageMap)
    requires Accounted(dirs, tab, owner, free) && d in dirs && lo <= v <= hi
    requires Trim(dirs[d], lo, v) == pt0 && forall x | lo <= x < hi :: x !in pt0
    ensures Reclaimed(owner, d, lo, hi) == Reclaimed(owner, d, lo, v)
    ensures forall x | v <= x < hi :: x !in dirs[d]
  {
    forall x | v <= x < hi ensures x !in dirs[d] {
      TrimmedAt(dirs[d], lo, v, x);
    }
    forall p | p in owner ensures PrivateIn(owner[p], d, lo, hi) <==> PrivateIn(owner[p], d, lo, v) {
      assert UsedAs(dirs, tab, p, owner[p]);
    }
  }
}
