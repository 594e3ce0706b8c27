/** A page directory of two levels: 1024 entries, each empty or leading to a table of 1024 page entries.
    It stands for one flat map from virtual page numbers to physical pages. */
module PageTables {

  import opened Common

  datatype Pte = Absent | Present(pa: int, perm: int)

  type Tables = map<int, seq<Pte>>

  // The entry for page 1024d + t.
  function Lookup(pde: seq<int>, tabs: Tables, d: int, t: int): Pte {
    if 0 <= d < |pde| && pde[d] in tabs && 0 <= t < |tabs[pde[d]]| then tabs[pde[d]][t] else Absent
  }

  // The flat map: the directory index of page v is v / 1024, the table index v % 1024.
  function Flat(pde: seq<int>, tabs: Tables, v: int): Pte {
    Lookup(pde, tabs, v / 1024, v % 1024)
  }

  ghost predicate Shaped(pde: seq<int>, tabs: Tables) {
    && |pde| == 1024
    && (forall d | 0 <= d < 1024 :: pde[d] == -1 || pde[d] in tabs)
    && (forall d, e | 0 <= d < e < 1024 && pde[d] != -1 :: pde[d] != pde[e])
    && (forall p | p in tabs :: p >= 0 && |tabs[p]| == 1024)
  }

  ghost predicate Tabled(pde: seq<int>, tables: set<int>) {
    forall d :: d in tables <==> 0 <= d < |pde| && pde[d] != -1
  }

  ghost predicate Unused(free: seq<int>, tabs: Tables) {
    && (forall j | 0 <= j < |free| :: free[j] >= 0 && free[j] !in tabs)
    && (forall j, k | 0 <= j < k < |free| :: free[j] != free[k])
  }

  // A new empty table changes nothing.
  lemma TableAdded(pde: seq<int>, tabs: Tables, d: nat, p: int, v: nat)
    requires Shaped(pde, tabs) && d < 1024 && pde[d] == -1 && p >= 0 && p !in tabs
    ensures var empty := seq(1024, _ => Absent);
            Shaped(pde[d := p], tabs[p := empty]) && Flat(pde[d := p], tabs[p := empty], v) == Flat(pde, tabs, v)
  {
  }

  // Writing one entry changes one page of the flat map.
  lemma EntryWritten(pde: seq<int>, tabs: Tables, d: nat, t: nat, e: Pte, v: nat)
    requires Shaped(pde, tabs) && d < 1024 && t < 1024 && pde[d] != -1
    ensures var tabs' := tabs[pde[d] := tabs[pde[d]][t := e]];
            Shaped(pde, tabs') && Flat(pde, tabs', v) == if v == 1024 * d + t then e else Flat(pde, tabs, v)
  {
  }

  // The directory entries of n pages from v on.
  ghost function Spanned(v: nat, n: nat): set<int> {
    if n == 0 then {} else Spanned(v, n - 1) + {(v + n - 1) / 1024}
  }

  lemma SpannedNone(v: nat)
    ensures Spanned(v, 0) == {}
  {
  }

  lemma SpannedNext(v: nat, n: nat)
    ensures Spanned(v, n + 1) == Spanned(v, n) + {(v + n) / 1024}
  {
  }

  lemma {:induction false} SpannedIs(v: nat, n: nat, d: int)
    ensures d in Spanned(v, n) <==> n > 0 && v / 1024 <= d <= (v + n - 1) / 1024
  {
    if n > 0 {
      SpannedIs(v, n - 1, d);
    }
  }

  lemma SpanWithin(v: nat, done: nat, n: nat)
    requires done < n
    ensures Spanned(v, done) <= Spanned(v, n) && (v + done) / 1024 in Spanned(v, n)
  {
  }

  lemma Twelve()
    ensures |{0, 1, 2, 3, 1016, 1017, 1018, 1019, 1020, 1021, 1022, 1023}| == 12
  {
  }

  /** The kernel's mappings take twelve directory entries: the first four and the last eight. */
  lemma KernelSpans(io: nat, text: nat, data: nat, top: nat, dev: nat) returns (low: set<int>, all: set<int>)
    requires io == USERTOP && text == 256 && 256 < data < top == 4096 && dev == 0xFE000
    ensures low == Spanned(io, text - io) + Spanned(text, data - text) + Spanned(data, top - data)
    ensures all == low + Spanned(dev, 0x10_0000 - dev)
    ensures |all| == 12 && 0 in all
  {
    hide Spanned;
    low := Spanned(io, text - io) + Spanned(text, data - text) + Spanned(data, top - data);
    all := {0, 1, 2, 3, 1016, 1017, 1018, 1019, 1020, 1021, 1022, 1023};
    Twelve();
    forall d ensures d in low + Spanned(dev, 0x10_0000 - dev) <==> d in all {
      SpannedIs(io, text - io, d);
      SpannedIs(text, data - text, d);
      SpannedIs(data, top - data, d);
      SpannedIs(dev, 0x10_0000 - dev, d);
    }
  }

  lemma FewerTables(tables: set<int>, all: set<int>, d: int)
    requires tables <= all && d in all && d !in tables
    ensures |tables| < |all|
  {
    assert all == tables + (all - tables - {d}) + {d};
  }

  class PageDirectory {
    var pde: seq<int>
    var tabs: Tables
    var free: seq<int>
    // The directory entries that lead to a table.
    ghost var tables: set<int>

    ghost predicate Valid()
      reads this
    {
      Shaped(pde, tabs) && Unused(free, tabs) && Tabled(pde, tables)
    }

    ghost function At(v: int): Pte
      reads this
    {
      Flat(pde, tabs, v)
    }

    constructor (free: seq<int>)
      requires Unused(free, map[])
      ensures Valid() && this.free == free && (forall v: nat :: At(v) == Absent) && tables == {}
    {
      pde, tabs, this.free, tables := seq(1024, _ => -1), map[], free, {};
    }

    /** The table of directory entry d; with `create` an empty one is added where there is none, if there
        is a free page for it. -1 when there is no table. The flat map does not change. */
    method Walk(d: nat, create: bool) returns (tab: int)
      requires Valid() && d < 1024
      modifies this
      ensures Valid() && (forall v: nat :: At(v) == old(At(v)))
      ensures tab == pde[d] && (old(pde)[d] != -1 || !create ==> unchanged(this))
      ensures old(pde)[d] == -1 && create ==> (tab != -1 <==> old(free) != [])
      ensures tables == old(tables) + (if tab != -1 then {d} else {}) && |free| + |tables| == old(|free| + |tables|)
      ensures forall e | 0 <= e < 1024 && old(pde)[e] != -1 :: pde[e] == old(pde)[e]
    {
      tab := pde[d];
      if tab == -1 && create && free != [] {
        tab := free[0];
        forall v: nat ensures Flat(pde[d := tab], tabs[tab := seq(1024, _ => Absent)], v) == Flat(pde, tabs, v) {
          TableAdded(pde, tabs, d, tab, v);
        }
        TableAdded(pde, tabs, d, tab, 0);
        pde, tabs, free, tables := pde[d := tab], tabs[tab := seq(1024, _ => Absent)], free[1..], tables + {d};
      }
    }

    // The entry of one page is written; the page must not be mapped.
    method Map(v: nat, e: Pte) returns (ok: bool)
      requires Valid() && v < 0x10_0000 && At(v) == Absent
      modifies this
      ensures Valid()
      ensures ok <==> old(pde)[v / 1024] != -1 || old(free) != []
      ensures forall w: nat :: At(w) == if ok && w == v then e else old(At(w))
      ensures old(pde)[v / 1024] != -1 ==> free == old(free)
      ensures forall d | 0 <= d < 1024 && old(pde)[d] != -1 :: pde[d] == old(pde)[d]
      ensures tables == old(tables) + (if ok then {v / 1024} else {}) && |free| + |tables| == old(|free| + |tables|)
    {
      var d, t := v / 1024, v % 1024;
      var tab := Walk(d, true);
      if tab == -1 {
        return false;
      }
      forall w: nat ensures Flat(pde, tabs[tab := tabs[tab][t := e]], w) == if w == v then e else Flat(pde, tabs, w) {
        EntryWritten(pde, tabs, d, t, e, w);
      }
      EntryWritten(pde, tabs, d, t, e, 0);
      tabs := tabs[tab := tabs[tab][t := e]];
      return true;
    }

    /** Map n pages from v on to consecutive physical pages. Pages before the first one without a table
        and without memory for one are mapped. */
    method MapPages(v: nat, n: nat, pa: int, perm: int) returns (ok: bool, ghost done: nat)
      requires Valid() && n > 0 && v + n <= 0x10_0000 && forall w: nat | v <= w < v + n :: At(w) == Absent
      modifies this
      ensures Valid() && done <= n && (ok <==> done == n)
      ensures forall w: nat :: At(w) == if v <= w < v + done then Present(pa + 4096 * (w - v), perm) else old(At(w))
      ensures forall d | 0 <= d < 1024 && old(pde)[d] != -1 :: pde[d] == old(pde)[d]
      ensures tables == old(tables) + Spanned(v, done) && |free| + |tables| == old(|free| + |tables|)
      ensures !ok ==> free == [] && (v + done) / 1024 !in tables
      ensures (forall w: nat | v <= w < v + n :: old(pde)[w / 1024] != -1) ==> ok && free == old(free)
    {
      SpannedNone(v);
      hide Spanned, Flat;
      done := 0;
      var a, p := v, pa;
      while a < v + n
        invariant Valid() && v <= a <= v + n && done == a - v && p == pa + 4096 * done
        invariant forall w: nat :: At(w) == if v <= w < a then Present(pa + 4096 * (w - v), perm) else old(At(w))
        invariant forall d | 0 <= d < 1024 && old(pde)[d] != -1 :: pde[d] == old(pde)[d]
        invariant tables == old(tables) + Spanned(v, done) && |free| + |tables| == old(|free| + |tables|)
        invariant (forall w: nat | v <= w < v + n :: old(pde)[w / 1024] != -1) ==> free == old(free)
      {
        ok := Map(a, Present(p, perm));
        if !ok {
          return;
        }
        SpannedNext(v, done);
        a, p, done := a + 1, p + 4096, done + 1;
      }
      ok := true;
    }

    // The kernel's page of the flat map: itself, writable but for the kernel text.
    static function KernelPte(v: int, data: int): Pte {
      if USERTOP <= v < 4096 || 0xFE000 <= v < 0x10_0000 then Present(4096 * v, if 256 <= v < data then 0 else 2)
          else Absent
    }

    // One range of the kernel part; it fails only when there are not pages for all the tables.
    method MapRange(v: nat, n: nat, perm: int, ghost all: set<int>) returns (ok: bool)
      requires Valid() && n > 0 && v + n <= 0x10_0000 && forall w: nat | v <= w < v + n :: At(w) == Absent
      requires tables + Spanned(v, n) <= all
      modifies this
      ensures Valid() && |free| + |tables| == old(|free| + |tables|)
      ensures ok ==> tables == old(tables) + Spanned(v, n)
      ensures ok ==> forall w: nat :: At(w) == if v <= w < v + n then Present(4096 * w, perm) else old(At(w))
      ensures !ok ==> free == [] && |tables| < |all|
    {
      ghost var done;
      ok, done := MapPages(v, n, 4096 * v, perm);
      if !ok {
        SpanWithin(v, done, n);
        FewerTables(tables, all, (v + done) / 1024);
      }
    }

    // The first three ranges.
    method MapLow(io: nat, text: nat, data: nat, top: nat, ghost low: set<int>, ghost all: set<int>) returns (ok: bool)
      requires Valid() && io == USERTOP && text == 256 < data < top == 4096 && tables == {} && forall v: nat ::
               At(v) == Absent
      requires low == Spanned(io, text - io) + Spanned(text, data - text) + Spanned(data, top - data) && low <= all
      modifies this
      ensures Valid() && |free| + |tables| == old(|free| + |tables|)
      ensures ok ==> tables == low && forall v: nat :: At(v) == if v < 4096 then KernelPte(v, data) else Absent
      ensures !ok ==> free == [] && |tables| < |all|
    {
      ok := MapRange(io, text - io, 2, all);
      if ok {
        ok := MapRange(text, data - text, 0, all);
      }
      if ok {
        ok := MapRange(data, top - data, 2, all);
      }
    }

    /** The kernel part of a new directory; `data` is the page where the kernel's data begins. It takes
        twelve tables, and fails exactly when there are not twelve pages for them; then it has taken all there
        were. On success the user pages are free and share a table that is already there. */
    method SetupKvm(data: nat) returns (ok: bool)
      requires Valid() && 256 < data < 4096 && tables == {} && forall v: nat :: At(v) == Absent
      modifies this
      ensures Valid()
      ensures ok <==> |old(free)| >= 12
      ensures !ok ==> free == []
      ensures ok ==> pde[0] != -1 && |free| == |old(free)| - 12 && forall v: nat :: At(v) == KernelPte(v, data)
      ensures ok ==> forall v: nat :: At(v).Present? <==> 160 <= v < 4096 || 0xFE000 <= v < 0x10_0000
      ensures ok ==> forall v: nat | At(v).Present? ::
              At(v).pa == 4096 * v && At(v).perm == if 256 <= v < data then 0 else 2
    {
      ghost var low, all := KernelSpans(USERTOP, 256, data, 4096, 0xFE000);
      ok := MapLow(USERTOP, 256, data, 4096, low, all);
      if ok {
        ok := MapRange(0xFE000, 0x2000, 2, all);
      }
      assert ok ==> tables == all;
    }

    /** Once the kernel part is there, mapping user pages never fails and takes no memory for tables. */
    method MapUser(v: nat, n: nat, pa: int, perm: int)
      requires Valid() && pde[0] != -1 && n > 0 && v + n <= USERTOP && forall w: nat | v <= w < v + n :: At(w) == Absent
      modifies this
      ensures Valid() && pde[0] != -1 && free == old(free)
      ensures forall w: nat :: At(w) == if v <= w < v + n then Present(pa + 4096 * (w - v), perm) else old(At(w))
    {
      assert forall w: nat | v <= w < v + n :: pde[w / 1024] != -1;
      var ok;
      ghost var done;
      ok, done := MapPages(v, n, pa, perm);
    }

    // The entry of a page, found without a check that there is a table. For a user page there is one.
    method FindUser(v: nat) returns (e: Pte)
      requires Valid() && v < 0x10_0000 && pde[v / 1024] != -1
      ensures e == At(v)
    {
      e := tabs[pde[v / 1024]][v % 1024];
    }

    method Erase(v: nat)
      requires Valid() && pde[0] != -1 && v < 1024
      modifies `tabs
      ensures Valid() && forall w: nat :: At(w) == if w == v then Absent else old(At(w))
    {
      forall w: nat ensures Flat(pde, tabs[pde[0] := tabs[pde[0]][v := Absent]], w) == if w == v then Absent
          else Flat(pde, tabs, w) {
        EntryWritten(pde, tabs, 0, v, Absent, w);
      }
      EntryWritten(pde, tabs, 0, v, Absent, 0);
      tabs := tabs[pde[0] := tabs[pde[0]][v := Absent]];
    }

    // Take the mappings of user pages [lo, hi) away, as the loops that free pages do.
    method UnmapUser(lo: nat, hi: nat) returns (pages: seq<int>)
      requires Valid() && pde[0] != -1 && lo <= hi <= USERTOP
      modifies this
      ensures Valid() && pde[0] != -1 && free == old(free)
      ensures forall w: nat :: At(w) == if lo <= w < hi then Absent else old(At(w))
      ensures forall p :: p in pages <==> exists w: nat :: lo <= w < hi && old(At(w)).Present? && old(At(w)).pa == p
    {
      pages := [];
      var a := lo;
      while a < hi
        invariant Valid() && pde == old(pde) && free == old(free) && lo <= a <= hi
        invariant forall w: nat :: At(w) == if lo <= w < a then Absent else old(At(w))
        invariant forall p :: p in pages <==> exists w: nat :: lo <= w < a && old(At(w)).Present? && old(At(w)).pa == p
      {
        var e := FindUser(a);
        if e.Present? {
          pages := pages + [e.pa];
          Erase(a);
        }
        a := a + 1;
      }
    }
  }
}
