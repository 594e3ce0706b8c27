/** The user-level allocator: one circular free list of headers in address order, starting at a
zero-sized header `base`.

Addresses are bytes; a block of n units is the 8n bytes from its header on. The maps `ptr` and
`size` are the two header fields in memory. The ghost state says what the memory means: the
set of free blocks, the blocks handed out, and every byte obtained from the kernel. */
module Umalloc {

  import opened Common

  const UINT_LIMIT: nat := 0x1_0000_0000

  type Field = map<int, int>

  function At(m: Field, a: int): int {
    if a in m then m[a] else 0
  }

  function End(size: Field, a: int): int {
    a + 8 * At(size, a)
  }

  // The links thread the free blocks and `base` into one circle in address order: each leads to
  // the nearest block above, the highest one back to `base`.
  ghost predicate Threaded(base: int, free: set<int>, ptr: Field) {
    && base in free && (forall a | a in free :: base <= a)
    && (forall a {:trigger At(ptr, a)} | a in free :: Onward(base, free, a, At(ptr, a)))
    && (forall a, c {:trigger At(ptr, a), c in free} | a in free && c in free && a < c :: a < At(ptr, a) <= c)
  }

  ghost predicate Onward(base: int, free: set<int>, a: int, b: int) {
    b in free && (b == base || a < b)
  }

  // Free blocks are never empty, never overlap and never touch: they are fully coalesced.
  ghost predicate Spaced(base: int, free: set<int>, size: Field) {
    && 0 < base && At(size, base) == 0
    && (forall a | a in free && a != base :: base + 8 <= a && At(size, a) >= 1)
    && (forall a, b | a in free && b in free && a < b :: End(size, a) < b)
  }

  ghost predicate FreeList(base: int, free: set<int>, ptr: Field, size: Field) {
    Threaded(base, free, ptr) && Spaced(base, free, size)
  }

  // Blocks handed out: their headers are intact and they do not overlap each other.
  ghost predicate LiveBlocks(base: int, live: Field, size: Field) {
    && (forall a | a in live :: live[a] >= 1 && base + 8 <= a && At(size, a) == live[a])
    && (forall a, b | a in live && b in live && a < b :: End(size, a) <= b)
  }

  ghost predicate InFree(free: set<int>, size: Field, x: int) {
    exists a :: a in free && a <= x < End(size, a)
  }

  ghost predicate InLive(live: Field, x: int) {
    exists a :: a in live && a <= x < End(live, a)
  }

  /** Every byte obtained from the kernel is in exactly one block, free or handed out, and no
      other byte is in any. */
  ghost predicate Accounted(free: set<int>, size: Field, live: Field, owned: iset<int>) {
    && (forall x :: x in owned <==> InFree(free, size, x) || InLive(live, x))
    && (forall a, b | a in free && b in live :: End(size, a) <= b || End(size, b) <= a)
  }

  ghost predicate Sound(base: int, free: set<int>, ptr: Field, size: Field, live: Field, owned: iset<int>) {
    && FreeList(base, free, ptr, size)
    && LiveBlocks(base, live, size)
    && Accounted(free, size, live, owned)
  }

  // p is where bp belongs: the last free block below it.
  ghost predicate Before(base: int, free: set<int>, ptr: Field, p: int, bp: int) {
    p in free && p < bp && (bp < At(ptr, p) || At(ptr, p) <= p)
  }

  // What freeing bp does to the header fields, with p the block before it.
  function FreedSize(ptr: Field, size: Field, p: int, bp: int): Field {
    var next := At(ptr, p);
    var size1 := if End(size, bp) == next then size[bp := At(size, bp) + At(size, next)] else size;
    if End(size, p) == bp then size1[p := At(size1, p) + At(size1, bp)] else size1
  }

  function FreedPtr(ptr: Field, size: Field, p: int, bp: int): Field {
    var next := At(ptr, p);
    var ptr1 := ptr[bp := if End(size, bp) == next then At(ptr, next) else next];
    ptr1[p := if End(size, p) == bp then At(ptr1, bp) else bp]
  }

  function FreedSet(free: set<int>, ptr: Field, size: Field, p: int, bp: int): set<int> {
    var next := At(ptr, p);
    (if End(size, bp) == next then free - {next} else free) + (if End(size, p) == bp then {} else {bp})
  }

  // Link bp in after p.
  lemma ThreadInsert(base: int, free: set<int>, ptr: Field, p: int, bp: int, free': set<int>, ptr': Field)
    requires Threaded(base, free, ptr) && Before(base, free, ptr, p, bp) && bp !in free
    requires free' == free + {bp}
    requires ptr' == ptr[bp := At(ptr, p)][p := bp]
    ensures Threaded(base, free', ptr')
  {
    forall a, c {:trigger At(ptr', a), c in free'} | a in free' && c in free' && a < c ensures a < At(ptr', a) <= c {
      InsertBetween(base, free, ptr, p, bp, a, c);
    }
    forall a {:trigger At(ptr', a)} | a in free' ensures Onward(base, free', a, At(ptr', a)) {
      assert a in free ==> Onward(base, free, a, At(ptr, a));
      assert Onward(base, free, p, At(ptr, p));
    }
  }

  lemma InsertBetween(base: int, free: set<int>, ptr: Field, p: int, bp: int, a: int, c: int)
    requires Threaded(base, free, ptr) && Before(base, free, ptr, p, bp) && bp !in free
    requires (a == bp || a in free) && (c == bp || c in free) && a < c
    ensures a < At(ptr[bp := At(ptr, p)][p := bp], a) <= c
  {
    if a != bp && a < p {
      assert At(ptr, a) <= p;
    }
    if c != bp && p < c {
      assert p < At(ptr, p) <= c;
    }
  }

  // Unlink the block after a.
  lemma ThreadRemove(base: int, free: set<int>, ptr: Field, a: int, free': set<int>, ptr': Field)
    requires Threaded(base, free, ptr) && a in free && At(ptr, a) != base
    requires free' == free - {At(ptr, a)}
    requires ptr' == ptr[a := At(ptr, At(ptr, a))]
    ensures Threaded(base, free', ptr')
  {
    forall c {:trigger At(ptr', c)} | c in free' ensures Onward(base, free', c, At(ptr', c)) {
      RemoveOnward(base, free, ptr, a, c);
    }
    forall c, d {:trigger At(ptr', c), d in free'} | c in free' && d in free' && c < d ensures c < At(ptr', c) <= d {
      assert c < At(ptr, c) <= d;
      assert At(ptr, a) < d ==> At(ptr, a) < At(ptr, At(ptr, a)) <= d;
    }
  }

  lemma RemoveOnward(base: int, free: set<int>, ptr: Field, a: int, c: int)
    requires Threaded(base, free, ptr) && a in free && At(ptr, a) != base
    requires c in free && c != At(ptr, a)
    ensures Onward(base, free - {At(ptr, a)}, c, At(ptr[a := At(ptr, At(ptr, a))], c))
  {
    var b := At(ptr, a);
    assert Onward(base, free, c, At(ptr, c)) && Onward(base, free, b, At(ptr, b)) && Onward(base, free, a, b);
    if c < a {
      assert At(ptr, c) <= a;
    } else if a < c {
      assert b <= c;
    }
  }

  // Put a block between the others.
  lemma SpacedAdd(base: int, free: set<int>, size: Field, size': Field, s: int)
    requires Spaced(base, free, size) && s !in free && base + 8 <= s && At(size', s) >= 1
    requires forall a | a in free :: At(size', a) == At(size, a)
    requires At(size', base) == 0
    requires forall a | a in free :: End(size, a) < s || End(size', s) < a
    ensures Spaced(base, free + {s}, size')
  {
  }

  // No free block lies between p and bp or between bp and the block after p.
  lemma BeforeGap(base: int, free: set<int>, ptr: Field, p: int, bp: int, a: int)
    requires Threaded(base, free, ptr) && Before(base, free, ptr, p, bp) && a in free
    ensures a <= p || (p < At(ptr, p) <= a && bp < a)
  {
  }

  lemma FreedThread(base: int, free: set<int>, ptr: Field, size: Field, p: int, bp: int)
    requires FreeList(base, free, ptr, size) && Before(base, free, ptr, p, bp) && bp !in free && base < bp
    requires At(size, bp) >= 1
    ensures Threaded(base, FreedSet(free, ptr, size, p, bp), FreedPtr(ptr, size, p, bp))
  {
    var next := At(ptr, p);
    assert Onward(base, free, p, next);
    var up, down := End(size, bp) == next, End(size, p) == bp;
    var free1, ptr1 := free + {bp}, ptr[bp := next][p := bp];
    ThreadInsert(base, free, ptr, p, bp, free1, ptr1);
    var free2, ptr2 := free1, ptr1;
    if up {
      free2, ptr2 := free1 - {next}, ptr1[bp := At(ptr1, next)];
      ThreadRemove(base, free1, ptr1, bp, free2, ptr2);
    }
    var free3, ptr3 := free2, ptr2;
    if down {
      free3, ptr3 := free2 - {bp}, ptr2[p := At(ptr2, bp)];
      ThreadRemove(base, free2, ptr2, p, free3, ptr3);
    }
    assert free3 == FreedSet(free, ptr, size, p, bp);
    assert ptr3 == FreedPtr(ptr, size, p, bp);
  }

  lemma FreedSpaced(base: int, free: set<int>, ptr: Field, size: Field, p: int, bp: int)
    requires FreeList(base, free, ptr, size) && Before(base, free, ptr, p, bp) && bp !in free
    requires At(size, bp) >= 1 && base + 8 <= bp
    requires forall a | a in free :: End(size, a) <= bp || End(size, bp) <= a
    ensures Spaced(base, FreedSet(free, ptr, size, p, bp), FreedSize(ptr, size, p, bp))
  {
    var next := At(ptr, p);
    assert Onward(base, free, p, next);
    var up, down := End(size, bp) == next, End(size, p) == bp;
    var rest := (if up then free - {next} else free) - (if down then {p} else {});
    var s := if down then p else bp;
    var size' := FreedSize(ptr, size, p, bp);
    forall a | a in rest ensures End(size, a) < s || End(size', s) < a {
      BeforeGap(base, free, ptr, p, bp, a);
      if a < p {
        assert End(size, a) < p;
      }
      if p < a && a != next {
        assert next < a && End(size, next) < a;
      }
    }
    SpacedAdd(base, rest, size, size', s);
    assert rest + {s} == FreedSet(free, ptr, size, p, bp);
  }

  // The freed block's bytes, and no others, become free.
  lemma FreedBytes(base: int, free: set<int>, ptr: Field, size: Field, p: int, bp: int, x: int)
    requires FreeList(base, free, ptr, size) && Before(base, free, ptr, p, bp) && bp !in free && base + 8 <= bp
             && At(size, bp) >= 1
    ensures InFree(FreedSet(free, ptr, size, p, bp), FreedSize(ptr, size, p, bp), x) <==>
            InFree(free, size, x) || bp <= x < End(size, bp)
  {
    var next := At(ptr, p);
    assert Onward(base, free, p, next);
    var free', size' := FreedSet(free, ptr, size, p, bp), FreedSize(ptr, size, p, bp);
    BeforeKept(base, free, ptr, size, p, bp);
    if InFree(free, size, x) || bp <= x < End(size, bp) {
      FreedCovers(base, free, ptr, size, p, bp, x);
    }
    if a :| a in free' && a <= x < End(size', a) {
      assert a != p && a != bp ==> a in free && a <= x < End(size, a);
      assert p in free && next in free;
    }
  }

  lemma FreedCovers(base: int, free: set<int>, ptr: Field, size: Field, p: int, bp: int, x: int)
    requires FreeList(base, free, ptr, size) && Before(base, free, ptr, p, bp) && bp !in free && base + 8 <= bp
             && At(size, bp) >= 1
    requires InFree(free, size, x) || bp <= x < End(size, bp)
    ensures InFree(FreedSet(free, ptr, size, p, bp), FreedSize(ptr, size, p, bp), x)
  {
    var next := At(ptr, p);
    assert Onward(base, free, p, next);
    var up, down := End(size, bp) == next, End(size, p) == bp;
    var free', size' := FreedSet(free, ptr, size, p, bp), FreedSize(ptr, size, p, bp);
    var s := if down then p else bp;
    if bp <= x < End(size, bp) {
      assert s in free' && s <= x < End(size', s);
    } else {
      var a :| a in free && a <= x < End(size, a);
      var a' := if (up && a == next) || (down && a == p) then s else a;
      assert a' in free' && a' <= x < End(size', a');
    }
  }

  // Splitting n units off the end of the free block p.
  lemma SplitBlock(base: int, free: set<int>, ptr: Field, size: Field, p: int, q: int, n: int, size': Field)
    requires FreeList(base, free, ptr, size) && p in free && p != base
    requires 1 <= n < At(size, p) && q == p + 8 * (At(size, p) - n) && size' == size[p := At(size, p) - n][q := n]
    ensures q !in free && FreeList(base, free, ptr, size')
  {
  }

  lemma SplitBytes(base: int, free: set<int>, size: Field, p: int, q: int, n: int, size': Field, x: int)
    requires p in free && q !in free
    requires 1 <= n < At(size, p) && q == p + 8 * (At(size, p) - n) && size' == size[p := At(size, p) - n][q := n]
    ensures InFree(free, size, x) <==> InFree(free, size', x) || q <= x < q + 8 * n
  {
  }

  lemma FreedSound(base: int, free: set<int>, ptr: Field, size: Field, live: Field, owned: iset<int>, p: int, bp: int)
    requires Sound(base, free, ptr, size, live, owned) && bp in live && Before(base, free, ptr, p, bp)
    ensures Sound(base, FreedSet(free, ptr, size, p, bp), FreedPtr(ptr, size, p, bp), FreedSize(ptr, size, p, bp),
                  live - {bp}, owned)
  {
    var free', size', live' := FreedSet(free, ptr, size, p, bp), FreedSize(ptr, size, p, bp), live - {bp};
    assert bp !in free;
    FreedThread(base, free, ptr, size, p, bp);
    FreedSpaced(base, free, ptr, size, p, bp);
    assert LiveBlocks(base, live', size') by {
      assert p !in live;
    }
    forall x ensures x in owned <==> InFree(free', size', x) || InLive(live', x) {
      FreedBytes(base, free, ptr, size, p, bp, x);
      LiveWithout(base, live, size, bp, x);
    }
    forall a, b | a in free' && b in live' ensures End(size', a) <= b || End(size', b) <= a {
      FreedApart(base, free, ptr, size, live, p, bp, a, b);
    }
  }

  lemma LiveWithout(base: int, live: Field, size: Field, bp: int, x: int)
    requires LiveBlocks(base, live, size) && bp in live
    ensures InLive(live, x) <==> InLive(live - {bp}, x) || bp <= x < End(size, bp)
  {
    var live' := live - {bp};
    if a :| a in live && a <= x < End(live, a) {
      assert a == bp || (a in live' && a <= x < End(live', a));
    }
    if a :| a in live' && a <= x < End(live', a) {
      assert a in live && a <= x < End(live, a);
    }
    if bp <= x < End(size, bp) {
      assert bp in live && bp <= x < End(live, bp);
    }
  }

  lemma FreedApart(base: int, free: set<int>, ptr: Field, size: Field, live: Field, p: int, bp: int, a: int, b: int)
    requires FreeList(base, free, ptr, size) && LiveBlocks(base, live, size)
    requires forall a, b | a in free && b in live :: End(size, a) <= b || End(size, b) <= a
    requires bp in live && Before(base, free, ptr, p, bp) && bp !in free
    requires a in FreedSet(free, ptr, size, p, bp) && b in live && b != bp
    ensures End(FreedSize(ptr, size, p, bp), a) <= b || End(FreedSize(ptr, size, p, bp), b) <= a
  {
    var next := At(ptr, p);
    assert Onward(base, free, p, next);
    var size' := FreedSize(ptr, size, p, bp);
    assert b != p && b != next;
    assert End(size, p) <= b || End(size, b) <= p;
    assert End(size, bp) <= b || End(size, b) <= bp;
    assert End(size, next) <= b || End(size, b) <= next;
  }

  ghost predicate Within(hp: int, n: int, x: int) {
    hp <= x < hp + 8 * n
  }

  ghost function Region(hp: int, n: int): iset<int> {
    iset x | Within(hp, n, x)
  }

  // Bytes [hp, hp + 8n) just obtained from the kernel, above base and not obtained before.
  ghost predicate Fresh(base: int, owned: iset<int>, hp: int, n: int) {
    base + 8 <= hp && forall x | Within(hp, n, x) :: x !in owned
  }

  // Fresh bytes overlap no block.
  lemma FreshApart(base: int, free: set<int>, ptr: Field, size: Field, live: Field, owned: iset<int>, hp: int, n: int,
                   a: int)
    requires Sound(base, free, ptr, size, live, owned) && Fresh(base, owned, hp, n) && n >= 1
    requires a in free || a in live
    ensures a != hp && (End(size, a) <= hp || hp + 8 * n <= a)
  {
    var x := if a < hp then hp else a;
    assert a in live && a <= x < End(size, a) ==> InLive(live, x);
    assert a in free && a <= x < End(size, a) ==> InFree(free, size, x);
    assert Within(hp, n, x) ==> x !in owned;
  }

  lemma LiveWith(live: Field, hp: int, n: int, x: int)
    requires hp !in live
    ensures InLive(live[hp := n], x) <==> InLive(live, x) || hp <= x < hp + 8 * n
  {
    var live' := live[hp := n];
    if hp <= x < hp + 8 * n {
      assert hp in live' && hp <= x < End(live', hp);
    }
    if a :| a in live && a <= x < End(live, a) {
      assert a in live' && a <= x < End(live', a);
    }
    if a :| a in live' && a <= x < End(live', a) {
      assert a == hp || (a in live && a <= x < End(live, a));
    }
  }

  // Changing a header field outside the free blocks leaves the free bytes as they are.
  lemma FreeWith(free: set<int>, size: Field, hp: int, n: int, x: int)
    requires hp !in free
    ensures InFree(free, size[hp := n], x) <==> InFree(free, size, x)
  {
  }

  lemma GrowSound(base: int, free: set<int>, ptr: Field, size: Field, live: Field, owned: iset<int>, hp: int, n: int,
                  owned': iset<int>)
    requires Sound(base, free, ptr, size, live, owned) && Fresh(base, owned, hp, n) && n >= 1
    requires owned' == owned + Region(hp, n)
    ensures hp !in live && hp !in free
    ensures Sound(base, free, ptr, size[hp := n], live[hp := n], owned')
  {
    var size', live' := size[hp := n], live[hp := n];
    forall a | a in free || a in live ensures a != hp && (End(size, a) <= hp || hp + 8 * n <= a) {
      FreshApart(base, free, ptr, size, live, owned, hp, n, a);
    }
    assert forall a | a != hp :: At(size', a) == At(size, a);
    assert Spaced(base, free, size');
    assert LiveBlocks(base, live', size');
    forall x ensures x in owned' <==> InFree(free, size', x) || InLive(live', x) {
      FreeWith(free, size, hp, n, x);
      LiveWith(live, hp, n, x);
    }
  }

  // Handing out the free block after prev whole.
  lemma UnlinkSound(base: int, free: set<int>, ptr: Field, size: Field, live: Field, owned: iset<int>, prev: int)
    requires Sound(base, free, ptr, size, live, owned) && prev in free && At(ptr, prev) != base
    ensures var p := At(ptr, prev);
            p !in live && Sound(base, free - {p}, ptr[prev := At(ptr, p)], size, live[p := At(size, p)], owned)
  {
    var p := At(ptr, prev);
    assert Onward(base, free, prev, p);
    var free', live' := free - {p}, live[p := At(size, p)];
    ThreadRemove(base, free, ptr, prev, free', ptr[prev := At(ptr, p)]);
    assert p !in live;
    forall x ensures x in owned <==> InFree(free', size, x) || InLive(live', x) {
      LiveWith(live, p, At(size, p), x);
      if a :| a in free && a <= x < End(size, a) {
        assert a == p || a in free';
      }
      if p <= x < End(size, p) {
        assert p in free;
      }
    }
  }

  lemma SplitLive(base: int, live: Field, size: Field, p: int, q: int, n: int, size': Field, live': Field)
    requires LiveBlocks(base, live, size) && base + 8 <= p && p !in live
    requires 1 <= n < At(size, p) && q == p + 8 * (At(size, p) - n) && size' == size[p := At(size, p) - n][q := n]
    requires forall b | b in live :: End(size, p) <= b || End(size, b) <= p
    requires live' == live[q := n]
    ensures q !in live && LiveBlocks(base, live', size')
  {
  }

  // Handing out the last n units of the free block p.
  lemma SplitSound(base: int, free: set<int>, ptr: Field, size: Field, live: Field, owned: iset<int>,
                   p: int, q: int, n: int, size': Field, live': Field)
    requires Sound(base, free, ptr, size, live, owned) && p in free && p != base
    requires 1 <= n < At(size, p) && q == p + 8 * (At(size, p) - n) && size' == size[p := At(size, p) - n][q := n]
    requires live' == live[q := n]
    ensures q !in live && Sound(base, free, ptr, size', live', owned)
  {
    SplitBlock(base, free, ptr, size, p, q, n, size');
    SplitLive(base, live, size, p, q, n, size', live');
    forall x ensures x in owned <==> InFree(free, size', x) || InLive(live', x) {
      LiveWith(live, q, n, x);
      SplitBytes(base, free, size, p, q, n, size', x);
    }
    forall a, b | a in free && b in live' ensures End(size', a) <= b || End(size', b) <= a {
      SplitDisjoint(base, free, ptr, size, live, p, q, n, size', a, b);
    }
  }

  lemma SplitDisjoint(base: int, free: set<int>, ptr: Field, size: Field, live: Field, p: int, q: int, n: int,
                      size': Field, a: int, b: int)
    requires FreeList(base, free, ptr, size) && LiveBlocks(base, live, size) && p in free && p != base
    requires forall a, b | a in free && b in live :: End(size, a) <= b || End(size, b) <= a
    requires 1 <= n < At(size, p) && q == p + 8 * (At(size, p) - n) && size' == size[p := At(size, p) - n][q := n]
    requires a in free && (b == q || b in live)
    ensures End(size', a) <= b || End(size', b) <= a
  {
  }

  // The block before a freed one stays on the list.
  lemma BeforeKept(base: int, free: set<int>, ptr: Field, size: Field, p: int, bp: int)
    requires FreeList(base, free, ptr, size) && Before(base, free, ptr, p, bp) && At(size, bp) >= 1
    ensures p in FreedSet(free, ptr, size, p, bp)
  {
  }

  // How many free blocks the search for the place of bp still has to pass, starting at p.
  ghost function Ahead(free: set<int>, p: int, bp: int): nat {
    if p < bp then |set c | c in free && p < c < bp| else |free| + 1 + |set c | c in free && p < c|
  }

  lemma Smaller(a: set<int>, b: set<int>, x: int)
    requires a <= b && x in b && x !in a
    ensures |a| < |b|
  {
    var rest := b - a - {x};
    assert b == a + {x} + rest;
    assert |a + {x}| == |a| + 1 && |b| == |a + {x}| + |rest|;
  }

  lemma AheadDecreases(base: int, free: set<int>, ptr: Field, p: int, bp: int)
    requires Threaded(base, free, ptr) && p in free && bp !in free && base < bp && !Before(base, free, ptr, p, bp)
    ensures Ahead(free, At(ptr, p), bp) < Ahead(free, p, bp)
  {
    var q := At(ptr, p);
    assert Onward(base, free, p, q);
    if p < bp {
      Smaller((set c | c in free && q < c < bp), (set c | c in free && p < c < bp), q);
    } else if p < q {
      Smaller((set c | c in free && q < c), (set c | c in free && p < c), q);
    } else {
      SubsetSize((set c | c in free && q < c < bp), free);
    }
  }

  // The units malloc asks for, as 32-bit arithmetic gives them, and what it gets from the kernel at once.
  function Units(nbytes: nat): nat {
    (nbytes + 7) % 0x1_0000_0000 / 8 + 1
  }

  function CoreUnits(units: nat): nat {
    if units < 4096 then 4096 else units
  }

  // The units requested have room for nbytes after the header exactly when the sum does not wrap.
  lemma UnitsSuffice(nbytes: nat)
    requires nbytes < UINT_LIMIT
    ensures 8 * (Units(nbytes) - 1) >= nbytes <==> nbytes <= UINT_LIMIT - 8
    ensures nbytes <= UINT_LIMIT - 8 ==> 8 * (Units(nbytes) - 2) < nbytes
    ensures nbytes > UINT_LIMIT - 8 ==> Units(nbytes) == 1
  {
  }

  // The bytes morecore asks sbrk for when it wants n units: the product as a 32-bit int.
  function Bytes(n: nat): (r: int)
    ensures -0x8000_0000 <= r < 0x8000_0000 && (8 * n - r) % 0x1_0000_0000 == 0
  {
    var b := 8 * n % UINT_LIMIT;
    if b < 0x8000_0000 then b else b - UINT_LIMIT
  }

  /** The size that malloc passes to sbrk is what it wants exactly up to 2^31 - 16 bytes, and for requests so large that
      the units wrap to one. Otherwise it is zero or negative. */
  lemma CoreRequestWhole(nbytes: nat)
    requires nbytes < UINT_LIMIT
    ensures var n := CoreUnits(Units(nbytes));
            && (Bytes(n) > 0 <==> nbytes <= 0x7FFF_FFF0 || nbytes > UINT_LIMIT - 8)
            && (Bytes(n) > 0 <==> Bytes(n) == 8 * n)
            && (Bytes(n) > 0 ==> Bytes(n) == if Units(nbytes) <= 4096 then 32768 else 8 * Units(nbytes))
  {
  }

  ghost predicate Among(hp: int, bytes: nat, x: int) {
    hp <= x < hp + bytes
  }

  /** sbrk with the memory of the process ending at brk: the answer. A positive size is granted or not; a negative one
      takes memory away, down to nothing with -1 for an answer; one past the start wraps and changes nothing. */
  function Answer(brk: nat, n: int, grants: bool): int {
    if (n > 0 && !grants) || (n < 0 && brk + n == 0) then -1 else brk
  }

  // And what of the memory it got before the process then has, with what it gets.
  ghost function Obtained(owned: iset<int>, brk: nat, n: int, grants: bool): iset<int> {
    if n > 0 then if grants then owned + iset x | Among(brk, n, x) else owned
    else if n < 0 && brk + n >= 0 then iset x | x in owned && x < brk + n
    else owned
  }

  // A header for n units at brk is right exactly when sbrk was asked for its bytes and gave them.
  lemma GrowSoundIff(base: int, free: set<int>, ptr: Field, size: Field, live: Field, owned: iset<int>, brk: nat,
                     n: nat,
                     bytes: int, grants: bool)
    requires Sound(base, free, ptr, size, live, owned) && base + 8 <= brk && (forall x | x in owned :: x < brk)
             && n >= 1
    requires bytes <= 8 * n
    ensures Sound(base, free, ptr, size[brk := n], live[brk := n], Obtained(owned, brk, bytes, grants))
            <==> bytes == 8 * n && grants
  {
    var size', live', owned' := size[brk := n], live[brk := n], Obtained(owned, brk, bytes, grants);
    assert Fresh(base, owned, brk, n);
    if bytes == 8 * n && grants {
      assert forall x :: Among(brk, bytes, x) <==> Within(brk, n, x);
      assert owned' == owned + Region(brk, n);
      GrowSound(base, free, ptr, size, live, owned, brk, n, owned');
    } else {
      var x := if bytes > 0 && grants then brk + bytes else brk;
      assert brk in live' && brk <= x < End(live', brk);
      assert InLive(live', x) && x !in owned';
    }
  }

  // Taking memory away leaves a sound heap sound exactly when there was none.
  lemma ShrunkIff(base: int, free: set<int>, ptr: Field, size: Field, live: Field, owned: iset<int>)
    requires Sound(base, free, ptr, size, live, owned)
    ensures Sound(base, free, ptr, size, live, iset{}) <==> owned == iset{}
  {
    if forall x :: x !in owned {
      assert owned == iset{};
    } else {
      var x :| x in owned;
      assert InFree(free, size, x) || InLive(live, x);
    }
  }

  // Where p is the next block to look at and s the last: the blocks the search has still to look at.
  ghost predicate Arc(p: int, s: int, c: int) {
    if p <= s then p <= c <= s else p <= c || c <= s
  }

  ghost function Arcs(free: set<int>, p: int, s: int): set<int> {
    set c | c in free && Arc(p, s, c)
  }

  lemma ArcAll(base: int, free: set<int>, ptr: Field, s: int, c: int)
    requires Threaded(base, free, ptr) && s in free && c in free
    ensures Arc(At(ptr, s), s, c)
  {
  }

  lemma ArcStep(base: int, free: set<int>, ptr: Field, p: int, s: int, c: int)
    requires Threaded(base, free, ptr) && p in free && s in free && c in free && p != s
    ensures Arc(At(ptr, p), s, c) <==> Arc(p, s, c) && c != p
  {
  }

  lemma ArcShrinks(base: int, free: set<int>, ptr: Field, p: int, s: int)
    requires Threaded(base, free, ptr) && p in free && s in free && p != s
    ensures |Arcs(free, At(ptr, p), s)| < |Arcs(free, p, s)|
  {
    forall c | c in free ensures Arc(At(ptr, p), s, c) <==> Arc(p, s, c) && c != p {
      ArcStep(base, free, ptr, p, s, c);
    }
    Smaller(Arcs(free, At(ptr, p), s), Arcs(free, p, s), p);
  }

  // The block c is free and has n units.
  ghost predicate Fits(free: set<int>, size: Field, n: int, c: int) {
    c in free && At(size, c) >= n
  }

  // A freed block of n units, joined or not, is found in the list.
  lemma FreedFits(base: int, free: set<int>, ptr: Field, size: Field, p: int, bp: int, n: int)
    requires FreeList(base, free, ptr, size) && Before(base, free, ptr, p, bp) && bp !in free && At(size, bp) >= n >= 1
    ensures exists c :: Fits(FreedSet(free, ptr, size, p, bp), FreedSize(ptr, size, p, bp), n, c)
  {
    assert Onward(base, free, p, At(ptr, p));
    var c := if End(size, p) == bp then p else bp;
    assert At(size, p) >= 0;
    assert Fits(FreedSet(free, ptr, size, p, bp), FreedSize(ptr, size, p, bp), n, c);
  }

  // What malloc returns: the address of a block, nothing, or what comes of a header where there is no memory.
  datatype Got = Block(at: int) | Null | Wild

  class Heap {
    const base: int
    var ptr: Field
    var size: Field
    var freep: int
    ghost var free: set<int>
    ghost var live: Field
    ghost var owned: iset<int>

    ghost predicate Valid()
      reads this
    {
      if freep == 0 then 0 < base && free == {} && live == map[] && owned == iset{}
      else Listed()
    }

    ghost predicate Listed()
      reads this
    {
      freep in free && Sound(base, free, ptr, size, live, owned)
    }

    constructor (base: int)
      requires 0 < base
      ensures Valid() && this.base == base && free == {} && live == map[] && owned == iset{}
    {
      this.base := base;
      ptr, size, freep := map[], map[], 0;
      free, live, owned := {}, map[], iset{};
    }

    // The search for the free block after which bp goes.
    method FindPlace(bp: int) returns (p: int)
      requires Listed() && bp in live
      ensures Before(base, free, ptr, p, bp)
    {
      p := freep;
      assert bp !in free && base < bp;
      while !(bp > p && bp < At(ptr, p))
        invariant p in free
        decreases Ahead(free, p, bp)
      {
        assert Onward(base, free, p, At(ptr, p));
        if p >= At(ptr, p) && (bp > p || bp < At(ptr, p)) {
          break;
        }
        AheadDecreases(base, free, ptr, p, bp);
        p := At(ptr, p);
      }
    }

    // The header updates of free.
    method Relink(p: int, bp: int)
      requires p != bp && At(ptr, p) != bp
      modifies `ptr, `size, `freep
      ensures ptr == FreedPtr(old(ptr), old(size), p, bp) && size == FreedSize(old(ptr), old(size), p, bp) && freep == p
    {
      var next := At(ptr, p);
      if bp + 8 * At(size, bp) == next {
        size := size[bp := At(size, bp) + At(size, next)];
        ptr := ptr[bp := At(ptr, next)];
      } else {
        ptr := ptr[bp := next];
      }
      if p + 8 * At(size, p) == bp {
        size := size[p := At(size, p) + At(size, bp)];
        ptr := ptr[p := At(ptr, bp)];
      } else {
        ptr := ptr[p := bp];
      }
      freep := p;
    }

    // Return a block to the free list, joining it to its neighbours.
    method Free(ap: int)
      requires Valid() && ap - 8 in live
      modifies this
      ensures Listed() && live == old(live) - {ap - 8} && owned == old(owned)
      ensures Before(base, old(free), old(ptr), freep, ap - 8)
      ensures free == FreedSet(old(free), old(ptr), old(size), freep, ap - 8)
      ensures size == FreedSize(old(ptr), old(size), freep, ap - 8)
    {
      var bp := ap - 8;
      var p := FindPlace(bp);
      assert bp !in free;
      assert Onward(base, free, p, At(ptr, p));
      FreedSound(base, free, ptr, size, live, owned, p, bp);
      BeforeKept(base, free, ptr, size, p, bp);
      free, live := FreedSet(free, ptr, size, p, bp), live - {bp};
      Relink(p, bp);
    }

    ghost predicate Room(n: int)
      reads this
    {
      exists c :: Fits(free, size, n, c)
    }

    // The memory of the process ends at brk, above all it got from sbrk.
    ghost predicate Ends(brk: nat)
      reads this
    {
      base + 8 <= brk && forall x | x in owned :: x < brk
    }

    method Sbrk(brk: nat, n: int, grants: bool) returns (a: int)
      modifies `owned
      ensures a == Answer(brk, n, grants) && owned == Obtained(old(owned), brk, n, grants)
    {
      owned := Obtained(owned, brk, n, grants);
      a := Answer(brk, n, grants);
    }

    /** Put what the kernel gives on the free list. With a size that is not positive the header is written where nothing
        was obtained, wild, or the kernel has taken everything. */
    method MoreCore(nu: nat, brk: nat, grants: bool) returns (p: int, wild: bool)
      requires Listed() && nu >= 1 && Ends(brk) && Bytes(CoreUnits(nu)) <= 8 * CoreUnits(nu)
      requires Bytes(CoreUnits(nu)) > 0 ==> Bytes(CoreUnits(nu)) == 8 * CoreUnits(nu)
      modifies this
      ensures var bytes := Bytes(CoreUnits(nu));
              && (wild <==> bytes <= 0 && Answer(brk, bytes, grants) != -1)
              && (p == 0 <==> Answer(brk, bytes, grants) == -1)
              && (bytes > 0 && !grants ==> unchanged(this)) && (p == 0 ==> live == old(live))
              && (bytes > 0 && grants ==> p == freep && Listed() && live == old(live) && Room(nu))
              && (Listed() <==> bytes > 0 || (p == 0 && old(owned) == iset{}))
              && owned == Obtained(old(owned), brk, bytes, grants)
    {
      var n := CoreUnits(nu);
      ghost var owned0, live0 := owned, live;
      if Bytes(n) > 0 && grants {
        GrowSoundIff(base, free, ptr, size, live, owned, brk, n, Bytes(n), grants);
        ApartNew(brk, n);
      } else {
        ShrunkIff(base, free, ptr, size, live, owned);
        GrowSoundIff(base, free, ptr, size, live, owned, brk, n, Bytes(n), grants);
      }
      var hp := Sbrk(brk, Bytes(n), grants);
      if hp == -1 {
        assert Bytes(n) <= 0 ==> owned == iset{};
        return 0, false;
      }
      size := size[hp := n];
      live := live[hp := n];
      if Bytes(n) <= 0 {
        return hp, true;
      }
      assert live - {hp} == live0;
      ghost var ptr1, size1, free1 := ptr, size, free;
      Free(hp + 8);
      FreedFits(base, free1, ptr1, size1, freep, hp, nu);
      return freep, false;
    }

    lemma ApartNew(brk: nat, n: nat)
      requires Listed() && Ends(brk) && n >= 1
      ensures brk !in live && brk !in free
    {
      GrowSound(base, free, ptr, size, live, owned, brk, n, owned + Region(brk, n));
    }

    // The first call makes the list: base alone.
    method Start(ghost n: int)
      requires Valid() && n >= 1
      modifies this
      ensures Listed() && live == old(live) && owned == old(owned)
      ensures Room(n) == old(Room(n))
    {
      if freep == 0 {
        ptr, size := ptr[base := base], size[base := 0];
        freep := base;
        free := {base};
      }
    }

    // Take the whole block p after prevp off the list.
    method TakeWhole(prevp: int, p: int)
      requires Listed() && prevp in free && p == At(ptr, prevp) && p != base
      modifies this
      ensures Listed() && p >= base + 8 && p !in old(live) && live == old(live)[p := old(At(size, p))]
              && owned == old(owned)
    {
      assert Onward(base, free, prevp, p);
      UnlinkSound(base, free, ptr, size, live, owned, prevp);
      ptr := ptr[prevp := At(ptr, p)];
      free, live := free - {p}, live[p := At(size, p)];
      freep := prevp;
    }

    // Take the last n units of the block p, which stays on the list.
    method TakePart(prevp: int, p: int, n: int) returns (q: int)
      requires Listed() && prevp in free && p in free && p != base && 1 <= n < At(size, p)
      modifies this
      ensures Listed() && q >= base + 8 && q !in old(live) && live == old(live)[q := n] && owned == old(owned)
    {
      q := p + 8 * (At(size, p) - n);
      var size' := size[p := At(size, p) - n][q := n];
      SplitSound(base, free, ptr, size, live, owned, p, q, n, size', live[q := n]);
      size := size';
      live := live[q := n];
      freep := prevp;
    }

    // Take n units of the block p after prevp, which has them.
    method Take(prevp: int, p: int, n: int) returns (q: int)
      requires Listed() && prevp in free && p == At(ptr, prevp) && 1 <= n <= At(size, p)
      modifies this
      ensures Listed() && q >= base + 8 && q !in old(live) && live == old(live)[q := n] && owned == old(owned)
    {
      assert Onward(base, free, prevp, p);
      if At(size, p) == n {
        TakeWhole(prevp, p);
        q := p;
      } else {
        q := TakePart(prevp, p, n);
      }
    }

    // The state of malloc's search: blocks p up to freep are still to be looked at.
    ghost predicate Searching(prevp: int, p: int, n: int)
      reads this
    {
      && Listed() && prevp in free && p == At(ptr, prevp)
      && (forall c | Fits(free, size, n, c) :: Arc(p, freep, c))
    }

    method Restart(n: int) returns (p: int)
      requires Listed()
      ensures p == At(ptr, freep) && Searching(freep, p, n)
    {
      p := At(ptr, freep);
      forall c | Fits(free, size, n, c) ensures Arc(p, freep, c) {
        ArcAll(base, free, ptr, freep, c);
      }
    }

    // One step of the search.
    method Advance(p: int, n: int) returns (next: int)
      requires exists prevp :: Searching(prevp, p, n)
      requires p != freep && At(size, p) < n
      ensures p in free && Searching(p, next, n) && |Arcs(free, next, freep)| < |Arcs(free, p, freep)|
    {
      next := At(ptr, p);
      ghost var prevp :| Searching(prevp, p, n);
      assert Onward(base, free, prevp, p);
      forall c | Fits(free, size, n, c) ensures Arc(next, freep, c) {
        ArcStep(base, free, ptr, p, freep, c);
      }
      ArcShrinks(base, free, ptr, p, freep);
    }

    // The whole circle has been looked at.
    lemma NothingFits(prevp: int, n: int)
      requires Searching(prevp, freep, n) && At(size, freep) < n
      ensures !Room(n)
    {
    }

    // The loop of malloc; the kernel is asked at most once.
    method Search(n: nat, brk: nat, grants: bool) returns (q: Got)
      requires Listed() && n >= 1 && Ends(brk) && Bytes(CoreUnits(n)) <= 8 * CoreUnits(n)
      requires Bytes(CoreUnits(n)) > 0 ==> Bytes(CoreUnits(n)) == 8 * CoreUnits(n)
      modifies this
      ensures var bytes := Bytes(CoreUnits(n));
              && (Listed() <==> old(Room(n)) || bytes > 0 || (q.Null? && old(owned) == iset{}))
              && (q.Null? <==> !old(Room(n)) && Answer(brk, bytes, grants) == -1)
              && (q.Wild? <==> !old(Room(n)) && Answer(brk, bytes, grants) != -1 && bytes <= 0)
              && (q.Null? ==> live == old(live))
              && (q.Block? ==> q.at > 0 && q.at !in old(live) && live == old(live)[q.at := n])
              && owned == if old(Room(n)) then old(owned) else Obtained(old(owned), brk, bytes, grants)
    {
      var prevp := freep;
      var p := Restart(n);
      ghost var room, live0, owned0 := Room(n), live, owned;
      ghost var more := Obtained(owned, brk, Bytes(CoreUnits(n)), grants);
      ghost var grown := false;
      while true
        invariant Searching(prevp, p, n) && live == live0
        invariant if grown then Bytes(CoreUnits(n)) > 0 && grants && !room && Room(n) && owned == more
                  else owned == owned0 && room == Room(n)
        decreases !grown, |Arcs(free, p, freep)|
      {
        assert Onward(base, free, prevp, p);
        if At(size, p) >= n {
          assert Fits(free, size, n, p);
          var b := Take(prevp, p, n);
          return Block(b);
        }
        if p == freep {
          NothingFits(prevp, n);
          var wild;
          p, wild := MoreCore(n, brk, grants);
          if p == 0 {
            return Null;
          }
          if wild {
            return Wild;
          }
          grown := true;
          prevp := p;
          p := Restart(n);
        } else {
          prevp := p;
          p := Advance(p, n);
        }
      }
    }

    /** Allocate room for nbytes. The memory of the process ends at brk, and the kernel grants more or does not. A call
        that finds nothing that fits asks the kernel once. With a size that sbrk takes as it is meant, the heap stays
        sound, and the call fails exactly if the kernel does not grant it. With any other size the kernel gives
        nothing and may take memory away, and the heap is not sound any more. */
    method Malloc(nbytes: nat, brk: nat, grants: bool) returns (r: Got)
      requires Valid() && nbytes < UINT_LIMIT && Ends(brk)
      modifies this
      ensures var n, bytes := Units(nbytes), Bytes(CoreUnits(Units(nbytes)));
              && (Listed() <==> old(Room(n)) || nbytes <= 0x7FFF_FFF0 || nbytes > UINT_LIMIT - 8
                                || (r.Null? && old(owned) == iset{}))
              && (r.Null? <==> !old(Room(n)) && if bytes > 0 then !grants else bytes < 0 && brk + bytes == 0)
              && (r.Wild? <==> !old(Room(n)) && bytes <= 0 && !(bytes < 0 && brk + bytes == 0))
              && (r.Null? ==> live == old(live))
              && (r.Block? ==> r.at - 8 !in old(live) && live == old(live)[r.at - 8 := n])
              && owned == if old(Room(n)) then old(owned) else Obtained(old(owned), brk, bytes, grants)
    {
      var n := Units(nbytes);
      CoreRequestWhole(nbytes);
      hide Units, Bytes, CoreUnits;
      Start(n);
      var q := Search(n, brk, grants);
      return if q.Block? then Block(q.at + 8) else q;
    }
  }

  /** A request of 2^31 bytes to a new heap: the header is written where there is nothing. */
  method WildMalloc() returns (r: Got)
    ensures r.Wild?
  {
    var h := new Heap(8);
    assert !h.Room(Units(0x8000_0000));
    r := h.Malloc(0x8000_0000, 4096, true);
  }
}
