/** Copying into another address space through its page directory, one page at a time. */
module UserCopy {

  import opened Common
  import opened PageTables

  // Present, and open to user code.
  predicate User(e: Pte) {
    e.Present? && e.perm / 4 % 2 == 1
  }

  // Page `page` from byte o on replaced by `part`.
  function Patched(page: seq<Byte>, o: nat, part: seq<Byte>): seq<Byte>
    requires o + |part| <= |page|
  {
    page[..o] + part + page[o + |part|..]
  }

  // Page v has some of the bytes from va to end.
  predicate Meets(va: nat, end: nat, v: nat) {
    va < end && 4096 * v < end && va < 4096 * v + 4096
  }

  lemma Nowhere(va: nat)
    ensures forall v: nat :: !Meets(va, va, v)
  {
  }

  // One page more.
  lemma MeetsNext(va: nat, a: nat, n: nat, end: nat, p: nat)
    requires va <= a < end && 4096 * p <= a && a + n <= 4096 * p + 4096 && a < 4096 * p + 4096
    requires a == va || a == 4096 * p
    ensures Meets(va, end, p)
    ensures n > 0 ==> forall v: nat :: Meets(va, a + n, v) <==> Meets(va, a, v) || v == p
  {
  }

  // copyout: all is copied; a page in the way is not open to user code; or it has no page table, and the kernel
  // follows a null pointer.
  datatype Copying = Copied | Refused | NoTable

  class Frames {
    var data: map<int, seq<Byte>>

    // Every user page of the directory has a frame of its own.
    ghost predicate Backs(dir: PageDirectory)
      reads this, dir
    {
      && dir.Valid()
      && (forall v: nat | User(dir.At(v)) :: dir.At(v).pa in data && |data[dir.At(v).pa]| == 4096)
      && (forall v: nat, w: nat | User(dir.At(v)) && User(dir.At(w)) && v != w :: dir.At(v).pa != dir.At(w).pa)
    }

    // The byte user code sees at byte o of its page v.
    ghost function Seen(dir: PageDirectory, v: nat, o: nat): Byte
      requires Backs(dir) && User(dir.At(v)) && o < 4096
      reads this, dir
    {
      data[dir.At(v).pa][o]
    }

    // There is a page table for address a.
    static predicate TableFor(dir: PageDirectory, a: nat)
      reads dir
    {
      |dir.pde| == 1024 && a < 0x1_0000_0000 && dir.pde[a / 4096 / 1024] != -1
    }

    // uva2ka: the frame of a page, or -1. Whether the page has a table is not looked at.
    method FrameOf(dir: PageDirectory, v: nat) returns (pa: int, ok: bool)
      requires Backs(dir) && v < 0x10_0000 && dir.pde[v / 1024] != -1
      ensures ok <==> User(dir.At(v))
      ensures ok ==> pa == dir.At(v).pa
    {
      var e := dir.FindUser(v);
      if User(e) {
        return e.pa, true;
      }
      return -1, false;
    }

    // The memmove of one round.
    method Put(dir: PageDirectory, v: nat, o: nat, part: seq<Byte>, pa: int)
      requires Backs(dir) && User(dir.At(v)) && pa == dir.At(v).pa && o + |part| <= 4096
      modifies this
      ensures Backs(dir)
      ensures forall w: nat, q: nat | User(dir.At(w)) && q < 4096 ::
                Seen(dir, w, q) == if w == v && o <= q < o + |part| then part[q - o] else old(Seen(dir, w, q))
    {
      data := data[pa := Patched(data[pa], o, part)];
    }

    // One round: what goes into the page of address a, or nothing, with n == 0, if that page is not open.
    method Round(dir: PageDirectory, a: nat, rest: seq<Byte>) returns (n: nat)
      requires Backs(dir) && rest != [] && TableFor(dir, a)
      modifies this
      ensures Backs(dir) && n <= |rest| && (n == 0 <==> !User(dir.At(a / 4096)))
      ensures n > 0 ==> a + n <= 4096 * (a / 4096) + 4096 && (n == |rest| || a + n == 4096 * (a / 4096) + 4096)
      ensures n > 0 && n < |rest| ==> (a + n) % 4096 == 0
      ensures forall v: nat, o: nat | User(dir.At(v)) && o < 4096 ::
                Seen(dir, v, o) == if a <= 4096 * v + o < a + n then rest[4096 * v + o - a] else old(Seen(dir, v, o))
    {
      var v, o := a / 4096, a % 4096;
      var pa, here := FrameOf(dir, v);
      if !here {
        return 0;
      }
      n := if 4096 - o > |rest| then |rest| else 4096 - o;
      Put(dir, v, o, rest[..n], pa);
    }

    /** copyout: user code then sees the bytes of src from address va on, and everywhere else what it saw
        before. It stops exactly when a page in the way is not open to user code, having copied what goes
        into the pages before; the call is refused if that page has a table, and follows a null pointer if not. */
    method CopyOut(dir: PageDirectory, va: nat, src: seq<Byte>) returns (r: Copying, ghost done: nat)
      requires Backs(dir) && va + |src| <= 0x1_0000_0000
      modifies this
      ensures Backs(dir) && done <= |src| && (r.Copied? <==> done == |src|)
      ensures r.Copied? <==> forall v: nat | Meets(va, va + |src|, v) :: User(dir.At(v))
      ensures !r.Copied? ==> !User(dir.At((va + done) / 4096)) && (r.NoTable? <==> !TableFor(dir, va + done))
                             && forall v: nat | Meets(va, va + done, v) :: User(dir.At(v))
      ensures forall v: nat, o: nat | User(dir.At(v)) && o < 4096 ::
                Seen(dir, v, o) == if va <= 4096 * v + o < va + done then src[4096 * v + o - va]
                    else old(Seen(dir, v, o))
    {
      assert forall v: nat :: !Meets(va, va, v) by {
        Nowhere(va);
      }
      done := 0;
      var a, rest := va, src;
      while rest != []
        invariant Backs(dir) && a + |rest| == va + |src| && va <= a && rest == src[a - va..]
        invariant done == a - va && (a == va || rest == [] || a % 4096 == 0)
        invariant forall v: nat | Meets(va, a, v) :: User(dir.At(v))
        invariant forall v: nat, o: nat | User(dir.At(v)) && o < 4096 ::
                    Seen(dir, v, o) == if va <= 4096 * v + o < a then src[4096 * v + o - va] else old(Seen(dir, v, o))
        decreases |rest|
      {
        hide TableFor, Seen, Backs, Meets;
        if !TableFor(dir, a) {
          NoneThere(dir, a);
          MeetsNext(va, a, 0, va + |src|, a / 4096);
          return NoTable, done;
        }
        var n := Round(dir, a, rest);
        MeetsNext(va, a, n, va + |src|, a / 4096);
        if n == 0 {
          return Refused, done;
        }
        a, rest, done := a + n, rest[n..], done + n;
      }
      r := Copied;
    }

    // A page without a table is not open.
    lemma NoneThere(dir: PageDirectory, a: nat)
      requires Backs(dir) && a < 0x1_0000_0000 && !TableFor(dir, a)
      ensures !User(dir.At(a / 4096))
    {
    }
  }
}
