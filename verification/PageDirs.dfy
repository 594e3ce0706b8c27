/** The table of page directory reference counts. */
module PageDirs {

  import opened Common

  datatype Ref = Ref(addr: int, count: nat)

  // The count recorded for a directory; the table has at most one live entry for it.
  function CountOf(refs: seq<Ref>, d: int): nat {
    if refs == [] then 0 else if refs[0].count > 0 && refs[0].addr == d then refs[0].count else CountOf(refs[1..], d)
  }

  ghost predicate Unique(refs: seq<Ref>) {
    forall i, j | 0 <= i < j < |refs| && refs[i].count > 0 && refs[j].count > 0 :: refs[i].addr != refs[j].addr
  }

  lemma {:induction false} CountAt(refs: seq<Ref>, i: nat)
    requires i < |refs| && refs[i].count > 0 && Unique(refs)
    ensures CountOf(refs, refs[i].addr) == refs[i].count
  {
    if i > 0 {
      CountAt(refs[1..], i - 1);
      assert refs[1..][i - 1] == refs[i];
    }
  }

  lemma {:induction false} CountNone(refs: seq<Ref>, d: int)
    requires forall i | 0 <= i < |refs| :: refs[i].count == 0 || refs[i].addr != d
    ensures CountOf(refs, d) == 0
  {
    if refs != [] {
      CountNone(refs[1..], d);
    }
  }

  lemma {:induction false} CountSome(refs: seq<Ref>, d: int) returns (i: nat)
    requires CountOf(refs, d) > 0
    ensures i < |refs| && refs[i].count == CountOf(refs, d) && refs[i].addr == d
  {
    if refs[0].count > 0 && refs[0].addr == d {
      return 0;
    }
    i := CountSome(refs[1..], d);
    i := i + 1;
  }

  // Entry i becomes (d, c), d having no other live entry: only d's count changes, and that of the
  // directory the entry was for before.
  lemma CountUpdated(refs: seq<Ref>, i: nat, c: nat, d: int, e: int)
    requires i < |refs| && Unique(refs) && (refs[i].count == 0 || refs[i].addr == d)
    requires forall j | 0 <= j < |refs| && j != i :: refs[j].count == 0 || refs[j].addr != d
    ensures Unique(refs[i := Ref(d, c)])
    ensures CountOf(refs[i := Ref(d, c)], e) == if e == d then c else CountOf(refs, e)
  {
    var refs' := refs[i := Ref(d, c)];
    if e == d {
      if c > 0 {
        CountAt(refs', i);
      } else {
        CountNone(refs', d);
      }
    } else if CountOf(refs, e) > 0 {
      var j := CountSome(refs, e);
      CountAt(refs', j);
    } else if CountOf(refs', e) > 0 {
      var j := CountSome(refs', e);
      CountAt(refs, j);
    }
  }

  class RefTable {
    var refs: seq<Ref>

    ghost predicate Valid()
      reads this
    {
      |refs| == NPROC && Unique(refs)
    }

    ghost predicate Full()
      reads this
    {
      forall i | 0 <= i < |refs| :: refs[i].count > 0
    }

    constructor ()
      ensures Valid() && forall d :: CountOf(refs, d) == 0
    {
      refs := seq(NPROC, _ => Ref(0, 0));
      new;
      forall d ensures CountOf(refs, d) == 0 {
        CountNone(refs, d);
      }
    }

    method GetIndex(d: int) returns (i: int)
      requires Valid()
      ensures i == -1 <==> CountOf(refs, d) == 0
      ensures i != -1 ==> 0 <= i < NPROC && refs[i].addr == d && refs[i].count == CountOf(refs, d) > 0
    {
      i := 0;
      while i < NPROC
        invariant 0 <= i <= NPROC
        invariant forall j | 0 <= j < i :: refs[j].count == 0 || refs[j].addr != d
      {
        if refs[i].count > 0 && refs[i].addr == d {
          CountAt(refs, i);
          return;
        }
        i := i + 1;
      }
      CountNone(refs, d);
      i := -1;
    }

    /** One more user of d. A directory not in the table needs a free entry; without one it is not
        recorded. */
    method AddRef(d: int)
      requires Valid()
      modifies this
      ensures Valid()
      ensures CountOf(old(refs), d) == 0 && old(Full()) ==> refs == old(refs)
      ensures CountOf(old(refs), d) > 0 || !old(Full()) ==> forall e ::
              CountOf(refs, e) == CountOf(old(refs), e) + if e == d then 1 else 0
    {
      var i := GetIndex(d);
      if i < 0 {
        i := 0;
        while i < NPROC
          invariant 0 <= i <= NPROC && unchanged(this)
          invariant forall j | 0 <= j < i :: refs[j].count > 0
        {
          if refs[i].count == 0 {
            Absent(refs, d);
            forall e ensures CountOf(refs[i := Ref(d, 1)], e) == CountOf(refs, e) + if e == d then 1 else 0 {
              CountUpdated(refs, i, 1, d, e);
            }
            CountUpdated(refs, i, 1, d, d);
            refs := refs[i := Ref(d, 1)];
            break;
          }
          i := i + 1;
        }
      } else {
        forall e ensures CountOf(refs[i := Ref(d, refs[i].count + 1)], e) == CountOf(refs, e) + if e == d then 1
            else 0 {
          CountUpdated(refs, i, refs[i].count + 1, d, e);
        }
        CountUpdated(refs, i, refs[i].count + 1, d, d);
        refs := refs[i := Ref(d, refs[i].count + 1)];
      }
    }

    // One user of d less; -1 when d has none.
    method DeleteRef(d: int) returns (r: int)
      requires Valid()
      modifies this
      ensures Valid()
      ensures r == CountOf(old(refs), d) - 1
      ensures CountOf(old(refs), d) == 0 ==> refs == old(refs)
      ensures CountOf(old(refs), d) > 0 ==> forall e ::
              CountOf(refs, e) == CountOf(old(refs), e) - if e == d then 1 else 0
    {
      var i := GetIndex(d);
      if i >= 0 {
        forall e ensures CountOf(refs[i := Ref(d, refs[i].count - 1)], e) == CountOf(refs, e) - if e == d then 1
            else 0 {
          CountUpdated(refs, i, refs[i].count - 1, d, e);
        }
        CountUpdated(refs, i, refs[i].count - 1, d, d);
        refs := refs[i := refs[i].(count := refs[i].count - 1)];
        return refs[i].count;
      }
      return -1;
    }
  }

  lemma Absent(refs: seq<Ref>, d: int)
    requires CountOf(refs, d) == 0 && Unique(refs)
    ensures forall j | 0 <= j < |refs| :: refs[j].count == 0 || refs[j].addr != d
  {
  }
}
