/** The ring buffer of a pipe: 512 bytes between two counters that wrap at 2^32. */
module PipeRing {

  import opened Common

  const PIPESIZE := 512

  function Inc(w: Word32): Word32 {
    (w + 1) % 0x1_0000_0000
  }

  // The counters of a stream that has taken in a bytes and given out d of them.
  lemma CountersMeet(a: nat, d: nat)
    requires d <= a <= d + 512
    ensures (a % 0x1_0000_0000 == d % 0x1_0000_0000) <==> a == d
    ensures (a % 0x1_0000_0000 == (d % 0x1_0000_0000 + 512) % 0x1_0000_0000) <==> a == d + 512
  {
  }

  // Because 512 divides 2^32 a wrapped counter still names the right cell.
  lemma CellOf(a: nat)
    ensures a % 0x1_0000_0000 % 512 == a % 512
  {
  }

  lemma IncCounter(a: nat)
    ensures Inc(a % 0x1_0000_0000) == (a + 1) % 0x1_0000_0000
  {
  }

  // Positions less than 512 apart have different cells.
  lemma DistinctCells(x: nat, y: nat)
    requires x < y < x + 512
    ensures x % 512 != y % 512
  {
  }

  class Ring {
    const data: array<Byte>
    var nread: Word32
    var nwrite: Word32
    ghost var accepted: seq<Byte>
    ghost var delivered: nat

    /** The bytes given out are the first `delivered` of those taken in, and the ring holds the rest,
        at most 512. */
    ghost predicate Valid()
      reads this, data
    {
      && data.Length == 512
      && delivered <= |accepted| <= delivered + 512
      && nwrite == |accepted| % 0x1_0000_0000 && nread == delivered % 0x1_0000_0000
      && (forall x | delivered <= x < |accepted| :: data[x % 512] == accepted[x])
    }

    ghost function Queue(): seq<Byte>
      requires delivered <= |accepted|
      reads this
    {
      accepted[delivered..]
    }

    constructor ()
      ensures Valid() && fresh(data) && accepted == [] && delivered == 0
    {
      data := new Byte[512];
      nread, nwrite, accepted, delivered := 0, 0, [], 0;
    }

    method Full() returns (b: bool)
      requires Valid()
      ensures b <==> |Queue()| == 512
    {
      CountersMeet(|accepted|, delivered);
      b := nwrite == (nread + PIPESIZE) % 0x1_0000_0000;
    }

    method Empty() returns (b: bool)
      requires Valid()
      ensures b <==> Queue() == []
    {
      CountersMeet(|accepted|, delivered);
      b := nread == nwrite;
    }

    method Put(c: Byte)
      requires Valid() && |Queue()| < 512
      modifies this, data
      ensures Valid() && accepted == old(accepted) + [c] && delivered == old(delivered)
    {
      CellOf(|accepted|);
      IncCounter(|accepted|);
      forall x | delivered <= x < |accepted| ensures x % 512 != |accepted| % 512 {
        DistinctCells(x, |accepted|);
      }
      data[nwrite % PIPESIZE] := c;
      nwrite := Inc(nwrite);
      accepted := accepted + [c];
    }

    method Get() returns (c: Byte)
      requires Valid() && Queue() != []
      modifies this
      ensures Valid() && c == old(accepted)[old(delivered)] && accepted == old(accepted)
              && delivered == old(delivered) + 1
    {
      CellOf(delivered);
      IncCounter(delivered);
      c := data[nread % PIPESIZE];
      nread := Inc(nread);
      delivered := delivered + 1;
    }

    // A writer's turn with the lock: it stores from src[i] on until it is done or the ring is full.
    method Fill(src: seq<Byte>, i: nat) returns (i': nat)
      requires Valid() && i <= |src|
      modifies this, data
      ensures Valid() && i <= i' <= |src| && delivered == old(delivered)
      ensures accepted == old(accepted) + src[i..i']
      ensures i' - i == if |src| - i <= 512 - |old(Queue())| then |src| - i else 512 - |old(Queue())|
    {
      i' := i;
      while i' < |src|
        invariant Valid() && i <= i' <= |src| && delivered == old(delivered)
        invariant accepted == old(accepted) + src[i..i']
      {
        var full := Full();
        if full {
          return;
        }
        Put(src[i']);
        assert src[i..i' + 1] == src[i..i'] + [src[i']];
        i' := i' + 1;
      }
    }

    // A reader's turn with the lock: up to n of the bytes there are, oldest first.
    method Drain(n: nat) returns (dst: seq<Byte>)
      requires Valid()
      modifies this
      ensures Valid() && accepted == old(accepted) && delivered == old(delivered) + |dst|
      ensures |dst| == if n <= |old(Queue())| then n else |old(Queue())|
      ensures dst == accepted[old(delivered)..delivered]
    {
      dst := [];
      var i := 0;
      while i < n
        invariant Valid() && accepted == old(accepted) && i == |dst| <= n && delivered == old(delivered) + i
        invariant dst == accepted[old(delivered)..delivered]
      {
        var empty := Empty();
        if empty {
          return;
        }
        var c := Get();
        dst := dst + [c];
        i := i + 1;
      }
    }
  }
}
