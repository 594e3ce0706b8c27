/** The console's input ring, with three counters that wrap at 2^32, and the line editor it stands for:
lines that have been committed and are waiting to be read, and one that is still being edited. */
module ConsoleInput {

  import opened Common

  const INPUT_BUF := 128

  const NEWLINE: Byte := 10
  const CONTROL_D: Byte := 4

  // A counter that has counted x.
  function Wrapped(x: nat): Word32 {
    x % 0x1_0000_0000
  }

  lemma WrappedStep(x: nat)
    ensures (Wrapped(x) + 1) % 0x1_0000_0000 == Wrapped(x + 1)
    ensures x > 0 ==> (Wrapped(x) - 1) % 0x1_0000_0000 == Wrapped(x - 1)
  {
  }

  lemma WrappedDistance(x: nat, y: nat)
    requires x <= y <= x + 128
    ensures (Wrapped(y) - Wrapped(x)) % 0x1_0000_0000 == y - x
    ensures Wrapped(x) == Wrapped(y) <==> x == y
    ensures Wrapped(y) == (Wrapped(x) + 128) % 0x1_0000_0000 <==> y == x + 128
  {
    var q := x / 0x1_0000_0000;
    assert Wrapped(x) == x - q * 0x1_0000_0000;
    assert y - q * 0x1_0000_0000 == Wrapped(x) + (y - x);
    assert Wrapped(y) == (Wrapped(x) + (y - x)) % 0x1_0000_0000;
  }

  // Because 128 divides 2^32 a wrapped counter still names the right cell.
  lemma WrappedCell(x: nat)
    ensures Wrapped(x) % 128 == x % 128
  {
  }

  /** What a read of n bytes takes from the committed input s: the bytes it returns, and how many it uses up. The bytes
      are the first of the input, none of them a ^D, and a newline only the last. It stops for want of room or input,
      behind a newline or at a ^D. It uses up what it returns, and a ^D at the front if nothing was read before. */
  ghost predicate Line(s: seq<Byte>, n: nat, started: bool, dst: seq<Byte>, used: nat) {
    && |dst| <= n && dst <= s && CONTROL_D !in dst && (forall k | 0 <= k < |dst| - 1 :: dst[k] != NEWLINE)
    && (|dst| == n || dst == s || s[|dst|] == CONTROL_D || (dst != [] && dst[|dst| - 1] == NEWLINE))
    && used == |dst| + if dst == [] && !started && n > 0 && s != [] && s[0] == CONTROL_D then 1 else 0
  }

  /** There is only one such answer. */
  lemma LineUnique(s: seq<Byte>, n: nat, started: bool, dst: seq<Byte>, used: nat, dst': seq<Byte>, used': nat)
    requires Line(s, n, started, dst, used) && Line(s, n, started, dst', used')
    ensures dst == dst' && used == used'
  {
    if |dst| < |dst'| {
      assert false;
    } else if |dst'| < |dst| {
      assert false;
    }
  }

  /** A read that runs out of input sleeps, and goes on when more has been committed: its turns together answer as one
      read of all the input would. */
  lemma TurnsJoin(s: seq<Byte>, more: seq<Byte>, n: nat, started: bool, dst: seq<Byte>, used: nat, dst': seq<Byte>,
                  used': nat)
    requires Line(s, n, started, dst, used) && dst == s && |s| < n && (s != [] ==> s[|s| - 1] != NEWLINE)
    requires Line(more, n - |s|, started || s != [], dst', used')
    ensures Line(s + more, n, started, dst + dst', used + used')
  {
    var all, got := s + more, dst + dst';
    forall k | 0 <= k < |got| - 1 ensures got[k] != NEWLINE {
      assert got[k] == if k < |s| then s[k] else dst'[k - |s|];
    }
    assert got <= all && CONTROL_D !in got;
    if got != all && |got| < n {
      assert all[|got|] == more[|dst'|];
    }
  }

  class Input {
    var buf: seq<Byte>
    var r: Word32
    var w: Word32
    var e: Word32
    // Everything typed and not erased; how much of it has been read, and how much committed.
    ghost var text: seq<Byte>
    ghost var consumed: nat
    ghost var committed: nat

    /** r <= w <= e <= r + 128 as counts, the ring holds what is between, and the line being edited has no
        end in it. */
    ghost predicate Valid()
      reads this
    {
      && |buf| == 128 && consumed <= committed <= |text| <= consumed + 128
      && r == Wrapped(consumed) && w == Wrapped(committed) && e == Wrapped(|text|)
      && (forall x | consumed <= x < |text| :: buf[x % 128] == text[x])
      && (forall x | committed <= x < |text| :: text[x] != NEWLINE && text[x] != CONTROL_D)
    }

    constructor ()
      ensures Valid() && text == [] && consumed == 0 && committed == 0
    {
      buf := seq(128, _ => 0);
      r, w, e := 0, 0, 0;
      text, consumed, committed := [], 0, 0;
    }

    // Take the last character of the line being edited back.
    method Retract()
      requires Valid() && committed < |text|
      modifies this
      ensures Valid() && text == old(text)[..|old(text)| - 1] && consumed == old(consumed)
              && committed == old(committed)
    {
      WrappedStep(|text|);
      e := (e - 1) % 0x1_0000_0000;
      text := text[..|text| - 1];
    }

    /** Backspace erases one character of the line being edited, and never a committed one. */
    method Backspace()
      requires Valid()
      modifies this
      ensures Valid() && consumed == old(consumed) && committed == old(committed)
      ensures text == if committed < |old(text)| then old(text)[..|old(text)| - 1] else old(text)
    {
      WrappedDistance(committed, |text|);
      if e != w {
        Retract();
      }
    }

    /** Kill-line erases the whole line being edited and nothing else. */
    method KillLine()
      requires Valid()
      modifies this
      ensures Valid() && consumed == old(consumed) && committed == old(committed) && text == old(text)[..committed]
    {
      WrappedDistance(committed, |text|);
      while e != w && buf[(e - 1) % 0x1_0000_0000 % INPUT_BUF] != NEWLINE
        invariant Valid() && consumed == old(consumed) && committed == old(committed)
        invariant |text| <= |old(text)| && text == old(text)[..|text|]
        invariant e != w <==> committed < |text|
        decreases |text|
      {
        Retract();
        WrappedDistance(committed, |text|);
      }
      if committed < |text| {
        WrappedStep(|text|);
        WrappedCell(|text| - 1);
      }
    }

    /** A character is added to the line being edited unless the ring is full; a line is committed by a
        newline, by ^D, or by filling the ring. */
    method Type(c0: Byte)
      requires Valid()
      modifies this
      ensures Valid() && consumed == old(consumed)
      ensures var c := if c0 == 13 then NEWLINE else c0;
              if c0 != 0 && |old(text)| < consumed + 128
              then text == old(text) + [c] && committed == (if c == NEWLINE || c == CONTROL_D
                                                            || |text| == consumed + 128 then |text| else old(committed))
              else text == old(text) && committed == old(committed)
    {
      WrappedDistance(consumed, |text|);
      if c0 != 0 && (e - r) % 0x1_0000_0000 < INPUT_BUF {
        var c: Byte := if c0 == 13 then NEWLINE else c0;
        WrappedCell(|text|);
        WrappedStep(|text|);
        Apart(consumed, |text|);
        buf := buf[e % INPUT_BUF := c];
        e := (e + 1) % 0x1_0000_0000;
        text := text + [c];
        WrappedDistance(consumed, |text|);
        if c == NEWLINE || c == CONTROL_D || e == (r + INPUT_BUF) % 0x1_0000_0000 {
          w := e;
          committed := |text|;
        }
      }
    }

    method Next() returns (c: Byte)
      requires Valid() && consumed < committed
      modifies `r, `consumed
      ensures Valid() && consumed == old(consumed) + 1 && c == text[old(consumed)]
      ensures |text| < consumed + 128 && buf[old(consumed) % 128] == c
      ensures text[old(consumed)..committed][0] == c && text[old(consumed)..committed][1..] == text[consumed..committed]
    {
      WrappedCell(consumed);
      WrappedStep(consumed);
      c := buf[r % INPUT_BUF];
      r := (r + 1) % 0x1_0000_0000;
      consumed := consumed + 1;
    }

    // Save the ^D just read for the next call.
    method PutBack()
      requires Valid() && 0 < consumed && |text| < consumed + 128 && buf[(consumed - 1) % 128] == text[consumed - 1]
      modifies `r, `consumed
      ensures Valid() && consumed == old(consumed) - 1
    {
      WrappedStep(consumed);
      r := (r - 1) % 0x1_0000_0000;
      consumed := consumed - 1;
    }

    // A turn of a reader, up to its return or to the point where it sleeps for more input.
    method Read(n: nat, started: bool) returns (dst: seq<Byte>)
      requires Valid()
      modifies this
      ensures Valid() && text == old(text) && committed == old(committed) && consumed >= old(consumed)
      ensures Line(text[old(consumed)..committed], n, started, dst, consumed - old(consumed))
    {
      hide Wrapped;
      dst := [];
      ghost var c0, s := consumed, text[consumed..committed];
      while |dst| < n
        invariant Valid() && text == old(text) && committed == old(committed) && consumed == c0 + |dst|
        invariant |dst| <= n && dst == s[..|dst|] && CONTROL_D !in dst && NEWLINE !in dst
        decreases n - |dst|
      {
        WrappedDistance(consumed, committed);
        if r == w {
          return;
        }
        var c := Next();
        assert c == s[|dst|];
        if c == CONTROL_D {
          if started || dst != [] {
            PutBack();
          }
          return;
        }
        dst := dst + [c];
        if c == NEWLINE {
          return;
        }
      }
    }
  }

  // The cell after the last one in use is not in use.
  lemma Apart(lo: nat, n: nat)
    requires n < lo + 128
    ensures forall x | lo <= x < n :: x % 128 != n % 128
  {
  }
}
