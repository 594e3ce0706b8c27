/** The two linked lists of the block layer: the circular doubly linked list of cached buffers, most
recently used first, and the singly linked queue of disk requests. Links are cells of arrays indexed
by buffer number. */
module BufferLists {

  const NBUF := 10
  const HEAD := NBUF
  const NIL := -1

  datatype Buf = Buf(dev: int, sector: int, busy: bool, valid: bool, dirty: bool, data: seq<int>)

  ghost predicate Distinct(s: seq<int>) {
    && (forall k | 0 <= k < |s| :: 0 <= s[k] < NBUF)
    && (forall j, k | 0 <= j < k < |s| :: s[j] != s[k])
  }

  // The nodes of the circle in order: the head, the buffers, the head again.
  ghost function Node(order: seq<int>, k: int): int {
    if 0 <= k < |order| then order[k] else HEAD
  }

  // The list binit leaves: every buffer once.
  function AllBuffers(): (order: seq<int>)
    ensures Distinct(order) && (forall b | 0 <= b < NBUF :: b in order)
  {
    var order := seq(NBUF, k => NBUF - 1 - k);
    assert forall b {:trigger b in order} | 0 <= b < NBUF :: b == order[NBUF - 1 - b];
    order
  }

  function Without(s: seq<int>, b: int): seq<int> {
    if s == [] then [] else if s[0] == b then s[1..] else [s[0]] + Without(s[1..], b)
  }

  // The first buffer of the order that holds the sector, or NIL.
  function FirstHolding(order: seq<int>, bufs: seq<Buf>, dev: int, sector: int): int {
    if order == [] then NIL
    else if 0 <= order[0] < |bufs| && bufs[order[0]].dev == dev && bufs[order[0]].sector == sector then order[0]
    else FirstHolding(order[1..], bufs, dev, sector)
  }

  // The last buffer of the order that nobody uses, or NIL.
  function LastFree(order: seq<int>, bufs: seq<Buf>): int {
    if order == [] then NIL
    else
      var b := order[|order| - 1];
      if 0 <= b < |bufs| && !bufs[b].busy then b else LastFree(order[..|order| - 1], bufs)
  }

  predicate Holds(bufs: seq<Buf>, b: int, dev: int, sector: int) {
    0 <= b < |bufs| && bufs[b].dev == dev && bufs[b].sector == sector
  }

  predicate Unused(bufs: seq<Buf>, b: int) {
    0 <= b < |bufs| && !bufs[b].busy
  }

  // Entry k of the list, and none in front of it, holds the sector.
  ghost predicate FirstAt(order: seq<int>, bufs: seq<Buf>, dev: int, sector: int, k: int) {
    && 0 <= k < |order| && Holds(bufs, order[k], dev, sector)
    && forall j | 0 <= j < k :: !Holds(bufs, order[j], dev, sector)
  }

  // Entry k of the list, and none behind it, is a buffer nobody uses.
  ghost predicate LastAt(order: seq<int>, bufs: seq<Buf>, k: int) {
    0 <= k < |order| && Unused(bufs, order[k]) && forall j | k < j < |order| :: !Unused(bufs, order[j])
  }

  lemma {:induction false} FirstHoldingIs(order: seq<int>, bufs: seq<Buf>, dev: int, sector: int)
    ensures var b := FirstHolding(order, bufs, dev, sector);
            if b == NIL then forall x | x in order && 0 <= x < |bufs| :: bufs[x].dev != dev || bufs[x].sector != sector
            else b in order && Holds(bufs, b, dev, sector)
                 && exists k :: FirstAt(order, bufs, dev, sector, k) && order[k] == b
  {
    if order != [] {
      FirstHoldingIs(order[1..], bufs, dev, sector);
      var b := FirstHolding(order, bufs, dev, sector);
      if Holds(bufs, order[0], dev, sector) {
        assert FirstAt(order, bufs, dev, sector, 0);
      } else if b != NIL {
        var k :| FirstAt(order[1..], bufs, dev, sector, k) && order[1..][k] == b;
        assert FirstAt(order, bufs, dev, sector, k + 1);
      }
    }
  }

  lemma {:induction false} LastFreeIs(order: seq<int>, bufs: seq<Buf>)
    ensures var b := LastFree(order, bufs);
            if b == NIL then forall x | x in order && 0 <= x < |bufs| :: bufs[x].busy
            else b in order && Unused(bufs, b) && exists k :: LastAt(order, bufs, k) && order[k] == b
  {
    if order != [] {
      var n := |order| - 1;
      LastFreeIs(order[..n], bufs);
      var b := LastFree(order, bufs);
      if Unused(bufs, order[n]) {
        assert LastAt(order, bufs, n);
      } else if b != NIL {
        var k :| LastAt(order[..n], bufs, k) && order[..n][k] == b;
        assert LastAt(order, bufs, k);
      }
    }
  }

  lemma HeadBack(s: seq<int>, p: nat)
    requires 0 < p < |s|
    ensures [s[0]] + (s[1..][..p - 1] + s[1..][p..]) == s[..p] + s[p + 1..]
  {
  }

  lemma {:induction false} WithoutAt(s: seq<int>, p: nat)
    requires p < |s| && Distinct(s)
    ensures Without(s, s[p]) == s[..p] + s[p + 1..]
  {
    if p > 0 {
      var t := s[1..];
      assert t[p - 1] == s[p] != s[0];
      WithoutAt(t, p - 1);
      HeadBack(s, p);
    } else {
      assert s[..0] == [];
    }
  }

  lemma WithoutIs(s: seq<int>, b: int)
    requires Distinct(s) && b in s
    ensures forall p | 0 <= p < |s| && s[p] == b :: Without(s, b) == s[..p] + s[p + 1..]
    ensures b !in Without(s, b)
  {
    forall p | 0 <= p < |s| && s[p] == b ensures Without(s, b) == s[..p] + s[p + 1..] && b !in Without(s, b) {
      WithoutAt(s, p);
    }
  }

  // Node a leads to node b.
  ghost predicate Leads(link: seq<int>, a: int, b: int) {
    0 <= a < |link| && link[a] == b
  }

  ghost predicate Forward(order: seq<int>, next: seq<int>, k: int) {
    Leads(next, Node(order, k), Node(order, k + 1))
  }

  ghost predicate Backward(order: seq<int>, prev: seq<int>, k: int) {
    Leads(prev, Node(order, k), Node(order, k - 1))
  }

  /** next and prev thread the buffers of `order` and the head into one circle. */
  ghost predicate Circle(order: seq<int>, next: seq<int>, prev: seq<int>) {
    && |next| == |prev| == NBUF + 1 && Distinct(order)
    && (forall k | -1 <= k < |order| :: Forward(order, next, k))
    && (forall k | 0 <= k <= |order| :: Backward(order, prev, k))
  }

  lemma CircleInsert(order: seq<int>, next: seq<int>, prev: seq<int>, b: int, order': seq<int>, next': seq<int>,
                     prev': seq<int>)
    requires Circle(order, next, prev) && 0 <= b < NBUF && b !in order
    requires order' == [b] + order
    requires next' == next[b := Node(order, 0)][HEAD := b]
    requires prev' == prev[b := HEAD][Node(order, 0) := b]
    ensures Circle(order', next', prev')
  {
    forall k | -1 <= k < |order'| ensures Forward(order', next', k) {
      assert k > 0 ==> Forward(order, next, k - 1);
    }
    forall k | 0 <= k <= |order'| ensures Backward(order', prev', k) {
      assert k > 1 ==> Backward(order, prev, k - 1);
    }
  }

  lemma CircleRemove(order: seq<int>, next: seq<int>, prev: seq<int>, p: nat, order': seq<int>, next': seq<int>,
                     prev': seq<int>)
    requires Circle(order, next, prev) && p < |order|
    requires order' == order[..p] + order[p + 1..]
    requires next' == next[Node(order, p - 1) := Node(order, p + 1)]
    requires prev' == prev[Node(order, p + 1) := Node(order, p - 1)]
    ensures Circle(order', next', prev')
  {
    forall k | -1 <= k < |order'| ensures Forward(order', next', k) {
      assert Forward(order, next, if k < p then k else k + 1);
    }
    forall k | 0 <= k <= |order'| ensures Backward(order', prev', k) {
      assert Backward(order, prev, if k < p then k else k + 1);
    }
  }

  class BufferList {
    var next: seq<int>
    var prev: seq<int>
    ghost var order: seq<int>

    ghost predicate Linked()
      reads this
    {
      Circle(order, next, prev)
    }

    // binit: all buffers on the list, the last one in front.
    constructor ()
      ensures Linked() && order == AllBuffers() && |order| == NBUF && forall k | 0 <= k < NBUF :: order[k] == 9 - k
    {
      next := seq(NBUF + 1, _ => HEAD);
      prev := seq(NBUF + 1, _ => HEAD);
      order := [];
      new;
      var b := 0;
      while b < NBUF
        invariant 0 <= b <= NBUF && Linked()
        invariant |order| == b && forall k | 0 <= k < b :: order[k] == b - 1 - k
      {
        PushFront(b);
        b := b + 1;
      }
    }

    method PushFront(b: int)
      requires Linked() && 0 <= b < NBUF && b !in order
      modifies this
      ensures Linked() && order == [b] + old(order)
    {
      assert Forward(order, next, -1);
      next := next[b := next[HEAD]];
      prev := prev[b := HEAD];
      prev := prev[next[HEAD] := b];
      next := next[HEAD := b];
      CircleInsert(order, old(next), old(prev), b, [b] + order, next, prev);
      order := [b] + order;
    }

    method Unlink(b: int)
      requires Linked() && b in order
      modifies this
      ensures Linked() && order == Without(old(order), b)
      ensures forall p | 0 <= p < |old(order)| && old(order)[p] == b :: order == old(order)[..p] + old(order)[p + 1..]
    {
      WithoutIs(order, b);
      ghost var p :| 0 <= p < |order| && order[p] == b;
      assert Forward(order, next, p) && Backward(order, prev, p);
      prev := prev[next[b] := prev[b]];
      next := next[prev[b] := next[b]];
      CircleRemove(order, old(next), old(prev), p, Without(order, b), next, prev);
      order := Without(order, b);
    }

    // The relinking in brelse: b becomes the most recently used.
    method MoveToFront(b: int)
      requires Linked() && b in order
      modifies this
      ensures Linked() && order == [b] + Without(old(order), b)
      ensures forall p | 0 <= p < |old(order)| && old(order)[p] == b ::
              order == [b] + (old(order)[..p] + old(order)[p + 1..])
    {
      WithoutIs(order, b);
      Unlink(b);
      PushFront(b);
    }

    // The first scan of bget.
    method FindCached(bufs: seq<Buf>, dev: int, sector: int) returns (b: int)
      requires Linked() && |bufs| == NBUF
      ensures b == FirstHolding(order, bufs, dev, sector)
      ensures b == NIL ==> forall x | x in order :: !Holds(bufs, x, dev, sector)
      ensures b != NIL ==> exists k :: FirstAt(order, bufs, dev, sector, k) && order[k] == b
    {
      FirstHoldingIs(order, bufs, dev, sector);
      assert Forward(order, next, -1);
      b := next[HEAD];
      ghost var k := 0;
      while b != HEAD
        invariant 0 <= k <= |order| && b == Node(order, k)
        invariant FirstHolding(order, bufs, dev, sector) == FirstHolding(order[k..], bufs, dev, sector)
        decreases |order| - k
      {
        if bufs[b].dev == dev && bufs[b].sector == sector {
          return;
        }
        assert Forward(order, next, k) && order[k..][1..] == order[k + 1..];
        b, k := next[b], k + 1;
      }
      b := NIL;
    }

    // The second scan of bget, from the other end.
    method FindVictim(bufs: seq<Buf>) returns (b: int)
      requires Linked() && |bufs| == NBUF
      ensures b == LastFree(order, bufs)
      ensures b == NIL ==> forall x | x in order :: !Unused(bufs, x)
      ensures b != NIL ==> exists k :: LastAt(order, bufs, k) && order[k] == b
    {
      LastFreeIs(order, bufs);
      assert Backward(order, prev, |order|) && order[..|order|] == order;
      b := prev[HEAD];
      ghost var k := |order| - 1;
      while b != HEAD
        invariant -1 <= k < |order| && b == Node(order, k)
        invariant LastFree(order, bufs) == LastFree(order[..k + 1], bufs)
        decreases k
      {
        if !bufs[b].busy {
          return;
        }
        assert Backward(order, prev, k) && order[..k + 1][..k] == order[..k];
        b, k := prev[b], k - 1;
      }
      b := NIL;
    }
  }

  // Where the link out of the k-th request leads.
  ghost function After(queue: seq<int>, k: int): int {
    if 0 <= k + 1 < |queue| then queue[k + 1] else NIL
  }

  ghost predicate Chain(queue: seq<int>, qnext: seq<int>) {
    |qnext| == NBUF && Distinct(queue) && forall k | 0 <= k < |queue| :: qnext[queue[k]] == After(queue, k)
  }

  class RequestQueue {
    var qnext: seq<int>
    var first: int
    ghost var queue: seq<int>

    ghost predicate Linked()
      reads this
    {
      Chain(queue, qnext) && first == After(queue, -1)
    }

    constructor ()
      ensures Linked() && queue == []
    {
      qnext := seq(NBUF, _ => NIL);
      first, queue := NIL, [];
    }

    // The append in iderw, walking to the end of the queue.
    method Append(b: int)
      requires Linked() && 0 <= b < NBUF && b !in queue
      modifies this
      ensures Linked() && queue == old(queue) + [b]
    {
      qnext := qnext[b := NIL];
      if first == NIL {
        first := b;
      } else {
        var x := first;
        ghost var k := 0;
        while qnext[x] != NIL
          invariant 0 <= k < |queue| && x == queue[k]
          modifies {}
          decreases |queue| - k
        {
          x, k := qnext[x], k + 1;
        }
        qnext := qnext[x := b];
      }
      queue := queue + [b];
    }

    // ideintr takes the first request off the queue.
    method Pop() returns (b: int)
      requires Linked() && first != NIL
      modifies this
      ensures Linked() && old(queue) == [b] + queue
    {
      b := first;
      first := qnext[b];
      queue := queue[1..];
    }
  }
}
