/** Files of type T_CHECKED: every block address carries the exclusive-or of its block in its top byte, and
    reads verify it. Writing them is part of the volume; here is what reading finds, also on a device that
    has been damaged, and the checksum that stat reports. */
module CheckedFiles {

  import opened Common
  import opened DiskFormat
  import opened ExclusiveOr
  import FS = FileSystem

  // The sector that the disk controller is told: 28 bits of the number passed to bread.
  function DiskSector(n: Word32): nat {
    n % 0x1000_0000
  }

  /** A write that passes the address of a block with its checksum to bread uses a buffer of its own, and
      reaches the right sector on disk if and only if the lower four bits of the checksum are zero. */
  lemma DiskSectorIff(raw: Word32)
    ensures DiskSector(raw) == RealAddr(raw) <==> StoredSum(raw) % 16 == 0
  {
  }

  ghost predicate Covers(off: nat, end: nat, bn: nat) {
    off < end && off < (bn + 1) * 512 && bn * 512 < end
  }

  // Fetching file block bn waits for a buffer in `held`: that of the block, or of the indirect block on the way.
  predicate Stuck(blocks: seq<Block>, d: Dinode, held: set<nat>, bn: nat) {
    bn < MAXFILE && ((bn >= NDIRECT && d.addrs[NDIRECT] in held) || FS.Addr(blocks, d, SlotOf(bn)) in held)
  }

  // The address of file block bn leads to no block of the device: it is 0, where bmap takes a new block, or too large.
  predicate Lost(blocks: seq<Block>, d: Dinode, bn: nat) {
    bn < MAXFILE && !(0 < FS.Addr(blocks, d, SlotOf(bn)) < |blocks|)
  }

  ghost predicate Fine(blocks: seq<Block>, d: Dinode, held: set<nat>, bn: nat) {
    !Stuck(blocks, d, held, bn) && !Lost(blocks, d, bn) && FS.SumRight(blocks, d, bn)
  }

  // The first block on the way from off to end that is not fine is bn.
  ghost predicate StopsAt(blocks: seq<Block>, d: Dinode, held: set<nat>, off: nat, end: nat, bn: nat) {
    && Covers(off, end, bn) && bn < MAXFILE && !Fine(blocks, d, held, bn)
    && forall b: nat | b < bn && Covers(off, end, b) :: Fine(blocks, d, held, b)
  }

  ghost predicate ReadStopsAt(blocks: seq<Block>, d: Dinode, held: set<nat>, off: nat, n: nat, bn: nat) {
    StopsAt(blocks, d, held, off, FS.Min(off + n, d.size), bn)
  }

  datatype Reply = Bytes(dst: seq<Byte>) | Failed | Hangs | Leaves

  // What becomes of a read that stops at block bn.
  function Ending(blocks: seq<Block>, d: Dinode, held: set<nat>, bn: nat): Reply {
    if Stuck(blocks, d, held, bn) then Hangs else if Lost(blocks, d, bn) then Leaves else Failed
  }

  /** A read that stops at block bn hangs if the buffer of the block is held, or that of the indirect block on the way
      to it; leaves the device if the block has no address or one past the end; and fails otherwise. */
  lemma EndingIs(blocks: seq<Block>, d: Dinode, held: set<nat>, bn: nat)
    requires bn < 140
    ensures var a, end := FS.Addr(blocks, d, if bn < 12 then bn else bn + 1), Ending(blocks, d, held, bn);
            && (end.Hangs? <==> a in held || (12 <= bn && d.addrs[12] in held))
            && (end.Leaves? <==> !end.Hangs? && (a == 0 || |blocks| <= a))
            && (end.Failed? <==> !end.Hangs? && !end.Leaves?)
  {
  }

  // The arguments are those of a read that starts.
  predicate Starts(d: Dinode, off: nat, n: nat) {
    off <= d.size && off + n < UINT_LIMIT
  }

  /** Read n bytes from off, whatever has become of the device, with the buffers of the blocks in `held` busy
      for good. The read stops at the first block that is held, has no place on the device or does not match its
      checksum. If that block is held it never returns. If it has no place the read leaves the device. If it does
      not match, the read fails, and leaves the block's buffer busy. */
  method ReadI(blocks: seq<Block>, d: Dinode, off: nat, n: nat, held: set<nat>) returns (r: Reply, held': set<nat>)
    requires d.kind == T_CHECKED && off < UINT_LIMIT && n < UINT_LIMIT
    ensures !Starts(d, off, n) ==> r == Failed && held' == held
    ensures Starts(d, off, n) ==>
            forall bn | ReadStopsAt(blocks, d, held, off, n, bn) ::
              && (r.Hangs? <==> Stuck(blocks, d, held, bn))
              && (r.Leaves? <==> !Stuck(blocks, d, held, bn) && Lost(blocks, d, bn))
              && (r.Failed? <==> !Stuck(blocks, d, held, bn) && !Lost(blocks, d, bn))
              && held' == if r.Failed? then held + {FS.Addr(blocks, d, SlotOf(bn))} else held
    ensures Starts(d, off, n) && (forall bn :: !ReadStopsAt(blocks, d, held, off, n, bn)) ==>
            r == Bytes(FS.Contents(blocks, d)[off..FS.Min(off + n, d.size)]) && held' == held
  {
    hide FS.SumRight, FS.Contents, FS.Addr;
    held' := held;
    if !Starts(d, off, n) {
      return Failed, held;
    }
    var end := FS.Min(off + n, d.size);
    ghost var c := FS.Contents(blocks, d);
    var dst := [];
    while off + |dst| < end
      invariant off + |dst| <= end && dst == c[off..off + |dst|]
      invariant |dst| == 0 || off + |dst| == end || (off + |dst|) % 512 == 0
      invariant forall b: nat | Covers(off, off + |dst|, b) :: Fine(blocks, d, held, b)
      decreases end - |dst|
    {
      var bn, o := Locate(off + |dst|);
      var m := FS.Min(end - (off + |dst|), 512 - o);
      StopsHere(blocks, d, held, off, |dst|, end, bn, o);
      assert !Fine(blocks, d, held, bn) ==> ReadStopsAt(blocks, d, held, off, n, bn);
      if Stuck(blocks, d, held, bn) {
        return Hangs, held;
      }
      if Lost(blocks, d, bn) {
        return Leaves, held;
      }
      var good, chunk := ReadBlock(blocks, d, bn, o, m);
      if !good {
        return Failed, held + {FS.Addr(blocks, d, SlotOf(bn))};
      }
      CoversRound(off, |dst|, m, bn, o);
      FS.Joined(c, off, |dst|, m);
      dst := dst + chunk;
    }
    assert forall b: nat | Covers(off, end, b) :: Fine(blocks, d, held, b);
    r := Bytes(dst);
  }

  // If the next block is not fine, it is where the read stops.
  lemma StopsHere(blocks: seq<Block>, d: Dinode, held: set<nat>, off: nat, tot: nat, end: nat, bn: nat, o: nat)
    requires off + tot < end <= 71680 && off + tot == bn * 512 + o && o < 512 && (tot == 0 || o == 0)
    requires forall b: nat | Covers(off, off + tot, b) :: Fine(blocks, d, held, b)
    ensures !Fine(blocks, d, held, bn) ==> StopsAt(blocks, d, held, off, end, bn)
                                           && forall b | StopsAt(blocks, d, held, off, end, b) :: b == bn
  {
    assert Covers(off, end, bn);
    forall b: nat | b < bn && Covers(off, end, b) ensures Fine(blocks, d, held, b) {
      assert Covers(off, off + tot, b);
    }
  }

  // One round of the read loop: m bytes of file block bn from byte o on, after checking the block.
  method ReadBlock(blocks: seq<Block>, d: Dinode, bn: nat, o: nat, m: nat) returns (ok: bool, chunk: seq<Byte>)
    requires bn < MAXFILE && o + m <= 512 && 0 < FS.Addr(blocks, d, SlotOf(bn)) < |blocks| && bn * 512 + o + m <= d.size
    ensures ok <==> FS.SumRight(blocks, d, bn)
    ensures ok ==> |chunk| == m && chunk == FS.Contents(blocks, d)[bn * 512 + o..bn * 512 + o + m]
  {
    var raw, a := FS.Raw(blocks, d, SlotOf(bn)), FS.Addr(blocks, d, SlotOf(bn));
    var sum := FS.GenChecksum(blocks[a]);
    if sum != StoredSum(raw) {
      return false, [];
    }
    chunk := blocks[a][o..o + m];
    ghost var part := FS.Contents(blocks, d)[bn * 512 + o..bn * 512 + o + m];
    forall x | 0 <= x < m ensures chunk[x] == part[x] {
      assert (bn * 512 + o + x) / 512 == bn && part[x] == FS.FileByte(blocks, d, bn * 512 + o + x);
    }
    ok := true;
  }

  lemma CoversRound(off: nat, tot: nat, m: nat, bn: nat, o: nat)
    requires 0 < m && off + tot == bn * 512 + o && o + m <= 512 && (tot == 0 || o == 0)
    ensures forall b: nat {:trigger Covers(off, off + tot + m, b)} ::
              Covers(off, off + tot + m, b) <==> Covers(off, off + tot, b) || b == bn
  {
  }

  // A checked file of n blocks, stored as the table says, every block matching its checksum.
  ghost predicate Stored(blocks: seq<Block>, d: Dinode, table: FS.Table, owner: FS.Owners, i: nat, n: nat) {
    && d.kind == T_CHECKED && n <= MAXFILE && FS.Inverse(table, owner) && FS.Link(blocks, d, table, i)
    && FS.HasBlocks(table, i, n)
    && (forall s | s in table :: 0 < table[s] < |blocks|) && FS.Summed(blocks, d, n)
  }

  /** Change one byte of one stored block: that block no longer verifies, every other block still does. */
  lemma CorruptionDetected(blocks: seq<Block>, d: Dinode, table: FS.Table, owner: FS.Owners, i: nat, n: nat, bn: nat,
                           p: nat, v: Byte)
    requires Stored(blocks, d, table, owner, i, n) && bn < n && p < 512
    requires var a := FS.Addr(blocks, d, SlotOf(bn)); a < |blocks| ==> v != blocks[a][p]
    ensures var a := FS.Addr(blocks, d, SlotOf(bn));
            && a < |blocks|
            && var blocks' := blocks[a := blocks[a][p := v]];
               && FS.Link(blocks', d, table, i)
               && forall b {:trigger FS.SumRight(blocks', d, b)} | 0 <= b < n :: FS.SumRight(blocks', d, b) <==> b != bn
  {
    var a := FS.Addr(blocks, d, SlotOf(bn));
    assert Slot(table, i, bn) == a;
    var blocks' := blocks[a := blocks[a][p := v]];
    FS.LinkFrame(blocks, d, table, i, a, blocks'[a]);
    assert FS.SumRight(blocks, d, bn);
    XorAllDetects(blocks[a], p, v);
    forall b | 0 <= b < n ensures FS.SumRight(blocks', d, b) <==> b != bn {
      assert FS.SumRight(blocks, d, b);
      assert FS.Leads(blocks, d, SlotOf(b), table[FS.Slot(i, SlotOf(b))])
             && FS.Leads(blocks', d, SlotOf(b), table[FS.Slot(i, SlotOf(b))]);
      assert FS.Raw(blocks', d, SlotOf(b)) == FS.Raw(blocks, d, SlotOf(b));
      assert b != bn ==> FS.Slot(i, SlotOf(b)) != FS.Slot(i, SlotOf(bn));
    }
  }

  /** The first read that covers the damaged block fails, and every later one never returns. */
  lemma SecondReadHangs(blocks: seq<Block>, d: Dinode, table: FS.Table, owner: FS.Owners, i: nat, n: nat, bn: nat,
                        p: nat, v: Byte, off: nat, end: nat)
    requires Stored(blocks, d, table, owner, i, n) && bn < n && p < 512 && Covers(off, end, bn) && end <= n * 512
    requires var a := FS.Addr(blocks, d, SlotOf(bn)); a < |blocks| ==> v != blocks[a][p]
    ensures var a := FS.Addr(blocks, d, SlotOf(bn));
            && a < |blocks|
            && var blocks' := blocks[a := blocks[a][p := v]];
               && FS.Addr(blocks', d, SlotOf(bn)) == a
               && StopsAt(blocks', d, {}, off, end, bn) && Ending(blocks', d, {}, bn) == Failed
               && StopsAt(blocks', d, {a}, off, end, bn) && Ending(blocks', d, {a}, bn) == Hangs
  {
    CorruptionDetected(blocks, d, table, owner, i, n, bn, p, v);
    var a := FS.Addr(blocks, d, SlotOf(bn));
    var blocks' := blocks[a := blocks[a][p := v]];
    assert FS.Leads(blocks, d, SlotOf(bn), Slot(table, i, bn)) && FS.Leads(blocks', d, SlotOf(bn), Slot(table, i, bn));
    assert FS.Leads(blocks', d, NDIRECT, FS.Get(table, FS.Slot(i, NDIRECT)));
    assert !FS.SumRight(blocks', d, bn);
    forall b: nat | b < bn && Covers(off, end, b) ensures Fine(blocks', d, {}, b) && Fine(blocks', d, {a}, b) {
      assert FS.SumRight(blocks', d, b) && FS.Leads(blocks', d, SlotOf(b), Slot(table, i, b)) && Slot(table, i, b) != a;
      assert FS.Slot(i, SlotOf(b)) in table;
    }
  }

  ghost function Slot(table: FS.Table, i: nat, bn: nat): nat {
    FS.Get(table, FS.Slot(i, SlotOf(bn)))
  }

  // The checksums in the first n addresses.
  ghost function Sums(blocks: seq<Block>, d: Dinode, n: nat): seq<Byte>
    requires n <= MAXFILE
  {
    seq(n, bn requires 0 <= bn < n => StoredSum(FS.Raw(blocks, d, SlotOf(bn))))
  }

  // The address of file block bn is there.
  ghost predicate There(blocks: seq<Block>, d: Dinode, bn: nat) {
    bn < MAXFILE && FS.Raw(blocks, d, SlotOf(bn)) != 0
  }

  // The first n addresses are there, and the next is not.
  ghost predicate EndsAt(blocks: seq<Block>, d: Dinode, n: nat) {
    n < MAXFILE && !There(blocks, d, n) && forall bn | 0 <= bn < n :: There(blocks, d, bn)
  }

  /** What stat reports, for an inode of any type: the exclusive or of the top bytes of its addresses up to
      the first that is not there. If all 140 are there the scan runs off the end and panics. */
  method AggregateChecksum(blocks: seq<Block>, d: Dinode) returns (panicked: bool, sum: Byte, ghost n: nat)
    requires Real(d.kind, d.addrs[NDIRECT]) == d.addrs[NDIRECT] < |blocks|
    ensures panicked <==> forall bn | 0 <= bn < MAXFILE :: There(blocks, d, bn)
    ensures !panicked ==> EndsAt(blocks, d, n) && sum == XorAll(Sums(blocks, d, n))
  {
    hide Word, StoredSum;
    ghost var sums := Sums(blocks, d, MAXFILE);
    var bn := 0;
    sum := 0;
    while bn < NDIRECT
      invariant 0 <= bn <= NDIRECT && sum == XorAll(sums[..bn]) && forall b | 0 <= b < bn :: There(blocks, d, b)
    {
      assert sums[..bn] == Sums(blocks, d, bn) && FS.Raw(blocks, d, SlotOf(bn)) == d.addrs[bn];
      if d.addrs[bn] == 0 {
        assert !There(blocks, d, bn);
        return false, sum, bn;
      }
      XorAllNext(sums, bn);
      sum := XorByte(sum, StoredSum(d.addrs[bn]));
      bn := bn + 1;
    }
    assert sums[..bn] == Sums(blocks, d, bn);
    if d.addrs[NDIRECT] == 0 {
      assert FS.Raw(blocks, d, SlotOf(bn)) == 0 && !There(blocks, d, bn);
      return false, sum, bn;
    }
    var a := blocks[Real(d.kind, d.addrs[NDIRECT])];
    var j := 0;
    while j < NINDIRECT
      invariant 0 <= j <= NINDIRECT && sum == XorAll(sums[..NDIRECT + j]) && forall b | 0 <= b < NDIRECT + j ::
                There(blocks, d, b)
    {
      assert sums[..NDIRECT + j] == Sums(blocks, d, NDIRECT + j)
             && FS.Raw(blocks, d, SlotOf(NDIRECT + j)) == Word(a, j);
      if Word(a, j) == 0 {
        assert !There(blocks, d, NDIRECT + j);
        return false, sum, NDIRECT + j;
      }
      XorAllNext(sums, NDIRECT + j);
      sum := XorByte(sum, StoredSum(Word(a, j)));
      j := j + 1;
    }
    return true, 0, 0;
  }

  // The blocks of a file, and the bytes in them.
  ghost function Blocks(blocks: seq<Block>, d: Dinode, n: nat): seq<Block>
    requires n <= MAXFILE && forall bn | 0 <= bn < n :: FS.Addr(blocks, d, SlotOf(bn)) < |blocks|
  {
    seq(n, bn requires 0 <= bn < n => blocks[FS.Addr(blocks, d, SlotOf(bn))])
  }

  function Data(img: seq<Block>, size: nat): (c: seq<Byte>)
    requires size <= |img| * 512
    ensures |c| == size
  {
    seq(size, x requires 0 <= x < size => img[x / 512][x % 512])
  }

  // The checksums of the blocks add up to the checksum of the bytes in them.
  lemma {:induction false} SumOfSums(img: seq<Block>, sums: seq<Byte>)
    requires |img| == |sums| && forall bn | 0 <= bn < |img| :: sums[bn] == XorAll(img[bn])
    ensures XorAll(Data(img, |img| * 512)) == XorAll(sums)
  {
    if img != [] {
      var k := |img| - 1;
      SumOfSums(img[..k], sums[..k]);
      assert Data(img, |img| * 512) == Data(img[..k], k * 512) + img[k] by {
        forall x | 0 <= x < |img| * 512 ensures Data(img, |img| * 512)[x] == (Data(img[..k], k * 512) + img[k])[x] {
        }
      }
      XorAllConcat(Data(img[..k], k * 512), img[k]);
      assert sums == sums[..k] + [sums[k]];
      XorAllConcat(sums[..k], [sums[k]]);
      XorZero(sums[k]);
    }
  }

  lemma PaddingIgnored(img: seq<Block>, size: nat)
    requires size <= |img| * 512
    requires forall x | size <= x < |img| * 512 :: img[x / 512][x % 512] == 0
    ensures XorAll(Data(img, |img| * 512)) == XorAll(Data(img, size))
  {
    var pad := seq(|img| * 512 - size, _ => 0 as Byte);
    assert Data(img, |img| * 512) == Data(img, size) + pad;
    XorAllConcat(Data(img, size), pad);
    XorAllZeros(|img| * 512 - size);
    XorZero(XorAll(Data(img, size)));
  }

  // The addresses of a whole file end with its blocks.
  lemma AddressesEnd(blocks: seq<Block>, d: Dinode, table: FS.Table, i: nat, bn: nat)
    requires FS.Link(blocks, d, table, i) && FS.HasBlocks(table, i, BlocksFor(d.size)) && bn < MAXFILE
    requires forall s | s in table :: 0 < table[s] < |blocks|
    ensures There(blocks, d, bn) <==> bn < BlocksFor(d.size)
  {
    assert FS.Leads(blocks, d, SlotOf(bn), Slot(table, i, bn));
  }

  // The checksums stored with a whole checked file add up to the checksum of its contents.
  lemma StoredSumOfContents(blocks: seq<Block>, d: Dinode, table: FS.Table, i: nat)
    requires FS.Link(blocks, d, table, i) && FS.WholeFile(blocks, d, table, i) && d.kind == T_CHECKED
    requires forall s | s in table :: 0 < table[s] < |blocks|
    ensures XorAll(Sums(blocks, d, BlocksFor(d.size))) == XorAll(FS.Contents(blocks, d))
  {
    var n := BlocksFor(d.size);
    forall bn | 0 <= bn < n ensures 0 < FS.Addr(blocks, d, SlotOf(bn)) < |blocks| && FS.SumRight(blocks, d, bn) {
      assert FS.Leads(blocks, d, SlotOf(bn), Slot(table, i, bn));
    }
    var img := Blocks(blocks, d, n);
    forall x | 0 <= x < n * 512 ensures img[x / 512][x % 512] == FS.FileByte(blocks, d, x) {
    }
    SumOfSums(img, Sums(blocks, d, n));
    PaddingIgnored(img, d.size);
    assert Data(img, d.size) == FS.Contents(blocks, d);
  }

  /** The checksum stat reports for inode i of a volume: for a checked file the exclusive or of all its bytes,
      for another 0 unless the volume has block numbers of more than 24 bits. It panics, for a file of any
      type, exactly when the file has 140 blocks. */
  method StatChecksum(v: FS.Volume, i: nat) returns (panicked: bool, sum: Byte)
    requires v.Valid() && i < v.ninodes
    ensures panicked <==> BlocksFor(v.inodes[i].size) == MAXFILE
    ensures !panicked && v.inodes[i].kind == T_CHECKED ==> sum == XorAll(FS.Contents(v.blocks, v.inodes[i]))
    ensures !panicked && v.inodes[i].kind != T_CHECKED && v.size <= 0x100_0000 ==> sum == 0
  {
    assert v.Linked(i) && v.Whole(i);
    ghost var d, n := v.inodes[i], BlocksFor(v.inodes[i].size);
    assert FS.Leads(v.blocks, d, NDIRECT, FS.Get(v.table, FS.Slot(i, NDIRECT)));
    forall bn | 0 <= bn < MAXFILE ensures There(v.blocks, d, bn) <==> bn < n {
      AddressesEnd(v.blocks, d, v.table, i, bn);
    }
    ghost var m;
    assert n < MAXFILE ==> !There(v.blocks, d, n);
    panicked, sum, m := AggregateChecksum(v.blocks, v.inodes[i]);
    if !panicked {
      assert m == n by {
        assert !There(v.blocks, d, m);
      }
      if d.kind == T_CHECKED {
        StoredSumOfContents(v.blocks, d, v.table, i);
      } else if v.size <= 0x100_0000 {
        NoSums(v.blocks, d, v.table, i, n);
      }
    }
  }

  lemma NoSums(blocks: seq<Block>, d: Dinode, table: FS.Table, i: nat, n: nat)
    requires FS.Link(blocks, d, table, i) && d.kind != T_CHECKED && n <= MAXFILE && |blocks| <= 0x100_0000
    requires forall s | s in table :: 0 < table[s] < |blocks|
    ensures XorAll(Sums(blocks, d, n)) == 0
  {
    forall bn | 0 <= bn < n ensures Sums(blocks, d, n)[bn] == 0 {
      assert FS.Leads(blocks, d, SlotOf(bn), Slot(table, i, bn));
    }
    XorAllZeros(n);
    assert Sums(blocks, d, n) == seq(n, _ => 0 as Byte);
  }
}
