/** Block ownership and file contents.

    `Volume` is the file system of one device: the in-use bitmap, the blocks, the on-disk
    inodes and their in-memory copies. Two ghost maps, inverse to each other, say which inode
    slot each allocated block belongs to; keeping them inverse is what makes ownership a
    partition. File contents are read off the blocks, so that reading and writing can be
    stated on plain byte sequences. The addresses of a file of type T_CHECKED carry the
    checksums of its blocks. */
module FileSystem {

  import opened Common
  import opened DiskFormat
  import opened ExclusiveOr

  datatype Slot = Slot(ino: nat, k: nat)

  type Table = map<Slot, nat>
  type Owners = map<nat, Slot>

  // Bitmap bits per bitmap block.
  const BPB: nat := 4096

  // The address in slot k of an inode, 0 when there is none.
  function Raw(blocks: seq<Block>, d: Dinode, k: nat): Word32
    requires k < NSLOTS
  {
    if k <= NDIRECT then d.addrs[k]
    else if 0 < d.addrs[NDIRECT] < |blocks| then Word(blocks[d.addrs[NDIRECT]], k - NDIRECT - 1)
    else 0
  }

  // The block it stands for. The address of the indirect block never carries a checksum.
  function Addr(blocks: seq<Block>, d: Dinode, k: nat): nat
    requires k < NSLOTS
  {
    if k == NDIRECT then Raw(blocks, d, k) else Real(d.kind, Raw(blocks, d, k))
  }

  function FileByte(blocks: seq<Block>, d: Dinode, x: nat): Byte
    requires x < 71680
  {
    var a := Addr(blocks, d, SlotOf(x / 512));
    if 0 < a < |blocks| then blocks[a][x % 512] else 0
  }

  /** Where byte x of a file is: the first 6144 bytes are in the twelve blocks that the inode lists, the others in those
      that the block listed last lists, as little-endian words. The number of a block of a checked file is in the
      lower three bytes of its address. */
  lemma FileLayout(blocks: seq<Block>, d: Dinode, x: nat)
    requires x < 71680 && (forall k | 0 <= k < 13 :: 0 < d.addrs[k] < |blocks|) && |blocks| <= 0x1_0000_0000
    ensures var bn := x / 512;
            var raw := if x < 6144 then d.addrs[bn] else
                         var b, j := blocks[d.addrs[12]], 4 * (bn - 12);
                         var b0: int, b1: int, b2: int, b3: int := b[j], b[j + 1], b[j + 2], b[j + 3];
                         b0 + 0x100 * b1 + 0x1_0000 * b2 + 0x100_0000 * b3;
            var a := if d.kind == 4 then raw % 0x100_0000 else raw;
            0 < a < |blocks| ==> FileByte(blocks, d, x) == blocks[a][x % 512]
  {
  }

  // A count of links less one, as a 16-bit number.
  function Less(n: int): (r: int)
    ensures -0x8000 <= n < 0x8000 ==> -0x8000 <= r < 0x8000 && (r + 1 - n) % 0x1_0000 == 0
  {
    if n == -0x8000 then 0x7FFF else n - 1
  }

  // What the file holds, as a byte sequence.
  function Contents(blocks: seq<Block>, d: Dinode): (c: seq<Byte>)
    ensures |c| == d.size
  {
    seq(d.size, x requires 0 <= x < d.size => FileByte(blocks, d, x))
  }

  // Overwriting `data` at offset `off`, extending the sequence if it reaches past its end.
  function Splice(c: seq<Byte>, off: nat, data: seq<Byte>): (r: seq<Byte>)
    requires off <= |c|
  {
    c[..off] + data + if off + |data| < |c| then c[off + |data|..] else []
  }

  lemma SpliceReads(c: seq<Byte>, off: nat, data: seq<Byte>)
    requires off <= |c|
    ensures |Splice(c, off, data)| == Max(|c|, off + |data|) && Splice(c, off, data)[off..off + |data|] == data
    ensures forall x | 0 <= x < |c| && !(off <= x < off + |data|) :: Splice(c, off, data)[x] == c[x]
  {
  }

  ghost function Get(table: Table, s: Slot): nat {
    if s in table then table[s] else 0
  }

  ghost predicate Inverse(table: Table, owner: Owners) {
    && (forall s | s in table :: table[s] in owner && owner[table[s]] == s)
    && (forall b | b in owner :: owner[b] in table && table[owner[b]] == b)
  }

  /** Every allocated block has exactly one owning slot, and the bitmap marks exactly the
      metadata blocks and the owned blocks. */
  ghost predicate Partition(table: Table, owner: Owners, bitmap: seq<bool>, meta: nat, size: nat) {
    && Inverse(table, owner)
    && (forall b | b in owner :: meta <= b < size)
    && (forall b | 0 <= b < |bitmap| :: bitmap[b] <==> b < meta || b in owner)
  }

  lemma PartitionAlloc(table: Table, owner: Owners, bitmap: seq<bool>, meta: nat, size: nat, s: Slot, b: nat)
    requires Partition(table, owner, bitmap, meta, size)
    requires s !in table && b < size && b < |bitmap| && !bitmap[b]
    ensures Partition(table[s := b], owner[b := s], bitmap[b := true], meta, size)
  {
  }

  lemma PartitionFree(table: Table, owner: Owners, bitmap: seq<bool>, meta: nat, size: nat, s: Slot)
    requires Partition(table, owner, bitmap, meta, size) && size <= |bitmap|
    requires s in table
    ensures table[s] < size && bitmap[table[s]]
    ensures Partition(table - {s}, owner - {table[s]}, bitmap[table[s] := false], meta, size)
  {
  }

  // The free blocks of the device.
  ghost function FreeBlocks(bitmap: seq<bool>, size: nat): set<nat> {
    set b: nat | b < size && b < |bitmap| && !bitmap[b]
  }

  lemma FreeBlocksAlloc(bitmap: seq<bool>, size: nat, b: nat)
    requires b < size <= |bitmap| && !bitmap[b]
    ensures FreeBlocks(bitmap[b := true], size) == FreeBlocks(bitmap, size) - {b}
    ensures |FreeBlocks(bitmap[b := true], size)| == |FreeBlocks(bitmap, size)| - 1
  {
  }

  // Inode i has exactly its first n file blocks, and an indirect block iff that needs one.
  ghost predicate HasBlocks(table: Table, i: nat, n: nat) {
    && (forall bn | 0 <= bn < MAXFILE :: Slot(i, SlotOf(bn)) in table <==> bn < n)
    && (Slot(i, NDIRECT) in table <==> n > NDIRECT)
  }

  // The addresses stored in inode i and its indirect block are those the table records.
  ghost predicate Link(blocks: seq<Block>, d: Dinode, table: Table, i: nat) {
    forall k | 0 <= k < NSLOTS :: Leads(blocks, d, k, Get(table, Slot(i, k)))
  }

  // The address in slot k leads to block b, or to none if b is 0.
  ghost predicate Leads(blocks: seq<Block>, d: Dinode, k: nat, b: nat) {
    k < NSLOTS && Addr(blocks, d, k) == b && (b == 0 ==> Raw(blocks, d, k) == 0)
  }

  // Giving slot k of inode i the zeroed block b keeps every inode linked.
  lemma LinkSlot(blocks: seq<Block>, d: Dinode, table: Table, i: nat, k: nat, b: Word32)
    requires Link(blocks, d, table, i)
    requires k <= NDIRECT && Slot(i, k) !in table && 0 < b < |blocks| && blocks[b] == ZeroBlock()
             && Real(d.kind, b) == b
    ensures Link(blocks, d.(addrs := d.addrs[k := b]), table[Slot(i, k) := b], i)
    ensures RawKept(i, table, blocks, d, blocks, d.(addrs := d.addrs[k := b]))
  {
    var d' := d.(addrs := d.addrs[k := b]);
    forall m | 0 <= m < NSLOTS ensures Leads(blocks, d', m, Get(table[Slot(i, k) := b], Slot(i, m))) {
      assert Leads(blocks, d, m, Get(table, Slot(i, m))) && Leads(blocks, d, k, 0);
    }
    forall m | 0 <= m < NSLOTS && Slot(i, m) in table ensures Raw(blocks, d', m) == Raw(blocks, d, m) {
      assert Leads(blocks, d, m, Get(table, Slot(i, m))) && Leads(blocks, d, k, 0);
    }
  }

  lemma LinkWith(blocks: seq<Block>, d: Dinode, table: Table, j: nat, s: Slot, b: nat)
    requires Link(blocks, d, table, j) && s.ino != j
    ensures Link(blocks, d, table[s := b], j)
  {
    forall k | 0 <= k < NSLOTS ensures Leads(blocks, d, k, Get(table[s := b], Slot(j, k))) {
      assert Leads(blocks, d, k, Get(table, Slot(j, k)));
    }
  }

  // The addresses inode i had are as they were, checksums and all.
  ghost predicate RawKept(i: nat, table: Table, blocks0: seq<Block>, d0: Dinode, blocks1: seq<Block>, d1: Dinode) {
    forall k | 0 <= k < NSLOTS && Slot(i, k) in table :: Raw(blocks1, d1, k) == Raw(blocks0, d0, k)
  }

  // Storing an entry of inode i's indirect block keeps every inode m linked.
  lemma LinkEntry(blocks: seq<Block>, d: Dinode, table: Table, m: nat, i: nat, j: nat, ind: nat, b: Word32)
    requires Link(blocks, d, table, m)
    requires 0 < ind < |blocks| && j < NINDIRECT && (m == i ==> Real(d.kind, b) == b != 0)
    requires Get(table, Slot(m, NDIRECT)) == ind <==> m == i
    ensures Link(blocks[ind := SetWord(blocks[ind], j, b)], d, table[Slot(i, NDIRECT + 1 + j) := b], m)
  {
    var blocks' := blocks[ind := SetWord(blocks[ind], j, b)];
    var table' := table[Slot(i, NDIRECT + 1 + j) := b];
    assert Leads(blocks, d, NDIRECT, Get(table, Slot(m, NDIRECT)));
    forall k | 0 <= k < NSLOTS ensures Leads(blocks', d, k, Get(table', Slot(m, k))) {
      assert Leads(blocks, d, k, Get(table, Slot(m, k)));
      if k > NDIRECT && m == i {
        WordSetWord(blocks[ind], j, b, k - NDIRECT - 1);
      }
    }
  }

  // It changes no other address of inode i.
  lemma EntryRaw(blocks: seq<Block>, d: Dinode, j: nat, w: Word32, k: nat)
    requires 0 < d.addrs[NDIRECT] < |blocks| && j < NINDIRECT && k < NSLOTS
    ensures var ind := d.addrs[NDIRECT]; var blocks' := blocks[ind := SetWord(blocks[ind], j, w)];
            Raw(blocks', d, k) == if k == NDIRECT + 1 + j then w else Raw(blocks, d, k)
  {
    if k > NDIRECT {
      WordSetWord(blocks[d.addrs[NDIRECT]], j, w, k - NDIRECT - 1);
    }
  }

  lemma EntryKeepsRaw(blocks: seq<Block>, d: Dinode, table: Table, i: nat, j: nat, w: Word32)
    requires 0 < d.addrs[NDIRECT] < |blocks| && j < NINDIRECT && Slot(i, NDIRECT + 1 + j) !in table
    ensures var ind := d.addrs[NDIRECT]; RawKept(i, table, blocks, d, blocks[ind := SetWord(blocks[ind], j, w)], d)
  {
    var ind := d.addrs[NDIRECT];
    forall k | 0 <= k < NSLOTS && Slot(i, k) in table
      ensures Raw(blocks[ind := SetWord(blocks[ind], j, w)], d, k) == Raw(blocks, d, k) {
      EntryRaw(blocks, d, j, w, k);
    }
  }

  // Changing a block that is no inode's indirect block keeps the links.
  lemma LinkFrame(blocks: seq<Block>, d: Dinode, table: Table, m: nat, a: nat, block: Block)
    requires Link(blocks, d, table, m)
    requires a < |blocks| && Get(table, Slot(m, NDIRECT)) != a
    ensures Link(blocks[a := block], d, table, m) && RawKept(m, table, blocks, d, blocks[a := block], d)
  {
    assert Leads(blocks, d, NDIRECT, Get(table, Slot(m, NDIRECT)));
    forall k | 0 <= k < NSLOTS ensures Leads(blocks[a := block], d, k, Get(table, Slot(m, k))) {
      assert Leads(blocks, d, k, Get(table, Slot(m, k)));
    }
  }

  // What it costs, in disk blocks, to reach file block bn when there are n blocks.
  function GrowCost(n: nat, bn: nat): nat
    requires bn <= n
  {
    if bn < n then 0 else DiskBlocks(n + 1) - DiskBlocks(n)
  }

  ghost predicate TableKept(table0: Table, table1: Table) {
    forall s | s in table0 :: s in table1 && table1[s] == table0[s]
  }

  // The data blocks of inode i keep their places and their bytes.
  ghost predicate BlocksKept(i: nat, table0: Table, blocks0: seq<Block>, table1: Table, blocks1: seq<Block>) {
    && TableKept(table0, table1)
    && forall s: Slot | s.ino == i && s.k != NDIRECT && s in table0 ::
      (table0[s] < |blocks0| && table0[s] < |blocks1| ==> blocks1[table0[s]] == blocks0[table0[s]])
  }

  function Min(a: nat, b: nat): nat {
    if a < b then a else b
  }

  function Max(a: nat, b: nat): nat {
    if a < b then b else a
  }

  // How many of n bytes fit when written at off, and the disk blocks that takes.
  function WriteCount(off: nat, n: nat): nat
    requires off <= 71680
  {
    if off + n > 71680 then 71680 - off else n
  }

  function WriteCost(size: nat, off: nat, n: nat): int
    requires off <= 71680
  {
    DiskBlocks(BlocksFor(Max(size, off + WriteCount(off, n)))) - DiskBlocks(BlocksFor(size))
  }

  function Patch(b: Block, o: nat, data: seq<Byte>): Block
    requires o + |data| <= 512
  {
    b[..o] + data + b[o + |data|..]
  }

  // FileByte, with the address taken from the ownership table.
  ghost function TableByte(blocks: seq<Block>, table: Table, i: nat, x: nat): Byte
    requires x < 71680
  {
    var a := Get(table, Slot(i, SlotOf(x / 512)));
    if 0 < a < |blocks| then blocks[a][x % 512] else 0
  }

  // The first nb blocks of inode i hold c0 overwritten with `data` at off, then zeros.
  ghost predicate Image(blocks: seq<Block>, table: Table, i: nat, nb: nat, c0: seq<Byte>, off: nat, data: seq<Byte>) {
    forall x | 0 <= x < nb * 512 && x < 71680 ::
      TableByte(blocks, table, i, x) ==
        if off <= x < off + |data| then data[x - off] else if x < |c0| then c0[x] else 0
  }

  lemma HasBlocksGrow(table: Table, i: nat, n: nat, ind: nat, b: nat)
    requires HasBlocks(table, i, n) && NDIRECT <= n
    ensures n == NDIRECT ==> HasBlocks(table[Slot(i, NDIRECT) := ind][Slot(i, SlotOf(n)) := b], i, n + 1)
    ensures NDIRECT < n < MAXFILE ==> HasBlocks(table[Slot(i, SlotOf(n)) := b], i, n + 1)
  {
  }

  // The blocks and addresses of all inodes other than i are those of the earlier state.
  ghost predicate OthersKept(i: nat, table0: Table, blocks0: seq<Block>, inodes0: seq<Dinode>,
                             table1: Table, blocks1: seq<Block>, inodes1: seq<Dinode>) {
    && |blocks0| == |blocks1| && |inodes0| == |inodes1|
    && (forall j | 0 <= j < |inodes0| && j != i :: inodes1[j] == inodes0[j])
    && (forall s: Slot | s.ino != i :: s in table0 <==> s in table1)
    && (forall s: Slot | s.ino != i && s in table0 ::
          table1[s] == table0[s] && (table0[s] < |blocks0| ==> blocks1[table0[s]] == blocks0[table0[s]]))
  }

  // Inode i may have gained blocks; nothing it or any other inode had has moved or changed.
  ghost predicate Kept(i: nat, table0: Table, blocks0: seq<Block>, inodes0: seq<Dinode>,
                       table1: Table, blocks1: seq<Block>, inodes1: seq<Dinode>) {
    && OthersKept(i, table0, blocks0, inodes0, table1, blocks1, inodes1)
    && BlocksKept(i, table0, blocks0, table1, blocks1)
    && (i < |inodes0| ==> inodes1[i] == inodes0[i].(addrs := inodes1[i].addrs)
                          && RawKept(i, table0, blocks0, inodes0[i], blocks1, inodes1[i]))
  }

  lemma KeptSame(i: nat, table: Table, blocks: seq<Block>, inodes: seq<Dinode>)
    ensures Kept(i, table, blocks, inodes, table, blocks, inodes)
  {
  }

  lemma KeptTrans(i: nat, table0: Table, blocks0: seq<Block>, inodes0: seq<Dinode>,
                  table1: Table, blocks1: seq<Block>, inodes1: seq<Dinode>,
                  table2: Table, blocks2: seq<Block>, inodes2: seq<Dinode>)
    requires Kept(i, table0, blocks0, inodes0, table1, blocks1, inodes1)
    requires Kept(i, table1, blocks1, inodes1, table2, blocks2, inodes2)
    ensures Kept(i, table0, blocks0, inodes0, table2, blocks2, inodes2)
  {
  }

  // Mapping one more block in extends the image by zeros.
  lemma ImageGrow(blocks0: seq<Block>, table0: Table, blocks1: seq<Block>, table1: Table,
                  i: nat, nb: nat, nb': nat, c0: seq<Byte>, off: nat, data: seq<Byte>)
    requires Image(blocks0, table0, i, nb, c0, off, data)
    requires HasBlocks(table0, i, nb) && HasBlocks(table1, i, nb')
    requires BlocksKept(i, table0, blocks0, table1, blocks1) && |blocks0| == |blocks1|
    requires nb' == nb || nb' == nb + 1 <= MAXFILE
    requires nb' == nb + 1 ==> off + |data| <= nb * 512 && |c0| <= nb * 512
    requires nb' == nb + 1 ==> Get(table1, Slot(i, SlotOf(nb))) < |blocks1|
                               && blocks1[Get(table1, Slot(i, SlotOf(nb)))] == ZeroBlock()
    ensures Image(blocks1, table1, i, nb', c0, off, data)
  {
    forall x | 0 <= x < nb' * 512 && x < 71680
      ensures TableByte(blocks1, table1, i, x) ==
        if off <= x < off + |data| then data[x - off] else if x < |c0| then c0[x] else 0
    {
      if x < nb * 512 {
        assert Slot(i, SlotOf(x / 512)) in table0;
        assert TableByte(blocks1, table1, i, x) == TableByte(blocks0, table0, i, x);
      } else {
        assert x / 512 == nb;
      }
    }
  }

  // Copying the next bytes into their block extends the written part of the image.
  lemma ImagePut(blocks: seq<Block>, table: Table, owner: Owners, i: nat, nb: nat, c0: seq<Byte>, off: nat,
                 data: seq<Byte>,
                 bn: nat, o: nat, addr: nat, more: seq<Byte>)
    requires Image(blocks, table, i, nb, c0, off, data) && HasBlocks(table, i, nb)
    requires forall s | s in table :: table[s] in owner && owner[table[s]] == s
    requires off + |data| == bn * 512 + o && o + |more| <= 512 && bn < MAXFILE
    requires Slot(i, SlotOf(bn)) in table && 0 < addr == table[Slot(i, SlotOf(bn))] < |blocks|
    ensures Image(blocks[addr := Patch(blocks[addr], o, more)], table, i, nb, c0, off, data + more)
  {
    var blocks' := blocks[addr := Patch(blocks[addr], o, more)];
    forall x | 0 <= x < nb * 512 && x < 71680
      ensures TableByte(blocks', table, i, x) ==
        if off <= x < off + |data + more| then (data + more)[x - off] else if x < |c0| then c0[x] else 0
    {
      var s := Slot(i, SlotOf(x / 512));
      assert s in table;
      assert TableByte(blocks, table, i, x) == if off <= x < off + |data| then data[x - off]
             else if x < |c0| then c0[x] else 0;
      if x / 512 != bn {
        assert s != Slot(i, SlotOf(bn));
        assert table[s] != addr;
      }
    }
  }

  // File block bn matches the checksum in its address.
  ghost predicate SumRight(blocks: seq<Block>, d: Dinode, bn: nat) {
    bn < MAXFILE && var a := Addr(blocks, d, SlotOf(bn)); a < |blocks|
                                                          && StoredSum(Raw(blocks, d, SlotOf(bn))) == XorAll(blocks[a])
  }

  ghost predicate Summed(blocks: seq<Block>, d: Dinode, n: nat) {
    d.kind == T_CHECKED ==> forall bn | 0 <= bn < n && bn < MAXFILE :: SumRight(blocks, d, bn)
  }

  // Links do not matter to what a file holds.
  lemma SameFile(blocks: seq<Block>, d: Dinode, d': Dinode, table: Table, i: nat)
    requires d' == d.(nlink := d'.nlink) && Link(blocks, d, table, i) && WholeFile(blocks, d, table, i)
    ensures Link(blocks, d', table, i) && WholeFile(blocks, d', table, i) && Contents(blocks, d') == Contents(blocks, d)
  {
    hide Word;
    forall k | 0 <= k < NSLOTS
      ensures Raw(blocks, d', k) == Raw(blocks, d, k) && Addr(blocks, d', k) == Addr(blocks, d, k)
    {
    }
    forall x | 0 <= x < 71680 ensures FileByte(blocks, d', x) == FileByte(blocks, d, x) {
    }
    forall k | 0 <= k < NSLOTS ensures Leads(blocks, d', k, Get(table, Slot(i, k))) {
      assert Leads(blocks, d, k, Get(table, Slot(i, k)));
    }
    forall bn | 0 <= bn < BlocksFor(d.size) && d.kind == T_CHECKED ensures SumRight(blocks, d', bn) {
      assert SumRight(blocks, d, bn);
    }
  }

  /** A file has exactly the blocks its size calls for, the bytes of its last block past its end are zero,
      and if it is checked its checksums are right. */
  ghost predicate WholeFile(blocks: seq<Block>, d: Dinode, table: Table, i: nat) {
    && HasBlocks(table, i, BlocksFor(d.size))
    && (forall x | d.size <= x < 512 * BlocksFor(d.size) :: FileByte(blocks, d, x) == 0)
    && Summed(blocks, d, BlocksFor(d.size))
  }

  lemma LinkByte(blocks: seq<Block>, d: Dinode, table: Table, i: nat, x: nat)
    requires Link(blocks, d, table, i) && x < 71680
    ensures FileByte(blocks, d, x) == TableByte(blocks, table, i, x)
  {
    assert Leads(blocks, d, SlotOf(x / 512), Get(table, Slot(i, SlotOf(x / 512))));
  }

  // A whole file is the image of its own contents.
  lemma ImageStart(blocks: seq<Block>, d: Dinode, table: Table, i: nat, off: nat)
    requires Link(blocks, d, table, i) && WholeFile(blocks, d, table, i)
    ensures Image(blocks, table, i, BlocksFor(d.size), Contents(blocks, d), off, [])
  {
    forall x | 0 <= x < BlocksFor(d.size) * 512 && x < 71680
      ensures TableByte(blocks, table, i, x) == if x < d.size then Contents(blocks, d)[x] else 0 {
      LinkByte(blocks, d, table, i, x);
    }
  }

  // An image is a whole file holding the spliced bytes.
  lemma ImageEnd(blocks: seq<Block>, d: Dinode, table: Table, i: nat, c0: seq<Byte>, off: nat, data: seq<Byte>)
    requires off <= |c0|
    requires d.size == Max(|c0|, off + |data|)
    requires Link(blocks, d, table, i) && HasBlocks(table, i, BlocksFor(d.size))
    requires Image(blocks, table, i, BlocksFor(d.size), c0, off, data) && Summed(blocks, d, BlocksFor(d.size))
    ensures WholeFile(blocks, d, table, i)
    ensures Contents(blocks, d) == Splice(c0, off, data)
  {
    forall x | 0 <= x < 512 * BlocksFor(d.size)
      ensures FileByte(blocks, d, x) == if off <= x < off + |data| then data[x - off] else if x < |c0| then c0[x] else 0
    {
      LinkByte(blocks, d, table, i, x);
    }
  }

  // Every inode but i has the contents it had.
  ghost predicate OthersRead(i: nat, blocks0: seq<Block>, inodes0: seq<Dinode>, blocks1: seq<Block>,
                             inodes1: seq<Dinode>) {
    |inodes0| == |inodes1| && forall j | 0 <= j < |inodes0| && j != i ::
        Contents(blocks1, inodes1[j]) == Contents(blocks0, inodes0[j])
  }

  // An inode whose blocks are kept is as whole as before and has the same contents.
  lemma WholeKept(i: nat, j: nat, table0: Table, blocks0: seq<Block>, inodes0: seq<Dinode>,
                  table1: Table, blocks1: seq<Block>, inodes1: seq<Dinode>)
    requires OthersKept(i, table0, blocks0, inodes0, table1, blocks1, inodes1)
    requires j < |inodes0| && j != i
    requires Link(blocks0, inodes0[j], table0, j) && Link(blocks1, inodes1[j], table1, j)
    requires WholeFile(blocks0, inodes0[j], table0, j)
    ensures WholeFile(blocks1, inodes1[j], table1, j)
    ensures Contents(blocks1, inodes1[j]) == Contents(blocks0, inodes0[j])
  {
    forall x | 0 <= x < 71680
      ensures FileByte(blocks1, inodes1[j], x) == FileByte(blocks0, inodes0[j], x)
    {
      LinkByte(blocks0, inodes0[j], table0, j, x);
      LinkByte(blocks1, inodes1[j], table1, j, x);
    }
    forall bn | 0 <= bn < BlocksFor(inodes0[j].size) && bn < MAXFILE && inodes0[j].kind == T_CHECKED
      ensures SumRight(blocks1, inodes1[j], bn) {
      SumKept(i, j, table0, blocks0, inodes0, table1, blocks1, inodes1, bn);
    }
  }

  lemma SumKept(i: nat, j: nat, table0: Table, blocks0: seq<Block>, inodes0: seq<Dinode>,
                table1: Table, blocks1: seq<Block>, inodes1: seq<Dinode>, bn: nat)
    requires OthersKept(i, table0, blocks0, inodes0, table1, blocks1, inodes1)
    requires j < |inodes0| && j != i && Link(blocks0, inodes0[j], table0, j) && SumRight(blocks0, inodes0[j], bn)
    requires Slot(j, SlotOf(bn)) in table0
    ensures SumRight(blocks1, inodes1[j], bn)
  {
    var d, k := inodes0[j], SlotOf(bn);
    assert Leads(blocks0, d, NDIRECT, Get(table0, Slot(j, NDIRECT))) && Leads(blocks0, d, k, Get(table0, Slot(j, k)));
    assert Raw(blocks1, d, k) == Raw(blocks0, d, k);
  }

  // The old blocks that a write of [lo, hi) to a checked file touches have checksum zero.
  ghost predicate Clean(blocks: seq<Block>, d: Dinode, lo: nat, hi: nat) {
    d.kind == T_CHECKED ==>
      forall bn | 0 <= bn < BlocksFor(d.size) && bn < MAXFILE && lo < (bn + 1) * 512 && bn * 512 < hi ::
          StoredSum(Raw(blocks, d, SlotOf(bn))) == 0
  }

  lemma BlockEnd(pos: nat, bn: nat, o: nat, m: nat)
    ensures pos == bn * 512 + o && m == 512 - o ==> (pos + m) % 512 == 0
  {
  }

  // A block that exists when its round comes was there before the write.
  lemma OldBlock(size: nat, off: nat, tot: nat, nb: nat, bn: nat, o: nat)
    requires off <= size && Reaches(size, off + tot, nb)
    requires off + tot == bn * 512 + o && o < 512 && (tot == 0 || o == 0)
    ensures bn < nb ==> bn < BlocksFor(size)
    ensures bn <= nb && (bn == nb ==> o == 0 && size <= nb * 512)
  {
  }

  lemma CleanRound(blocks: seq<Block>, d: Dinode, off: nat, tot: nat, m: nat, bn: nat, o: nat)
    requires 0 < m && off + tot == bn * 512 + o && o + m <= 512 && (tot == 0 || o == 0) && bn < MAXFILE
    requires tot == 0 || Clean(blocks, d, off, off + tot)
    ensures Clean(blocks, d, off, off + tot + m)
            <==> d.kind == T_CHECKED && bn < BlocksFor(d.size) ==> StoredSum(Raw(blocks, d, SlotOf(bn))) == 0
  {
  }

  // An address that carries no checksum is a block number.
  lemma PlainAddr(kind: int, raw: Word32)
    ensures Real(kind, raw) == raw <==> kind != T_CHECKED || StoredSum(raw) == 0
  {
  }

  lemma LinkSize(blocks: seq<Block>, d: Dinode, table: Table, i: nat, size: FileSize)
    requires Link(blocks, d, table, i)
    ensures Link(blocks, d.(size := size), table, i)
  {
    forall k | 0 <= k < NSLOTS ensures Leads(blocks, d.(size := size), k, Get(table, Slot(i, k))) {
      assert Leads(blocks, d, k, Get(table, Slot(i, k)));
    }
  }

  lemma OthersKeptTrans(i: nat, table0: Table, blocks0: seq<Block>, inodes0: seq<Dinode>,
                        table1: Table, blocks1: seq<Block>, inodes1: seq<Dinode>,
                        table2: Table, blocks2: seq<Block>, inodes2: seq<Dinode>)
    requires OthersKept(i, table0, blocks0, inodes0, table1, blocks1, inodes1)
    requires OthersKept(i, table1, blocks1, inodes1, table2, blocks2, inodes2)
    ensures OthersKept(i, table0, blocks0, inodes0, table2, blocks2, inodes2)
  {
  }

  // File blocks of a file of `size` bytes once something is written up to `end`.
  function Reach(size: nat, end: nat): nat {
    Max(BlocksFor(size), BlocksFor(end))
  }

  // nb blocks are just enough to hold `size` bytes and to write up to `end`.
  ghost predicate Reaches(size: nat, end: nat, nb: nat) {
    && size <= nb * 512 && end <= nb * 512
    && (nb == 0 || (nb - 1) * 512 < size || (nb - 1) * 512 < end)
  }

  lemma ReachesMono(size: nat, end: nat, nb: nat, end': nat, nb': nat)
    requires Reaches(size, end, nb) && Reaches(size, end', nb') && end <= end'
    ensures DiskBlocks(nb) <= DiskBlocks(nb') && (end == end' ==> nb == nb')
  {
  }

  lemma TakeMore(s: seq<Byte>, k: nat, m: nat)
    requires k + m <= |s|
    ensures s[..k] + s[k..k + m] == s[..k + m]
  {
  }

  lemma ReachMax(size: nat, end: nat)
    ensures Reach(size, end) == BlocksFor(Max(size, end))
  {
  }

  lemma ReachReaches(size: nat, end: nat)
    ensures Reaches(size, end, Reach(size, end))
    ensures end <= size ==> Reach(size, end) == BlocksFor(size)
  {
  }

  // With no block added, the addresses in the inode lead to the same blocks.
  lemma AddrsSame(blocks0: seq<Block>, d0: Dinode, table0: Table, blocks1: seq<Block>, d1: Dinode, table1: Table,
                  i: nat, n0: nat, n1: nat)
    requires Link(blocks0, d0, table0, i) && Link(blocks1, d1, table1, i) && TableKept(table0, table1)
    requires HasBlocks(table0, i, n0) && HasBlocks(table1, i, n1)
    requires d0.kind == d1.kind != T_CHECKED
    ensures n0 == n1 ==> d0.addrs == d1.addrs
  {
    if n0 == n1 {
      forall k | 0 <= k <= NDIRECT ensures d0.addrs[k] == d1.addrs[k] {
        assert Leads(blocks0, d0, k, Get(table0, Slot(i, k))) && Leads(blocks1, d1, k, Get(table1, Slot(i, k)));
        assert k < NDIRECT ==> SlotOf(k) == k;
      }
    }
  }

  // Two stretches that meet.
  lemma Joined(c: seq<Byte>, off: nat, m: nat, n: nat)
    requires off + m + n <= |c|
    ensures c[off..off + m] + c[off + m..off + m + n] == c[off..off + m + n]
  {
  }

  // A stretch of the contents inside one block is a stretch of that block.
  lemma ContentsChunk(blocks: seq<Block>, d: Dinode, table: Table, i: nat, bn: nat, o: nat, m: nat)
    requires Link(blocks, d, table, i)
    requires o + m <= 512 && bn * 512 + o + m <= d.size <= 71680 && bn < MAXFILE
    requires Slot(i, SlotOf(bn)) in table && 0 < table[Slot(i, SlotOf(bn))] < |blocks|
    ensures Contents(blocks, d)[bn * 512 + o..bn * 512 + o + m] == blocks[table[Slot(i, SlotOf(bn))]][o..o + m]
  {
    var chunk := Contents(blocks, d)[bn * 512 + o..bn * 512 + o + m];
    forall x | 0 <= x < m ensures chunk[x] == blocks[table[Slot(i, SlotOf(bn))]][o + x] {
      LinkByte(blocks, d, table, i, bn * 512 + o + x);
    }
  }

  // The slots in `gone`, all of inode i, have given up their blocks, which are zeroed and free.
  ghost predicate Released(i: nat, gone: set<Slot>, table0: Table, owner0: Owners, bitmap0: seq<bool>,
                           blocks0: seq<Block>,
                           table1: Table, bitmap1: seq<bool>, blocks1: seq<Block>) {
    && Inverse(table0, owner0)
    && gone <= table0.Keys && (forall s | s in gone :: s.ino == i)
    && table1 == table0 - gone
    && |bitmap1| == |bitmap0| && |blocks1| == |blocks0|
    && (forall b | 0 <= b < |bitmap0| :: bitmap1[b] <==> bitmap0[b] && !(b in owner0 && owner0[b] in gone))
    && (forall b | 0 <= b < |blocks0| ::
        blocks1[b] == if b in owner0 && owner0[b] in gone then ZeroBlock() else blocks0[b])
  }

  lemma ReleaseOne(i: nat, gone: set<Slot>, s: Slot, table0: Table, owner0: Owners, bitmap0: seq<bool>,
                   blocks0: seq<Block>,
                   table1: Table, bitmap1: seq<bool>, blocks1: seq<Block>)
    requires Released(i, gone, table0, owner0, bitmap0, blocks0, table1, bitmap1, blocks1)
    requires s.ino == i && s in table1 && table1[s] < |blocks1| <= |bitmap1|
    ensures Released(i, gone + {s}, table0, owner0, bitmap0, blocks0, table1 - {s}, bitmap1[table1[s] := false],
                     blocks1[table1[s] := ZeroBlock()])
  {
  }

  // The first k addresses of inode i have been cleared, and nothing else.
  ghost predicate Cleared(inodes0: seq<Dinode>, inodes: seq<Dinode>, i: nat, k: nat) {
    && i < |inodes0| == |inodes| && inodes == inodes0[i := inodes[i]]
    && inodes[i] == inodes0[i].(addrs := inodes[i].addrs)
    && forall m | 0 <= m <= NDIRECT :: inodes[i].addrs[m] == if m < k then 0 else inodes0[i].addrs[m]
  }

  lemma ClearedNext(inodes0: seq<Dinode>, inodes: seq<Dinode>, i: nat, k: nat)
    requires Cleared(inodes0, inodes, i, k) && k < NDIRECT
    ensures Cleared(inodes0, inodes[i := inodes[i].(addrs := inodes[i].addrs[k := 0])], i, k + 1)
  {
  }

  lemma EmptiedBy(i: nat, gone: set<Slot>, table0: Table, owner0: Owners, bitmap0: seq<bool>, blocks0: seq<Block>,
                  table: Table, bitmap: seq<bool>, blocks: seq<Block>, bn: nat)
    requires Released(i, gone, table0, owner0, bitmap0, blocks0, table, bitmap, blocks) && Inverse(table0, owner0)
    requires forall s | s in table0 && s.ino == i :: s in gone <==> s.k < SlotOf(bn) && s.k != NDIRECT
    ensures blocks == Emptied(blocks0, owner0, i, bn)
  {
  }

  // The address of file block bn, direct or behind the indirect one.
  lemma RawIs(blocks: seq<Block>, d: Dinode, bn: nat)
    requires bn < MAXFILE && d.addrs[NDIRECT] < |blocks|
    ensures Raw(blocks, d, SlotOf(bn)) == if bn < NDIRECT then d.addrs[bn]
            else if d.addrs[NDIRECT] == 0 then 0 else Word(blocks[d.addrs[NDIRECT]], bn - NDIRECT)
  {
  }

  // Dropping a slot of another inode leaves inode j linked.
  lemma LinkOther(blocks: seq<Block>, d: Dinode, table: Table, j: nat, s: Slot)
    requires Link(blocks, d, table, j) && s.ino != j
    ensures Link(blocks, d, table - {s}, j)
  {
    forall k | 0 <= k < NSLOTS ensures Leads(blocks, d, k, Get(table - {s}, Slot(j, k))) {
      assert Leads(blocks, d, k, Get(table, Slot(j, k)));
    }
  }

  // The address `raw` of an inode of the type stands for block b, or for none if b is 0.
  predicate StandsFor(kind: int, raw: Word32, b: nat) {
    Real(kind, raw) == b && (b == 0 ==> raw == 0)
  }

  // The address is a block number, with no checksum in it.
  predicate Bare(kind: int, raw: Word32) {
    Real(kind, raw) == raw
  }

  ghost predicate AllBare(kind: int, raws: seq<Word32>, n: nat)
    requires n <= |raws|
  {
    forall k | 0 <= k < n :: Bare(kind, raws[k])
  }

  // All addresses of a whole file are block numbers exactly when no block of it has a checksum other than zero.
  lemma CleanIff(blocks: seq<Block>, d: Dinode, table: Table, i: nat)
    requires Link(blocks, d, table, i) && HasBlocks(table, i, BlocksFor(d.size))
    ensures Clean(blocks, d, 0, d.size) <==> forall bn | 0 <= bn < MAXFILE :: Bare(d.kind, Raw(blocks, d, SlotOf(bn)))
  {
    hide Word;
    forall bn | 0 <= bn < MAXFILE ensures bn >= BlocksFor(d.size) ==> Raw(blocks, d, SlotOf(bn)) == 0 {
      assert Leads(blocks, d, SlotOf(bn), Get(table, Slot(i, SlotOf(bn))));
    }
    assert forall raw: Word32 :: Bare(d.kind, raw) <==> d.kind != T_CHECKED || StoredSum(raw) == 0;
  }

  // What the indirect pointer of a linked inode says about its slots.
  lemma IndirectEntries(blocks: seq<Block>, d: Dinode, table: Table, i: nat)
    requires Link(blocks, d, table, i)
    requires forall s | s in table :: s.k < NSLOTS && 0 < table[s] < |blocks|
    ensures d.addrs[NDIRECT] == Get(table, Slot(i, NDIRECT))
    ensures d.addrs[NDIRECT] == 0 ==> forall s | s in table && s.ino == i :: s.k < NDIRECT
    ensures 0 < d.addrs[NDIRECT] < |blocks| ==>
            forall j | 0 <= j < NINDIRECT ::
              StandsFor(d.kind, Word(blocks[d.addrs[NDIRECT]], j), Get(table, Slot(i, NDIRECT + 1 + j)))
  {
    assert Leads(blocks, d, NDIRECT, Get(table, Slot(i, NDIRECT)));
    forall j | 0 <= j < NINDIRECT && 0 < d.addrs[NDIRECT] < |blocks|
      ensures StandsFor(d.kind, Word(blocks[d.addrs[NDIRECT]], j), Get(table, Slot(i, NDIRECT + 1 + j)))
    {
      assert Leads(blocks, d, NDIRECT + 1 + j, Get(table, Slot(i, NDIRECT + 1 + j)));
    }
    if d.addrs[NDIRECT] == 0 {
      forall s | s in table && s.ino == i ensures s.k < NDIRECT {
        assert Leads(blocks, d, s.k, Get(table, Slot(i, s.k)));
      }
    }
  }

  // The blocks that belong to inode i, its indirect block included.
  ghost function BlocksOf(i: nat, owner: Owners): set<nat> {
    set b | b in owner && owner[b].ino == i
  }

  // No block is reachable from two places: equal addresses come from the same slot of the same inode.
  lemma OwnedOnce(blocks: seq<Block>, inodes: seq<Dinode>, table: Table, owner: Owners, i: nat, k: nat, j: nat, l: nat)
    requires Inverse(table, owner)
    requires i < |inodes| && j < |inodes| && k < NSLOTS && l < NSLOTS
    requires Link(blocks, inodes[i], table, i) && Link(blocks, inodes[j], table, j)
    ensures Addr(blocks, inodes[i], k) == Addr(blocks, inodes[j], l) != 0 ==> i == j && k == l
  {
    assert Leads(blocks, inodes[i], k, Get(table, Slot(i, k))) && Leads(blocks, inodes[j], l, Get(table, Slot(j, l)));
  }

  // When an inode has released everything, the free blocks have grown by exactly its blocks.
  lemma ReleasedAll(i: nat, gone: set<Slot>, table0: Table, owner0: Owners, bitmap0: seq<bool>, blocks0: seq<Block>,
                    table1: Table, bitmap1: seq<bool>, blocks1: seq<Block>, size: nat, meta: nat)
    requires Released(i, gone, table0, owner0, bitmap0, blocks0, table1, bitmap1, blocks1)
    requires Partition(table0, owner0, bitmap0, meta, size) && size <= |bitmap0|
    requires forall s | s in table0 && s.ino == i :: s in gone
    ensures FreeBlocks(bitmap1, size) == FreeBlocks(bitmap0, size) + BlocksOf(i, owner0)
    ensures FreeBlocks(bitmap0, size) !! BlocksOf(i, owner0)
  {
  }

  function Clip(x: int, n: nat): nat {
    if x < 0 then 0 else if x > n then n else x
  }

  // What of the bytes s, from place `at` of a file on, lies in file block bn.
  function Part(s: seq<Byte>, at: nat, bn: nat): seq<Byte> {
    s[Clip(512 * bn - at, |s|)..Clip(512 * bn + 512 - at, |s|)]
  }

  /** In every direct block the bytes written have the same exclusive or as those they replace. */
  ghost predicate KeepsSums(c: seq<Byte>, off: nat, data: seq<Byte>)
    requires off + |data| <= |c|
  {
    forall bn | 0 <= bn < NDIRECT :: XorAll(Part(data, off, bn)) == XorAll(Part(c[off..off + |data|], off, bn))
  }

  // File block bn of a file that holds c.
  ghost function BlockOf(c: seq<Byte>, bn: nat): Block {
    seq(512, x requires 0 <= x < 512 => if 512 * bn + x < |c| then c[512 * bn + x] else 0)
  }

  lemma PartChanged(c: seq<Byte>, off: nat, data: seq<Byte>, bn: nat)
    requires off + |data| <= |c|
    ensures XorAll(BlockOf(Splice(c, off, data), bn)) == XorAll(BlockOf(c, bn))
            <==> XorAll(Part(data, off, bn)) == XorAll(Part(c[off..off + |data|], off, bn))
  {
    var b, was := BlockOf(c, bn), c[off..off + |data|];
    var lo, hi := Clip(off - 512 * bn, 512), Clip(off + |data| - 512 * bn, 512);
    PartSplit(c, off, data, bn);
    PartSplit(c, off, was, bn);
    assert Splice(c, off, was) == c;
    hide BlockOf, Part, Clip, Splice;
    XorAllMiddle(b[..lo], Part(data, off, bn), Part(was, off, bn), b[hi..]);
  }

  // Block bn after data is spliced in.
  lemma PartSplit(c: seq<Byte>, off: nat, data: seq<Byte>, bn: nat)
    requires off + |data| <= |c|
    ensures var lo, hi := Clip(off - 512 * bn, 512), Clip(off + |data| - 512 * bn, 512);
            && 0 <= lo <= hi <= 512 && |Part(data, off, bn)| == hi - lo
            && BlockOf(Splice(c, off, data), bn) == BlockOf(c, bn)[..lo] + (Part(data, off, bn) + BlockOf(c, bn)[hi..])
  {
    var lo, hi := Clip(off - 512 * bn, 512), Clip(off + |data| - 512 * bn, 512);
    var b, b', part := BlockOf(c, bn), BlockOf(Splice(c, off, data), bn), Part(data, off, bn);
    assert |part| == hi - lo;
    forall x | 0 <= x < 512 ensures b'[x] == (b[..lo] + (part + b[hi..]))[x] {
    }
    assert |b[..lo] + (part + b[hi..])| == 512;
  }

  // Block bn of a whole file.
  lemma BlockOfIs(blocks: seq<Block>, d: Dinode, table: Table, i: nat, bn: nat)
    requires Link(blocks, d, table, i) && WholeFile(blocks, d, table, i) && bn < BlocksFor(d.size)
    requires forall s | s in table :: 0 < table[s] < |blocks|
    ensures 0 < Addr(blocks, d, SlotOf(bn)) < |blocks|
            && blocks[Addr(blocks, d, SlotOf(bn))] == BlockOf(Contents(blocks, d), bn)
  {
    assert Slot(i, SlotOf(bn)) in table && Leads(blocks, d, SlotOf(bn), Get(table, Slot(i, SlotOf(bn))));
    var b := blocks[Addr(blocks, d, SlotOf(bn))];
    forall x | 0 <= x < 512 ensures b[x] == BlockOf(Contents(blocks, d), bn)[x] {
      assert (512 * bn + x) / 512 == bn && (512 * bn + x) % 512 == x;
      assert b[x] == FileByte(blocks, d, 512 * bn + x);
    }
  }

  // Address bn of a checked file before and after a write that adds no block: it changes with the checksum alone.
  lemma AddressKept(blocks0: seq<Block>, d0: Dinode, table0: Table, blocks: seq<Block>, d: Dinode, table: Table, i: nat,
                    off: nat, data: seq<Byte>, bn: nat)
    requires Link(blocks0, d0, table0, i) && WholeFile(blocks0, d0, table0, i)
    requires Link(blocks, d, table, i) && WholeFile(blocks, d, table, i) && TableKept(table0, table)
    requires d0.kind == d.kind == T_CHECKED && d0.size == d.size && bn <= NDIRECT
    requires (forall s | s in table0 :: 0 < table0[s] < |blocks0|) && (forall s | s in table :: 0 < table[s] < |blocks|)
    requires off + |data| <= d0.size && Contents(blocks, d) == Splice(Contents(blocks0, d0), off, data)
    ensures d.addrs[bn] == d0.addrs[bn] <==>
            (bn < NDIRECT ==> XorAll(Part(data, off, bn))
                              == XorAll(Part(Contents(blocks0, d0)[off..off + |data|], off, bn)))
  {
    hide Part, Contents, Splice, BlockOf, FileByte;
    var n := BlocksFor(d0.size);
    assert Leads(blocks0, d0, bn, Get(table0, Slot(i, bn))) && Leads(blocks, d, bn, Get(table, Slot(i, bn)));
    assert bn < NDIRECT ==> SlotOf(bn) == bn;
    if bn < NDIRECT && bn < n {
      BlockOfIs(blocks0, d0, table0, i, bn);
      BlockOfIs(blocks, d, table, i, bn);
      PartChanged(Contents(blocks0, d0), off, data, bn);
      assert SumRight(blocks0, d0, bn) && SumRight(blocks, d, bn);
      SynthSplit(d0.addrs[bn], 0);
      SynthSplit(d.addrs[bn], 0);
    } else if bn < NDIRECT {
      PartNone(data, off, bn);
      PartNone(Contents(blocks0, d0)[off..off + |data|], off, bn);
    }
  }

  lemma PartNone(s: seq<Byte>, at: nat, bn: nat)
    requires at + |s| <= 512 * bn
    ensures Part(s, at, bn) == []
  {
  }

  /** A write that ends inside a checked file leaves the addresses in the inode as they were, and so the inode on disk
      right, if and only if in every direct block it replaces bytes by others with the same exclusive or. */
  lemma AddressesKeptIff(blocks0: seq<Block>, d0: Dinode, table0: Table, blocks: seq<Block>, d: Dinode, table: Table,
                         i: nat, off: nat, data: seq<Byte>)
    requires Link(blocks0, d0, table0, i) && WholeFile(blocks0, d0, table0, i)
    requires Link(blocks, d, table, i) && WholeFile(blocks, d, table, i) && TableKept(table0, table)
    requires d0.kind == d.kind == T_CHECKED && d0.size == d.size
    requires (forall s | s in table0 :: 0 < table0[s] < |blocks0|) && (forall s | s in table :: 0 < table[s] < |blocks|)
    requires off + |data| <= d0.size && Contents(blocks, d) == Splice(Contents(blocks0, d0), off, data)
    ensures d.addrs == d0.addrs <==> KeepsSums(Contents(blocks0, d0), off, data)
  {
    hide Part, Contents, Splice, Link, WholeFile, TableKept;
    forall bn | 0 <= bn <= NDIRECT
      ensures d.addrs[bn] == d0.addrs[bn] <==>
              (bn < NDIRECT ==> XorAll(Part(data, off, bn))
                                == XorAll(Part(Contents(blocks0, d0)[off..off + |data|], off, bn)))
    {
      AddressKept(blocks0, d0, table0, blocks, d, table, i, off, data, bn);
    }
  }

  // How a loop of itrunc goes: on, to a panic, or to a call of bfree with a number that is not a block's.
  datatype Stop = Goes | Halts | Stray(raw: Word32)

  /** How itrunc goes. With a number that is not a block's, bfree panics, or it clears a bit of a block that is no
      bitmap block, or it looks at a block of which a volume says nothing. */
  datatype Truncation = Truncated | Panics(raw: Word32) | Clears(raw: Word32) | Strays(raw: Word32)

  // The block in which bfree looks for the bit of block b.
  function BitmapBlock(b: Word32, ninodes: nat): nat {
    b / BPB + ninodes / 8 + 3
  }

  function Pow(n: nat): (p: nat)
    ensures p > 0
  {
    if n == 0 then 1 else 2 * Pow(n - 1)
  }

  // Bit number k of a block.
  predicate Bit(b: Block, k: nat)
    requires k < BPB
  {
    b[k / 8] / Pow(k % 8) % 2 == 1
  }

  // What bfree does with the number raw. It zeroes block raw first, which can be the same sector of the disk.
  function StrayFate(blocks: seq<Block>, meta: nat, ninodes: nat, raw: Word32): Truncation {
    var b := BitmapBlock(raw, ninodes);
    if !(meta <= b < |blocks|) then Strays(raw)
    else if !Bit(blocks[b], raw % BPB) then Panics(raw)
    else if b == RealAddr(raw) then Strays(raw)
    else Clears(raw)
  }

  /** What bfree makes of a number: it looks for its bit at sector n / 4096 + inodes / 8 + 3, as balloc lays the bitmap
      out, and panics exactly if that is a block of the device past the bitmap and has the bit clear. */
  lemma StrayFateIs(blocks: seq<Block>, meta: nat, ninodes: nat, raw: Word32)
    ensures var b, fate := raw / 4096 + ninodes / 8 + 3, StrayFate(blocks, meta, ninodes, raw);
            && (b < meta || |blocks| <= b ==> fate == Strays(raw))
            && (meta <= b < |blocks| ==>
                var byte: int, bit := blocks[b][raw % 4096 / 8], [1, 2, 4, 8, 16, 32, 64, 128][raw % 8];
                && (fate == Panics(raw) <==> byte / bit % 2 == 0)
                && (fate == Clears(raw) <==> byte / bit % 2 == 1 && b != raw % 0x100_0000))
  {
    assert Pow(0) == 1 && Pow(1) == 2 && Pow(2) == 4 && Pow(3) == 8;
    assert Pow(4) == 16 && Pow(5) == 32 && Pow(6) == 64 && Pow(7) == 128;
    assert raw % 4096 % 8 == raw % 8;
  }

  /** A number with a checksum in it never leads bfree to the bitmap of a volume with 24-bit block numbers: it looks
      4096 blocks further on for each unit of the checksum, at the same bit. */
  lemma StrayBit(raw: Word32, ninodes: nat, size: nat)
    requires StoredSum(raw) != 0 && RealAddr(raw) < size <= 0x100_0000
    ensures BitmapBlock(raw, ninodes) == BitmapBlock(RealAddr(raw), ninodes) + 4096 * StoredSum(raw)
    ensures raw % BPB == RealAddr(raw) % BPB
    ensures forall b: Word32 | b < size :: BitmapBlock(b, ninodes) < BitmapBlock(raw, ninodes)
  {
  }

  // The blocks once itrunc has freed the file blocks below bn of inode i.
  ghost function Emptied(blocks: seq<Block>, owner: Owners, i: nat, bn: nat): seq<Block> {
    seq(|blocks|, b requires 0 <= b < |blocks| =>
      if b in owner && owner[b].ino == i && owner[b].k < SlotOf(bn) && owner[b].k != NDIRECT then ZeroBlock()
      else blocks[b])
  }

  // File block bn is the first with a checksum other than zero.
  ghost predicate FirstSummed(blocks: seq<Block>, d: Dinode, bn: nat) {
    && bn < MAXFILE && !Bare(d.kind, Raw(blocks, d, SlotOf(bn)))
    && forall b | 0 <= b < bn :: Bare(d.kind, Raw(blocks, d, SlotOf(b)))
  }

  /** What balloc does: it gives a block of the device, it panics, or it gives the number of a block past the end of
      the device, whose bit in the last bitmap block is clear. */
  datatype Grant = Given | NoBlocks | PastEnd

  // What it does when no block of the device is free.
  function Short(size: nat): Grant {
    if size % BPB == 0 then NoBlocks else PastEnd
  }

  datatype Step = Went | Full(g: Grant) | Astray

  datatype Outcome = Done(count: nat) | Refused | Misaddressed | Panicked | PastDevice

  method GenChecksum(b: Block) returns (sum: Byte)
    ensures sum == XorAll(b)
  {
    sum := 0;
    var i := 0;
    while i < 512
      invariant 0 <= i <= 512 && sum == XorAll(b[..i])
    {
      XorAllNext(b, i);
      sum := XorByte(sum, b[i]);
      i := i + 1;
    }
    assert b[..512] == b;
  }

  // A new inode.
  function Fresh(kind: int): Dinode {
    Dinode(kind, 0, 0, 0, 0, seq(13, _ => 0))
  }

  lemma FreshWhole(blocks: seq<Block>, table: Table, i: nat, kind: int)
    requires HasBlocks(table, i, 0)
    ensures Link(blocks, Fresh(kind), table, i) && WholeFile(blocks, Fresh(kind), table, i)
  {
    forall k | 0 <= k < NSLOTS ensures Leads(blocks, Fresh(kind), k, Get(table, Slot(i, k))) {
      assert k < NDIRECT ==> SlotOf(k) == k;
      assert k > NDIRECT ==> SlotOf(k - 1) == k;
    }
  }

  // All addresses of inode i but the one in slot s are as they were.
  ghost predicate RawElse(i: nat, s: nat, table: Table, blocks0: seq<Block>, d0: Dinode, blocks1: seq<Block>,
                          d1: Dinode) {
    forall k | 0 <= k < NSLOTS && k != s && Slot(i, k) in table :: Raw(blocks1, d1, k) == Raw(blocks0, d0, k)
  }

  // All file blocks of inode i but block bn hold what they held.
  ghost predicate DataKept(i: nat, bn: int, table: Table, blocks0: seq<Block>, blocks1: seq<Block>) {
    |blocks0| == |blocks1| && forall b | 0 <= b < MAXFILE && b != bn && Slot(i, SlotOf(b)) in table ::
        SameAt(table[Slot(i, SlotOf(b))], blocks0, blocks1)
  }

  ghost predicate SameAt(a: nat, blocks0: seq<Block>, blocks1: seq<Block>) {
    a < |blocks0| && a < |blocks1| ==> blocks1[a] == blocks0[a]
  }

  lemma DataElse(i: nat, bn: nat, table: Table, owner: Owners, blocks0: seq<Block>, blocks1: seq<Block>, addr: nat)
    requires Inverse(table, owner) && bn < MAXFILE && Slot(i, SlotOf(bn)) in table
             && addr == table[Slot(i, SlotOf(bn))] < |blocks0|
    requires |blocks1| == |blocks0| && blocks1 == blocks0[addr := blocks1[addr]]
    ensures DataKept(i, bn, table, blocks0, blocks1)
  {
    forall b | 0 <= b < MAXFILE && b != bn && Slot(i, SlotOf(b)) in table
      ensures SameAt(table[Slot(i, SlotOf(b))], blocks0, blocks1) {
      assert Slot(i, SlotOf(b)) != Slot(i, SlotOf(bn));
    }
  }

  // A checksum in the address of a direct block.
  lemma SumSlot(blocks: seq<Block>, d: Dinode, table: Table, i: nat, bn: nat, sum: Byte)
    requires Link(blocks, d, table, i) && bn < NDIRECT && d.kind == T_CHECKED && Get(table, Slot(i, bn)) != 0
    ensures var d' := d.(addrs := d.addrs[bn := SynthAddr(d.addrs[bn], sum)]);
            Link(blocks, d', table, i) && RawElse(i, bn, table, blocks, d, blocks, d')
  {
    var d' := d.(addrs := d.addrs[bn := SynthAddr(d.addrs[bn], sum)]);
    SynthSplit(d.addrs[bn], sum);
    forall k | 0 <= k < NSLOTS ensures Leads(blocks, d', k, Get(table, Slot(i, k))) {
      assert Leads(blocks, d, k, Get(table, Slot(i, k)));
    }
  }

  // And in an entry of the indirect block.
  lemma SumEntry(blocks: seq<Block>, d: Dinode, table: Table, i: nat, j: nat, sum: Byte)
    requires Link(blocks, d, table, i) && j < NINDIRECT && d.kind == T_CHECKED
             && Get(table, Slot(i, NDIRECT + 1 + j)) != 0
    requires 0 < d.addrs[NDIRECT] < |blocks|
    ensures var ind := d.addrs[NDIRECT];
            var blocks' := blocks[ind := SetWord(blocks[ind], j, SynthAddr(Word(blocks[ind], j), sum))];
            && Link(blocks', d, table, i) && RawElse(i, NDIRECT + 1 + j, table, blocks, d, blocks', d)
            && Raw(blocks', d, NDIRECT + 1 + j) == SynthAddr(Raw(blocks, d, NDIRECT + 1 + j), sum)
  {
    hide Word, SetWord, SynthAddr, RealAddr, StoredSum;
    var ind := d.addrs[NDIRECT];
    var w := SynthAddr(Word(blocks[ind], j), sum);
    var blocks' := blocks[ind := SetWord(blocks[ind], j, w)];
    SynthSplit(Word(blocks[ind], j), sum);
    forall k | 0 <= k < NSLOTS ensures Raw(blocks', d, k) == if k == NDIRECT + 1 + j then w else Raw(blocks, d, k) {
      EntryRaw(blocks, d, j, w, k);
    }
    forall k | 0 <= k < NSLOTS ensures Leads(blocks', d, k, Get(table, Slot(i, k))) {
      assert Leads(blocks, d, k, Get(table, Slot(i, k)));
    }
  }

  lemma ImageSame(blocks: seq<Block>, blocks': seq<Block>, table: Table, i: nat, nb: nat, c0: seq<Byte>, off: nat,
                  data: seq<Byte>)
    requires Image(blocks, table, i, nb, c0, off, data) && HasBlocks(table, i, nb)
             && DataKept(i, -1, table, blocks, blocks')
    ensures Image(blocks', table, i, nb, c0, off, data)
  {
    forall x | 0 <= x < nb * 512 && x < 71680
      ensures TableByte(blocks', table, i, x) == TableByte(blocks, table, i, x) {
      assert Slot(i, SlotOf(x / 512)) in table && SameAt(table[Slot(i, SlotOf(x / 512))], blocks, blocks');
    }
  }

  // A checked file with one block and its checksum rewritten.
  lemma SummedStored(blocks0: seq<Block>, d0: Dinode, blocks1: seq<Block>, blocks2: seq<Block>, d2: Dinode,
                     table: Table, i: nat, nb: nat, bn: nat, sum: Byte)
    requires Link(blocks0, d0, table, i) && Link(blocks2, d2, table, i) && d2.kind == d0.kind == T_CHECKED
    requires HasBlocks(table, i, nb) && bn < nb <= MAXFILE && Summed(blocks0, d0, nb)
    requires DataKept(i, bn, table, blocks0, blocks1) && DataKept(i, -1, table, blocks1, blocks2)
    requires RawElse(i, SlotOf(bn), table, blocks0, d0, blocks2, d2)
    requires table[Slot(i, SlotOf(bn))] < |blocks1|
             && sum == XorAll(blocks1[table[Slot(i, SlotOf(bn))]]) == StoredSum(Raw(blocks2, d2, SlotOf(bn)))
    ensures Summed(blocks2, d2, nb)
  {
    forall b | 0 <= b < nb && b < MAXFILE ensures SumRight(blocks2, d2, b) {
      assert Leads(blocks2, d2, SlotOf(b), table[Slot(i, SlotOf(b))])
             && Leads(blocks0, d0, SlotOf(b), table[Slot(i, SlotOf(b))]);
      assert SameAt(table[Slot(i, SlotOf(b))], blocks1, blocks2);
      if b != bn {
        assert SumRight(blocks0, d0, b) && SameAt(table[Slot(i, SlotOf(b))], blocks0, blocks1)
               && SlotOf(b) != SlotOf(bn);
      }
    }
  }

  // A block just mapped in is zero and so is its checksum.
  lemma SummedGrow(blocks0: seq<Block>, d0: Dinode, table0: Table, blocks1: seq<Block>, d1: Dinode, table1: Table,
                   i: nat, nb: nat, nb': nat)
    requires Summed(blocks0, d0, nb) && d1.kind == d0.kind && nb <= nb' <= nb + 1 && nb' <= MAXFILE
             && |blocks0| == |blocks1|
    requires Link(blocks0, d0, table0, i) && Link(blocks1, d1, table1, i) && HasBlocks(table0, i, nb)
             && BlocksKept(i, table0, blocks0, table1, blocks1)
    requires RawKept(i, table0, blocks0, d0, blocks1, d1)
    requires nb' == nb + 1 ==> var a := Raw(blocks1, d1, SlotOf(nb)); a < |blocks1| && blocks1[a] == ZeroBlock()
                                                                      && Real(d1.kind, a) == a
    ensures Summed(blocks1, d1, nb')
  {
    forall b | 0 <= b < nb' && b < MAXFILE && d0.kind == T_CHECKED ensures SumRight(blocks1, d1, b) {
      if b < nb {
        assert Slot(i, SlotOf(b)) in table0;
        SumStays(blocks0, d0, table0, blocks1, d1, table1, i, b);
      } else {
        FreshSum(blocks1, d1, nb);
      }
    }
  }

  lemma SumStays(blocks0: seq<Block>, d0: Dinode, table0: Table, blocks1: seq<Block>, d1: Dinode, table1: Table,
                 i: nat, b: nat)
    requires SumRight(blocks0, d0, b) && d1.kind == d0.kind && |blocks0| == |blocks1| && Slot(i, SlotOf(b)) in table0
    requires Link(blocks0, d0, table0, i) && BlocksKept(i, table0, blocks0, table1, blocks1)
             && RawKept(i, table0, blocks0, d0, blocks1, d1)
    ensures SumRight(blocks1, d1, b)
  {
    hide Word, RealAddr, StoredSum;
    assert Leads(blocks0, d0, SlotOf(b), Get(table0, Slot(i, SlotOf(b))));
  }

  lemma FreshSum(blocks: seq<Block>, d: Dinode, b: nat)
    requires b < MAXFILE && var a := Raw(blocks, d, SlotOf(b)); a < |blocks| && blocks[a] == ZeroBlock()
                                                                && Real(d.kind, a) == a && d.kind == T_CHECKED
    ensures SumRight(blocks, d, b)
  {
    ZeroSum();
    PlainAddr(d.kind, Raw(blocks, d, SlotOf(b)));
  }

  lemma ZeroSum()
    ensures XorAll(ZeroBlock()) == 0
  {
    XorAllZeros(512);
    assert ZeroBlock() == seq(512, _ => 0 as Byte);
  }

  lemma SummedSize(blocks: seq<Block>, d: Dinode, d': Dinode, n: nat)
    requires Summed(blocks, d, n) && d' == d.(size := d'.size)
    ensures Summed(blocks, d', n)
  {
    forall bn | 0 <= bn < n && bn < MAXFILE && d'.kind == T_CHECKED ensures SumRight(blocks, d', bn) {
      assert SumRight(blocks, d, bn);
    }
  }

  // The old blocks from byte `from` on have the addresses they had.
  ghost predicate Pending(blocks: seq<Block>, d: Dinode, blocks0: seq<Block>, d0: Dinode, from: nat) {
    forall bn | 0 <= bn < BlocksFor(d0.size) && bn < MAXFILE && bn * 512 >= from ::
        Raw(blocks, d, SlotOf(bn)) == Raw(blocks0, d0, SlotOf(bn))
  }

  lemma PendingNext(blocks: seq<Block>, d: Dinode, blocks': seq<Block>, d': Dinode, blocks0: seq<Block>, d0: Dinode,
                    table: Table, table0: Table, i: nat,
                    off: nat, tot: nat, m: nat, bn: nat, o: nat)
    requires Pending(blocks, d, blocks0, d0, if tot == 0 then 0 else off + tot)
             && RawElse(i, SlotOf(bn), table, blocks, d, blocks', d')
    requires TableKept(table0, table) && HasBlocks(table0, i, BlocksFor(d0.size))
    requires 0 < m && off + tot == bn * 512 + o && o + m <= 512
    ensures Pending(blocks', d', blocks0, d0, off + tot + m)
  {
    forall b | 0 <= b < BlocksFor(d0.size) && b < MAXFILE && b * 512 >= off + tot + m
      ensures Raw(blocks', d', SlotOf(b)) == Raw(blocks0, d0, SlotOf(b)) {
      assert b > bn && SlotOf(b) != SlotOf(bn) && Slot(i, SlotOf(b)) in table0;
    }
  }

  ghost function Between(lo: nat, hi: nat): set<nat> {
    set b: nat {:trigger b in Between(lo, hi)} | lo <= b < hi
  }

  class Volume {
    const size: nat
    const meta: nat
    const ninodes: nat
    var bitmap: seq<bool>
    var blocks: seq<Block>
    var dinodes: seq<Dinode>
    var inodes: seq<Dinode>
    ghost var table: Table
    ghost var owner: Owners

    ghost predicate Shape()
      reads this
    {
      && 2 <= meta <= size <= |bitmap| && size <= UINT_LIMIT
      && |bitmap| % BPB == 0 && |bitmap| < size + BPB
      && |blocks| == size
      && |dinodes| == |inodes| == ninodes
      && (forall s | s in table :: s.ino < ninodes && s.k < NSLOTS)
    }

    ghost predicate Linked(i: nat)
      reads this
    {
      i < |inodes| && Link(blocks, inodes[i], table, i) && (inodes[i].kind == T_CHECKED ==> size <= 0x100_0000)
    }

    // The inode on disk is the one in memory.
    ghost predicate Synced(i: nat)
      reads this
    {
      i < |inodes| == |dinodes| && dinodes[i] == inodes[i]
    }

    // Ownership, for every inode but `skip` whose addresses may be in flux.
    ghost predicate Core(skip: int)
      reads this
    {
      && Shape()
      && Partition(table, owner, bitmap, meta, size)
      && (forall i | 0 <= i < ninodes && i != skip :: Linked(i))
      && (forall b | 0 <= b < size && !bitmap[b] :: blocks[b] == ZeroBlock())
    }

    ghost predicate Whole(i: nat)
      reads this
    {
      i < |inodes| && WholeFile(blocks, inodes[i], table, i)
    }

    ghost predicate Valid()
      reads this
    {
      && Core(-1)
      && (forall i | 0 <= i < ninodes :: Whole(i))
    }

    // An empty volume: metadata blocks in use, every other block free and zero, no inode allocated.
    constructor (size: nat, meta: nat, ninodes: nat)
      requires 2 <= meta <= size <= UINT_LIMIT
      ensures Valid() && forall i | 0 <= i < ninodes :: Synced(i)
      ensures this.size == size && this.meta == meta && this.ninodes == ninodes
      ensures Free() == Between(meta, size) && forall i | 0 <= i < ninodes :: inodes[i] == Fresh(0)
    {
      this.size, this.meta, this.ninodes := size, meta, ninodes;
      bitmap := seq((size + BPB - 1) / BPB * BPB, b => b < meta);
      blocks := seq(size, _ => ZeroBlock());
      dinodes := seq(ninodes, _ => Fresh(0));
      inodes := seq(ninodes, _ => Fresh(0));
      table, owner := map[], map[];
    }

    ghost function Free(): set<nat>
      reads this
    {
      FreeBlocks(bitmap, size)
    }

    // Allocate a disk block: the first clear bit, over whole bitmap blocks.
    method BAlloc() returns (found: bool, b: nat)
      requires Shape()
      modifies this`bitmap
      ensures found <==> exists x :: 0 <= x < |old(bitmap)| && !old(bitmap)[x]
      ensures !found ==> bitmap == old(bitmap)
      ensures found ==> b < |old(bitmap)| && !old(bitmap)[b] && (forall x | 0 <= x < b :: old(bitmap)[x])
      ensures found ==> bitmap == old(bitmap)[b := true]
    {
      var base := 0;
      while base < size
        invariant 0 <= base <= |bitmap| && base % BPB == 0
        invariant bitmap == old(bitmap)
        invariant forall x | 0 <= x < base :: bitmap[x]
      {
        var bi := 0;
        while bi < BPB
          invariant 0 <= bi <= BPB
          invariant bitmap == old(bitmap)
          invariant forall x | 0 <= x < base + bi :: bitmap[x]
        {
          if !bitmap[base + bi] {
            bitmap := bitmap[base + bi := true];
            return true, base + bi;
          }
          bi := bi + 1;
        }
        base := base + BPB;
      }
      return false, 0;
    }

    // What the scan of balloc finds: a block of the device if one is free, else the bit after the last, if there is
    // one.
    lemma Scanned(bitmap0: seq<bool>, found: bool, b: nat)
      requires 2 <= meta <= size <= |bitmap0| && |bitmap0| % BPB == 0 && |bitmap0| < size + BPB
      requires Partition(table, owner, bitmap0, meta, size) && size <= UINT_LIMIT
      requires found <==> exists x :: 0 <= x < |bitmap0| && !bitmap0[x]
      requires found ==> b < |bitmap0| && !bitmap0[b] && (forall x | 0 <= x < b :: bitmap0[x])
      ensures found && b < size <==> FreeBlocks(bitmap0, size) != {}
      ensures found && b < size ==> b in FreeBlocks(bitmap0, size)
      ensures !found ==> Short(size) == NoBlocks
      ensures found && b >= size ==> b == size < UINT_LIMIT && Short(size) == PastEnd
    {
      assert size < |bitmap0| ==> !bitmap0[size];
      assert found && b < size ==> b in FreeBlocks(bitmap0, size);
      assert forall x | x in FreeBlocks(bitmap0, size) :: !bitmap0[x];
      assert size % BPB == 0 ==> (|bitmap0| - size) % BPB == 0;
    }

    // Allocate a block for address slot k of inode i, in memory only.
    method AllocSlot(i: nat, k: nat) returns (g: Grant, b: Word32)
      requires Core(-1) && i < ninodes && k <= NDIRECT
      requires Slot(i, k) !in table
      modifies this
      ensures g.Given? <==> old(Free()) != {}
      ensures !g.Given? ==> g == Short(size)
      ensures g.Given? ==> Core(-1)
      ensures g.Given? ==> meta <= b < size && !old(bitmap)[b] && bitmap == old(bitmap)[b := true]
      ensures g.Given? ==> table == old(table)[Slot(i, k) := b]
      ensures g.Given? ==> inodes == old(inodes)[i := old(inodes)[i].(addrs := old(inodes)[i].addrs[k := b])]
      ensures g.Given? ==> RawKept(i, old(table), old(blocks), old(inodes)[i], blocks, inodes[i])
      ensures g.PastEnd? ==> b == size < |old(bitmap)| && bitmap == old(bitmap)[size := true]
                             && inodes == old(inodes)[i := old(inodes)[i].(addrs := old(inodes)[i].addrs[k := size])]
      ensures blocks == old(blocks) && dinodes == old(dinodes)
    {
      var found, x := BAlloc();
      Scanned(old(bitmap), found, x);
      if !found {
        return NoBlocks, 0;
      }
      b := x;
      if b >= size {
        inodes := inodes[i := inodes[i].(addrs := inodes[i].addrs[k := b])];
        return PastEnd, b;
      }
      assert b in old(Free());
      PartitionAlloc(table, owner, old(bitmap), meta, size, Slot(i, k), b);
      table, owner := table[Slot(i, k) := b], owner[b := Slot(i, k)];
      inodes := inodes[i := inodes[i].(addrs := inodes[i].addrs[k := b])];
      g := Given;
      assert old(Linked(i)) && Real(old(inodes)[i].kind, b) == b;
      LinkSlot(blocks, old(inodes)[i], old(table), i, k, b);
      forall j | 0 <= j < ninodes && j != i ensures Linked(j) {
        assert old(Linked(j));
        LinkWith(blocks, inodes[j], old(table), j, Slot(i, k), b);
      }
    }

    // Allocate a block for entry j of the indirect block `ind` of inode i.
    method AllocEntry(i: nat, j: nat, ind: nat) returns (g: Grant, b: Word32)
      requires Core(-1) && i < ninodes && j < NINDIRECT
      requires Slot(i, NDIRECT) in table && table[Slot(i, NDIRECT)] == ind
      requires Slot(i, NDIRECT + 1 + j) !in table
      modifies this
      ensures g.Given? <==> old(Free()) != {}
      ensures !g.Given? ==> g == Short(size)
      ensures g.Given? ==> Core(-1)
      ensures g.Given? ==> meta <= b < size && !old(bitmap)[b] && bitmap == old(bitmap)[b := true]
      ensures g.Given? ==> table == old(table)[Slot(i, NDIRECT + 1 + j) := b]
      ensures g.Given? ==> ind < size && blocks == old(blocks)[ind := SetWord(old(blocks)[ind], j, b)]
      ensures g.Given? ==> RawKept(i, old(table), old(blocks), old(inodes)[i], blocks, inodes[i])
      ensures inodes == old(inodes) && dinodes == old(dinodes)
    {
      var s := Slot(i, NDIRECT + 1 + j);
      var found, x := BAlloc();
      Scanned(old(bitmap), found, x);
      if !found {
        return NoBlocks, 0;
      }
      b := x;
      if b >= size {
        blocks := blocks[ind := SetWord(blocks[ind], j, b)];
        return PastEnd, b;
      }
      assert b in old(Free());
      PartitionAlloc(table, owner, old(bitmap), meta, size, s, b);
      table, owner := table[s := b], owner[b := s];
      blocks := blocks[ind := SetWord(blocks[ind], j, b)];
      g := Given;
      forall m | 0 <= m < ninodes ensures Linked(m) {
        assert old(Linked(m));
        assert m == i ==> Real(inodes[m].kind, b) == b;
        LinkEntry(old(blocks), inodes[m], old(table), m, i, j, ind, b);
      }
      assert old(Linked(i)) && Leads(old(blocks), inodes[i], NDIRECT, ind);
      EntryKeepsRaw(old(blocks), inodes[i], old(table), i, j, b);
    }

    // File block bn of inode i among the direct addresses.
    method BMapDirect(i: nat, bn: nat, ghost n: nat) returns (g: Grant, addr: Word32)
      requires Core(-1) && i < ninodes && bn < NDIRECT
      requires HasBlocks(table, i, n) && bn <= n
      modifies this
      ensures g.Given? <==> |old(Free())| >= GrowCost(n, bn)
      ensures !g.Given? ==> g == Short(size)
      ensures bn < n ==> bitmap == old(bitmap) && blocks == old(blocks) && inodes == old(inodes) && table == old(table)
                         && owner == old(owner)
      ensures g.Given? ==> Core(-1) && HasBlocks(table, i, Max(n, bn + 1))
      ensures g.Given? ==> |Free()| == |old(Free())| - GrowCost(n, bn)
      ensures g.Given? ==> Slot(i, SlotOf(bn)) in table && addr == Raw(blocks, inodes[i], SlotOf(bn))
                           && Real(inodes[i].kind, addr) == table[Slot(i, SlotOf(bn))]
      ensures g.Given? && bn == n ==> addr == table[Slot(i, SlotOf(bn))] < size && blocks[addr] == ZeroBlock()
      ensures g.Given? ==> Kept(i, old(table), old(blocks), old(inodes), table, blocks, inodes)
      ensures g.PastEnd? ==> addr == size < |old(bitmap)| && |inodes| == ninodes && inodes[i].addrs[bn] == size
                             && bitmap == old(bitmap)[size := true]
      ensures dinodes == old(dinodes)
    {
      assert Linked(i);
      addr := inodes[i].addrs[bn];
      assert Leads(blocks, inodes[i], bn, Get(table, Slot(i, SlotOf(bn))));
      if addr == 0 {
        var b;
        g, b := AllocSlot(i, bn);
        addr := b;
        if !g.Given? {
          return;
        }
        FreeBlocksAlloc(old(bitmap), size, addr);
        assert Linked(i) && Leads(blocks, inodes[i], bn, Get(table, Slot(i, bn)));
      }
      return Given, addr;
    }

    // The indirect block of inode i, allocated when the inode has no file block past the direct ones.
    method LoadIndirect(i: nat, ghost n: nat) returns (g: Grant, ind: nat)
      requires Core(-1) && i < ninodes
      requires HasBlocks(table, i, n) && n >= NDIRECT
      modifies this
      ensures g.Given? <==> n > NDIRECT || old(Free()) != {}
      ensures !g.Given? ==> g == Short(size)
      ensures n > NDIRECT ==> bitmap == old(bitmap) && inodes == old(inodes) && table == old(table)
                              && owner == old(owner)
      ensures g.Given? ==> Core(-1) && Slot(i, NDIRECT) in table && ind == table[Slot(i, NDIRECT)]
      ensures g.Given? ==> table == if n > NDIRECT then old(table) else old(table)[Slot(i, NDIRECT) := ind]
      ensures g.Given? ==> |Free()| == |old(Free())| - if n > NDIRECT then 0 else 1
      ensures g.Given? ==> Kept(i, old(table), old(blocks), old(inodes), table, blocks, inodes)
      ensures blocks == old(blocks) && dinodes == old(dinodes)
    {
      assert Linked(i);
      ind := inodes[i].addrs[NDIRECT];
      assert Leads(blocks, inodes[i], NDIRECT, Get(table, Slot(i, NDIRECT)));
      if ind == 0 {
        g, ind := AllocSlot(i, NDIRECT);
        if !g.Given? {
          return g, 0;
        }
        FreeBlocksAlloc(old(bitmap), size, ind);
      }
      return Given, ind;
    }

    // What entry j of the indirect block says.
    lemma EntryIs(i: nat, j: nat, ind: nat)
      requires Core(-1) && i < ninodes && j < NINDIRECT
      requires Slot(i, NDIRECT) in table && table[Slot(i, NDIRECT)] == ind
      ensures ind < |blocks| && Word(blocks[ind], j) == Raw(blocks, inodes[i], NDIRECT + 1 + j)
      ensures Word(blocks[ind], j) == 0 <==> Slot(i, NDIRECT + 1 + j) !in table
      ensures Slot(i, NDIRECT + 1 + j) in table
              ==> Real(inodes[i].kind, Word(blocks[ind], j)) == table[Slot(i, NDIRECT + 1 + j)]
    {
      assert Linked(i);
      assert Leads(blocks, inodes[i], NDIRECT, Get(table, Slot(i, NDIRECT)));
      assert Leads(blocks, inodes[i], NDIRECT + 1 + j, Get(table, Slot(i, NDIRECT + 1 + j)));
    }

    // A block for entry j, which is empty.
    method NewEntry(i: nat, j: nat, ind: nat) returns (g: Grant, addr: Word32)
      requires Core(-1) && i < ninodes && j < NINDIRECT
      requires Slot(i, NDIRECT) in table && table[Slot(i, NDIRECT)] == ind && Slot(i, NDIRECT + 1 + j) !in table
      modifies this
      ensures g.Given? <==> old(Free()) != {}
      ensures !g.Given? ==> g == Short(size)
      ensures g.Given? ==> Core(-1) && addr == Raw(blocks, inodes[i], NDIRECT + 1 + j) == Real(inodes[i].kind, addr)
      ensures g.Given? ==> table == old(table)[Slot(i, NDIRECT + 1 + j) := addr] && |Free()| == |old(Free())| - 1
      ensures g.Given? ==> addr < size && blocks[addr] == ZeroBlock()
      ensures g.Given? ==> Kept(i, old(table), old(blocks), old(inodes), table, blocks, inodes)
      ensures dinodes == old(dinodes)
    {
      EntryIs(i, j, ind);
      var b;
      g, b := AllocEntry(i, j, ind);
      if !g.Given? {
        return g, 0;
      }
      addr := b;
      FreeBlocksAlloc(old(bitmap), size, addr);
      WordSetWord(old(blocks)[ind], j, addr, j);
      EntryIs(i, j, ind);
    }

    // Entry j of the indirect block `ind` of inode i, allocated when it is empty.
    method LoadEntry(i: nat, j: nat, ind: nat) returns (g: Grant, addr: Word32)
      requires Core(-1) && i < ninodes && j < NINDIRECT
      requires Slot(i, NDIRECT) in table && table[Slot(i, NDIRECT)] == ind
      modifies this
      ensures g.Given? <==> Slot(i, NDIRECT + 1 + j) in old(table) || old(Free()) != {}
      ensures !g.Given? ==> g == Short(size)
      ensures Slot(i, NDIRECT + 1 + j) in old(table) ==>
              bitmap == old(bitmap) && blocks == old(blocks) && inodes == old(inodes) && table == old(table)
                  && owner == old(owner)
      ensures g.Given? ==> Core(-1) && Slot(i, NDIRECT + 1 + j) in table
                           && addr == Raw(blocks, inodes[i], NDIRECT + 1 + j)
      ensures g.Given? ==> Real(inodes[i].kind, addr) == table[Slot(i, NDIRECT + 1 + j)]
      ensures g.Given? ==> table == if Slot(i, NDIRECT + 1 + j) in old(table) then old(table)
                     else old(table)[Slot(i, NDIRECT + 1 + j) := addr]
      ensures g.Given? ==> |Free()| == |old(Free())| - if Slot(i, NDIRECT + 1 + j) in old(table) then 0 else 1
      ensures g.Given? && Slot(i, NDIRECT + 1 + j) !in old(table) ==> addr < size && blocks[addr] == ZeroBlock()
      ensures g.Given? ==> Kept(i, old(table), old(blocks), old(inodes), table, blocks, inodes)
      ensures dinodes == old(dinodes)
    {
      hide Link, Partition, Kept, Raw, Leads;
      EntryIs(i, j, ind);
      addr := Word(blocks[ind], j);
      if addr == 0 {
        g, addr := NewEntry(i, j, ind);
        return;
      }
      KeptSame(i, table, blocks, inodes);
      return Given, addr;
    }

    // bmap for the blocks that the indirect block lists.
    method BMapIndirect(i: nat, bn: nat, ghost n: nat) returns (g: Grant, addr: Word32)
      requires Core(-1) && i < ninodes && NDIRECT <= bn < MAXFILE
      requires HasBlocks(table, i, n) && bn <= n
      modifies this
      ensures g.Given? <==> |old(Free())| >= GrowCost(n, bn)
      ensures !g.Given? ==> g == Short(size)
      ensures bn < n ==> bitmap == old(bitmap) && blocks == old(blocks) && inodes == old(inodes) && table == old(table)
                         && owner == old(owner)
      ensures g.Given? ==> Core(-1) && HasBlocks(table, i, Max(n, bn + 1))
      ensures g.Given? ==> |Free()| == |old(Free())| - GrowCost(n, bn)
      ensures g.Given? ==> Slot(i, SlotOf(bn)) in table && addr == Raw(blocks, inodes[i], SlotOf(bn))
                           && Real(inodes[i].kind, addr) == table[Slot(i, SlotOf(bn))]
      ensures g.Given? && bn == n ==> addr == table[Slot(i, SlotOf(bn))] < size && blocks[addr] == ZeroBlock()
      ensures g.Given? ==> Kept(i, old(table), old(blocks), old(inodes), table, blocks, inodes)
      ensures dinodes == old(dinodes)
    {
      assert Slot(i, SlotOf(bn)) in table <==> bn < n;
      hide Link, Partition, Kept, Raw;
      var ind;
      g, ind := LoadIndirect(i, n);
      if !g.Given? {
        return g, 0;
      }
      ghost var table1, blocks1, inodes1 := table, blocks, inodes;
      g, addr := LoadEntry(i, bn - NDIRECT, ind);
      if g.Given? {
        HasBlocksGrow(old(table), i, n, ind, addr);
        KeptTrans(i, old(table), old(blocks), old(inodes), table1, blocks1, inodes1, table, blocks, inodes);
      }
    }

    // The disk address of file block bn of inode i, which has n blocks; allocates when bn is the next one.
    method BMap(i: nat, bn: nat, ghost n: nat) returns (g: Grant, addr: Word32)
      requires Core(-1) && i < ninodes && bn < MAXFILE
      requires HasBlocks(table, i, n) && bn <= n
      modifies this
      ensures g.Given? <==> |old(Free())| >= GrowCost(n, bn)
      ensures !g.Given? ==> g == Short(size)
      ensures bn < n ==> bitmap == old(bitmap) && blocks == old(blocks) && inodes == old(inodes) && table == old(table)
                         && owner == old(owner)
      ensures g.Given? ==> Core(-1) && HasBlocks(table, i, Max(n, bn + 1))
      ensures g.Given? ==> |Free()| == |old(Free())| - GrowCost(n, bn)
      ensures g.Given? ==> Slot(i, SlotOf(bn)) in table && addr == Raw(blocks, inodes[i], SlotOf(bn))
                           && Real(inodes[i].kind, addr) == table[Slot(i, SlotOf(bn))]
      ensures g.Given? && bn == n ==> addr == table[Slot(i, SlotOf(bn))] < size && blocks[addr] == ZeroBlock()
      ensures g.Given? ==> Kept(i, old(table), old(blocks), old(inodes), table, blocks, inodes)
      ensures g.PastEnd? && bn < NDIRECT ==> addr == size < |old(bitmap)| && |inodes| == ninodes
                                             && inodes[i].addrs[bn] == size && bitmap == old(bitmap)[size := true]
      ensures dinodes == old(dinodes)
    {
      hide Link, Partition, Kept, Raw, HasBlocks;
      if bn < NDIRECT {
        g, addr := BMapDirect(i, bn, n);
      } else {
        g, addr := BMapIndirect(i, bn, n);
      }
    }

    // Copy `data` into the data block `addr` of inode i, from byte o on, and write it back.
    method PutBytes(ghost i: nat, ghost bn: nat, addr: nat, o: nat, data: seq<Byte>)
      requires Core(-1) && i < ninodes && bn < MAXFILE
      requires Slot(i, SlotOf(bn)) in table && table[Slot(i, SlotOf(bn))] == addr
      requires o + |data| <= 512
      modifies this`blocks
      ensures Core(-1)
      ensures addr < size && blocks == old(blocks)[addr := Patch(old(blocks)[addr], o, data)]
      ensures OthersKept(i, table, old(blocks), inodes, table, blocks, inodes)
      ensures RawKept(i, table, old(blocks), inodes[i], blocks, inodes[i])
    {
      blocks := blocks[addr := Patch(blocks[addr], o, data)];
      forall m | 0 <= m < ninodes ensures Linked(m) {
        assert old(Linked(m));
        LinkFrame(old(blocks), inodes[m], table, m, addr, blocks[addr]);
      }
      assert old(Linked(i));
      LinkFrame(old(blocks), inodes[i], table, i, addr, blocks[addr]);
    }

    // set_checksum for a block that the inode lists.
    method SumDirect(i: nat, bn: nat, sum: Byte)
      requires Core(-1) && i < ninodes && bn < NDIRECT && Slot(i, bn) in table && inodes[i].kind == T_CHECKED
      modifies this`blocks, this`inodes
      ensures Core(-1) && OthersKept(i, table, old(blocks), old(inodes), table, blocks, inodes)
      ensures inodes[i] == old(inodes)[i].(addrs := inodes[i].addrs)
      ensures Raw(blocks, inodes[i], SlotOf(bn)) == SynthAddr(old(Raw(blocks, inodes[i], SlotOf(bn))), sum)
      ensures RawElse(i, SlotOf(bn), table, old(blocks), old(inodes)[i], blocks, inodes[i])
      ensures DataKept(i, -1, table, old(blocks), blocks)
    {
      assert Linked(i);
      SumSlot(blocks, inodes[i], table, i, bn, sum);
      inodes := inodes[i := inodes[i].(addrs := inodes[i].addrs[bn := SynthAddr(inodes[i].addrs[bn], sum)])];
      forall m | 0 <= m < ninodes && m != i ensures Linked(m) {
        assert old(Linked(m));
      }
    }

    // And for one that the indirect block lists.
    method SumIndirect(i: nat, bn: nat, sum: Byte)
      requires Core(-1) && i < ninodes && NDIRECT <= bn < MAXFILE && Slot(i, SlotOf(bn)) in table
               && inodes[i].kind == T_CHECKED
      modifies this`blocks, this`inodes
      ensures Core(-1) && OthersKept(i, table, old(blocks), old(inodes), table, blocks, inodes)
      ensures inodes[i] == old(inodes)[i].(addrs := inodes[i].addrs)
      ensures Raw(blocks, inodes[i], SlotOf(bn)) == SynthAddr(old(Raw(blocks, inodes[i], SlotOf(bn))), sum)
      ensures RawElse(i, SlotOf(bn), table, old(blocks), old(inodes)[i], blocks, inodes[i])
      ensures DataKept(i, -1, table, old(blocks), blocks)
    {
      ghost var d := inodes[i];
      assert Linked(i);
      assert Leads(blocks, d, NDIRECT, Get(table, Slot(i, NDIRECT)))
             && Leads(blocks, d, SlotOf(bn), table[Slot(i, SlotOf(bn))]);
      var ind, j := inodes[i].addrs[NDIRECT], bn - NDIRECT;
      SumEntry(blocks, d, table, i, j, sum);
      blocks := blocks[ind := SetWord(blocks[ind], j, SynthAddr(Word(blocks[ind], j), sum))];
      forall m | 0 <= m < ninodes && m != i ensures Linked(m) {
        assert old(Linked(m));
        LinkFrame(old(blocks), inodes[m], table, m, ind, blocks[ind]);
      }
    }

    // set_checksum: the address of file block bn gets the checksum, and still leads to the block.
    method SetChecksum(i: nat, bn: nat, sum: Byte)
      requires Core(-1) && i < ninodes && bn < MAXFILE && Slot(i, SlotOf(bn)) in table && inodes[i].kind == T_CHECKED
      modifies this`blocks, this`inodes
      ensures Core(-1) && OthersKept(i, table, old(blocks), old(inodes), table, blocks, inodes)
      ensures inodes[i] == old(inodes)[i].(addrs := inodes[i].addrs)
      ensures Raw(blocks, inodes[i], SlotOf(bn)) == SynthAddr(old(Raw(blocks, inodes[i], SlotOf(bn))), sum)
      ensures RawElse(i, SlotOf(bn), table, old(blocks), old(inodes)[i], blocks, inodes[i])
      ensures DataKept(i, -1, table, old(blocks), blocks)
    {
      hide Link, Partition, OthersKept, Raw, RawElse, DataKept;
      if bn < NDIRECT {
        SumDirect(i, bn, sum);
      } else {
        SumIndirect(i, bn, sum);
      }
    }

    // Copy `chunk` into file block bn, whose address is a block number, and for a checked file record the new checksum.
    method StoreChunk(i: nat, bn: nat, addr: nat, o: nat, chunk: seq<Byte>, ghost nb: nat, ghost c0: seq<Byte>,
                      ghost off: nat, ghost done: seq<Byte>)
      requires Core(-1) && i < ninodes && HasBlocks(table, i, nb) && bn < nb <= MAXFILE && o + |chunk| <= 512
               && off + |done| == bn * 512 + o
      requires Slot(i, SlotOf(bn)) in table && table[Slot(i, SlotOf(bn))] == addr
      requires Image(blocks, table, i, nb, c0, off, done) && Summed(blocks, inodes[i], nb)
      modifies this`blocks, this`inodes
      ensures Core(-1) && Image(blocks, table, i, nb, c0, off, done + chunk) && Summed(blocks, inodes[i], nb)
      ensures OthersKept(i, table, old(blocks), old(inodes), table, blocks, inodes)
      ensures inodes[i] == old(inodes)[i].(addrs := inodes[i].addrs)
      ensures RawElse(i, SlotOf(bn), table, old(blocks), old(inodes)[i], blocks, inodes[i])
    {
      assert Linked(i);
      ImagePut(blocks, table, owner, i, nb, c0, off, done, bn, o, addr, chunk);
      PutBytes(i, bn, addr, o, chunk);
      ghost var blocks1, inodes1 := blocks, inodes;
      DataElse(i, bn, table, owner, old(blocks), blocks, addr);
      if inodes[i].kind == T_CHECKED {
        var sum := GenChecksum(blocks[addr]);
        SetChecksum(i, bn, sum);
        ImageSame(blocks1, blocks, table, i, nb, c0, off, done + chunk);
        OthersKeptTrans(i, table, old(blocks), old(inodes), table, blocks1, inodes1, table, blocks, inodes);
        assert Linked(i);
        SummedStored(old(blocks), old(inodes)[i], blocks1, blocks, inodes[i], table, i, nb, bn, sum);
      }
    }

    // Map file block bn and copy `chunk` into it from byte o on.
    method WriteChunk(i: nat, bn: nat, o: nat, chunk: seq<Byte>, ghost nb: nat, ghost c0: seq<Byte>, ghost off: nat,
                      ghost done: seq<Byte>) returns (r: Step)
      requires Core(-1) && i < ninodes && HasBlocks(table, i, nb) && nb <= MAXFILE
      requires bn < MAXFILE && bn <= nb && o + |chunk| <= 512 && off + |done| == bn * 512 + o
      requires bn == nb ==> o == 0 && |c0| <= nb * 512
      requires Image(blocks, table, i, nb, c0, off, done) && Summed(blocks, inodes[i], nb)
      modifies this
      ensures r.Astray? <==> bn < nb && old(inodes)[i].kind == T_CHECKED
                             && StoredSum(old(Raw(blocks, inodes[i], SlotOf(bn)))) != 0
      ensures r.Full? <==> |old(Free())| < GrowCost(nb, bn)
      ensures r.Full? ==> r.g == Short(size)
      ensures r.Went? ==> Core(-1) && HasBlocks(table, i, Max(nb, bn + 1))
      ensures r.Went? ==> Image(blocks, table, i, Max(nb, bn + 1), c0, off, done + chunk)
                          && Summed(blocks, inodes[i], Max(nb, bn + 1))
      ensures r.Went? ==> OthersKept(i, old(table), old(blocks), old(inodes), table, blocks, inodes)
                          && TableKept(old(table), table)
      ensures r.Went? ==> inodes[i] == old(inodes)[i].(addrs := inodes[i].addrs)
      ensures r.Went? ==> RawElse(i, SlotOf(bn), old(table), old(blocks), old(inodes)[i], blocks, inodes[i])
      ensures r.Went? ==> |Free()| == |old(Free())| - GrowCost(nb, bn)
      ensures dinodes == old(dinodes)
    {
      assert Linked(i);
      var g, addr := BMap(i, bn, nb);
      if !g.Given? {
        return Full(g);
      }
      assert Linked(i);
      PlainAddr(inodes[i].kind, addr);
      if Real(inodes[i].kind, addr) != addr {
        return Astray;
      }
      ghost var table1, blocks1, inodes1 := table, blocks, inodes;
      ImageGrow(old(blocks), old(table), blocks, table, i, nb, Max(nb, bn + 1), c0, off, done);
      SummedGrow(old(blocks), old(inodes)[i], old(table), blocks, inodes[i], table, i, nb, Max(nb, bn + 1));
      StoreChunk(i, bn, addr, o, chunk, Max(nb, bn + 1), c0, off, done);
      OthersKeptTrans(i, old(table), old(blocks), old(inodes), table1, blocks1, inodes1, table, blocks, inodes);
      return Went;
    }

    /** The write loop with `done` written: inode i holds c0 overwritten with `done` at off, in nb
        blocks of its own, and everything else is as it was at the start. The old blocks touched so far had
        no checksum, and those to come have the addresses they started with. */
    ghost predicate Writing(i: nat, done: seq<Byte>, off: nat, c0: seq<Byte>, nb: nat,
                            table0: Table, blocks0: seq<Block>, inodes0: seq<Dinode>)
      reads this
    {
      && Core(-1) && i < ninodes && |inodes0| == ninodes
      && HasBlocks(table, i, nb) && nb <= MAXFILE
      && Image(blocks, table, i, nb, c0, off, done) && Summed(blocks, inodes[i], nb)
      && OthersKept(i, table0, blocks0, inodes0, table, blocks, inodes) && TableKept(table0, table)
      && inodes[i] == inodes0[i].(addrs := inodes[i].addrs) && inodes0[i].size == |c0|
      && Pending(blocks, inodes[i], blocks0, inodes0[i], if done == [] then 0 else off + |done|)
      && (done != [] ==> Clean(blocks0, inodes0[i], off, off + |done|))
    }

    // One round of the write loop, writing m bytes.
    method WriteRound(i: nat, src: seq<Byte>, off: nat, tot: nat, n: nat, ghost done: seq<Byte>, ghost c0: seq<Byte>,
                      ghost nb: nat,
                      ghost table0: Table, ghost blocks0: seq<Block>, ghost inodes0: seq<Dinode>)
      returns (r: Step, m: nat, ghost done': seq<Byte>, ghost nb': nat)
      requires tot < n <= |src| && off <= |c0| && off + n <= 71680 && (tot == 0 || (off + tot) % 512 == 0)
      requires done == src[..tot] && Reaches(|c0|, off + tot, nb) && HasBlocks(table0, i, BlocksFor(|c0|))
      requires Writing(i, done, off, c0, nb, table0, blocks0, inodes0)
      modifies this
      ensures 0 < m <= n - tot && (m == n - tot || (off + tot + m) % 512 == 0)
      ensures done' == src[..tot + m] && Reaches(|c0|, off + tot + m, nb')
      ensures r.Astray? ==> !Clean(blocks0, inodes0[i], off, off + tot + m)
      ensures r.Full? ==> Clean(blocks0, inodes0[i], off, off + tot + m)
                          && old(|Free()|) + DiskBlocks(nb) < DiskBlocks(nb') && r.g == Short(size)
      ensures r.Went? ==> Writing(i, done', off, c0, nb', table0, blocks0, inodes0)
      ensures r.Went? ==> |Free()| + DiskBlocks(nb') == old(|Free()|) + DiskBlocks(nb)
      ensures dinodes == old(dinodes)
    {
      hide Image, Link, Summed, Word, Partition, HasBlocks, Raw, Splice;
      var bn, o := Locate(off + tot);
      m := Min(n - tot, 512 - o);
      BlockEnd(off + tot, bn, o, m);
      done', nb' := done + src[tot..tot + m], Max(nb, bn + 1);
      TakeMore(src, tot, m);
      OldBlock(|c0|, off, tot, nb, bn, o);
      CleanRound(blocks0, inodes0[i], off, tot, m, bn, o);
      ghost var d := inodes[i];
      r := WriteChunk(i, bn, o, src[tot..tot + m], nb, c0, off, done);
      if r.Went? {
        OthersKeptTrans(i, table0, blocks0, inodes0, old(table), old(blocks), old(inodes), table, blocks, inodes);
        PendingNext(old(blocks), d, blocks, inodes[i], blocks0, inodes0[i], old(table), table0, i, off, tot, m, bn, o);
      }
    }

    // The write loop; `nb0` and `nb1` are the file blocks before and after it.
    method WriteLoop(i: nat, src: seq<Byte>, off: nat, n: nat, ghost c0: seq<Byte>, ghost nb0: nat, ghost nb1: nat,
                     ghost table0: Table, ghost blocks0: seq<Block>, ghost inodes0: seq<Dinode>)
                       returns (r: Step, ghost done: seq<Byte>)
      requires n <= |src| && off <= |c0| && off + n <= 71680
      requires Writing(i, [], off, c0, nb0, table0, blocks0, inodes0) && HasBlocks(table0, i, BlocksFor(|c0|))
      requires Reaches(|c0|, off, nb0) && Reaches(|c0|, off + n, nb1)
      modifies this
      ensures r.Astray? <==> n > 0 && !Clean(blocks0, inodes0[i], off, off + n)
      ensures r.Full? <==> (n > 0 ==> Clean(blocks0, inodes0[i], off, off + n))
                           && old(|Free()|) + DiskBlocks(nb0) < DiskBlocks(nb1)
      ensures r.Full? ==> r.g == Short(size)
      ensures r.Went? ==> done == src[..n] && Writing(i, done, off, c0, nb1, table0, blocks0, inodes0)
      ensures r.Went? ==> |Free()| + DiskBlocks(nb1) == old(|Free()|) + DiskBlocks(nb0)
      ensures dinodes == old(dinodes)
    {
      hide Image, Link, Summed, Partition, OthersKept, TableKept, HasBlocks, Pending;
      ghost var nb, total := nb0, |Free()| + DiskBlocks(nb0);
      done := [];
      var tot := 0;
      while tot < n
        invariant 0 <= tot <= n && (tot == 0 || tot == n || (off + tot) % 512 == 0)
        invariant done == src[..tot] && Reaches(|c0|, off + tot, nb)
        invariant Writing(i, done, off, c0, nb, table0, blocks0, inodes0)
        invariant |Free()| + DiskBlocks(nb) == total
        invariant dinodes == old(dinodes)
      {
        var m;
        r, m, done, nb := WriteRound(i, src, off, tot, n, done, c0, nb, table0, blocks0, inodes0);
        ReachesMono(|c0|, off + tot + m, nb, off + n, nb1);
        if !r.Went? {
          return;
        }
        tot := tot + m;
      }
      ReachesMono(|c0|, off + n, nb, off + n, nb1);
      r := Went;
    }

    // Record that inode i now reaches to `end`, in memory and on disk.
    method Extend(i: nat, end: nat)
      requires Core(-1) && i < ninodes && end <= 71680
      modifies this`inodes, this`dinodes
      ensures Core(-1)
      ensures inodes == old(inodes)[i := old(inodes)[i].(size := Max(old(inodes)[i].size, end))]
      ensures dinodes == if end > old(inodes)[i].size then old(dinodes)[i := inodes[i]] else old(dinodes)
    {
      if end > inodes[i].size {
        inodes := inodes[i := inodes[i].(size := end)];
        dinodes := dinodes[i := inodes[i]];
        forall j | 0 <= j < ninodes ensures Linked(j) {
          assert old(Linked(j));
          LinkSize(blocks, old(inodes)[j], table, j, end);
        }
      }
    }

    // After the loop: size and on-disk inode are brought up to date, and the volume is whole again.
    method FinishWrite(i: nat, ghost done: seq<Byte>, off: nat, n: nat, ghost c0: seq<Byte>, ghost nb: nat,
                       ghost table0: Table, ghost blocks0: seq<Block>, ghost inodes0: seq<Dinode>)
      requires Writing(i, done, off, c0, nb, table0, blocks0, inodes0)
      requires |done| == n && off <= |c0| && off + n <= 71680 && nb == Reach(|c0|, off + n)
      requires forall j | 0 <= j < ninodes ::
        Link(blocks0, inodes0[j], table0, j) && WholeFile(blocks0, inodes0[j], table0, j)
      modifies this`inodes, this`dinodes
      ensures Valid()
      ensures Contents(blocks, inodes[i]) == Splice(c0, off, done)
      ensures inodes[i] == inodes0[i].(size := inodes[i].size, addrs := inodes[i].addrs)
      ensures dinodes == if off + n > |c0| then old(dinodes)[i := inodes[i]] else old(dinodes)
      ensures off + n <= |c0| && inodes0[i].kind != T_CHECKED ==> inodes[i] == inodes0[i]
      ensures OthersKept(i, table0, blocks0, inodes0, table, blocks, inodes)
              && OthersRead(i, blocks0, inodes0, blocks, inodes)
    {
      hide Partition, FileByte, Image, Splice, Leads;
      if n > 0 {
        Extend(i, off + n);
      }
      assert Linked(i);
      SummedSize(blocks, old(inodes)[i], inodes[i], nb);
      if inodes[i].kind != T_CHECKED {
        AddrsSame(blocks0, inodes0[i], table0, blocks, inodes[i], table, i, BlocksFor(|c0|), nb);
      }
      ImageEnd(blocks, inodes[i], table, i, c0, off, done);
      forall j | 0 <= j < ninodes && j != i
        ensures Whole(j) && Contents(blocks, inodes[j]) == Contents(blocks0, inodes0[j]) {
        assert Linked(j);
        WholeKept(i, j, table0, blocks0, inodes0, table, blocks, inodes);
      }
    }

    // The loop and what comes after it.
    method WriteAll(i: nat, src: seq<Byte>, off: nat, n: nat) returns (r: Step)
      requires Valid() && i < ninodes
      requires n <= |src| && off <= inodes[i].size && off + n <= 71680
      modifies this
      ensures r.Astray? <==> n > 0 && !Clean(old(blocks), old(inodes)[i], off, off + n)
      ensures r.Full? <==>
              !r.Astray? && |old(Free())| < DiskBlocks(Reach(old(inodes)[i].size, off + n))
                                            - DiskBlocks(BlocksFor(old(inodes)[i].size))
      ensures r.Full? ==> r.g == Short(size)
      ensures r.Went? ==> Valid()
      ensures r.Went? ==> Contents(blocks, inodes[i]) == Splice(old(Contents(blocks, inodes[i])), off, src[..n])
      ensures r.Went? ==> inodes[i] == old(inodes)[i].(size := inodes[i].size, addrs := inodes[i].addrs)
      ensures r.Went? ==> dinodes == if off + n > old(inodes)[i].size then old(dinodes)[i := inodes[i]]
                          else old(dinodes)
      ensures r.Went? && off + n <= old(inodes)[i].size && old(inodes)[i].kind != T_CHECKED
              ==> inodes[i] == old(inodes)[i]
      ensures r.Went? ==> OthersRead(i, old(blocks), old(inodes), blocks, inodes)
      ensures r.Went? ==> OthersKept(i, old(table), old(blocks), old(inodes), table, blocks, inodes)
                          && TableKept(old(table), table)
      ensures r.Went? ==> |Free()| == |old(Free())| - (DiskBlocks(Reach(old(inodes)[i].size, off + n))
                                                       - DiskBlocks(BlocksFor(old(inodes)[i].size)))
    {
      hide Partition, Word;
      ghost var c0 := Contents(blocks, inodes[i]);
      forall j | 0 <= j < ninodes
        ensures Link(blocks, inodes[j], table, j) && WholeFile(blocks, inodes[j], table, j)
      {
        assert Whole(j) && Linked(j);
      }
      ImageStart(blocks, inodes[i], table, i, off);
      ReachReaches(|c0|, off);
      ReachReaches(|c0|, off + n);
      ghost var done;
      r, done := WriteLoop(i, src, off, n, c0, Reach(|c0|, off), Reach(|c0|, off + n), table, blocks, inodes);
      if r.Went? {
        FinishWrite(i, done, off, n, c0, Reach(|c0|, off + n), old(table), old(blocks), old(inodes));
      }
    }

    // The addresses of a valid volume are on it.
    lemma OnVolume(i: nat)
      requires Valid() && i < ninodes
      ensures Link(blocks, inodes[i], table, i) && WholeFile(blocks, inodes[i], table, i)
      ensures forall s | s in table :: 0 < table[s] < |blocks|
    {
      hide Link, WholeFile;
      assert Linked(i) && Whole(i);
    }

    // The part of a write past its argument checks, for n bytes that fit the largest file.
    method WriteBody(i: nat, src: seq<Byte>, off: nat, n: nat) returns (r: Step)
      requires Valid() && i < ninodes
      requires n <= |src| && off <= inodes[i].size && off + n <= 71680
      modifies this
      ensures r.Astray? <==> n > 0 && !Clean(old(blocks), old(inodes)[i], off, off + n)
      ensures r.Full? <==>
              !r.Astray? && |old(Free())| < DiskBlocks(Reach(old(inodes)[i].size, off + n))
                                            - DiskBlocks(BlocksFor(old(inodes)[i].size))
      ensures r.Full? ==> r.g == Short(size)
      ensures r.Went? ==> Valid()
      ensures r.Went? ==> Contents(blocks, inodes[i]) == Splice(old(Contents(blocks, inodes[i])), off, src[..n])
      ensures r.Went? ==> inodes[i] == old(inodes)[i].(size := inodes[i].size, addrs := inodes[i].addrs)
      ensures r.Went? ==> dinodes == if off + n > old(inodes)[i].size then old(dinodes)[i := inodes[i]]
                          else old(dinodes)
      ensures r.Went? && off + n <= old(inodes)[i].size ==>
              (inodes[i] == old(inodes)[i] <==>
               old(inodes)[i].kind == T_CHECKED ==> KeepsSums(old(Contents(blocks, inodes[i])), off, src[..n]))
      ensures r.Went? ==> OthersRead(i, old(blocks), old(inodes), blocks, inodes)
      ensures r.Went? ==> OthersKept(i, old(table), old(blocks), old(inodes), table, blocks, inodes)
                          && TableKept(old(table), table)
      ensures r.Went? ==> |Free()| == |old(Free())| - (DiskBlocks(Reach(old(inodes)[i].size, off + n))
                                                       - DiskBlocks(BlocksFor(old(inodes)[i].size)))
    {
      OnVolume(i);
      hide Link, WholeFile, Partition, OthersKept, OthersRead, TableKept, FileByte, KeepsSums;
      ghost var c0 := Contents(blocks, inodes[i]);
      r := WriteAll(i, src, off, n);
      if r.Went? && off + n <= |c0| && inodes[i].kind == T_CHECKED {
        OnVolume(i);
        assert inodes[i].size == |c0|;
        AddressesKeptIff(old(blocks), old(inodes)[i], old(table), blocks, inodes[i], table, i, off, src[..n]);
      }
    }

    /** Write `src` to inode i at offset `off`, a file of any type. A write to a checked file is misaddressed,
        the number passed to bread not being the block's, exactly when it touches an old block whose checksum
        is not zero. The inode on disk follows the one in memory only when the size grows; after a write that
        ends inside, the inode in memory has changed if and only if the file is checked and in some direct block the
        bytes written differ in their exclusive or from those they replace. */
    method WriteI(i: nat, src: seq<Byte>, off: nat) returns (r: Outcome)
      requires Valid() && i < ninodes && inodes[i].kind in {T_DIR, T_FILE, T_CHECKED}
      requires off < UINT_LIMIT && |src| < UINT_LIMIT
      modifies this
      ensures r.Refused? <==> off > old(inodes)[i].size || off + |src| >= UINT_LIMIT
      ensures r.Refused? ==> unchanged(this)
      ensures r.Misaddressed? <==>
              && off <= old(inodes)[i].size && off + |src| < UINT_LIMIT && WriteCount(off, |src|) > 0
              && !Clean(old(blocks), old(inodes)[i], off, off + WriteCount(off, |src|))
      ensures r.Panicked? || r.PastDevice? <==>
              && off <= old(inodes)[i].size && off + |src| < UINT_LIMIT && !r.Misaddressed?
              && |old(Free())| < WriteCost(old(inodes)[i].size, off, |src|)
      ensures r.Panicked? ==> size % BPB == 0
      ensures r.PastDevice? ==> size % BPB != 0
      ensures r.Done? ==>
              && Valid()
              && r.count == WriteCount(off, |src|)
              && Contents(blocks, inodes[i]) == Splice(old(Contents(blocks, inodes[i])), off, src[..r.count])
              && inodes[i] == old(inodes)[i].(size := inodes[i].size, addrs := inodes[i].addrs)
              && OthersRead(i, old(blocks), old(inodes), blocks, inodes)
              && OthersKept(i, old(table), old(blocks), old(inodes), table, blocks, inodes)
              && TableKept(old(table), table)
              && |Free()| == |old(Free())| - WriteCost(old(inodes)[i].size, off, |src|)
      ensures r.Done? ==> r.count == if off + |src| <= 71680 then |src| else 71680 - off
      ensures r.Done? ==> dinodes == if off + r.count > old(inodes)[i].size then old(dinodes)[i := inodes[i]]
                          else old(dinodes)
      ensures r.Done? && off + r.count <= old(inodes)[i].size ==>
              (inodes[i] == old(inodes)[i] <==>
               old(inodes)[i].kind == T_CHECKED ==> KeepsSums(old(Contents(blocks, inodes[i])), off, src[..r.count]))
      ensures r.Done? && old(Synced(i)) ==>
              (Synced(i) <==>
               off + r.count <= old(inodes)[i].size && old(inodes)[i].kind == T_CHECKED ==>
                 KeepsSums(old(Contents(blocks, inodes[i])), off, src[..r.count]))
    {
      hide Link, Partition, WholeFile, OthersKept, OthersRead, TableKept, KeepsSums, Clean;
      if off > inodes[i].size || off + |src| >= UINT_LIMIT {
        return Refused;
      }
      var n := |src|;
      if off + n > 71680 {
        n := 71680 - off;
      }
      ReachMax(inodes[i].size, off + n);
      var step := WriteBody(i, src, off, n);
      return match step
        case Went => Done(n)
        case Full(NoBlocks) => Panicked
        case Full(_) => PastDevice
        case Astray => Misaddressed;
    }

    // One round of the read loop: the bytes at pos up to the end of its block or `len`, if the block matches its
    // checksum.
    method ReadRound(i: nat, pos: nat, len: nat) returns (good: bool, chunk: seq<Byte>)
      requires Valid() && i < ninodes && 0 < len && pos + len <= inodes[i].size
      modifies this
      ensures Valid() && good
      ensures bitmap == old(bitmap) && blocks == old(blocks) && inodes == old(inodes) && dinodes == old(dinodes)
      ensures table == old(table) && owner == old(owner)
      ensures 0 < |chunk| <= len && chunk == Contents(blocks, inodes[i])[pos..pos + |chunk|]
    {
      hide FileByte, Kept, Contents;
      assert Whole(i) && Linked(i);
      var bn, o := Locate(pos);
      var g, raw := BMap(i, bn, BlocksFor(inodes[i].size));
      var addr := Real(inodes[i].kind, raw);
      var m := Min(len, 512 - o);
      ContentsChunk(blocks, inodes[i], table, i, bn, o, m);
      var sum := GenChecksum(blocks[addr]);
      assert inodes[i].kind == T_CHECKED ==> SumRight(blocks, inodes[i], bn);
      good := inodes[i].kind != T_CHECKED || sum == StoredSum(raw);
      chunk := blocks[addr][o..o + m];
      forall j | 0 <= j < ninodes ensures Whole(j) {
        assert old(Whole(j));
      }
    }

    // Read n bytes of inode i from offset off. The blocks are all there, so reading never allocates, and they match
    // their checksums.
    method ReadI(i: nat, off: nat, n: nat) returns (ok: bool, dst: seq<Byte>)
      requires Valid() && i < ninodes && inodes[i].kind in {T_DIR, T_FILE, T_CHECKED}
      requires off < UINT_LIMIT && n < UINT_LIMIT
      modifies this
      ensures Valid()
      ensures bitmap == old(bitmap) && blocks == old(blocks) && inodes == old(inodes) && dinodes == old(dinodes)
      ensures table == old(table) && owner == old(owner)
      ensures ok <==> off <= inodes[i].size && off + n < UINT_LIMIT
      ensures ok ==> dst == Contents(blocks, inodes[i])[off..Min(off + n, inodes[i].size)]
      ensures !ok ==> dst == []
    {
      dst := [];
      if off > inodes[i].size || off + n >= UINT_LIMIT {
        return false, [];
      }
      var len := Min(off + n, inodes[i].size) - off;
      ghost var c := Contents(blocks, inodes[i]);
      ok := true;
      while |dst| < len && ok
        invariant Valid() && bitmap == old(bitmap) && blocks == old(blocks) && inodes == old(inodes)
        invariant dinodes == old(dinodes) && table == old(table) && owner == old(owner)
        invariant |dst| <= len && dst == c[off..off + |dst|] && ok
        decreases len - |dst|
      {
        var chunk;
        ok, chunk := ReadRound(i, off + |dst|, len - |dst|);
        Joined(c, off, |dst|, |chunk|);
        dst := dst + chunk;
      }
    }

    /** ialloc: the first inode from 1 on with type 0 on disk gets the type; there is no panic exactly if there
        is one. */
    method IAlloc(kind: int) returns (found: bool, i: nat)
      requires Valid() && kind != 0 && (kind == T_CHECKED ==> size <= 0x100_0000)
      requires forall j | 0 <= j < ninodes :: dinodes[j].kind == inodes[j].kind
                                              && (inodes[j].kind == 0 ==> inodes[j].size == 0)
      modifies this`inodes, this`dinodes
      ensures found <==> exists j :: 1 <= j < ninodes && old(dinodes)[j].kind == 0
      ensures !found ==> unchanged(this)
      ensures found ==> Valid() && 1 <= i < ninodes && old(dinodes)[i].kind == 0
                        && (forall j | 1 <= j < i :: old(dinodes)[j].kind != 0)
      ensures found ==> inodes == old(inodes)[i := Fresh(kind)] && dinodes == old(dinodes)[i := Fresh(kind)]
      ensures found ==> inodes[i].kind == kind && inodes[i].nlink == 0 && inodes[i].size == 0
                        && forall k | 0 <= k < 13 :: inodes[i].addrs[k] == 0
      ensures found ==> OthersRead(i, blocks, old(inodes), blocks, inodes)
    {
      i := 1;
      while i < ninodes
        invariant inodes == old(inodes) && dinodes == old(dinodes) && Valid()
        invariant 1 <= i && (i <= ninodes || ninodes == 0) && forall j | 1 <= j < i && j < ninodes ::
                  dinodes[j].kind != 0
      {
        if dinodes[i].kind == 0 {
          assert Whole(i) && Linked(i);
          FreshWhole(blocks, table, i, kind);
          dinodes := dinodes[i := Fresh(kind)];
          inodes := inodes[i := dinodes[i]];
          forall j | 0 <= j < ninodes && j != i ensures Linked(j) && Whole(j) {
            assert old(Linked(j)) && old(Whole(j));
          }
          return true, i;
        }
        i := i + 1;
      }
      return false, 0;
    }

    // Count the links of inode i anew, in memory and on disk.
    method SetLinks(i: nat, n: int)
      requires Valid() && i < ninodes
      modifies `inodes, `dinodes
      ensures Valid() && inodes == old(inodes)[i := old(inodes)[i].(nlink := n)]
      ensures dinodes == old(dinodes)[i := inodes[i]]
      ensures forall j | 0 <= j < ninodes :: Contents(blocks, inodes[j]) == old(Contents(blocks, inodes[j]))
    {
      hide Partition;
      inodes := inodes[i := inodes[i].(nlink := n)];
      dinodes := dinodes[i := inodes[i]];
      forall j | 0 <= j < ninodes
        ensures Linked(j) && Whole(j) && Contents(blocks, inodes[j]) == old(Contents(blocks, inodes[j]))
      {
        assert old(Linked(j)) && old(Whole(j));
        SameFile(blocks, old(inodes)[j], inodes[j], table, j);
      }
    }

    /** What was written is read back. */
    method ReadBack(i: nat, src: seq<Byte>, off: nat) returns (r: Outcome, ok: bool, dst: seq<Byte>)
      requires Valid() && i < ninodes && inodes[i].kind in {T_DIR, T_FILE, T_CHECKED}
      requires off < UINT_LIMIT && |src| < UINT_LIMIT
      modifies this
      ensures r.Done? <==>
              && off <= old(inodes)[i].size && off + |src| < UINT_LIMIT
              && (WriteCount(off, |src|) > 0 ==>
                    Clean(old(blocks), old(inodes)[i], off, off + WriteCount(off, |src|)))
              && WriteCost(old(inodes)[i].size, off, |src|) <= |old(Free())|
      ensures r.Done? ==> ok && r.count == WriteCount(off, |src|) <= |src| && dst == src[..r.count]
    {
      r := WriteI(i, src, off);
      if r.Done? {
        ghost var c0 := old(Contents(blocks, inodes[i]));
        SpliceReads(c0, off, src[..r.count]);
        ok, dst := ReadI(i, off, r.count);
      } else {
        ok, dst := false, [];
      }
    }

    // Free the block b of slot s: zero it, then clear its bit. A clear bit is a panic, which is never reached.
    method BFree(b: nat, ghost s: Slot) returns (panicked: bool)
      requires Core(s.ino) && s in table && table[s] == b
      modifies this`bitmap, this`blocks, this`table, this`owner
      ensures !panicked
      ensures Core(s.ino)
      ensures b < size && blocks == old(blocks)[b := ZeroBlock()] && bitmap == old(bitmap)[b := false]
      ensures table == old(table) - {s} && owner == old(owner) - {b}
    {
      blocks := blocks[b := ZeroBlock()];
      if !bitmap[b] {
        return true;
      }
      bitmap := bitmap[b := false];
      PartitionFree(old(table), old(owner), old(bitmap), meta, size, s);
      table, owner := table - {s}, owner - {b};
      forall j | 0 <= j < ninodes && j != s.ino ensures Linked(j) {
        assert old(Linked(j));
        LinkFrame(old(blocks), inodes[j], old(table), j, b, ZeroBlock());
        LinkOther(blocks, inodes[j], old(table), j, s);
      }
      return false;
    }

    // Free the block of slot s as one of a series of releases by inode i.
    method Release(i: nat, b: nat, ghost s: Slot, ghost gone: set<Slot>, ghost table0: Table, ghost owner0: Owners,
                   ghost bitmap0: seq<bool>, ghost blocks0: seq<Block>)
      returns (panicked: bool)
      requires Core(i) && s in table && table[s] == b && s.ino == i
      requires Released(i, gone, table0, owner0, bitmap0, blocks0, table, bitmap, blocks)
      modifies this`bitmap, this`blocks, this`table, this`owner
      ensures !panicked
      ensures Core(i) && Released(i, gone + {s}, table0, owner0, bitmap0, blocks0, table, bitmap, blocks)
      ensures b < size && blocks == old(blocks)[b := ZeroBlock()]
      ensures table == old(table) - {s}
    {
      panicked := BFree(b, s);
      ReleaseOne(i, gone, s, table0, owner0, bitmap0, blocks0, old(table), old(bitmap), old(blocks));
    }

    // Inode i, `d0` at the start, has released its direct blocks below k and no others.
    ghost predicate Truncating(i: nat, k: nat, gone: set<Slot>, table0: Table, owner0: Owners, bitmap0: seq<bool>,
                               blocks0: seq<Block>, inodes0: seq<Dinode>)
      reads this
    {
      && Core(i) && i < ninodes && |inodes0| == ninodes
      && Released(i, gone, table0, owner0, bitmap0, blocks0, table, bitmap, blocks)
      && (forall s | s in table0 && s.ino == i :: s in gone <==> s.k < k)
      && Cleared(inodes0, inodes, i, k)
      && (forall m | 0 <= m < NDIRECT :: StandsFor(inodes0[i].kind, inodes0[i].addrs[m], Get(table0, Slot(i, m))))
    }

    // Free the block b of slot s of inode i, if b is one.
    method ReleaseIfAny(i: nat, b: nat, ghost s: Slot, ghost gone: set<Slot>, ghost table0: Table,
                        ghost owner0: Owners, ghost bitmap0: seq<bool>, ghost blocks0: seq<Block>)
      returns (panicked: bool, ghost gone': set<Slot>)
      requires Core(i) && s.ino == i && b == Get(table, s)
      requires Released(i, gone, table0, owner0, bitmap0, blocks0, table, bitmap, blocks)
      modifies this`bitmap, this`blocks, this`table, this`owner
      ensures !panicked
      ensures Core(i) && Released(i, gone', table0, owner0, bitmap0, blocks0, table, bitmap, blocks)
      ensures gone' == if s in table0 then gone + {s} else gone
    {
      panicked, gone' := false, gone;
      assert s in table0 ==> s in gone || s in table;
      assert s in gone ==> gone + {s} == gone;
      if b != 0 {
        panicked := Release(i, b, s, gone, table0, owner0, bitmap0, blocks0);
        gone' := gone + {s};
      }
    }

    // Free direct block k of inode i, if there is one; stray if its address has a checksum in it.
    method TruncSlot(i: nat, k: nat, ghost gone: set<Slot>, ghost table0: Table, ghost owner0: Owners,
                     ghost bitmap0: seq<bool>, ghost blocks0: seq<Block>, ghost inodes0: seq<Dinode>)
      returns (stop: Stop, ghost gone': set<Slot>)
      requires k < NDIRECT && Truncating(i, k, gone, table0, owner0, bitmap0, blocks0, inodes0)
      modifies this
      ensures stop == if Bare(inodes0[i].kind, inodes0[i].addrs[k]) then Goes else Stray(inodes0[i].addrs[k])
      ensures stop.Stray? ==> unchanged(this) && gone' == gone
      ensures stop.Goes? ==> Truncating(i, k + 1, gone', table0, owner0, bitmap0, blocks0, inodes0)
      ensures dinodes == old(dinodes)
    {
      if !Bare(inodes[i].kind, inodes[i].addrs[k]) {
        return Stray(inodes[i].addrs[k]), gone;
      }
      SlotStands(i, k, gone, table0, owner0, bitmap0, blocks0, inodes0);
      hide Partition, Link, Word, Released, StandsFor, Cleared;
      var panicked;
      panicked, gone' := ReleaseIfAny(i, inodes[i].addrs[k], Slot(i, k), gone, table0, owner0, bitmap0, blocks0);
      if panicked {
        return Halts, gone';
      }
      stop := Goes;
      ClearedNext(inodes0, inodes, i, k);
      ForgetAddr(i, k);
    }

    // Forget address k of inode i, which is in flux.
    method ForgetAddr(i: nat, k: nat)
      requires Core(i) && i < ninodes && k < NDIRECT
      modifies `inodes
      ensures Core(i) && inodes == old(inodes)[i := old(inodes)[i].(addrs := old(inodes)[i].addrs[k := 0])]
    {
      hide Partition, Link;
      inodes := inodes[i := inodes[i].(addrs := inodes[i].addrs[k := 0])];
      forall j | 0 <= j < ninodes && j != i ensures Linked(j) {
        assert old(Linked(j));
      }
    }

    // A bare address is the block its slot still has.
    lemma SlotStands(i: nat, k: nat, gone: set<Slot>, table0: Table, owner0: Owners, bitmap0: seq<bool>,
                     blocks0: seq<Block>, inodes0: seq<Dinode>)
      requires k < NDIRECT && Truncating(i, k, gone, table0, owner0, bitmap0, blocks0, inodes0)
      requires Bare(inodes[i].kind, inodes[i].addrs[k])
      ensures inodes[i].addrs[k] == Get(table, Slot(i, k))
    {
      hide Partition, Link;
      assert StandsFor(inodes0[i].kind, inodes0[i].addrs[k], Get(table0, Slot(i, k)));
    }

    // Free the direct blocks of inode i, up to the first with a checksum in its address, k.
    method TruncDirect(i: nat, ghost table0: Table, ghost owner0: Owners, ghost bitmap0: seq<bool>,
                       ghost blocks0: seq<Block>, ghost inodes0: seq<Dinode>)
      returns (stop: Stop, ghost gone: set<Slot>, ghost k: nat)
      requires Truncating(i, 0, {}, table0, owner0, bitmap0, blocks0, inodes0)
      modifies this
      ensures k <= NDIRECT && Truncating(i, k, gone, table0, owner0, bitmap0, blocks0, inodes0)
      ensures AllBare(inodes0[i].kind, inodes0[i].addrs, k)
      ensures k < NDIRECT ==> !Bare(inodes0[i].kind, inodes0[i].addrs[k]) && stop == Stray(inodes0[i].addrs[k])
      ensures k == NDIRECT ==> stop == Goes
      ensures dinodes == old(dinodes)
    {
      hide Released, Partition, Link, Word;
      gone, stop := {}, Goes;
      var l := 0;
      while l < NDIRECT
        invariant 0 <= l <= NDIRECT && stop == Goes && AllBare(inodes0[i].kind, inodes0[i].addrs, l)
        invariant Truncating(i, l, gone, table0, owner0, bitmap0, blocks0, inodes0)
        invariant dinodes == old(dinodes)
      {
        k := l;
        stop, gone := TruncSlot(i, l, gone, table0, owner0, bitmap0, blocks0, inodes0);
        if stop != Goes {
          return;
        }
        l := l + 1;
      }
      k := NDIRECT;
    }

    // Inode i has released its direct blocks, the first j entries of its indirect block, and no others.
    ghost predicate Dropping(i: nat, j: nat, gone: set<Slot>, table0: Table, owner0: Owners, bitmap0: seq<bool>,
                             blocks0: seq<Block>)
      reads this
    {
      && Core(i) && i < ninodes
      && Released(i, gone, table0, owner0, bitmap0, blocks0, table, bitmap, blocks)
      && (forall s | s in table0 && s.ino == i :: s in gone <==> s.k < NDIRECT || NDIRECT < s.k <= NDIRECT + j)
    }

    // Free entry j, w, of the indirect block of inode i, if there is one; stray if it has a checksum in it.
    method TruncEntry(i: nat, j: nat, w: Word32, ghost gone: set<Slot>, ghost table0: Table, ghost owner0: Owners,
                      ghost bitmap0: seq<bool>, ghost blocks0: seq<Block>)
      returns (stop: Stop, ghost gone': set<Slot>)
      requires j < NINDIRECT && Dropping(i, j, gone, table0, owner0, bitmap0, blocks0)
      requires StandsFor(inodes[i].kind, w, Get(table0, Slot(i, NDIRECT + 1 + j)))
      modifies this`bitmap, this`blocks, this`table, this`owner
      ensures stop == if Bare(inodes[i].kind, w) then Goes else Stray(w)
      ensures stop.Stray? ==> unchanged(this) && gone' == gone
      ensures stop.Goes? ==> Dropping(i, j + 1, gone', table0, owner0, bitmap0, blocks0)
    {
      hide Partition, Link, Word;
      if !Bare(inodes[i].kind, w) {
        return Stray(w), gone;
      }
      var panicked;
      panicked, gone' := ReleaseIfAny(i, w, Slot(i, NDIRECT + 1 + j), gone, table0, owner0, bitmap0, blocks0);
      stop := if panicked then Halts else Goes;
    }

    // Free the blocks listed in `a`, the indirect block of inode i, up to the first with a checksum, entry j.
    method TruncEntries(i: nat, a: Block, ghost gone: set<Slot>, ghost table0: Table, ghost owner0: Owners,
                        ghost bitmap0: seq<bool>, ghost blocks0: seq<Block>)
      returns (stop: Stop, ghost gone': set<Slot>, ghost j: nat)
      requires Dropping(i, 0, gone, table0, owner0, bitmap0, blocks0)
      requires forall j | 0 <= j < NINDIRECT ::
                 StandsFor(inodes[i].kind, Word(a, j), Get(table0, Slot(i, NDIRECT + 1 + j)))
      modifies this`bitmap, this`blocks, this`table, this`owner
      ensures j <= NINDIRECT && Dropping(i, j, gone', table0, owner0, bitmap0, blocks0)
      ensures forall m | 0 <= m < j :: Bare(inodes[i].kind, Word(a, m))
      ensures j < NINDIRECT ==> !Bare(inodes[i].kind, Word(a, j)) && stop == Stray(Word(a, j))
      ensures j == NINDIRECT ==> stop == Goes
    {
      hide Word, Released, Partition, Link;
      stop, gone' := Goes, gone;
      var l := 0;
      while l < NINDIRECT
        invariant 0 <= l <= NINDIRECT && stop == Goes
        invariant Dropping(i, l, gone', table0, owner0, bitmap0, blocks0)
        invariant forall m | 0 <= m < l :: Bare(inodes[i].kind, Word(a, m))
      {
        j := l;
        stop, gone' := TruncEntry(i, l, Word(a, l), gone', table0, owner0, bitmap0, blocks0);
        if stop != Goes {
          return;
        }
        l := l + 1;
      }
      j := NINDIRECT;
    }

    // Free the blocks listed in the indirect block `ind` of inode i, then that block.
    method FreeIndirect(i: nat, ind: nat, ghost gone: set<Slot>, ghost table0: Table, ghost owner0: Owners,
                        ghost bitmap0: seq<bool>, ghost blocks0: seq<Block>)
      returns (stop: Stop, ghost gone': set<Slot>, ghost j: nat)
      requires Dropping(i, 0, gone, table0, owner0, bitmap0, blocks0) && ind < size
               && ind == Get(table0, Slot(i, NDIRECT))
      requires forall s | s in table0 && s.ino == i :: s.k < NSLOTS
      requires forall j | 0 <= j < NINDIRECT ::
                 StandsFor(inodes[i].kind, Word(blocks[ind], j), Get(table0, Slot(i, NDIRECT + 1 + j)))
      modifies this`bitmap, this`blocks, this`table, this`owner
      ensures j <= NINDIRECT && forall m | 0 <= m < j :: Bare(inodes[i].kind, Word(old(blocks)[ind], m))
      ensures j < NINDIRECT ==>
              && Dropping(i, j, gone', table0, owner0, bitmap0, blocks0)
              && !Bare(inodes[i].kind, Word(old(blocks)[ind], j)) && stop == Stray(Word(old(blocks)[ind], j))
      ensures j == NINDIRECT ==>
              && stop == Goes
              && Core(i) && Released(i, gone', table0, owner0, bitmap0, blocks0, table, bitmap, blocks)
              && forall s | s in table0 && s.ino == i :: s in gone'
    {
      hide Word, Link, Partition, Bare, StandsFor, Released;
      stop, gone', j := TruncEntries(i, blocks[ind], gone, table0, owner0, bitmap0, blocks0);
      if stop != Goes {
        return;
      }
      stop, gone' := FreeList(i, ind, gone', table0, owner0, bitmap0, blocks0);
    }

    // The indirect block itself, once the blocks it lists have gone.
    method FreeList(i: nat, ind: nat, ghost gone: set<Slot>, ghost table0: Table, ghost owner0: Owners,
                    ghost bitmap0: seq<bool>, ghost blocks0: seq<Block>)
      returns (stop: Stop, ghost gone': set<Slot>)
      requires Dropping(i, NINDIRECT, gone, table0, owner0, bitmap0, blocks0) && ind == Get(table0, Slot(i, NDIRECT))
      requires forall s | s in table0 && s.ino == i :: s.k < NSLOTS
      modifies this`bitmap, this`blocks, this`table, this`owner
      ensures stop == Goes
      ensures Core(i) && Released(i, gone', table0, owner0, bitmap0, blocks0, table, bitmap, blocks)
      ensures forall s | s in table0 && s.ino == i :: s in gone'
    {
      hide Word, Link, Partition;
      var panicked;
      panicked, gone' := ReleaseIfAny(i, ind, Slot(i, NDIRECT), gone, table0, owner0, bitmap0, blocks0);
      stop := if panicked then Halts else Goes;
    }

    // The indirect block is as it was when the direct blocks have gone.
    lemma IndirectIntact(i: nat, gone: set<Slot>, table0: Table, owner0: Owners, bitmap0: seq<bool>,
                         blocks0: seq<Block>, inodes0: seq<Dinode>)
      requires Truncating(i, NDIRECT, gone, table0, owner0, bitmap0, blocks0, inodes0) && |blocks0| == size
      requires Slot(i, NDIRECT) in table0 && inodes0[i].addrs[NDIRECT] == table0[Slot(i, NDIRECT)] < size
      ensures inodes0[i].addrs[NDIRECT] < |blocks|
              && blocks[inodes0[i].addrs[NDIRECT]] == blocks0[inodes0[i].addrs[NDIRECT]]
    {
    }

    // Free the blocks of inode i past the direct ones, up to the first with a checksum in its address.
    method TruncIndirect(i: nat, ghost gone: set<Slot>, ghost table0: Table, ghost owner0: Owners,
                         ghost bitmap0: seq<bool>, ghost blocks0: seq<Block>, ghost inodes0: seq<Dinode>)
      returns (stop: Stop, ghost gone': set<Slot>, ghost bn: nat)
      requires Truncating(i, NDIRECT, gone, table0, owner0, bitmap0, blocks0, inodes0)
      requires Link(blocks0, inodes0[i], table0, i) && |blocks0| == size
      requires forall s | s in table0 :: s.k < NSLOTS && 0 < table0[s] < size
      requires AllBare(inodes0[i].kind, inodes0[i].addrs, NDIRECT) && Inverse(table0, owner0)
      modifies this`bitmap, this`blocks, this`table, this`owner
      ensures stop.Goes? <==> forall b | 0 <= b < MAXFILE :: Bare(inodes0[i].kind, Raw(blocks0, inodes0[i], SlotOf(b)))
      ensures stop.Goes? ==> Core(i) && Released(i, gone', table0, owner0, bitmap0, blocks0, table, bitmap, blocks)
      ensures stop.Goes? ==> forall s | s in table0 && s.ino == i :: s in gone'
      ensures !stop.Goes? ==> FirstSummed(blocks0, inodes0[i], bn)
                              && stop == Stray(Raw(blocks0, inodes0[i], SlotOf(bn)))
                              && blocks == Emptied(blocks0, owner0, i, bn)
    {
      hide Word, Raw, Link, Partition, Emptied, Released;
      stop, gone', bn := Goes, gone, 0;
      var ind := inodes[i].addrs[NDIRECT];
      IndirectEntries(blocks0, inodes0[i], table0, i);
      forall b | 0 <= b < MAXFILE
        ensures Raw(blocks0, inodes0[i], SlotOf(b)) == if b < NDIRECT then inodes0[i].addrs[b]
                else if ind == 0 then 0 else Word(blocks0[ind], b - NDIRECT)
      {
        RawIs(blocks0, inodes0[i], b);
      }
      if ind != 0 {
        IndirectIntact(i, gone, table0, owner0, bitmap0, blocks0, inodes0);
        ghost var j;
        stop, gone', j := FreeIndirect(i, ind, gone, table0, owner0, bitmap0, blocks0);
        bn := NDIRECT + j;
        if j < NINDIRECT {
          EmptiedBy(i, gone', table0, owner0, bitmap0, blocks0, table, bitmap, blocks, bn);
          assert !Bare(inodes0[i].kind, Raw(blocks0, inodes0[i], SlotOf(bn)));
        } else {
          forall b | 0 <= b < MAXFILE ensures Bare(inodes0[i].kind, Raw(blocks0, inodes0[i], SlotOf(b))) {
            assert b >= NDIRECT ==> Bare(inodes0[i].kind, Word(blocks0[ind], b - NDIRECT));
          }
        }
      }
    }

    /** itrunc: the contents of inode i are discarded and exactly its blocks become free, with no panic, if and only if
        no block of it has a checksum other than zero. Otherwise bfree gets a number that is not a block's when
        the first such block comes; the blocks before it are free by then. */
    method ITrunc(i: nat) returns (r: Truncation)
      requires Valid() && i < ninodes
      modifies this
      ensures r.Truncated? <==> Clean(old(blocks), old(inodes)[i], 0, old(inodes)[i].size)
      ensures r.Truncated? ==> Valid() && dinodes == old(dinodes)[i := inodes[i]]
      ensures r.Truncated? ==> inodes[i] == old(inodes)[i].(size := 0, addrs := seq(13, _ => 0))
      ensures r.Truncated? ==> Free() == old(Free()) + BlocksOf(i, old(owner))
      ensures r.Truncated? ==> old(Free()) !! BlocksOf(i, old(owner))
      ensures r.Truncated? ==> OthersKept(i, old(table), old(blocks), old(inodes), table, blocks, inodes)
                               && OthersRead(i, old(blocks), old(inodes), blocks, inodes)
      ensures !r.Truncated? ==> exists bn ::
                && FirstSummed(old(blocks), old(inodes)[i], bn)
                && r == StrayFate(Emptied(old(blocks), old(owner), i, bn), meta, ninodes,
                                  Raw(old(blocks), old(inodes)[i], SlotOf(bn)))
    {
      forall j | 0 <= j < ninodes
        ensures Link(blocks, inodes[j], table, j) && WholeFile(blocks, inodes[j], table, j)
      {
        assert Whole(j) && Linked(j);
      }
      forall m | 0 <= m < NDIRECT ensures StandsFor(inodes[i].kind, inodes[i].addrs[m], Get(table, Slot(i, m))) {
        assert Leads(blocks, inodes[i], m, Get(table, Slot(i, m)));
      }
      assert Linked(i);
      CleanIff(blocks, inodes[i], table, i);
      ghost var gone, bn;
      var stop;
      stop, gone, bn := TruncAll(i);
      if stop.Stray? {
        return StrayFate(blocks, meta, ninodes, stop.raw);
      }
      ClearInode(i, gone, old(table), old(owner), old(bitmap), old(blocks), old(inodes));
      ReleasedAll(i, gone, old(table), old(owner), old(bitmap), old(blocks), table, bitmap, blocks, size, meta);
      r := Truncated;
    }

    // Both loops of itrunc.
    method TruncAll(i: nat) returns (stop: Stop, ghost gone: set<Slot>, ghost bn: nat)
      requires Core(-1) && i < ninodes && Inverse(table, owner)
      requires forall s | s in table :: s.k < NSLOTS && 0 < table[s] < size
      requires forall m | 0 <= m < NDIRECT :: StandsFor(inodes[i].kind, inodes[i].addrs[m], Get(table, Slot(i, m)))
      modifies this
      ensures stop.Goes? <==>
              forall b | 0 <= b < MAXFILE :: Bare(old(inodes)[i].kind, Raw(old(blocks), old(inodes)[i], SlotOf(b)))
      ensures stop.Goes? ==> Core(i) && |old(inodes)| == ninodes && inodes == old(inodes)[i := inodes[i]]
                             && inodes[i] == old(inodes)[i].(addrs := inodes[i].addrs) && dinodes == old(dinodes)
      ensures stop.Goes? ==> Released(i, gone, old(table), old(owner), old(bitmap), old(blocks), table, bitmap, blocks)
      ensures stop.Goes? ==> forall s | s in old(table) && s.ino == i :: s in gone
      ensures !stop.Goes? ==> FirstSummed(old(blocks), old(inodes)[i], bn)
                              && stop == Stray(Raw(old(blocks), old(inodes)[i], SlotOf(bn)))
                              && blocks == Emptied(old(blocks), old(owner), i, bn)
    {
      hide Word, Partition, Emptied, Link;
      assert Linked(i);
      ghost var table0, owner0, bitmap0, blocks0, inodes0 := table, owner, bitmap, blocks, inodes;
      stop, gone, bn := TruncDirect(i, table, owner, bitmap, blocks, inodes);
      assert forall b | 0 <= b < NDIRECT :: Raw(blocks0, inodes0[i], SlotOf(b)) == inodes0[i].addrs[b];
      if stop.Stray? {
        EmptiedBy(i, gone, table0, owner0, bitmap0, blocks0, table, bitmap, blocks, bn);
        return;
      }
      stop, gone, bn := TruncIndirect(i, gone, table0, owner0, bitmap0, blocks0, inodes0);
    }

    // With every block of inode i released, empty the inode in memory and on disk.
    method ClearInode(i: nat, ghost gone: set<Slot>, ghost table0: Table, ghost owner0: Owners,
                      ghost bitmap0: seq<bool>, ghost blocks0: seq<Block>, ghost inodes0: seq<Dinode>)
      requires Core(i) && i < ninodes
      requires Released(i, gone, table0, owner0, bitmap0, blocks0, table, bitmap, blocks)
      requires forall s | s in table0 && s.ino == i :: s in gone
      requires |inodes0| == ninodes && inodes == inodes0[i := inodes[i]]
               && inodes[i] == inodes0[i].(addrs := inodes[i].addrs)
      requires inodes[i].kind == T_CHECKED ==> size <= 0x100_0000
      requires forall j | 0 <= j < ninodes :: Link(blocks0, inodes0[j], table0, j)
                                              && WholeFile(blocks0, inodes0[j], table0, j)
      modifies this`inodes, this`dinodes
      ensures Valid() && dinodes == old(dinodes)[i := inodes[i]]
      ensures inodes == inodes0[i := inodes0[i].(size := 0, addrs := seq(13, _ => 0))]
      ensures OthersKept(i, table0, blocks0, inodes0, table, blocks, inodes)
              && OthersRead(i, blocks0, inodes0, blocks, inodes)
    {
      inodes := inodes[i := inodes[i].(size := 0, addrs := seq(13, _ => 0))];
      dinodes := dinodes[i := inodes[i]];
      assert OthersKept(i, table0, blocks0, inodes0, table, blocks, inodes);
      forall j | 0 <= j < ninodes
        ensures Linked(j) && Whole(j) && (j != i ==> Contents(blocks, inodes[j]) == Contents(blocks0, inodes0[j])) {
        if j != i {
          assert old(Linked(j));
          WholeKept(i, j, table0, blocks0, inodes0, table, blocks, inodes);
        } else {
          forall k | 0 <= k < NSLOTS ensures Leads(blocks, inodes[i], k, Get(table, Slot(i, k))) {
            assert Raw(blocks, inodes[i], k) == 0 && Real(inodes[i].kind, 0) == 0;
          }
        }
      }
    }
  }
}
