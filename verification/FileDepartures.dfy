/** Runs in which the file system does not do what one would expect of it. Each is at one input; the
    conditions under which this happens are with the operations. */
module FileDepartures {

  import opened Common
  import opened DiskFormat
  import opened ExclusiveOr
  import FS = FileSystem
  import CheckedFiles
  import Directories

  lemma {:induction false} BetweenSize(lo: nat, hi: nat)
    requires lo <= hi
    ensures |FS.Between(lo, hi)| == hi - lo
    decreases hi
  {
    if lo < hi {
      BetweenSize(lo, hi - 1);
      assert FS.Between(lo, hi) == FS.Between(lo, hi - 1) + {hi - 1};
    } else {
      assert FS.Between(lo, hi) == {};
    }
  }

  // A new volume of n blocks, all but the first `meta` free, with an empty file of the type.
  method NewFile(n: nat, meta: nat, kind: int) returns (v: FS.Volume, i: nat)
    requires 2 <= meta <= n <= 0x100_0000 && kind != 0
    ensures fresh(v) && v.Valid() && v.size == n && v.meta == meta && v.ninodes == 2 && i < v.ninodes
    ensures v.inodes[i] == FS.Fresh(kind) && v.Synced(i) && |v.Free()| == n - meta
    ensures forall j | 0 <= j < v.ninodes && j != i :: v.inodes[j].size == 0
  {
    v := new FS.Volume(n, meta, 2);
    BetweenSize(meta, n);
    assert v.Synced(1) && v.Synced(0);
    var found;
    found, i := v.IAlloc(kind);
  }

  // A block that holds a one and nothing else has 1 for its checksum.
  lemma OneSum(b: Block)
    requires b[0] == 1 && forall x | 1 <= x < 512 :: b[x] == 0
    ensures XorAll(b) == 1
  {
    XorAllZeros(511);
    assert b[1..] == seq(511, _ => 0 as Byte);
    XorZero(1);
  }

  // The one block of a checked file.
  lemma OnlyBlock(v: FS.Volume, i: nat)
    requires v.Valid() && i < v.ninodes && v.inodes[i].kind == T_CHECKED && 0 < v.inodes[i].size <= 512
    ensures var d := v.inodes[i];
            var a := FS.Addr(v.blocks, d, 0);
            && 0 < a < |v.blocks| && FS.Raw(v.blocks, d, 0) == d.addrs[0]
            && StoredSum(d.addrs[0]) == XorAll(v.blocks[a])
            && forall x | 0 <= x < 512 :: v.blocks[a][x] == if x < d.size then FS.Contents(v.blocks, d)[x] else 0
  {
    var d := v.inodes[i];
    assert v.Linked(i) && v.Whole(i) && BlocksFor(d.size) == 1 && SlotOf(0) == 0;
    assert FS.Leads(v.blocks, d, 0, FS.Get(v.table, FS.Slot(i, 0))) && FS.Slot(i, SlotOf(0)) in v.table;
    var a := FS.Addr(v.blocks, d, 0);
    forall x | 0 <= x < 512 ensures v.blocks[a][x] == FS.FileByte(v.blocks, d, x) {
    }
    assert FS.SumRight(v.blocks, d, 0);
  }

  lemma OneByteFile(v: FS.Volume, i: nat)
    requires v.Valid() && i < v.ninodes && v.inodes[i].kind == T_CHECKED && v.inodes[i].size == 1
             && FS.Contents(v.blocks, v.inodes[i]) == [1]
    ensures StoredSum(FS.Raw(v.blocks, v.inodes[i], 0)) != 0 && 0 < FS.Addr(v.blocks, v.inodes[i], 0) < |v.blocks|
    ensures CheckedFiles.Stored(v.blocks, v.inodes[i], v.table, v.owner, i, 1)
  {
    OnlyBlock(v, i);
    OneSum(v.blocks[FS.Addr(v.blocks, v.inodes[i], 0)]);
    assert v.Linked(i) && v.Whole(i) && BlocksFor(1) == 1;
  }

  // A new volume of n blocks with a checked file that holds src.
  method NewHolding(n: nat, src: seq<Byte>) returns (v: FS.Volume, i: nat)
    requires 3 <= n <= 0x100_0000 && 0 < |src| <= 512
    ensures fresh(v) && v.Valid() && v.size == n && v.meta == 2 && v.ninodes == 2 && i < v.ninodes
    ensures v.inodes[i].kind == T_CHECKED && v.inodes[i].size == |src|
    ensures v.Synced(i) && FS.Contents(v.blocks, v.inodes[i]) == src
    ensures forall j | 0 <= j < v.ninodes && j != i :: v.inodes[j].size == 0
  {
    v, i := NewFile(n, 2, T_CHECKED);
    hide FS.Addr, FS.Raw, FS.FileByte, FS.Partition, FS.Link, FS.WholeFile;
    var r := v.WriteI(i, src, 0);
    assert FS.WriteCost(0, 0, |src|) == 1 && FS.WriteCount(0, |src|) == |src|;
    assert src[..|src|] == src;
  }

  /** The same byte written twice to a checked file: the second write is misaddressed. */
  method SecondWriteMisaddressed() returns (r: FS.Outcome)
    ensures r.Misaddressed?
  {
    var v, i := NewHolding(200, [1]);
    OneByteFile(v, i);
    assert !FS.Clean(v.blocks, v.inodes[i], 0, 1) by {
      assert SlotOf(0) == 0 && BlocksFor(1) == 1;
    }
    hide FS.Clean, FS.FileByte, FS.Partition, FS.Link, FS.WholeFile;
    r := v.WriteI(i, [1], 0);
  }

  // A byte written to an empty file when no block is free.
  method WriteFirst(v: FS.Volume, i: nat) returns (r: FS.Outcome)
    requires v.Valid() && i < v.ninodes && v.inodes[i].kind == T_FILE && v.inodes[i].size == 0 && |v.Free()| == 0
    requires FS.Clean(v.blocks, v.inodes[i], 0, 1) && FS.WriteCost(0, 0, 1) == 1 && FS.WriteCount(0, 1) == 1
    modifies v
    ensures r == if v.size % 4096 == 0 then FS.Panicked else FS.PastDevice
  {
    hide FS.Partition, FS.Link, FS.WholeFile, FS.FileByte, FS.Clean, FS.Contents, FS.WriteCost, FS.WriteCount,
         FS.KeepsSums, FS.OthersKept, FS.OthersRead, FS.TableKept;
    r := v.WriteI(i, [1], 0);
  }

  /** A volume of n blocks, all taken, and a byte written to a file: the write panics if n is a multiple of 4096,
      and otherwise goes into block n, past the end. */
  method WriteWhenFull(n: nat) returns (r: FS.Outcome)
    requires 2 <= n <= 0x100_0000
    ensures r == if n % 4096 == 0 then FS.Panicked else FS.PastDevice
  {
    assert FS.WriteCost(0, 0, 1) == 1 && FS.WriteCount(0, 1) == 1;
    hide FS.Partition, FS.Link, FS.WholeFile, FS.WriteCost, FS.WriteCount, BlocksFor, FS.Raw;
    var v, i := NewFile(n, n, T_FILE);
    r := WriteFirst(v, i);
  }

  // A name bound in an empty directory when no block is free.
  method LinkFirst(v: FS.Volume, i: nat) returns (r: Directories.Update)
    requires v.Valid() && i < v.ninodes && v.inodes[i].kind == T_DIR && |v.Free()| == 0 && FS.WriteCost(0, 0, 16) == 1
    requires Directories.DirContents(v, i) == [] && Directories.IsDirectory([])
    modifies v
    ensures r == if v.size % 4096 == 0 then Directories.Panicked else Directories.PastDevice
  {
    hide FS.Partition, FS.Link, FS.WholeFile, FS.FileByte, FS.WriteCost;
    r := Directories.DirLink(v, i, [97], 1);
  }

  /** The same with a name bound in a directory. */
  method EntryWhenFull(n: nat) returns (r: Directories.Update)
    requires 2 <= n <= 0x100_0000
    ensures r == if n % 4096 == 0 then Directories.Panicked else Directories.PastDevice
  {
    hide FS.Partition, FS.Link, FS.WholeFile, FS.FileByte;
    var v, i := NewFile(n, n, T_DIR);
    assert FS.WriteCost(0, 0, 16) == 1 && Directories.DirContents(v, i) == [];
    r := LinkFirst(v, i);
  }

  // Which slot of a file can have a block, when only one file has any, and that of one block.
  lemma OnlySlot(v: FS.Volume, i: nat, s: FS.Slot)
    requires v.Valid() && i < v.ninodes && 0 < v.inodes[i].size <= 512 && s in v.table
    requires forall j | 0 <= j < v.ninodes && j != i :: v.inodes[j].size == 0
    ensures s == FS.Slot(i, 0)
  {
    assert v.Whole(s.ino) && BlocksFor(v.inodes[i].size) == 1 && BlocksFor(0) == 0;
    var bn := if s.k < NDIRECT then s.k else s.k - 1;
    assert s.k != NDIRECT ==> s == FS.Slot(s.ino, SlotOf(bn));
  }

  // Every block but that one is zero.
  lemma OthersZero(v: FS.Volume, i: nat, b: nat)
    requires v.Valid() && i < v.ninodes && 0 < v.inodes[i].size <= 512 && v.meta <= b < v.size
    requires (forall j | 0 <= j < v.ninodes && j != i :: v.inodes[j].size == 0)
             && b != FS.Addr(v.blocks, v.inodes[i], 0)
    ensures v.blocks[b] == ZeroBlock()
  {
    assert v.Linked(i) && FS.Leads(v.blocks, v.inodes[i], 0, FS.Get(v.table, FS.Slot(i, 0)));
    if b in v.owner {
      OnlySlot(v, i, v.owner[b]);
    }
  }

  lemma Below(x: nat, p: nat)
    requires x < p
    ensures x / p == 0
  {
  }

  // A block that holds a one and nothing else has only its first bit set.
  lemma OneBit(b: Block, k: nat)
    requires b[0] == 1 && (forall x | 1 <= x < 512 :: b[x] == 0) && k < FS.BPB
    ensures FS.Bit(b, k) <==> k == 0
  {
    if k > 0 {
      var p := FS.Pow(k % 8);
      assert k % 8 > 0 ==> p == 2 * FS.Pow(k % 8 - 1);
      Below(b[k / 8], p);
    }
  }

  lemma ZeroBit(k: nat)
    requires k < FS.BPB
    ensures !FS.Bit(ZeroBlock(), k)
  {
    Below(0, FS.Pow(k % 8));
  }

  // The block whose bit bfree looks at for a file of one byte on a volume of 8192 blocks, and the bit.
  lemma StrayLooks(v: FS.Volume, i: nat)
    requires v.Valid() && v.size == 8192 && v.meta == 2 && v.ninodes == 2 && i < v.ninodes
    requires v.inodes[i].kind == T_CHECKED && v.inodes[i].size == 1 && FS.Contents(v.blocks, v.inodes[i]) == [1]
    requires forall j | 0 <= j < v.ninodes && j != i :: v.inodes[j].size == 0
    ensures FS.StrayFate(v.blocks, v.meta, v.ninodes, FS.Raw(v.blocks, v.inodes[i], 0)).Panics?
  {
    OnlyBlock(v, i);
    var raw, a := FS.Raw(v.blocks, v.inodes[i], 0), FS.Addr(v.blocks, v.inodes[i], 0);
    OneBit(v.blocks[a], raw % FS.BPB);
    OneSum(v.blocks[a]);
    assert raw == 0x100_0000 + a;
    var b := FS.BitmapBlock(raw, 2);
    assert b == 4099 + a / 4096 && raw % FS.BPB == a % FS.BPB;
    ZeroBit(raw % FS.BPB);
    if b != a {
      OthersZero(v, i, b);
    }
  }

  lemma EmptiedNone(blocks: seq<Block>, owner: FS.Owners, i: nat)
    ensures FS.Emptied(blocks, owner, i, 0) == blocks
  {
  }

  /** A checked file of one byte removed from a volume of 8192 blocks: bfree gets the block number with the checksum in
      it, looks for its bit in a block that is free, and panics. */
  method TruncationPanics() returns (r: FS.Truncation)
    ensures r.Panics?
  {
    var v, i := NewHolding(8192, [1]);
    OneByteFile(v, i);
    StrayLooks(v, i);
    assert !FS.Clean(v.blocks, v.inodes[i], 0, 1) by {
      assert SlotOf(0) == 0 && BlocksFor(1) == 1;
    }
    EmptiedNone(v.blocks, v.owner, i);
    assert forall bn | FS.FirstSummed(v.blocks, v.inodes[i], bn) :: bn == 0 by {
      assert SlotOf(0) == 0 && !FS.Bare(v.inodes[i].kind, FS.Raw(v.blocks, v.inodes[i], SlotOf(0)));
    }
    hide FS.Clean, FS.FileByte, FS.Partition, FS.Link, FS.WholeFile, FS.FirstSummed, FS.StrayFate, FS.Emptied;
    r := v.ITrunc(i);
  }

  /** A damaged block read twice: the first read fails, the second never returns. */
  method SecondReadHangs() returns (first: CheckedFiles.Reply, second: CheckedFiles.Reply)
    ensures first.Failed? && second.Hangs?
  {
    var v, i := NewHolding(200, [1]);
    OneByteFile(v, i);
    var d := v.inodes[i];
    var a := FS.Addr(v.blocks, d, 0);
    var damaged := v.blocks[a := v.blocks[a][0 := if v.blocks[a][0] == 0 then 1 else 0]];
    CheckedFiles.SecondReadHangs(v.blocks, d, v.table, v.owner, i, 1, 0, 0, damaged[a][0], 0, 1);
    assert SlotOf(0) == 0 && CheckedFiles.StopsAt(damaged, d, {}, 0, FS.Min(0 + 1, d.size), 0);
    var held;
    first, held := CheckedFiles.ReadI(damaged, d, 0, 1, {});
    assert held == {a} && CheckedFiles.StopsAt(damaged, d, held, 0, FS.Min(0 + 1, d.size), 0);
    second, held := CheckedFiles.ReadI(damaged, d, 0, 1, held);
  }

  /** stat on a file of the largest size panics. */
  method LargestFilePanics() returns (panicked: bool)
    ensures panicked
  {
    var v, i := NewFile(200, 2, T_CHECKED);
    var r := v.WriteI(i, seq(71680, _ => 0), 0);
    var sum;
    panicked, sum := CheckedFiles.StatChecksum(v, i);
  }

  // Two equal bytes cancel, so the block can be written again.
  lemma PairClean(v: FS.Volume, i: nat)
    requires v.Valid() && i < v.ninodes && v.inodes[i].kind == T_CHECKED && v.inodes[i].size == 2
             && FS.Contents(v.blocks, v.inodes[i]) == [1, 1]
    ensures FS.Clean(v.blocks, v.inodes[i], 0, 1)
  {
    OnlyBlock(v, i);
    var b := v.blocks[FS.Addr(v.blocks, v.inodes[i], 0)];
    XorAllZeros(510);
    XorAllConcat([1, 1], seq(510, _ => 0 as Byte));
    assert b == [1, 1] + seq(510, _ => 0 as Byte);
    assert XorAll([1, 1]) == 0;
    XorZero(0);
    assert SlotOf(0) == 0 && BlocksFor(2) == 1;
  }

  lemma OneReplaced()
    ensures FS.WriteCount(0, 1) == 1 && FS.WriteCost(2, 0, 1) == 0 && !FS.KeepsSums([1, 1], 0, [2][..1])
  {
    assert [2][..1] == [2] && [1, 1][0..0 + 1] == [1];
    assert FS.Part([2], 0, 0) == [2] && FS.Part([1], 0, 0) == [1];
    XorZero(1);
    XorZero(2);
    assert XorAll([2]) == 2 && XorAll([1]) == 1;
  }

  method OverwriteFirst(v: FS.Volume, i: nat)
    requires v.Valid() && i < v.ninodes && v.inodes[i].kind == T_CHECKED && v.inodes[i].size == 2 && v.Synced(i)
             && FS.Contents(v.blocks, v.inodes[i]) == [1, 1] && FS.Clean(v.blocks, v.inodes[i], 0, 1)
    modifies v
    ensures v.Valid() && i < |v.inodes| && v.inodes[i].kind == T_CHECKED && !v.Synced(i)
  {
    OneReplaced();
    hide FS.Clean, FS.KeepsSums, FS.WriteCost, FS.WriteCount, FS.FileByte, FS.Partition, FS.Link, FS.WholeFile,
        FS.Contents;
    var r := v.WriteI(i, [2], 0);
    assert r.Done?;
  }

  /** Two equal bytes in a checked file, and the first of them overwritten: the inode has the new checksum and
      its copy on disk still has the old one. */
  method StaleInode() returns (v: FS.Volume, i: nat)
    ensures v.Valid() && i < v.ninodes && v.inodes[i].kind == T_CHECKED && !v.Synced(i)
  {
    v, i := NewHolding(200, [1, 1]);
    PairClean(v, i);
    OverwriteFirst(v, i);
  }
}
