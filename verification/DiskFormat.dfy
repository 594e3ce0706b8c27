/** On-disk formats shared by the file-system model: raw 512-byte blocks, the view of
    a block as 128 little-endian words (an indirect block), and inodes. */
module DiskFormat {

  import opened Common

  const NDIRECT: nat := 12
  const NINDIRECT: nat := 128
  const MAXFILE: nat := 140
  // Address slots of an inode: 12 direct, the indirect pointer, 128 entries behind it.
  const NSLOTS: nat := 141
  const UINT_LIMIT: nat := 0x1_0000_0000

  type Block = b: seq<Byte> | |b| == 512 witness seq(512, _ => 0)

  // 12 direct block addresses and the indirect one.
  type Addrs = a: seq<Word32> | |a| == 13 witness seq(13, _ => 0)
  // No file is longer than MAXFILE blocks.
  type FileSize = x: int | 0 <= x <= 71680

  const T_DIR: int := 1
  const T_FILE: int := 2
  const T_CHECKED: int := 4

  datatype Dinode = Dinode(kind: int, major: int, minor: int, nlink: int, size: FileSize, addrs: Addrs)

  // The address of a block of a checked file has the block's checksum in its top byte.
  function RealAddr(raw: Word32): nat {
    raw % 0x100_0000
  }

  function StoredSum(raw: Word32): Byte {
    raw / 0x100_0000
  }

  function SynthAddr(raw: Word32, sum: Byte): Word32 {
    var s: int := sum;
    0x100_0000 * s + RealAddr(raw)
  }

  lemma SynthSplit(raw: Word32, sum: Byte)
    ensures RealAddr(SynthAddr(raw, sum)) == RealAddr(raw) && StoredSum(SynthAddr(raw, sum)) == sum
    ensures raw == SynthAddr(raw, StoredSum(raw))
  {
  }

  // The block that an address in an inode of some type stands for.
  function Real(kind: int, raw: Word32): nat {
    if kind == T_CHECKED then RealAddr(raw) else raw
  }

  function ZeroBlock(): (b: Block)
    ensures forall i :: 0 <= i < 512 ==> b[i] == 0
  {
    seq(512, _ => 0)
  }

  function Word(b: Block, j: nat): Word32
    requires j < NINDIRECT
  {
    var b0: int, b1: int, b2: int, b3: int := b[4 * j], b[4 * j + 1], b[4 * j + 2], b[4 * j + 3];
    b0 + 0x100 * b1 + 0x1_0000 * b2 + 0x100_0000 * b3
  }

  function SetWord(b: Block, j: nat, v: Word32): (r: Block)
    requires j < NINDIRECT
  {
    b[4 * j := v % 0x100][4 * j + 1 := v / 0x100 % 0x100][4 * j + 2 := v / 0x1_0000 % 0x100][4 * j + 3 :=
            v / 0x100_0000]
  }

  lemma WordBytes(v: Word32)
    ensures v == v % 0x100 + 0x100 * (v / 0x100 % 0x100)
                 + 0x1_0000 * (v / 0x1_0000 % 0x100) + 0x100_0000 * (v / 0x100_0000)
  {
  }

  // Storing a word changes that word of the block and no other.
  lemma WordSetWord(b: Block, j: nat, v: Word32, i: nat)
    requires i < NINDIRECT && j < NINDIRECT
    ensures Word(SetWord(b, j, v), i) == if i == j then v else Word(b, i)
  {
    WordBytes(v);
  }

  // Number of blocks holding `size` bytes, and of disk blocks needed for `n` file blocks.
  function BlocksFor(size: nat): nat {
    (size + 512 - 1) / 512
  }

  function DiskBlocks(n: nat): nat {
    if n > NDIRECT then n + 1 else n
  }

  // Slot of the n-th file block.
  function SlotOf(bn: nat): nat {
    if bn < NDIRECT then bn else bn + 1
  }

  // Block number and offset in the block of a file offset.
  method Locate(pos: nat) returns (bn: nat, o: nat)
    ensures pos == bn * 512 + o && o < 512
    ensures o == pos % 512 && (pos + (512 - o)) % 512 == 0
  {
    return pos / 512, pos % 512;
  }
}
