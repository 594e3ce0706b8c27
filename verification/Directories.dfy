/** Directories: files of 16-byte entries, an inode number and a name of at most 14 bytes, that stand for
    a map from names to inode numbers. */
module Directories {

  import opened Common
  import opened DiskFormat
  import FS = FileSystem

  const DIRSIZ := 14

  // A name without its terminating NUL.
  type Name = n: seq<Byte> | forall i | 0 <= i < |n| :: n[i] != 0 witness []

  // Names agree when their first 14 bytes do.
  function Key(name: seq<Byte>): seq<Byte> {
    if |name| <= 14 then name else name[..14]
  }

  // The name in a field of 14 bytes: up to the first NUL, if there is one.
  function FieldName(f: seq<Byte>): (n: seq<Byte>)
    ensures |n| <= |f| && n == f[..|n|] && (forall i | 0 <= i < |n| :: n[i] != 0) && (|n| < |f| ==> f[|n|] == 0)
  {
    if f == [] || f[0] == 0 then [] else [f[0]] + FieldName(f[1..])
  }

  // The byte at i of a name with its NUL.
  function At(name: Name, i: nat): Byte {
    if i < |name| then name[i] else 0
  }

  lemma FieldIs(name: Name, f: seq<Byte>, k: nat)
    requires |f| == 14 && k <= 14 && k <= |name| && forall i | 0 <= i < k :: f[i] == At(name, i)
    requires k == 14 || At(name, k) == 0 || f[k] != At(name, k)
    ensures FieldName(f) == Key(name) <==> k == 14 || At(name, k) == f[k]
  {
  }

  // strncmp over 14 bytes: zero exactly when the names agree.
  method NameCmp(name: Name, f: seq<Byte>) returns (equal: bool)
    requires |f| == 14
    ensures equal <==> FieldName(f) == Key(name)
  {
    var k := 0;
    while k < DIRSIZ && At(name, k) != 0 && At(name, k) == f[k]
      invariant 0 <= k <= 14 && k <= |name| && forall i | 0 <= i < k :: f[i] == At(name, i)
    {
      k := k + 1;
    }
    FieldIs(name, f, k);
    equal := k == 14 || At(name, k) == f[k];
  }

  // strncpy into 14 bytes: the name, cut or padded with NULs.
  method FillField(name: Name) returns (f: seq<Byte>)
    ensures |f| == 14 && FieldName(f) == Key(name)
  {
    f := [];
    var n := DIRSIZ;
    while n > 0 && At(name, |f|) != 0
      invariant n == 14 - |f| && 0 <= n && |f| <= |name| && f == name[..|f|]
    {
      f := f + [At(name, |f|)];
      n := n - 1;
    }
    ghost var k := |f|;
    while n > 0
      invariant n == 14 - |f| && 0 <= n && k <= |f|
      invariant forall i | 0 <= i < |f| :: f[i] == if i < k then At(name, i) else 0
    {
      f := f + [0];
      n := n - 1;
    }
    FieldIs(name, f, k);
  }

  // Entry e of a directory.
  function Inum(c: seq<Byte>, e: nat): nat
    requires 16 * e + 16 <= |c|
  {
    var lo: int, hi: int := c[16 * e], c[16 * e + 1];
    lo + 256 * hi
  }

  function EntryName(c: seq<Byte>, e: nat): seq<Byte>
    requires 16 * e + 16 <= |c|
  {
    FieldName(c[16 * e + 2..16 * e + 16])
  }

  // Entry e binds the name to an inode.
  ghost predicate Binds(c: seq<Byte>, e: nat, key: seq<Byte>, inum: nat) {
    16 * e + 16 <= |c| && Inum(c, e) == inum != 0 && EntryName(c, e) == key
  }

  ghost predicate Bound(c: seq<Byte>, key: seq<Byte>, inum: nat) {
    exists e: nat :: Binds(c, e, key, inum)
  }

  ghost predicate Names(c: seq<Byte>, e: nat, key: seq<Byte>) {
    16 * e + 16 <= |c| && Inum(c, e) != 0 && EntryName(c, e) == key
  }

  /** Whole entries, and no name twice. */
  ghost predicate IsDirectory(c: seq<Byte>) {
    |c| % 16 == 0 && forall e: nat, f: nat, key | Names(c, e, key) && Names(c, f, key) :: e == f
  }

  // A block of a directory: the contents from entry m on, and zeros past their end.
  ghost predicate ShowsFrom(block: seq<Byte>, c: seq<Byte>, m: nat) {
    |block| == 512 && forall o | 0 <= o < 512 :: block[o] == if 16 * m + o < |c| then c[16 * m + o] else 0
  }

  // The entries past the end of the contents are empty, so looking at them does no harm.
  lemma BlockEntry(block: seq<Byte>, c: seq<Byte>, m: nat, k: nat)
    requires ShowsFrom(block, c, m) && k < 32 && |c| % 16 == 0
    ensures Inum(block, k) != 0 ==> 16 * (m + k) + 16 <= |c|
    ensures 16 * (m + k) + 16 <= |c| ==> Inum(block, k) == Inum(c, m + k) && EntryName(block, k) == EntryName(c, m + k)
  {
    if 16 * (m + k) + 16 <= |c| {
      forall o | 16 * k <= o < 16 * k + 16 ensures block[o] == c[16 * m + o] {
      }
      assert block[16 * k + 2..16 * k + 16] == c[16 * (m + k) + 2..16 * (m + k) + 16];
    } else {
      assert 16 * m + 16 * k >= |c|;
    }
  }

  // No entry below m has the name.
  ghost predicate NoneBelow(c: seq<Byte>, m: nat, key: seq<Byte>) {
    forall e: nat | e < m :: !Names(c, e, key)
  }

  // No entry has the name.
  ghost predicate Unnamed(c: seq<Byte>, key: seq<Byte>) {
    forall e: nat :: !Names(c, e, key)
  }

  lemma NoneNext(c: seq<Byte>, m: nat, key: seq<Byte>)
    requires NoneBelow(c, m, key) && !Names(c, m, key)
    ensures NoneBelow(c, m + 1, key)
  {
  }

  lemma NoneAtAll(c: seq<Byte>, m: nat, key: seq<Byte>)
    requires NoneBelow(c, m, key) && |c| <= 16 * m
    ensures Unnamed(c, key)
  {
  }

  // One entry of a block: whether it is in use under the name.
  method HasName(block: seq<Byte>, k: nat, name: Name) returns (has: bool)
    requires |block| == 512 && k < 32
    ensures has <==> Names(block, k, Key(name))
  {
    if Inum(block, k) == 0 {
      return false;
    }
    has := NameCmp(name, block[16 * k + 2..16 * k + 16]);
  }

  // The scan of one block: the first entry with the name, or -1.
  method ScanBlock(block: seq<Byte>, name: Name) returns (k: int)
    requires |block| == 512
    ensures k == -1 || 0 <= k < 32
    ensures k >= 0 ==> Names(block, k, Key(name))
    ensures NoneBelow(block, if k == -1 then 32 else k, Key(name))
  {
    k := 0;
    while k < 32
      invariant 0 <= k <= 32 && NoneBelow(block, k, Key(name))
    {
      var has := HasName(block, k, name);
      if has {
        return;
      }
      NoneNext(block, k, Key(name));
      k := k + 1;
    }
    k := -1;
  }

  ghost function DirContents(v: FS.Volume, i: nat): seq<Byte>
    requires i < |v.inodes|
    reads v
  {
    FS.Contents(v.blocks, v.inodes[i])
  }

  // The block of a directory that holds entry m, and those after it.
  method ReadBlock(v: FS.Volume, i: nat, bn: nat) returns (block: seq<Byte>)
    requires v.Valid() && i < v.ninodes && v.inodes[i].kind == T_DIR && bn < BlocksFor(v.inodes[i].size)
    modifies v
    ensures v.Valid() && v.bitmap == old(v.bitmap) && v.blocks == old(v.blocks) && v.inodes == old(v.inodes)
            && v.table == old(v.table) && v.owner == old(v.owner) && v.dinodes == old(v.dinodes)
    ensures |block| == 512 && ShowsFrom(block, DirContents(v, i), 32 * bn)
  {
    hide Word, FS.Kept, FS.HasBlocks;
    assert v.Whole(i) && v.Linked(i);
    var g, addr := v.BMap(i, bn, BlocksFor(v.inodes[i].size));
    block := v.blocks[addr];
    forall o | 0 <= o < 512 ensures block[o] == FS.FileByte(v.blocks, v.inodes[i], bn * 512 + o) {
      FS.LinkByte(v.blocks, v.inodes[i], v.table, i, bn * 512 + o);
      assert (bn * 512 + o) / 512 == bn && (bn * 512 + o) % 512 == o;
    }
    forall j | 0 <= j < v.ninodes ensures v.Whole(j) {
      assert old(v.Whole(j));
    }
  }

  lemma BlockScanned(block: seq<Byte>, c: seq<Byte>, m: nat, key: seq<Byte>, k: int)
    requires ShowsFrom(block, c, m) && |c| % 16 == 0 && NoneBelow(c, m, key) && -1 <= k < 32
    requires NoneBelow(block, if k == -1 then 32 else k, key)
    ensures NoneBelow(c, m + if k == -1 then 32 else k, key)
    ensures k >= 0 && Names(block, k, key) ==> Inum(block, k) != 0 && Binds(c, m + k, key, Inum(block, k))
  {
    forall e: nat | e < m + if k == -1 then 32 else k ensures !Names(c, e, key) {
      if e >= m {
        BlockEntry(block, c, m, e - m);
        assert !Names(block, e - m, key);
      }
    }
    if k >= 0 {
      BlockEntry(block, c, m, k);
    }
  }

  // One block of the lookup: the first entry with the name and its inode number, or -1.
  method LookIn(v: FS.Volume, i: nat, bn: nat, name: Name) returns (k: int, inum: nat)
    requires v.Valid() && i < v.ninodes && v.inodes[i].kind == T_DIR && v.inodes[i].size % 16 == 0
             && bn < BlocksFor(v.inodes[i].size)
    requires NoneBelow(DirContents(v, i), 32 * bn, Key(name))
    modifies v
    ensures v.Valid() && v.bitmap == old(v.bitmap) && v.blocks == old(v.blocks) && v.inodes == old(v.inodes)
            && v.table == old(v.table) && v.owner == old(v.owner) && v.dinodes == old(v.dinodes)
    ensures k == -1 || 0 <= k < 32
    ensures NoneBelow(DirContents(v, i), 32 * bn + if k == -1 then 32 else k, Key(name))
    ensures k >= 0 ==> inum != 0 && Binds(DirContents(v, i), 32 * bn + k, Key(name), inum)
  {
    hide NoneBelow, ShowsFrom, Names, Binds, EntryName, FS.FileByte, FS.Partition, FS.Link, FS.WholeFile;
    var block := ReadBlock(v, i, bn);
    k := ScanBlock(block, name);
    BlockScanned(block, DirContents(v, i), 32 * bn, Key(name), k);
    inum := if k >= 0 then Inum(block, k) else 0;
  }

  /** Look a name up: the inode number it is bound to and the entry, the first with that name. */
  method DirLookup(v: FS.Volume, i: nat, name: Name) returns (inum: nat, e: nat)
    requires v.Valid() && i < v.ninodes && v.inodes[i].kind == T_DIR && v.inodes[i].size % 16 == 0
    modifies v
    ensures v.Valid() && v.bitmap == old(v.bitmap) && v.blocks == old(v.blocks) && v.inodes == old(v.inodes)
            && v.table == old(v.table) && v.owner == old(v.owner) && v.dinodes == old(v.dinodes)
    ensures DirContents(v, i) == old(DirContents(v, i))
    ensures inum == 0 ==> Unnamed(DirContents(v, i), Key(name))
    ensures inum != 0 ==> Binds(DirContents(v, i), e, Key(name), inum) && NoneBelow(DirContents(v, i), e, Key(name))
  {
    hide Binds, FS.FileByte, FS.Partition, FS.Link, FS.WholeFile;
    ghost var c := DirContents(v, i);
    var bn, size := 0, v.inodes[i].size;
    while 512 * bn < size
      invariant v.Valid() && v.bitmap == old(v.bitmap) && v.blocks == old(v.blocks) && v.inodes == old(v.inodes)
                && v.table == old(v.table) && v.owner == old(v.owner) && v.dinodes == old(v.dinodes)
      invariant NoneBelow(c, 32 * bn, Key(name))
      decreases size - 512 * bn
    {
      var k, found := LookIn(v, i, bn, name);
      if k >= 0 {
        return found, 32 * bn + k;
      }
      bn := bn + 1;
    }
    NoneAtAll(c, 32 * bn, Key(name));
    return 0, 0;
  }

  // The bytes of an entry.
  function Entry(inum: nat, f: seq<Byte>): seq<Byte>
    requires inum < 65536 && |f| == 14
  {
    [(inum % 256) as Byte, (inum / 256) as Byte] + f
  }

  /** The bytes of an entry: the inode number, lower byte first, and the name in a field of 14. */
  lemma EntryFormat(c: seq<Byte>, e: nat, inum: nat, f: seq<Byte>)
    requires inum < 65536 && |f| == 14 && 16 * e + 16 <= |c|
    ensures Entry(inum, f)[0] as int + 256 * Entry(inum, f)[1] as int == inum && Entry(inum, f)[2..] == f
    ensures Inum(c, e) == c[16 * e] as int + 256 * c[16 * e + 1] as int
    ensures EntryName(c, e) <= c[16 * e + 2..16 * e + 16]
  {
  }

  lemma SpliceEntry(c: seq<Byte>, e: nat, inum: nat, f: seq<Byte>, x: nat)
    requires 16 * e <= |c| && |c| % 16 == 0 && inum < 65536 && |f| == 14
    ensures var c' := FS.Splice(c, 16 * e, Entry(inum, f));
            && |c'| % 16 == 0 && |c'| == FS.Max(|c|, 16 * e + 16)
            && (16 * x + 16 <= |c'| && x != e ==> 16 * x + 16 <= |c| && Inum(c', x) == Inum(c, x)
                                                  && EntryName(c', x) == EntryName(c, x))
            && Inum(c', e) == inum && EntryName(c', e) == FieldName(f)
  {
    var c' := FS.Splice(c, 16 * e, Entry(inum, f));
    assert c'[16 * e + 2..16 * e + 16] == f;
    if 16 * x + 16 <= |c'| && x != e {
      assert c'[16 * x + 2..16 * x + 16] == c[16 * x + 2..16 * x + 16];
    }
  }

  // The entry that is written, and the others.
  lemma EntryBinds(c: seq<Byte>, e: nat, inum: nat, f: seq<Byte>, x: nat, key: seq<Byte>, n: nat)
    requires 16 * e <= |c| && |c| % 16 == 0 && inum < 65536 && |f| == 14
    ensures var c' := FS.Splice(c, 16 * e, Entry(inum, f));
            && (Binds(c', x, key, n) <==> if x == e then key == FieldName(f) && n == inum != 0 else Binds(c, x, key, n))
            && (Names(c', x, key) <==> if x == e then key == FieldName(f) && inum != 0 else Names(c, x, key))
  {
    SpliceEntry(c, e, inum, f, x);
  }

  lemma UniqueKept(c: seq<Byte>, e: nat, inum: nat, f: seq<Byte>, x: nat, y: nat, key: seq<Byte>)
    requires IsDirectory(c) && 16 * e <= |c| && inum < 65536 && |f| == 14
    requires inum != 0 ==> forall z: nat | z != e :: !Names(c, z, FieldName(f))
    ensures var c' := FS.Splice(c, 16 * e, Entry(inum, f)); Names(c', x, key) && Names(c', y, key) ==> x == y
  {
    EntryBinds(c, e, inum, f, x, key, 0);
    EntryBinds(c, e, inum, f, y, key, 0);
  }

  lemma StillDirectory(c: seq<Byte>, e: nat, inum: nat, f: seq<Byte>)
    requires IsDirectory(c) && 16 * e <= |c| && inum < 65536 && |f| == 14
    requires inum != 0 ==> forall z: nat | z != e :: !Names(c, z, FieldName(f))
    ensures IsDirectory(FS.Splice(c, 16 * e, Entry(inum, f)))
  {
    var c' := FS.Splice(c, 16 * e, Entry(inum, f));
    SpliceEntry(c, e, inum, f, e);
    forall x: nat, y: nat, key | Names(c', x, key) && Names(c', y, key) ensures x == y {
      UniqueKept(c, e, inum, f, x, y, key);
    }
  }

  /** Writing an entry into an empty place adds exactly one binding. */
  lemma LinkBinds(c: seq<Byte>, e: nat, inum: nat, f: seq<Byte>, key: seq<Byte>, n: nat)
    requires |c| % 16 == 0 && 16 * e <= |c| && (16 * e + 16 <= |c| ==> Inum(c, e) == 0) && 0 < inum < 65536 && |f| == 14
    ensures Bound(FS.Splice(c, 16 * e, Entry(inum, f)), key, n)
            <==> Bound(c, key, n) || (key == FieldName(f) && n == inum)
  {
    var c' := FS.Splice(c, 16 * e, Entry(inum, f));
    if x: nat :| Binds(c, x, key, n) {
      EntryBinds(c, e, inum, f, x, key, n);
    }
    if x: nat :| Binds(c', x, key, n) {
      EntryBinds(c, e, inum, f, x, key, n);
    }
    EntryBinds(c, e, inum, f, e, FieldName(f), inum);
  }

  /** Clearing the entry with a name takes exactly its binding away. */
  lemma UnlinkBinds(c: seq<Byte>, e: nat, f: seq<Byte>, gone: seq<Byte>, key: seq<Byte>, n: nat)
    requires IsDirectory(c) && Names(c, e, gone) && |f| == 14
    ensures Bound(FS.Splice(c, 16 * e, Entry(0, f)), key, n) <==> Bound(c, key, n) && key != gone
  {
    var c' := FS.Splice(c, 16 * e, Entry(0, f));
    if x: nat :| Binds(c, x, key, n) {
      EntryBinds(c, e, 0, f, x, key, n);
      assert Names(c, x, key);
    }
    if x: nat :| Binds(c', x, key, n) {
      EntryBinds(c, e, 0, f, x, key, n);
      assert Names(c, x, key);
    }
  }

  // The entries below e are all in use.
  ghost predicate InUse(c: seq<Byte>, e: nat) {
    16 * e <= |c| && forall x: nat | x < e :: Inum(c, x) != 0
  }

  lemma InUseNext(c: seq<Byte>, e: nat)
    requires InUse(c, e) && 16 * e + 16 <= |c| && Inum(c, e) != 0
    ensures InUse(c, e + 1)
  {
    forall x: nat | x < e + 1 ensures Inum(c, x) != 0 {
      assert x < e || x == e;
    }
  }

  // No entry is empty, and the directory is of the largest size.
  ghost predicate Largest(c: seq<Byte>) {
    InUse(c, |c| / 16) && |c| + 16 > 71680
  }

  // No entry is empty, and a new one takes more blocks than are free.
  ghost predicate NoBlocks(c: seq<Byte>, free: nat) {
    InUse(c, |c| / 16) && |c| + 16 <= 71680 && free < FS.WriteCost(|c|, |c|, 16)
  }

  // Read entry e and return its inode number.
  method ReadInum(v: FS.Volume, i: nat, e: nat) returns (inum: nat)
    requires v.Valid() && i < v.ninodes && v.inodes[i].kind == T_DIR && 16 * e + 16 <= v.inodes[i].size
    modifies v
    ensures v.Valid() && v.bitmap == old(v.bitmap) && v.blocks == old(v.blocks) && v.inodes == old(v.inodes)
            && v.table == old(v.table) && v.owner == old(v.owner) && v.dinodes == old(v.dinodes)
    ensures inum == Inum(DirContents(v, i), e)
  {
    var ok, de := v.ReadI(i, 16 * e, 16);
    inum := Inum(de, 0);
  }

  // The first empty entry, or the place for one at the end.
  method FindEmpty(v: FS.Volume, i: nat) returns (e: nat)
    requires v.Valid() && i < v.ninodes && v.inodes[i].kind == T_DIR && v.inodes[i].size % 16 == 0
    modifies v
    ensures v.Valid() && v.bitmap == old(v.bitmap) && v.blocks == old(v.blocks) && v.inodes == old(v.inodes)
            && v.table == old(v.table) && v.owner == old(v.owner) && v.dinodes == old(v.dinodes)
    ensures DirContents(v, i) == old(DirContents(v, i))
    ensures 16 * e <= v.inodes[i].size && (16 * e < v.inodes[i].size ==> Inum(DirContents(v, i), e) == 0)
    ensures InUse(DirContents(v, i), e)
  {
    e := 0;
    while 16 * e < v.inodes[i].size
      invariant v.Valid() && v.bitmap == old(v.bitmap) && v.blocks == old(v.blocks) && v.inodes == old(v.inodes)
                && v.table == old(v.table) && v.owner == old(v.owner) && v.dinodes == old(v.dinodes)
      invariant InUse(DirContents(v, i), e)
    {
      var inum := ReadInum(v, i, e);
      if inum == 0 {
        return;
      }
      InUseNext(DirContents(v, i), e);
      e := e + 1;
    }
  }

  // The directory has the bindings of c0 and the one for the key.
  ghost predicate OneMore(c0: seq<Byte>, c: seq<Byte>, key: seq<Byte>, inum: nat) {
    IsDirectory(c) && forall k, n :: Bound(c, k, n) <==> Bound(c0, k, n) || (k == key && n == inum)
  }

  ghost predicate OneLess(c0: seq<Byte>, c: seq<Byte>, key: seq<Byte>) {
    IsDirectory(c) && forall k, n :: Bound(c, k, n) <==> Bound(c0, k, n) && k != key
  }

  lemma LinkAdds(c: seq<Byte>, e: nat, inum: nat, f: seq<Byte>)
    requires IsDirectory(c) && 16 * e <= |c| && (16 * e + 16 <= |c| ==> Inum(c, e) == 0) && 0 < inum < 65536
             && |f| == 14
    requires Unnamed(c, FieldName(f))
    ensures OneMore(c, FS.Splice(c, 16 * e, Entry(inum, f)), FieldName(f), inum)
  {
    StillDirectory(c, e, inum, f);
    forall k, n ensures Bound(FS.Splice(c, 16 * e, Entry(inum, f)), k, n)
        <==> Bound(c, k, n) || (k == FieldName(f) && n == inum) {
      LinkBinds(c, e, inum, f, k, n);
    }
  }

  lemma UnlinkRemoves(c: seq<Byte>, e: nat, f: seq<Byte>, gone: seq<Byte>)
    requires IsDirectory(c) && Names(c, e, gone) && |f| == 14
    ensures OneLess(c, FS.Splice(c, 16 * e, Entry(0, f)), gone)
  {
    StillDirectory(c, e, 0, f);
    forall k, n ensures Bound(FS.Splice(c, 16 * e, Entry(0, f)), k, n) <==> Bound(c, k, n) && k != gone {
      UnlinkBinds(c, e, f, gone, k, n);
    }
  }

  /** How a change of a directory ends: done; refused; with a panic; with an entry in a block past the end of the
      device;
      or never. */
  datatype Update = Done | Refused | Panicked | PastDevice | Hangs

  method WriteEntry(v: FS.Volume, i: nat, e: nat, inum: nat, f: seq<Byte>) returns (w: Update)
    requires v.Valid() && i < v.ninodes && v.inodes[i].kind == T_DIR && v.inodes[i].size % 16 == 0
    requires 16 * e <= v.inodes[i].size && inum < 65536 && |f| == 14
    modifies v
    ensures w == if 16 * e + 16 > 71680 then Panicked
                 else if |old(v.Free())| >= FS.WriteCost(old(v.inodes)[i].size, 16 * e, 16) then Done
                 else if v.size % FS.BPB == 0 then Panicked else PastDevice
    ensures w.Done? ==> v.Valid() && i < |v.inodes|
                         && DirContents(v, i) == FS.Splice(old(DirContents(v, i)), 16 * e, Entry(inum, f))
    ensures w.Done? ==> FS.OthersRead(i, old(v.blocks), old(v.inodes), v.blocks, v.inodes)
    ensures w.Done? ==> v.inodes[i].kind == T_DIR
    ensures w.Done? && 16 * e < old(v.inodes)[i].size ==> v.inodes == old(v.inodes) && v.dinodes == old(v.dinodes)
  {
    var r := v.WriteI(i, Entry(inum, f), 16 * e);
    w := match r
      case Done(count) => if count == 16 then Done else Panicked
      case PastDevice => PastDevice
      case _ => Panicked;
    assert w.Done? ==> Entry(inum, f)[..16] == Entry(inum, f);
  }

  /** Bind a name. Refused exactly on a name that is bound already; then nothing changes. When linked, the one binding
      is added and every other file is left alone. With the directory of the largest size, or no block free for it on
      a volume whose last bitmap block is full too, the kernel panics; with no block free and clear bits in the
      last bitmap block, the entry goes into a block past the end of the device. */
  method DirLink(v: FS.Volume, i: nat, name: Name, inum: nat) returns (r: Update)
    requires v.Valid() && i < v.ninodes && v.inodes[i].kind == T_DIR && IsDirectory(DirContents(v, i))
             && 0 < inum < 65536
    modifies v
    ensures !r.Hangs? && (r.Refused? <==> exists n :: Bound(old(DirContents(v, i)), Key(name), n))
    ensures r.Refused? ==> v.Valid() && v.bitmap == old(v.bitmap) && v.blocks == old(v.blocks)
                           && v.inodes == old(v.inodes) && v.dinodes == old(v.dinodes)
                           && v.table == old(v.table) && v.owner == old(v.owner)
    ensures r.Panicked? <==> !r.Refused? && var c := old(DirContents(v, i));
                             Largest(c) || (NoBlocks(c, |old(v.Free())|) && v.size % FS.BPB == 0)
    ensures r.PastDevice? <==> !r.Refused? && v.size % FS.BPB != 0 && NoBlocks(old(DirContents(v, i)), |old(v.Free())|)
    ensures r.Done? ==> v.Valid() && i < |v.inodes|
                          && OneMore(old(DirContents(v, i)), DirContents(v, i), Key(name), inum)
    ensures r.Done? ==> FS.OthersRead(i, old(v.blocks), old(v.inodes), v.blocks, v.inodes)
  {
    hide FS.Partition, FS.Link, FS.WholeFile, FS.FileByte, OneMore, InUse;
    ghost var c := DirContents(v, i);
    var found, x := DirLookup(v, i, name);
    if found != 0 {
      assert Bound(c, Key(name), found);
      return Refused;
    }
    BoundNames(c, Key(name));
    var e := FindEmpty(v, i);
    var f := FillField(name);
    LinkAdds(c, e, inum, f);
    RoomAt(c, e, |v.Free()|);
    r := WriteEntry(v, i, e, inum, f);
  }

  lemma RoomAt(c: seq<Byte>, e: nat, free: nat)
    requires |c| % 16 == 0 && |c| <= 71680 && 16 * e <= |c| && InUse(c, e) && (16 * e < |c| ==> Inum(c, e) == 0)
    ensures Largest(c) <==> 16 * e + 16 > 71680
    ensures NoBlocks(c, free) <==> 16 * e + 16 <= 71680 && free < FS.WriteCost(|c|, 16 * e, 16)
  {
  }

  lemma BoundNames(c: seq<Byte>, key: seq<Byte>)
    requires Unnamed(c, key)
    ensures forall n :: !Bound(c, key, n)
  {
    forall n ensures !Bound(c, key, n) {
      if e: nat :| Binds(c, e, key, n) {
        assert Names(c, e, key);
      }
    }
  }

  // Past the first two entries, for the directory itself and its parent, nothing is in use.
  ghost predicate EmptyFrom(c: seq<Byte>, e: nat) {
    forall x: nat | e <= x && 16 * x + 16 <= |c| :: Inum(c, x) == 0
  }

  // isdirempty.
  method IsDirEmpty(v: FS.Volume, i: nat) returns (empty: bool)
    requires v.Valid() && i < v.ninodes && v.inodes[i].kind == T_DIR && v.inodes[i].size % 16 == 0
    modifies v
    ensures v.Valid() && v.bitmap == old(v.bitmap) && v.blocks == old(v.blocks) && v.inodes == old(v.inodes)
            && v.table == old(v.table) && v.owner == old(v.owner) && v.dinodes == old(v.dinodes)
    ensures empty <==> EmptyFrom(DirContents(v, i), 2)
  {
    var e: nat, size: nat := 2, v.inodes[i].size;
    ghost var c := DirContents(v, i);
    while 16 * e < size
      invariant v.Valid() && v.bitmap == old(v.bitmap) && v.blocks == old(v.blocks) && v.inodes == old(v.inodes)
                && v.table == old(v.table) && v.owner == old(v.owner) && v.dinodes == old(v.dinodes)
      invariant 2 <= e && (EmptyFrom(c, e) ==> EmptyFrom(c, 2))
    {
      var inum := ReadInum(v, i, e);
      if inum != 0 {
        return false;
      }
      EmptyNext(c, e);
      e := e + 1;
    }
    return true;
  }

  lemma EmptyNext(c: seq<Byte>, e: nat)
    requires 16 * e + 16 <= |c| && Inum(c, e) == 0
    ensures EmptyFrom(c, e + 1) ==> EmptyFrom(c, e)
  {
    if EmptyFrom(c, e + 1) {
      forall x: nat | e <= x && 16 * x + 16 <= |c| ensures Inum(c, x) == 0 {
        assert x == e || x >= e + 1;
      }
    }
  }

  // The entry of a name for the directory itself or its parent.
  predicate IsDots(key: seq<Byte>) {
    key == [46] || key == [46, 46]
  }

  // Every inode that the directory names is there, and has whole entries if it is a directory.
  ghost predicate Leading(inodes: seq<Dinode>, c: seq<Byte>) {
    forall key, n: nat | Bound(c, key, n) :: n < |inodes| && (inodes[n].kind == T_DIR ==> inodes[n].size % 16 == 0)
  }

  // What is bound to the name, if anything is.
  ghost predicate Meant(c: seq<Byte>, key: seq<Byte>, t: nat) {
    forall n: nat | Bound(c, key, n) :: n == t && Bound(c, key, t)
  }

  /** unlink, once the directory is found: the name's entry is cleared if it may be removed, and the links of the inode,
      and of the directory if it loses a subdirectory, are counted down. The entries for the directory itself and its
      parent are refused, and so are a name that is not there and a directory with something in it. Another entry for
      the directory itself makes the call wait for a lock it holds, and an inode without links is a panic. The entry is
      inside the directory, so there is always room to write it. */
  method DirUnlink(v: FS.Volume, i: nat, name: Name) returns (r: Update, ghost t: nat)
    requires v.Valid() && i < v.ninodes && v.inodes[i].kind == T_DIR && IsDirectory(DirContents(v, i))
             && Leading(v.inodes, DirContents(v, i))
    modifies v
    ensures Meant(old(DirContents(v, i)), Key(name), t)
    ensures !r.PastDevice? && (Key(name) == [46] || Key(name) == [46, 46] ==> r.Refused?)
    ensures (forall n: nat :: !Bound(old(DirContents(v, i)), Key(name), n)) ==> r.Refused?
    ensures Key(name) != [46] && Key(name) != [46, 46] && Bound(old(DirContents(v, i)), Key(name), t) ==>
            && t < |old(v.inodes)|
            && (r.Hangs? <==> t == i)
            && (r.Panicked? <==> t != i && old(v.inodes)[t].nlink <= 0)
            && (r.Refused? <==> t != i && old(v.inodes)[t].nlink >= 1 && old(v.inodes)[t].kind == T_DIR
                                && !EmptyFrom(FS.Contents(old(v.blocks), old(v.inodes)[t]), 2))
    ensures v.Valid() && i < |v.inodes|
    ensures !r.Done? ==> v.bitmap == old(v.bitmap) && v.blocks == old(v.blocks) && v.inodes == old(v.inodes)
                         && v.dinodes == old(v.dinodes) && v.table == old(v.table) && v.owner == old(v.owner)
    ensures r.Done? ==> OneLess(old(DirContents(v, i)), DirContents(v, i), Key(name))
    ensures r.Done? ==> t < |v.inodes| == |old(v.inodes)| == |old(v.dinodes)| && t != i
                        && 1 <= old(v.inodes)[t].nlink
    ensures r.Done? ==> v.inodes[t] == old(v.inodes)[t].(nlink := old(v.inodes)[t].nlink - 1)
    ensures r.Done? ==> var n := old(v.inodes)[i].nlink;
                        v.inodes[i] == if old(v.inodes)[t].kind != T_DIR then old(v.inodes)[i]
                            else old(v.inodes)[i].(nlink := if n == -0x8000 then 0x7FFF else n - 1)
    ensures r.Done? ==> forall j | 0 <= j < |v.inodes| && j != t && j != i :: v.inodes[j] == old(v.inodes)[j]
    ensures r.Done? ==> v.dinodes == if old(v.inodes)[t].kind == T_DIR
                            then old(v.dinodes)[i := v.inodes[i]][t := v.inodes[t]]
                            else old(v.dinodes)[t := v.inodes[t]]
    ensures FS.OthersRead(i, old(v.blocks), old(v.inodes), v.blocks, v.inodes)
  {
    hide FS.Partition, FS.Link, FS.WholeFile, FS.FileByte, OneLess;
    ghost var c := DirContents(v, i);
    t := 0;
    if IsDots(Key(name)) {
      t := BoundTo(c, Key(name));
      return Refused, t;
    }
    var inum, e := DirLookup(v, i, name);
    if inum == 0 {
      BoundNames(c, Key(name));
      return Refused, 0;
    }
    assert Bound(c, Key(name), inum);
    BoundOnce(c, Key(name), inum);
    t := inum;
    if inum == i {
      return Hangs, t;
    }
    if v.inodes[inum].nlink < 1 {
      return Panicked, t;
    }
    if v.inodes[inum].kind == T_DIR {
      var empty := IsDirEmpty(v, inum);
      if !empty {
        return Refused, t;
      }
    }
    ClearEntry(v, i, e, Key(name));
    if v.inodes[inum].kind == T_DIR {
      v.SetLinks(i, FS.Less(v.inodes[i].nlink));
    }
    v.SetLinks(inum, FS.Less(v.inodes[inum].nlink));
    r := Done;
  }

  lemma BoundTo(c: seq<Byte>, key: seq<Byte>) returns (t: nat)
    requires IsDirectory(c)
    ensures Meant(c, key, t)
  {
    if n: nat :| Bound(c, key, n) {
      BoundOnce(c, key, n);
      t := n;
    } else {
      t := 0;
    }
  }

  lemma BoundOnce(c: seq<Byte>, key: seq<Byte>, n: nat)
    requires IsDirectory(c) && Bound(c, key, n)
    ensures forall m: nat | Bound(c, key, m) :: m == n
  {
    var e: nat :| Binds(c, e, key, n);
    forall m: nat | Bound(c, key, m) ensures m == n {
      var f: nat :| Binds(c, f, key, m);
      assert Names(c, e, key) && Names(c, f, key);
    }
  }

  method ClearEntry(v: FS.Volume, i: nat, e: nat, ghost key: seq<Byte>)
    requires v.Valid() && i < v.ninodes && v.inodes[i].kind == T_DIR && IsDirectory(DirContents(v, i))
             && Names(DirContents(v, i), e, key)
    modifies v
    ensures v.Valid() && i < |v.inodes| && OneLess(old(DirContents(v, i)), DirContents(v, i), key)
    ensures v.inodes == old(v.inodes) && v.dinodes == old(v.dinodes)
    ensures FS.OthersRead(i, old(v.blocks), old(v.inodes), v.blocks, v.inodes)
  {
    var f := seq(14, _ => 0);
    UnlinkRemoves(DirContents(v, i), e, f, key);
    var w := WriteEntry(v, i, e, 0, f);
  }
}
