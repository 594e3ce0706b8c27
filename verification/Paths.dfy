/** Path names: cutting a path into elements, and the walk along it with the references it takes and drops. */
module Paths {

  import opened Common
  import opened DiskFormat
  import opened Directories
  import FS = FileSystem

  const SLASH: Byte := 47

  // A path without its leading slashes, and the length of its first element.
  function Strip(path: seq<Byte>): seq<Byte> {
    if path != [] && path[0] == 47 then Strip(path[1..]) else path
  }

  function ElementLength(path: seq<Byte>): (n: nat)
    ensures n <= |path|
  {
    if path != [] && path[0] != 47 then 1 + ElementLength(path[1..]) else 0
  }

  lemma {:induction false} StripShorter(path: seq<Byte>)
    ensures |Strip(path)| <= |path| && (Strip(path) == [] || Strip(path)[0] != 47) && Strip(Strip(path)) == Strip(path)
  {
    if path != [] && path[0] == 47 {
      StripShorter(path[1..]);
    }
  }

  // The elements of a path, each cut to 14 bytes.
  function Elements(path: seq<Byte>): seq<seq<Byte>>
    decreases |path|
  {
    StripShorter(path);
    var p := Strip(path);
    if p == [] then [] else [Key(p[..ElementLength(p)])] + Elements(p[ElementLength(p)..])
  }

  lemma ElementsStrip(path: seq<Byte>)
    ensures Elements(Strip(path)) == Elements(path)
  {
  }

  function Slashes(n: nat): (s: seq<Byte>)
    ensures |s| == n && forall k | 0 <= k < n :: s[k] == 47
  {
    seq(n, _ => 47)
  }

  // A file name as it stands in a path: not empty, and no slash in it.
  predicate Plain(name: seq<Byte>) {
    name != [] && 47 !in name
  }

  // Names with slashes in front of each and behind the last, at least one between two of them.
  ghost predicate Fitting(names: seq<seq<Byte>>, gaps: seq<nat>) {
    && |gaps| == |names| + 1 && (forall k | 0 <= k < |names| :: Plain(names[k]))
    && forall k | 0 < k < |names| :: gaps[k] > 0
  }

  ghost function Joined(names: seq<seq<Byte>>, gaps: seq<nat>): seq<Byte>
    requires |gaps| == |names| + 1
  {
    if names == [] then Slashes(gaps[0]) else Slashes(gaps[0]) + names[0] + Joined(names[1..], gaps[1..])
  }

  lemma {:induction false} StripSlashes(n: nat, rest: seq<Byte>)
    ensures Strip(Slashes(n) + rest) == Strip(rest)
  {
    var path := Slashes(n) + rest;
    if n > 0 {
      StripSlashes(n - 1, rest);
      assert path[1..] == Slashes(n - 1) + rest;
    } else {
      assert path == rest;
    }
  }

  lemma {:induction false} LengthIs(name: seq<Byte>, rest: seq<Byte>)
    requires 47 !in name && (rest == [] || rest[0] == 47)
    ensures ElementLength(name + rest) == |name|
  {
    if name == [] {
      assert name + rest == rest;
    } else {
      LengthIs(name[1..], rest);
      assert (name + rest)[1..] == name[1..] + rest && name[0] in name;
    }
  }

  /** Whatever slashes stand between them and at the ends, the elements of a path are its names, in their order,
      each cut to 14 bytes. */
  lemma {:induction false} ElementsAreNames(names: seq<seq<Byte>>, gaps: seq<nat>)
    requires Fitting(names, gaps)
    ensures var elems := Elements(Joined(names, gaps));
            && |elems| == |names|
            && forall k | 0 <= k < |names| :: elems[k] == if |names[k]| > 14 then names[k][..14] else names[k]
    decreases |names|
  {
    var path := Joined(names, gaps);
    if names == [] {
      StripSlashes(gaps[0], []);
      assert path == Slashes(gaps[0]) + [];
    } else {
      var name, rest := names[0], Joined(names[1..], gaps[1..]);
      assert path == Slashes(gaps[0]) + (name + rest);
      StripSlashes(gaps[0], name + rest);
      assert (name + rest)[0] in name;
      RestStarts(names, gaps);
      LengthIs(name, rest);
      assert (name + rest)[..|name|] == name && (name + rest)[|name|..] == rest;
      ElementsAreNames(names[1..], gaps[1..]);
      assert forall k | 0 < k < |names| :: names[k] == names[1..][k - 1];
    }
  }

  // What follows the first name begins with a slash, if there is anything.
  lemma RestStarts(names: seq<seq<Byte>>, gaps: seq<nat>)
    requires Fitting(names, gaps) && names != []
    ensures var rest := Joined(names[1..], gaps[1..]); rest == [] || rest[0] == 47
  {
  }

  /** Every path is made of names in this way. */
  lemma {:induction false} NamesOf(path: seq<Byte>) returns (names: seq<seq<Byte>>, gaps: seq<nat>)
    ensures Fitting(names, gaps) && Joined(names, gaps) == path
    decreases |path|
  {
    if path == [] {
      return [], [0];
    }
    names, gaps := NamesOf(path[1..]);
    if path[0] == 47 {
      gaps := gaps[0 := gaps[0] + 1];
    } else if names != [] && gaps[0] == 0 {
      names := names[0 := [path[0]] + names[0]];
    } else {
      names, gaps := [[path[0]]] + names, [0] + gaps;
    }
  }

  method SkipSlashes(path: Name) returns (rest: Name)
    ensures rest == Strip(path)
  {
    rest := path;
    while rest != [] && rest[0] == SLASH
      invariant Strip(rest) == Strip(path)
      decreases |rest|
    {
      rest := rest[1..];
    }
  }

  /** skipelem: the first element, cut to 14 bytes, and what follows it without leading slashes. */
  method SkipElem(path: Name) returns (found: bool, name: Name, rest: Name)
    ensures Key(name) == name && (found <==> Elements(path) != [])
    ensures found ==> Elements(path) == [name] + Elements(rest) && |rest| < |path|
    ensures found ==> (rest == [] <==> Elements(rest) == [])
  {
    var s := SkipSlashes(path);
    StripShorter(path);
    if s == [] {
      return false, [], [];
    }
    var len := 0;
    while len < |s| && s[len] != SLASH
      invariant 0 <= len <= |s| && ElementLength(s) == len + ElementLength(s[len..])
    {
      assert s[len..][1..] == s[len + 1..];
      len := len + 1;
    }
    name := if len >= DIRSIZ then s[..14] else s[..len];
    assert s[..len][..if len >= 14 then 14 else len] == name;
    rest := SkipSlashes(s[len..]);
    StripShorter(s[len..]);
    ElementsStrip(s[len..]);
    found := true;
  }

  /** Every directory of the volume is one: whole entries, no name twice, and every name leads to an inode. */
  ghost predicate Tree(blocks: seq<Block>, inodes: seq<Dinode>) {
    forall i | 0 <= i < |inodes| && inodes[i].kind == T_DIR ::
        IsDirectory(FS.Contents(blocks, inodes[i])) && Leading(inodes, FS.Contents(blocks, inodes[i]))
  }

  // Inode ip is a directory in which the name is bound.
  ghost predicate Has(blocks: seq<Block>, inodes: seq<Dinode>, ip: nat, key: seq<Byte>) {
    ip < |inodes| && inodes[ip].kind == T_DIR && exists n: nat :: Bound(FS.Contents(blocks, inodes[ip]), key, n)
  }

  ghost function Child(blocks: seq<Block>, inodes: seq<Dinode>, ip: nat, key: seq<Byte>): nat
    requires Has(blocks, inodes, ip, key)
  {
    var n: nat :| Bound(FS.Contents(blocks, inodes[ip]), key, n);
    n
  }

  // Looking up one element after the other in the directories of a volume.
  ghost function Walk(blocks: seq<Block>, inodes: seq<Dinode>, ip: nat, elems: seq<seq<Byte>>): Option<nat>
    decreases |elems|
  {
    if elems == [] then Some(ip)
    else if !Has(blocks, inodes, ip, elems[0]) then None
    else Walk(blocks, inodes, Child(blocks, inodes, ip, elems[0]), elems[1..])
  }

  ghost predicate IsDir(inodes: seq<Dinode>, ip: nat) {
    ip < |inodes| && inodes[ip].kind == T_DIR
  }

  /** One element leads to what is bound to it in a directory. */
  lemma WalkOne(blocks: seq<Block>, inodes: seq<Dinode>, ip: nat, key: seq<Byte>, n: nat)
    requires Tree(blocks, inodes)
    ensures Walk(blocks, inodes, ip, [key]) == Some(n)
            <==> ip < |inodes| && inodes[ip].kind == T_DIR && Bound(FS.Contents(blocks, inodes[ip]), key, n)
  {
    if Has(blocks, inodes, ip, key) {
      var m := Child(blocks, inodes, ip, key);
      BoundOnce(FS.Contents(blocks, inodes[ip]), key, m);
      assert Walk(blocks, inodes, m, []) == Some(m) && [key][1..] == [];
    }
  }

  /** The walk along two stretches is the walk along the second from where the first one leads. */
  lemma {:induction false} WalkSplits(blocks: seq<Block>, inodes: seq<Dinode>, ip: nat, a: seq<seq<Byte>>,
                                      b: seq<seq<Byte>>)
    ensures var p := Walk(blocks, inodes, ip, a);
            Walk(blocks, inodes, ip, a + b) == if p.Some? then Walk(blocks, inodes, p.value, b) else None
    decreases |a|
  {
    if a == [] {
      assert a + b == b;
    } else if Has(blocks, inodes, ip, a[0]) {
      WalkSplits(blocks, inodes, Child(blocks, inodes, ip, a[0]), a[1..], b);
      assert (a + b)[1..] == a[1..] + b;
    }
  }

  // The directory that holds the last element.
  ghost function WalkParent(blocks: seq<Block>, inodes: seq<Dinode>, ip: nat, elems: seq<seq<Byte>>): Option<nat>
    decreases |elems|
  {
    if elems == [] || !IsDir(inodes, ip) then None
    else if |elems| == 1 then Some(ip)
    else if !Has(blocks, inodes, ip, elems[0]) then None
    else WalkParent(blocks, inodes, Child(blocks, inodes, ip, elems[0]), elems[1..])
  }

  // From a file no element leads on.
  lemma NoWay(blocks: seq<Block>, inodes: seq<Dinode>, ip: nat, elems: seq<seq<Byte>>)
    requires !IsDir(inodes, ip) && elems != []
    ensures Walk(blocks, inodes, ip, elems) == WalkParent(blocks, inodes, ip, elems) == None
  {
  }

  /** The parent is where the walk along all elements but the last ends, if that is a directory. */
  lemma {:induction false} ParentIs(blocks: seq<Block>, inodes: seq<Dinode>, ip: nat, elems: seq<seq<Byte>>)
    requires elems != []
    ensures var p := Walk(blocks, inodes, ip, elems[..|elems| - 1]);
            WalkParent(blocks, inodes, ip, elems) == if p.Some? && IsDir(inodes, p.value) then p else None
    decreases |elems|
  {
    if |elems| > 1 && Has(blocks, inodes, ip, elems[0]) {
      ParentIs(blocks, inodes, Child(blocks, inodes, ip, elems[0]), elems[1..]);
      assert elems[1..][..|elems| - 2] == elems[..|elems| - 1][1..];
    }
  }

  // The one inode that a lookup finds.
  lemma ChildIs(blocks: seq<Block>, inodes: seq<Dinode>, ip: nat, key: seq<Byte>, n: nat)
    requires Tree(blocks, inodes) && IsDir(inodes, ip) && Bound(FS.Contents(blocks, inodes[ip]), key, n)
    ensures Has(blocks, inodes, ip, key) && Child(blocks, inodes, ip, key) == n < |inodes|
  {
    BoundOnce(FS.Contents(blocks, inodes[ip]), key, n);
  }

  type Counts = map<nat, int>

  function Count(refs: Counts, i: nat): int {
    if i in refs then refs[i] else 0
  }

  function Bumped(refs: Counts, i: nat, change: int): Counts {
    refs[i := Count(refs, i) + change]
  }

  // The references held are those of refs0 and one on ip.
  ghost predicate OneOn(refs0: Counts, refs: Counts, ip: nat) {
    forall i: nat :: Count(refs, i) == Count(refs0, i) + if i == ip then 1 else 0
  }

  class InodeRefs {
    const vol: FS.Volume
    var refs: Counts

    constructor (vol: FS.Volume)
      ensures this.vol == vol && refs == map[]
    {
      this.vol, refs := vol, map[];
    }

    method Take(i: nat)
      modifies this
      ensures refs == Bumped(old(refs), i, 1)
    {
      refs := Bumped(refs, i, 1);
    }

    method Drop(i: nat)
      modifies this
      ensures refs == Bumped(old(refs), i, -1)
    {
      refs := Bumped(refs, i, -1);
    }

    // Let the reference on ip go; those held before remain.
    method GiveUp(ip: nat, ghost refs0: Counts)
      requires OneOn(refs0, refs, ip)
      modifies this
      ensures forall i: nat :: Count(refs, i) == Count(refs0, i)
    {
      Drop(ip);
    }

    // Move the reference on ip to next.
    method MoveOn(ip: nat, next: nat, ghost refs0: Counts)
      requires OneOn(refs0, refs, ip)
      modifies this
      ensures OneOn(refs0, refs, next)
    {
      Take(next);
      Drop(ip);
    }

    // What the rest of a path leads to.
    static ghost function Target(parent: bool, blocks: seq<Block>, inodes: seq<Dinode>, ip: nat,
                                 elems: seq<seq<Byte>>): Option<nat> {
      if parent then WalkParent(blocks, inodes, ip, elems) else Walk(blocks, inodes, ip, elems)
    }

    // Look an element of a path up in directory ip; 0 if it is not there.
    method LookUp(ip: nat, name: Name) returns (next: nat)
      requires vol.Valid() && Tree(vol.blocks, vol.inodes) && ip < vol.ninodes && vol.inodes[ip].kind == T_DIR
               && Key(name) == name
      modifies vol
      ensures vol.Valid() && vol.bitmap == old(vol.bitmap) && vol.blocks == old(vol.blocks)
              && vol.inodes == old(vol.inodes) && vol.dinodes == old(vol.dinodes)
              && vol.table == old(vol.table) && vol.owner == old(vol.owner)
      ensures next == 0 <==> !Has(vol.blocks, vol.inodes, ip, name)
      ensures next != 0 ==> next == Child(vol.blocks, vol.inodes, ip, name) < vol.ninodes
    {
      ghost var c := FS.Contents(vol.blocks, vol.inodes[ip]);
      assert IsDirectory(c);
      var e;
      next, e := DirLookup(vol, ip, name);
      if next == 0 {
        BoundNames(c, name);
      } else {
        assert Bound(c, name, next);
        ChildIs(vol.blocks, vol.inodes, ip, name, next);
      }
    }

    /** namex: the inode a path names, or with `parent` the directory of its last element and that element.
        Whatever happens on the way, the only reference that remains is the one on the inode returned. */
    method Namex(path: Name, parent: bool, root: nat, cwd: nat) returns (r: Option<nat>, name: seq<Byte>)
      requires vol.Valid() && Tree(vol.blocks, vol.inodes) && root < vol.ninodes && cwd < vol.ninodes
      modifies this, vol
      ensures vol.Valid() && vol.bitmap == old(vol.bitmap) && vol.blocks == old(vol.blocks)
              && vol.inodes == old(vol.inodes) && vol.dinodes == old(vol.dinodes)
              && vol.table == old(vol.table) && vol.owner == old(vol.owner)
      ensures var start, elems := if path != [] && path[0] == 47 then root else cwd, Elements(path);
              && r == (if parent then WalkParent(vol.blocks, vol.inodes, start, elems)
                       else Walk(vol.blocks, vol.inodes, start, elems))
              && (parent && r.Some? ==> elems != [] && name == elems[|elems| - 1])
      ensures r.Some? ==> OneOn(old(refs), refs, r.value)
      ensures r.None? ==> forall i: nat :: Count(refs, i) == Count(old(refs), i)
    {
      hide Tree, Has, FS.Contents, FS.Partition, FS.Link, FS.WholeFile;
      ghost var refs0, all, blocks, inodes := refs, Elements(path), vol.blocks, vol.inodes;
      var ip: nat := if path != [] && path[0] == SLASH then root else cwd;
      Take(ip);
      ghost var goal := Target(parent, blocks, inodes, ip, all);
      var rest: Name := path;
      ghost var elems := all;
      name := [];
      while true
        invariant vol.Valid() && vol.blocks == blocks && vol.inodes == inodes && ip < vol.ninodes
        invariant vol.bitmap == old(vol.bitmap) && vol.dinodes == old(vol.dinodes)
                  && vol.table == old(vol.table) && vol.owner == old(vol.owner)
        invariant OneOn(refs0, refs, ip) && elems == Elements(rest) && goal == Target(parent, blocks, inodes, ip, elems)
        invariant elems != [] ==> all != [] && all[|all| - 1] == elems[|elems| - 1]
        decreases |rest|
      {
        var found;
        found, name, rest := SkipElem(rest);
        if !found {
          break;
        }
        assert elems[0] == name && elems[1..] == Elements(rest);
        if vol.inodes[ip].kind != T_DIR {
          NoWay(blocks, inodes, ip, elems);
          GiveUp(ip, refs0);
          return None, name;
        }
        if parent && rest == [] {
          return Some(ip), name;
        }
        var next := LookUp(ip, name);
        if next == 0 {
          GiveUp(ip, refs0);
          return None, name;
        }
        MoveOn(ip, next, refs0);
        ip, elems := next, elems[1..];
      }
      if parent {
        GiveUp(ip, refs0);
        return None, name;
      }
      return Some(ip), name;
    }
  }
}
