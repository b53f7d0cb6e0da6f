/** The state of a mount: inode attributes, directory descriptors and the inode counter. */
module Mounts {
  import opened Basics
  import opened Trees
  import opened Forests

  datatype FileKind = File | Directory | Symlink

  datatype Errno = ENOENT | EEXIST | EACCES | EINVAL | ENOTEMPTY | EBADF | ENOSYS | ENAMETOOLONG

  /** Attributes of an inode. `hardlinks` is an integer, so that a decrement below zero would show. */
  datatype Attrs = Attrs(
    inode: Inode,
    hash: Option<Id>,
    openFileHandles: nat,
    size: nat,
    kind: FileKind,
    mode: bv32,
    hardlinks: int,
    uid: nat,
    gid: nat)

  datatype Entry = Entry(inode: Inode, kind: FileKind)

  /** A directory: an ordered map from names to entries, with "." and sometimes ".." among them. */
  type Descriptor = map<Name, Entry>

  datatype Mount = Mount(nodes: map<Inode, Attrs>, dirs: map<Inode, Descriptor>, next: Inode)

  const EMPTY_MOUNT := Mount(map[], map[], 1)

  const DEFAULT_MODE: bv32 := 0x1FF
  const S_ISGID: bv32 := 0x400

  function NewAttrs(inode: Inode, kind: FileKind, size: nat): Attrs {
    Attrs(inode, None, 0, size, kind, DEFAULT_MODE, if kind.Directory? then 2 else 1, 0, 0)
  }

  // ---------------------------------------------------------------- access

  const F_OK: bv32 := 0
  const X_OK: bv32 := 1
  const W_OK: bv32 := 2
  const R_OK: bv32 := 4

  /** Clears from the mask the bits granted by `granted`. */
  function Without(mask: bv32, granted: bv32): bv32 {
    mask - (mask & granted)
  }

  predicate CheckAccess(fileUid: nat, fileGid: nat, fileMode: bv32, uid: nat, gid: nat, mask: bv32) {
    if mask == F_OK then true
    else if uid == 0 then
      var mask := mask & X_OK;
      var mask := Without(mask, fileMode >> 6);
      var mask := Without(mask, fileMode >> 3);
      Without(mask, fileMode) == 0
    else if uid == fileUid then Without(mask, fileMode >> 6) == 0
    else if gid == fileGid then Without(mask, fileMode >> 3) == 0
    else Without(mask, fileMode) == 0
  }

  predicate MayAccess(a: Attrs, uid: nat, gid: nat, mask: bv32) {
    CheckAccess(a.uid, a.gid, a.mode, uid, gid, mask)
  }

  /** The bits that the caller's class has: the owner's, else the group's, else those of others. */
  function ClassBits(fileUid: nat, fileGid: nat, fileMode: bv32, uid: nat, gid: nat): bv32 {
    if uid == fileUid then fileMode >> 6 else if gid == fileGid then fileMode >> 3 else fileMode
  }

  /** The bits of the caller's class decide: nothing of what is asked for may be left without them. */
  lemma ClassDecides(fileUid: nat, fileGid: nat, fileMode: bv32, uid: nat, gid: nat, mask: bv32)
    requires uid != 0 && mask != F_OK
    ensures CheckAccess(fileUid, fileGid, fileMode, uid, gid, mask) ==
            (Without(mask, ClassBits(fileUid, fileGid, fileMode, uid, gid)) == 0)
  {
  }

  /** Root only needs some execute bit to execute. */
  lemma RootAccessMeans(fileUid: nat, fileGid: nat, fileMode: bv32, gid: nat, mask: bv32)
    ensures CheckAccess(fileUid, fileGid, fileMode, 0, gid, mask) <==> mask & 1 == 0 || fileMode & 0x49 != 0
  {
    RootAccess(fileMode, mask);
  }

  lemma RootAccess(fileMode: bv32, mask: bv32)
    ensures Without(Without(Without(mask & X_OK, fileMode >> 6), fileMode >> 3), fileMode) == 0 <==>
            mask & 1 == 0 || fileMode & 0x49 != 0
    ensures mask == 0 ==> mask & 1 == 0
  {
    LowBit(mask);
    RootMayExecute(mask & X_OK, fileMode);
    ExecuteBits(fileMode);
  }

  lemma NothingAsked(granted: bv32)
    ensures F_OK & granted == F_OK
  {
  }

  lemma SameIfNothingLeft(x: bv32, y: bv32)
    ensures x - y == 0 <==> x == y
  {
  }

  lemma CoveredLeavesNothing(mask: bv32, granted: bv32)
    requires mask & granted == mask
    ensures Without(mask, granted) == 0
  {
  }

  lemma NothingLeftIsCovered(mask: bv32, granted: bv32)
    requires Without(mask, granted) == 0
    ensures mask & granted == mask
  {
    SameIfNothingLeft(mask, mask & granted);
  }

  lemma NothingLeft(mask: bv32, granted: bv32)
    ensures Without(mask, granted) == 0 <==> mask & granted == mask
  {
    if mask & granted == mask {
      CoveredLeavesNothing(mask, granted);
    } else if Without(mask, granted) == 0 {
      NothingLeftIsCovered(mask, granted);
    }
  }

  lemma LowBit(mask: bv32)
    ensures mask & X_OK == 0 || mask & X_OK == 1
  {
  }

  lemma ExecuteBits(mode: bv32)
    ensures mode & 0x49 != 0 <==> (mode >> 6) & 1 != 0 || (mode >> 3) & 1 != 0 || mode & 1 != 0
  {
  }

  lemma OneBitLess(x: bv32, granted: bv32)
    requires x == 0 || x == 1
    ensures Without(x, granted) == if granted & 1 != 0 then 0 else x
  {
  }

  lemma RootMayExecute(x: bv32, mode: bv32)
    requires x == 0 || x == 1
    ensures Without(Without(Without(x, mode >> 6), mode >> 3), mode) ==
            if (mode >> 6) & 1 != 0 || (mode >> 3) & 1 != 0 || mode & 1 != 0 then 0 else x
  {
    var y := Without(x, mode >> 6);
    OneBitLess(x, mode >> 6);
    OneBitLess(y, mode >> 3);
    OneBitLess(Without(y, mode >> 3), mode);
  }

  /** The mode every inode is created with grants every access to everyone. */
  lemma DefaultModeGrants(a: Attrs, uid: nat, gid: nat, mask: bv32)
    requires a.mode == DEFAULT_MODE && mask & 7 == mask
    ensures MayAccess(a, uid, gid, mask)
  {
    var m := mask & X_OK;
    assert m & (DEFAULT_MODE >> 6) == m;
    assert mask & (DEFAULT_MODE >> 6) == mask && mask & (DEFAULT_MODE >> 3) == mask && mask & DEFAULT_MODE == mask;
    assert Without(m, DEFAULT_MODE >> 6) == 0;
  }

  function CreationGid(parent: Attrs, gid: nat): nat {
    if parent.mode & S_ISGID != 0 then parent.gid else gid
  }

  // ---------------------------------------------------------------- lookups

  function GetInode(m: Mount, inode: Inode): Result<Attrs, Errno> {
    if inode in m.nodes then Ok(m.nodes[inode]) else Err(ENOENT)
  }

  function LookupName(m: Mount, parent: Inode, name: Name): Result<Attrs, Errno> {
    if parent in m.dirs && name in m.dirs[parent] then GetInode(m, m.dirs[parent][name].inode) else Err(ENOENT)
  }

  /** Repeated lookup along a path of names, from a directory inode on. */
  function Resolve(m: Mount, base: Inode, path: Path): Option<Attrs>
    decreases |path|
  {
    if path == [] then
      if base in m.nodes then Some(m.nodes[base]) else None
    else
      match LookupName(m, base, path[0])
      case Err(_) => None
      case Ok(a) => Resolve(m, a.inode, path[1..])
  }

  ghost predicate OrdinaryPath(path: Path) {
    forall n :: n in path ==> Ordinary(n)
  }

  // ---------------------------------------------------------------- the shape of a mount

  /** The graph of a mount: all directory entries except "." and "..". */
  function Edges(m: Mount): Graph {
    map d, n | d in m.dirs && n in m.dirs[d] && Ordinary(n) :: (d, n) := m.dirs[d][n].inode
  }

  ghost predicate NodeOK(m: Mount, i: Inode)
    requires i in m.nodes
  {
    var a := m.nodes[i];
    a.inode == i && 0 < i < m.next && a.mode == DEFAULT_MODE && a.hardlinks >= 0
  }

  ghost predicate NodesOK(m: Mount) {
    && m.next > 0
    && forall i :: i in m.nodes ==> NodeOK(m, i)
  }

  /** The inodes with a directory descriptor are exactly the directories. */
  ghost predicate KindsOK(m: Mount) {
    && (forall i :: i in m.dirs ==> i in m.nodes && m.nodes[i].kind.Directory?)
    && (forall i :: i in m.nodes && m.nodes[i].kind.Directory? ==> i in m.dirs)
    && (ROOT in m.nodes ==> ROOT in m.dirs)
  }

  /** "." is the directory itself. */
  ghost predicate DotsOK(m: Mount) {
    forall d :: d in m.dirs ==> DOT in m.dirs[d] && m.dirs[d][DOT] == Entry(d, Directory)
  }

  /** The entry names an inode of its kind, with a link count that covers the entry. */
  ghost predicate EntryBacked(m: Mount, e: Entry) {
    && e.inode in m.nodes
    && m.nodes[e.inode].kind == e.kind
    && (!e.kind.Directory? ==> m.nodes[e.inode].hardlinks >= 1)
  }

  ghost predicate EntriesOK(m: Mount) {
    forall d, n :: d in m.dirs && n in m.dirs[d] && Ordinary(n) ==> EntryBacked(m, m.dirs[d][n])
  }

  /** A ".." that is present in a named directory is the directory that names it. */
  ghost predicate DotDotsOK(m: Mount) {
    && (forall d :: d in m.dirs && DOTDOT in m.dirs[d] ==> m.dirs[d][DOTDOT].kind.Directory? && d != ROOT)
    && (forall s :: s in Edges(m) ==> ParentOK(m, s))
  }

  ghost predicate ParentOK(m: Mount, s: Slot)
    requires s in Edges(m)
  {
    var d := Edges(m)[s];
    d in m.dirs && DOTDOT in m.dirs[d] ==> m.dirs[d][DOTDOT].inode == s.0
  }

  ghost predicate ShapeOK(m: Mount) {
    NodesOK(m) && KindsOK(m) && DotsOK(m) && EntriesOK(m) && DotDotsOK(m)
  }

  /** What every reachable mount satisfies. */
  ghost predicate MountOK(m: Mount) {
    ShapeOK(m) && Forest(Edges(m))
  }

  /** The attributes of the inode a walk arrives at. */
  function Arrived(m: Mount, inode: Option<Inode>): Option<Attrs> {
    if inode.Some? && inode.value in m.nodes then Some(m.nodes[inode.value]) else None
  }

  /** Along ordinary names, repeated lookup is a walk in the graph. */
  lemma {:induction false} ResolveIsWalk(m: Mount, base: Inode, path: Path)
    requires NodesOK(m) && EntriesOK(m) && OrdinaryPath(path) && base in m.nodes
    ensures Resolve(m, base, path) == Arrived(m, Walk(Edges(m), base, path))
    ensures Walk(Edges(m), base, path).Some? ==> Walk(Edges(m), base, path).value in m.nodes
    decreases |path|
  {
    if path != [] {
      var n := path[0];
      assert n in path;
      if base in m.dirs && n in m.dirs[base] {
        var e := m.dirs[base][n];
        assert EntryBacked(m, e);
        assert (base, n) in Edges(m) && Edges(m)[(base, n)] == e.inode;
        assert NodeOK(m, e.inode);
        assert LookupName(m, base, n) == Ok(m.nodes[e.inode]);
        assert OrdinaryPath(path[1..]);
        ResolveIsWalk(m, e.inode, path[1..]);
      } else {
        assert (base, n) !in Edges(m);
      }
    }
  }
}
