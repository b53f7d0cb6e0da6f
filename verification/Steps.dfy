/** What every single request keeps, of the mount and the store together. */
module Steps {
  import opened Basics
  import opened Preimages
  import opened Trees
  import opened Stores
  import opened Forests
  import opened Mounts
  import opened Materialise
  import opened Requests
  import opened Invariants
  import opened Contents

  /** What every reachable system satisfies. */
  ghost predicate SystemOK(hash: Hash, s: System) {
    && MountOK(s.mount)
    && StoredOK(hash, s.store)
    && Backed(s.mount, s.store)
    && s.nextHandle >= 1
  }

  ghost function InitialSystem(hash: Hash): System {
    System(EMPTY_MOUNT, EmptyStored(hash), 1)
  }

  lemma EmptyMountOK()
    ensures MountOK(EMPTY_MOUNT)
  {
    var m := EMPTY_MOUNT;
    assert m.nodes == map[] && m.dirs == map[];
    EmptyGraph(Edges(m));
  }

  lemma EmptyGraph(g: Graph)
    requires g == map[]
    ensures Forest(g)
  {
    var rank: Inode -> nat := (x: Inode) => 0;
    assert Descending(g, rank);
  }

  lemma InitialSystemOK(hash: Hash)
    ensures SystemOK(hash, InitialSystem(hash))
    ensures Exact(InitialSystem(hash).mount, InitialSystem(hash).store)
  {
    EmptyMountOK();
    EmptyStoredOK(hash);
  }

  lemma StepKeepsCounter(s: System, hash: Hash, r: Request)
    requires Allowed(s, r)
    ensures s.nextHandle <= Step(s, hash, r).0.nextHandle
  {
  }

  lemma AttributesMayChange(m: Mount, a: Attrs)
    requires MountOK(m) && a.inode in m.nodes && SameIdentity(m.nodes[a.inode], a)
    ensures MountOK(SetNode(m, a))
  {
    SameShapeKeeps(m, SetNode(m, a));
  }

  lemma NodeIsItself(m: Mount, i: Inode)
    requires NodesOK(m) && i in m.nodes
    ensures m.nodes[i].inode == i && 0 < i < m.next
  {
    assert NodeOK(m, i);
  }

  // ---------------------------------------------------------------- the mount

  lemma WriteKeepsMount(m: Mount, s: Stored, hash: Hash, inode: Inode, fh: nat, offset: nat, data: Bytes)
    requires MountOK(m)
    ensures MountOK(DoWrite(m, s, hash, inode, fh, offset, data).0)
  {
    if HandleWrites(fh) && inode in m.nodes {
      NodeIsItself(m, inode);
      AttributesMayChange(m, DoWrite(m, s, hash, inode, fh, offset, data).0.nodes[inode]);
    }
  }

  lemma OpenKeepsMount(m: Mount, counter: nat, uid: nat, gid: nat, inode: Inode, flags: bv32, directory: bool)
    requires MountOK(m)
    ensures MountOK(DoOpen(m, counter, uid, gid, inode, flags, directory).0)
  {
    var (m', _, reply) := DoOpen(m, counter, uid, gid, inode, flags, directory);
    if reply.Opened? {
      NodeIsItself(m, inode);
      SameShapeKeeps(m, m');
    }
  }

  lemma ReleaseKeepsMount(m: Mount, inode: Inode)
    requires MountOK(m)
    ensures MountOK(DoRelease(m, inode))
  {
    if DoRelease(m, inode) != m {
      NodeIsItself(m, inode);
      SameShapeKeeps(m, DoRelease(m, inode));
    }
  }

  /** Every request keeps the mount a forest with consistent entries, links and kinds. */
  lemma StepKeepsMount(s: System, hash: Hash, r: Request)
    requires SystemOK(hash, s) && Allowed(s, r)
    ensures MountOK(Step(s, hash, r).0.mount)
  {
    var m := s.mount;
    match r
    case Mkdir(uid, gid, parent, name) => MkdirKeeps(m, uid, gid, parent, name);
    case Mknod(uid, gid, parent, name, mode) => MknodKeeps(m, uid, gid, parent, name, mode);
    case MakeSymlink(uid, gid, parent, name, target) => SymlinkKeeps(m, s.store, hash, uid, gid, parent, name, target);
    case Rename(uid, gid, parent, name, newParent, newName) =>
      RenameKeeps(m, uid, gid, parent, name, newParent, newName);
    case Write(inode, fh, offset, data) => WriteKeepsMount(m, s.store, hash, inode, fh, offset, data);
    case Open(uid, gid, inode, flags) => OpenKeepsMount(m, s.nextHandle, uid, gid, inode, flags, false);
    case OpenDir(uid, gid, inode, flags) => OpenKeepsMount(m, s.nextHandle, uid, gid, inode, flags, true);
    case Release(inode) => ReleaseKeepsMount(m, inode);
    case ReleaseDir(inode) => ReleaseKeepsMount(m, inode);
    case SetRootTree(id) => SetRootKeeps(m, s.store, id);
    case StoreFile(_) =>
    case StoreSymlink(_) =>
    case StoreTree(_) =>
    case ServiceFile(_) =>
    case ServiceSymlink(_) =>
  }

  // ---------------------------------------------------------------- the store

  lemma StepHashesMore(s: System, hash: Hash, r: Request)
    requires Allowed(s, r)
    ensures s.store.hashed <= Step(s, hash, r).0.store.hashed
  {
  }

  lemma WrittenContentFits(hash: Hash, s: System, inode: Inode, offset: nat, data: Bytes)
    requires StoredOK(hash, s.store) && inode in s.mount.nodes && offset + |data| < TWO_63
    ensures |WriteAt(ContentOf(s.mount.nodes[inode], s.store.files), offset, data)| < TWO_63
  {
    var a := s.mount.nodes[inode];
    var content := ContentOf(a, s.store.files);
    if a.hash.Some? && a.hash.value in s.store.files {
      assert Keyed(hash, s.store.hashed, a.hash.value, content);
    }
    WriteAtIsOverlay(content, offset, data);
  }

  lemma WriteKeepsStore(s: System, hash: Hash, inode: Inode, fh: nat, offset: nat, data: Bytes)
    requires StoredOK(hash, s.store) && offset + |data| < TWO_63
    requires CollisionFree(hash, DoWrite(s.mount, s.store, hash, inode, fh, offset, data).1.hashed)
    ensures StoredOK(hash, DoWrite(s.mount, s.store, hash, inode, fh, offset, data).1)
    ensures Grows(s.store, DoWrite(s.mount, s.store, hash, inode, fh, offset, data).1)
  {
    if HandleWrites(fh) && inode in s.mount.nodes {
      var content := WriteAt(ContentOf(s.mount.nodes[inode], s.store.files), offset, data);
      WrittenContentFits(hash, s, inode, offset, data);
      PutFileKeeps(hash, s.store, ContentPreimage(content), content);
    } else {
      GrowsRefl(s.store);
    }
  }

  lemma SymlinkKeepsStore(s: System, hash: Hash, uid: nat, gid: nat, parent: Inode, name: Name, target: Bytes)
    requires StoredOK(hash, s.store) && |target| < TWO_63 && DirectoryIfAny(s.mount, parent)
    requires CollisionFree(hash, DoSymlink(s.mount, s.store, hash, uid, gid, parent, name, target).1.hashed)
    ensures StoredOK(hash, DoSymlink(s.mount, s.store, hash, uid, gid, parent, name, target).1)
    ensures Grows(s.store, DoSymlink(s.mount, s.store, hash, uid, gid, parent, name, target).1)
  {
    var (_, s', reply) := DoSymlink(s.mount, s.store, hash, uid, gid, parent, name, target);
    if reply.Created? {
      PutSymlinkKeeps(hash, s.store, ContentPreimage(target), target);
    } else {
      GrowsRefl(s.store);
    }
  }

  /** Whatever the interleaving of file system and service writes, no key is ever rebound. */
  lemma StepKeepsStore(s: System, hash: Hash, r: Request)
    requires SystemOK(hash, s) && Allowed(s, r)
    requires CollisionFree(hash, Step(s, hash, r).0.store.hashed)
    ensures StoredOK(hash, Step(s, hash, r).0.store)
    ensures Grows(s.store, Step(s, hash, r).0.store)
  {
    match r
    case MakeSymlink(uid, gid, parent, name, target) => SymlinkKeepsStore(s, hash, uid, gid, parent, name, target);
    case Write(inode, fh, offset, data) => WriteKeepsStore(s, hash, inode, fh, offset, data);
    case StoreFile(content) => PutFileKeeps(hash, s.store, ContentPreimage(content), content);
    case StoreSymlink(target) => PutSymlinkKeeps(hash, s.store, ContentPreimage(target), target);
    case StoreTree(tree) => PutTreeKeeps(hash, s.store, tree);
    case ServiceFile(content) => PutFileKeeps(hash, s.store, ProtoPreimage(content), content);
    case ServiceSymlink(target) => PutSymlinkKeeps(hash, s.store, ProtoPreimage(target), target);
    case _ => GrowsRefl(s.store);
  }

  /** A write of a tree with an improper name or a reference to something that is not stored. */
  ghost predicate DanglingWrite(s: System, r: Request) {
    r.StoreTree? && !Supported(s.store, r.tree)
  }

  /** A closed store stays closed exactly when the request is not such a write. */
  lemma StepKeepsClosed(s: System, hash: Hash, r: Request)
    requires SystemOK(hash, s) && Closed(s.store) && Allowed(s, r)
    requires CollisionFree(hash, Step(s, hash, r).0.store.hashed)
    ensures Closed(Step(s, hash, r).0.store) <==> !DanglingWrite(s, r)
  {
    if r.StoreTree? {
      WriteCloses(hash, s.store, r.tree);
    } else {
      StepKeepsStore(s, hash, r);
      StepKeepsTrees(s, hash, r);
      GrowsKeepsEntries(s.store, Step(s, hash, r).0.store);
    }
  }

  lemma StepKeepsTrees(s: System, hash: Hash, r: Request)
    requires Allowed(s, r) && !r.StoreTree?
    ensures Step(s, hash, r).0.store.trees == s.store.trees
  {
  }

  // ---------------------------------------------------------------- attributes and contents

  /** An empty write past the end of a file: it is carried out, and grows the size but not the content. */
  ghost predicate HoleWrite(s: System, r: Request) {
    && r.Write? && HandleWrites(r.fh)
    && r.inode in s.mount.nodes && r.data == [] && r.offset > s.mount.nodes[r.inode].size
  }

  lemma CreationBacked(m: Mount, m': Mount, s: Stored, a: Attrs)
    requires Backed(m, s) && m'.nodes == m.nodes[a.inode := a]
    requires a.hash == None && a.size == 0
    ensures Backed(m', s) && (Exact(m, s) ==> Exact(m', s))
  {
    GrowsRefl(s);
    BackedSetNode(m, m', s, s, a);
  }

  lemma SymlinkBacked(m: Mount, s: Stored, hash: Hash, uid: nat, gid: nat, parent: Inode, name: Name, target: Bytes)
    requires Backed(m, s) && DirectoryIfAny(m, parent)
    requires Grows(s, DoSymlink(m, s, hash, uid, gid, parent, name, target).1)
    ensures var (m', s', _) := DoSymlink(m, s, hash, uid, gid, parent, name, target);
            Backed(m', s') && (Exact(m, s) ==> Exact(m', s'))
  {
    var (m', s', reply) := DoSymlink(m, s, hash, uid, gid, parent, name, target);
    if reply.Created? {
      assert m'.nodes == m.nodes[reply.attrs.inode := reply.attrs];
      BackedSetNode(m, m', s, s', reply.attrs);
    } else if m' != m {
      CreationBacked(m, m', s, NewAttrs(m.next, Symlink, 0));
    }
  }

  lemma RenameBacked(m: Mount, s: Stored, uid: nat, gid: nat, parent: Inode, name: Name, newParent: Inode,
                     newName: Name)
    requires Backed(m, s) && KindsOK(m) && NodesOK(m) && DirectoryIfAny(m, parent) && DirectoryIfAny(m, newParent)
    ensures var m' := DoRename(m, uid, gid, parent, name, newParent, newName).0;
            Backed(m', s) && (Exact(m, s) ==> Exact(m', s))
  {
    var m' := DoRename(m, uid, gid, parent, name, newParent, newName).0;
    var target := LookupName(m, newParent, newName);
    if m'.nodes != m.nodes {
      var i := m.dirs[newParent][newName].inode;
      NodeIsItself(m, i);
      assert NodeBacked(m.nodes[i], s) && (Exact(m, s) ==> SizeExact(m.nodes[i], s));
      GrowsRefl(s);
      BackedSetNode(m, m', s, s, m'.nodes[i]);
    }
  }

  /** A node whose hash, size and kind are unchanged stays as well backed as it was. */
  lemma CountersBacked(m: Mount, m': Mount, s: Stored, a: Attrs)
    requires Backed(m, s) && a.inode in m.nodes && m' == SetNode(m, a)
    requires var before := m.nodes[a.inode]; a.hash == before.hash && a.size == before.size && a.kind == before.kind
    ensures Backed(m', s) && (Exact(m, s) ==> Exact(m', s))
  {
    assert NodeBacked(m.nodes[a.inode], s) && (Exact(m, s) ==> SizeExact(m.nodes[a.inode], s));
    GrowsRefl(s);
    BackedSetNode(m, m', s, s, a);
  }

  lemma OpenBacked(m: Mount, s: Stored, counter: nat, uid: nat, gid: nat, inode: Inode, flags: bv32, directory: bool)
    requires Backed(m, s) && NodesOK(m)
    ensures var m' := DoOpen(m, counter, uid, gid, inode, flags, directory).0;
            Backed(m', s) && (Exact(m, s) ==> Exact(m', s))
  {
    var (m', _, reply) := DoOpen(m, counter, uid, gid, inode, flags, directory);
    if reply.Opened? {
      NodeIsItself(m, inode);
      CountersBacked(m, m', s, m'.nodes[inode]);
    }
  }

  lemma ReleaseBacked(m: Mount, s: Stored, inode: Inode)
    requires Backed(m, s) && NodesOK(m)
    ensures Backed(DoRelease(m, inode), s) && (Exact(m, s) ==> Exact(DoRelease(m, inode), s))
  {
    if DoRelease(m, inode) != m {
      NodeIsItself(m, inode);
      CountersBacked(m, DoRelease(m, inode), s, DoRelease(m, inode).nodes[inode]);
    }
  }

  lemma WriteKeepsBacked(m: Mount, s: Stored, hash: Hash, inode: Inode, fh: nat, offset: nat, data: Bytes)
    requires NodesOK(m) && Backed(m, s)
    requires inode in m.nodes && m.nodes[inode].kind.File? && HandleWrites(fh)
    requires Grows(s, DoWrite(m, s, hash, inode, fh, offset, data).1)
    ensures var (m', s', _) := DoWrite(m, s, hash, inode, fh, offset, data);
            Backed(m', s') && (Exact(m, s) ==> (Exact(m', s') <==> data != [] || offset <= m.nodes[inode].size))
  {
    var (m', s', _) := DoWrite(m, s, hash, inode, fh, offset, data);
    var content := WriteAt(ContentOf(m.nodes[inode], s.files), offset, data);
    var a := m'.nodes[inode];
    NodeIsItself(m, inode);
    WriteBacked(m, s, hash, inode, offset, data, content, a);
    BackedSetNode(m, m', s, s', a);
    assert Exact(m, s) ==> SizeExact(m.nodes[inode], s);
    assert Exact(m', s') ==> SizeExact(m'.nodes[inode], s');
  }

  lemma MkdirBacked(m: Mount, s: Stored, uid: nat, gid: nat, parent: Inode, name: Name)
    requires Backed(m, s) && DirectoryIfAny(m, parent)
    ensures var m' := DoMkdir(m, uid, gid, parent, name).0;
            Backed(m', s) && (Exact(m, s) ==> Exact(m', s))
  {
    var (m', reply) := DoMkdir(m, uid, gid, parent, name);
    if reply.Created? { CreationBacked(m, m', s, reply.attrs); }
  }

  lemma MknodBacked(m: Mount, s: Stored, uid: nat, gid: nat, parent: Inode, name: Name, mode: bv32)
    requires Backed(m, s) && DirectoryIfAny(m, parent)
    ensures var m' := DoMknod(m, uid, gid, parent, name, mode).0;
            Backed(m', s) && (Exact(m, s) ==> Exact(m', s))
  {
    var (m', reply) := DoMknod(m, uid, gid, parent, name, mode);
    if !reply.Failed? { CreationBacked(m, m', s, NodeFor(m, AsFileKind(mode), uid, gid, parent)); }
  }

  lemma NamingStepKeepsBacked(s: System, hash: Hash, r: Request)
    requires MountOK(s.mount) && Backed(s.mount, s.store) && Allowed(s, r)
    requires r.Mkdir? || r.Mknod? || r.MakeSymlink? || r.Rename? || r.SetRootTree?
    requires Grows(s.store, Step(s, hash, r).0.store)
    ensures Backed(Step(s, hash, r).0.mount, Step(s, hash, r).0.store)
    ensures Exact(s.mount, s.store) ==> Exact(Step(s, hash, r).0.mount, Step(s, hash, r).0.store)
  {
    var m, st := s.mount, s.store;
    match r
    case Mkdir(uid, gid, parent, name) => MkdirBacked(m, st, uid, gid, parent, name);
    case Mknod(uid, gid, parent, name, mode) => MknodBacked(m, st, uid, gid, parent, name, mode);
    case MakeSymlink(uid, gid, parent, name, target) => SymlinkBacked(m, st, hash, uid, gid, parent, name, target);
    case Rename(uid, gid, parent, name, newParent, newName) =>
      RenameBacked(m, st, uid, gid, parent, name, newParent, newName);
    case SetRootTree(id) => SetRootBacked(m, st, id);
  }

  lemma OtherStepKeepsBacked(s: System, hash: Hash, r: Request)
    requires NodesOK(s.mount) && Backed(s.mount, s.store) && Allowed(s, r)
    requires !(r.Write? || r.Mkdir? || r.Mknod? || r.MakeSymlink? || r.Rename? || r.SetRootTree?)
    requires Grows(s.store, Step(s, hash, r).0.store)
    ensures Backed(Step(s, hash, r).0.mount, Step(s, hash, r).0.store)
    ensures Exact(s.mount, s.store) ==> Exact(Step(s, hash, r).0.mount, Step(s, hash, r).0.store)
  {
    var m, st, st' := s.mount, s.store, Step(s, hash, r).0.store;
    match r
    case Open(uid, gid, inode, flags) => OpenBacked(m, st, s.nextHandle, uid, gid, inode, flags, false);
    case OpenDir(uid, gid, inode, flags) => OpenBacked(m, st, s.nextHandle, uid, gid, inode, flags, true);
    case Release(inode) => ReleaseBacked(m, st, inode);
    case ReleaseDir(inode) => ReleaseBacked(m, st, inode);
    case _ => BackedGrows(m, st, st');
  }

  /** Hashes stay present and sizes stay true to the stored contents; from a state with exact file sizes, the sizes
      are exact again after a request exactly when it is not an empty write past the end. */
  lemma StepKeepsBacked(s: System, hash: Hash, r: Request)
    requires SystemOK(hash, s) && Allowed(s, r)
    requires Grows(s.store, Step(s, hash, r).0.store)
    ensures Backed(Step(s, hash, r).0.mount, Step(s, hash, r).0.store)
    ensures Exact(s.mount, s.store) ==>
              (Exact(Step(s, hash, r).0.mount, Step(s, hash, r).0.store) <==> !HoleWrite(s, r))
  {
    if r.Write? {
      if HandleWrites(r.fh) && r.inode in s.mount.nodes {
        WriteKeepsBacked(s.mount, s.store, hash, r.inode, r.fh, r.offset, r.data);
      }
    } else if r.Mkdir? || r.Mknod? || r.MakeSymlink? || r.Rename? || r.SetRootTree? {
      NamingStepKeepsBacked(s, hash, r);
    } else {
      OtherStepKeepsBacked(s, hash, r);
    }
  }

  /** One step from a good state leads to a good state. */
  lemma StepKeeps(s: System, hash: Hash, r: Request)
    requires SystemOK(hash, s) && Allowed(s, r)
    requires CollisionFree(hash, Step(s, hash, r).0.store.hashed)
    ensures SystemOK(hash, Step(s, hash, r).0)
    ensures Grows(s.store, Step(s, hash, r).0.store)
  {
    StepKeepsCounter(s, hash, r);
    StepKeepsMount(s, hash, r);
    StepKeepsStore(s, hash, r);
    StepKeepsBacked(s, hash, r);
  }

  lemma Granted(m: Mount, i: Inode, uid: nat, gid: nat, mask: bv32)
    requires NodesOK(m) && i in m.nodes
    requires mask == R_OK || mask == W_OK || mask == X_OK || mask == R_OK | W_OK
    ensures MayAccess(m.nodes[i], uid, gid, mask)
  {
    assert NodeOK(m, i);
    assert mask & 7 == mask;
    DefaultModeGrants(m.nodes[i], uid, gid, mask);
  }

  lemma RenameIsNotRefusedAccess(m: Mount, uid: nat, gid: nat, parent: Inode, name: Name, newParent: Inode,
                                 newName: Name)
    requires KindsOK(m) && NodesOK(m) && DirectoryIfAny(m, parent) && DirectoryIfAny(m, newParent)
    ensures DoRename(m, uid, gid, parent, name, newParent, newName).1 != Failed(EACCES)
  {
    if parent in m.nodes { Granted(m, parent, uid, gid, W_OK); }
    if newParent in m.nodes { Granted(m, newParent, uid, gid, W_OK); }
    if LookupName(m, parent, name).Ok? { Granted(m, m.dirs[parent][name].inode, uid, gid, W_OK); }
  }

  lemma OpenRefusedAccess(m: Mount, counter: nat, uid: nat, gid: nat, inode: Inode, flags: bv32, directory: bool)
    requires NodesOK(m)
    ensures DoOpen(m, counter, uid, gid, inode, flags, directory).2 == Failed(EACCES) <==>
            flags & O_ACCMODE == O_RDONLY && flags & O_TRUNC != 0
  {
    var mode := OpenMode(flags, directory);
    if mode.Ok? && inode in m.nodes { Granted(m, inode, uid, gid, mode.value.mask); }
  }

  /** Inode permissions refuse nothing: a request is answered EACCES exactly when a write comes with a handle not opened
      for writing, or a read-only open asks to truncate. */
  lemma AccessRefusals(s: System, hash: Hash, r: Request)
    requires NodesOK(s.mount) && KindsOK(s.mount) && Allowed(s, r)
    ensures Step(s, hash, r).1 == Failed(EACCES) <==>
              || (r.Write? && !HandleWrites(r.fh))
              || ((r.Open? || r.OpenDir?) && r.flags & O_ACCMODE == O_RDONLY && r.flags & O_TRUNC != 0)
  {
    var m := s.mount;
    match r
    case Mkdir(uid, gid, parent, _) => if parent in m.nodes { Granted(m, parent, uid, gid, W_OK); }
    case MakeSymlink(uid, gid, parent, _, _) => if parent in m.nodes { Granted(m, parent, uid, gid, W_OK); }
    case Rename(uid, gid, parent, name, newParent, newName) =>
      RenameIsNotRefusedAccess(m, uid, gid, parent, name, newParent, newName);
    case Open(uid, gid, inode, flags) => OpenRefusedAccess(m, s.nextHandle, uid, gid, inode, flags, false);
    case OpenDir(uid, gid, inode, flags) => OpenRefusedAccess(m, s.nextHandle, uid, gid, inode, flags, true);
    case _ =>
  }
}
