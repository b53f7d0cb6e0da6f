/** What path lookups see before and after a request: renames move subtrees, refused requests change nothing. */
module Views {
  import opened Basics
  import opened Trees
  import opened Stores
  import opened Insertability
  import opened Forests
  import opened Mounts
  import opened Materialise
  import opened Requests
  import opened Invariants
  import opened Steps

  /** A node replaced by a rename is reached along no path afterwards. */
  lemma ReplacedIsUnreachable(m: Mount, a: Attrs, from: Slot, to: Slot, path: Path)
    requires Unshared(Edges(m)) && KindsOK(m) && ROOT in m.dirs
    requires Renaming(m, a, from, to) && a.inode == Edges(m)[from] && (a.kind.Directory? ==> a.inode in m.dirs)
    requires to in Edges(m) && Edges(m)[to] in m.nodes && Edges(m)[to] != a.inode
    ensures Walk(Edges(Renamed(m, a, from, to)), ROOT, path) != Some(Edges(m)[to])
  {
    var g' := Edges(Renamed(m, a, from, to));
    RenamedEdges(m, a, from, to);
    if Walk(g', ROOT, path) == Some(Edges(m)[to]) {
      assert path != [];
      var s := LastStep(g', ROOT, path);
    }
  }

  /** Outside the replaced node, a rename leaves attributes alone. */
  lemma RenamedNodes(m: Mount, a: Attrs, from: Slot, to: Slot, i: Inode)
    requires NodesOK(m)
    requires Renaming(m, a, from, to) && a.inode == Edges(m)[from] && (a.kind.Directory? ==> a.inode in m.dirs)
    ensures i in Renamed(m, a, from, to).nodes <==> i in m.nodes
    ensures (i in m.nodes &&
             (to in Edges(m) && Edges(m)[to] in m.nodes && Edges(m)[to] != a.inode ==> i != Edges(m)[to])) ==>
              Renamed(m, a, from, to).nodes[i] == m.nodes[i]
  {
    if to in Edges(m) && Edges(m)[to] in m.nodes { assert NodeOK(m, Edges(m)[to]); }
  }

  /** Resolution after a rename, by what the walk arrives at. */
  lemma RenamedResolve(m: Mount, a: Attrs, from: Slot, to: Slot, path: Path)
    requires ShapeOK(m) && Unshared(Edges(m)) && ROOT in m.dirs && OrdinaryPath(path)
    requires Renaming(m, a, from, to) && a.inode == Edges(m)[from] && (a.kind.Directory? ==> a.inode in m.dirs)
    requires NodesOK(Renamed(m, a, from, to)) && EntriesOK(Renamed(m, a, from, to))
    ensures Resolve(Renamed(m, a, from, to), ROOT, path) == Arrived(m, Walk(Move(Edges(m), from, to), ROOT, path))
  {
    var m' := Renamed(m, a, from, to);
    RenamedEdges(m, a, from, to);
    RenamedNodes(m, a, from, to, ROOT);
    ResolveIsWalk(m', ROOT, path);
    var arrived := Walk(Edges(m'), ROOT, path);
    if arrived.Some? {
      RenamedNodes(m, a, from, to, arrived.value);
      if to in Edges(m) && Edges(m)[to] in m.nodes && Edges(m)[to] != a.inode {
        ReplacedIsUnreachable(m, a, from, to, path);
      }
    }
  }

  ghost predicate ResolvesTo(m: Mount, path: Path, inode: Inode) {
    Resolve(m, ROOT, path).Some? && Resolve(m, ROOT, path).value.inode == inode
  }

  lemma ResolvesIsWalk(m: Mount, path: Path, inode: Inode)
    requires MountOK(m) && ROOT in m.nodes && OrdinaryPath(path) && ResolvesTo(m, path, inode)
    ensures Walk(Edges(m), ROOT, path) == Some(inode)
  {
    ResolveIsWalk(m, ROOT, path);
    assert NodeOK(m, Walk(Edges(m), ROOT, path).value);
  }

  lemma CounterpartIsOrdinary(oldPath: Path, newPath: Path, path: Path)
    requires OrdinaryPath(oldPath) && OrdinaryPath(path)
    ensures Counterpart(oldPath, newPath, path).Some? ==> OrdinaryPath(Counterpart(oldPath, newPath, path).value)
  {
  }

  /** What resolving the counterpart of a path gives. */
  function ResolveMoved(m: Mount, oldPath: Path, newPath: Path, path: Path): Option<Attrs> {
    match Counterpart(oldPath, newPath, path)
    case None => None
    case Some(p) => Resolve(m, ROOT, p)
  }

  lemma CounterpartResolves(m: Mount, oldPath: Path, newPath: Path, path: Path)
    requires NodesOK(m) && EntriesOK(m) && ROOT in m.nodes && OrdinaryPath(oldPath) && OrdinaryPath(path)
    ensures ResolveMoved(m, oldPath, newPath, path) == Arrived(m, WalkMoved(Edges(m), oldPath, newPath, path))
  {
    CounterpartIsOrdinary(oldPath, newPath, path);
    var p := Counterpart(oldPath, newPath, path);
    if p.Some? {
      ResolveIsWalk(m, ROOT, p.value);
    }
  }

  /** A successful rename moves a subtree. Below the new path, every path resolves to the very attributes its
      counterpart below the old path resolved to; below the old path nothing resolves; every other path is unchanged.
      When both paths are the same, this says that nothing changes. */
  lemma RenameMovesSubtree(m: Mount, uid: nat, gid: nat, parent: Inode, name: Name, newParent: Inode, newName: Name,
                           oldDir: Path, newDir: Path, path: Path)
    requires MountOK(m) && ROOT in m.nodes
    requires Ordinary(name) && Ordinary(newName) && DirectoryIfAny(m, parent) && DirectoryIfAny(m, newParent)
    requires NotIntoItself(m, parent, name, newParent)
    requires OrdinaryPath(oldDir) && ResolvesTo(m, oldDir, parent)
    requires OrdinaryPath(newDir) && ResolvesTo(m, newDir, newParent)
    requires OrdinaryPath(path)
    requires DoRename(m, uid, gid, parent, name, newParent, newName).1.Done?
    ensures Resolve(DoRename(m, uid, gid, parent, name, newParent, newName).0, ROOT, path) ==
            ResolveMoved(m, oldDir + [name], newDir + [newName], path)
  {
    var a := RenameSucceeds(m, uid, gid, parent, name, newParent, newName);
    RenameKeeps(m, uid, gid, parent, name, newParent, newName);
    ResolvesIsWalk(m, oldDir, parent);
    ResolvesIsWalk(m, newDir, newParent);
    MoveMovesSubtree(Edges(m), oldDir, (parent, name), newDir, (newParent, newName), path);
    RenamedResolve(m, a, (parent, name), (newParent, newName), path);
    CounterpartResolves(m, oldDir + [name], newDir + [newName], path);
  }

  /** Renaming an entry onto itself: a file or symlink stays as it was, and so does the whole mount, link counts
      included; a directory is refused if it has more than two entries, and otherwise panics. */
  lemma RenameOntoItself(m: Mount, uid: nat, gid: nat, parent: Inode, name: Name)
    requires MountOK(m) && Ordinary(name) && DirectoryIfAny(m, parent) && (parent, name) in Edges(m)
    ensures var (m', reply) := DoRename(m, uid, gid, parent, name, parent, name);
            var i := Edges(m)[(parent, name)];
            if i !in m.dirs then (m', reply) == (m, Done)
            else if |m.dirs[i]| > 2 then (m', reply) == (m, Failed(ENOTEMPTY))
            else reply == Panicked
  {
    RenameOutcome(m, uid, gid, parent, name, parent, name);
    var d, e := m.dirs[parent], m.dirs[parent][name];
    assert EntryBacked(m, e);
    if e.inode !in m.dirs {
      var a := RenameSucceeds(m, uid, gid, parent, name, parent, name);
      assert e == Entry(a.inode, a.kind);
      var removed := m.dirs[parent := d - {name}];
      assert removed[parent][name := e] == d;
      assert Relink(m, a, parent, name, parent, name) == m.dirs;
    }
  }

  /** How a rename is answered: not found when the old entry or the new directory is missing; done when the target is
      free, or a file or symlink; and when it is a directory, not empty if it has more than two entries and otherwise
      with a panic, after the entry was taken out. Permissions never refuse it. */
  lemma RenameOutcome(m: Mount, uid: nat, gid: nat, parent: Inode, name: Name, newParent: Inode, newName: Name)
    requires ShapeOK(m) && Ordinary(name) && Ordinary(newName)
    requires DirectoryIfAny(m, parent) && DirectoryIfAny(m, newParent)
    ensures var (m', reply) := DoRename(m, uid, gid, parent, name, newParent, newName);
            var g, to := Edges(m), (newParent, newName);
            if (parent, name) !in g || newParent !in m.nodes then (m', reply) == (m, Failed(ENOENT))
            else if to !in g || g[to] !in m.dirs then reply == Done
            else if |m.dirs[g[to]]| > 2 then (m', reply) == (m, Failed(ENOTEMPTY))
            else (m', reply) == (m.(dirs := m.dirs[newParent := m.dirs[newParent] - {newName}]), Panicked)
    ensures DoRename(m, uid, gid, parent, name, newParent, newName).1.Panicked? <==>
              RenamePanics(m, parent, name, newParent, newName)
  {
    RenameIsNotRefusedAccess(m, uid, gid, parent, name, newParent, newName);
    if parent in m.dirs { NamedNode(m, parent, name); }
    if newParent in m.dirs { NamedNode(m, newParent, newName); }
  }

  /** What a lookup of an ordinary name finds. */
  lemma NamedNode(m: Mount, parent: Inode, name: Name)
    requires NodesOK(m) && KindsOK(m) && EntriesOK(m) && parent in m.dirs && Ordinary(name)
    ensures LookupName(m, parent, name).Ok? <==> (parent, name) in Edges(m)
    ensures (parent, name) in Edges(m) ==>
              var i := Edges(m)[(parent, name)];
              && i in m.nodes && LookupName(m, parent, name) == Ok(m.nodes[i]) && m.nodes[i].inode == i
              && (m.nodes[i].kind.Directory? <==> i in m.dirs)
  {
    if (parent, name) in Edges(m) {
      assert EntryBacked(m, m.dirs[parent][name]);
      NodeIsItself(m, Edges(m)[(parent, name)]);
    }
  }

  // ---------------------------------------------------------------- created entries

  lemma LinkedResolve(m: Mount, a: Attrs, parent: Inode, name: Name, path: Path)
    requires ShapeOK(m) && ROOT in m.nodes && FreshNode(m, a) && Ordinary(name)
    requires parent in m.dirs && a.inode !in m.nodes && a.inode !in m.dirs
    requires ShapeOK(Linked(m, a, parent, name)) && OrdinaryPath(path)
    ensures Resolve(Linked(m, a, parent, name), ROOT, path) ==
            var arrived := Walk(Edges(m)[(parent, name) := a.inode], ROOT, path);
            if arrived == Some(a.inode) then Some(a) else Arrived(m, arrived)
  {
    LinkedEdges(m, a, parent, name);
    ResolveIsWalk(Linked(m, a, parent, name), ROOT, path);
  }

  /** Creating an entry adds one path, which resolves to the new node, and changes no other. */
  lemma CreationAddsPath(m: Mount, a: Attrs, parent: Inode, name: Name, dir: Path, path: Path)
    requires MountOK(m) && ROOT in m.nodes && FreshNode(m, a) && Ordinary(name)
    requires parent in m.dirs && name !in m.dirs[parent]
    requires OrdinaryPath(dir) && ResolvesTo(m, dir, parent) && OrdinaryPath(path)
    ensures Resolve(Linked(m, a, parent, name), ROOT, path) ==
            if path == dir + [name] then Some(a)
            else if dir + [name] <= path then None
            else Resolve(m, ROOT, path)
  {
    CounterIsFree(m);
    CreationKeeps(m, a, parent, name);
    LinkedResolve(m, a, parent, name, path);
    ResolvesIsWalk(m, dir, parent);
    NodeIsItself(m, parent);
    CounterIsIsolated(m);
    LinkAddsPath(Edges(m), dir, (parent, name), a.inode, path);
    ResolveIsWalk(m, ROOT, path);
  }

  lemma CounterIsIsolated(m: Mount)
    requires NodesOK(m) && KindsOK(m) && EntriesOK(m)
    ensures Isolated(Edges(m), m.next)
  {
    EdgesAreBounded(m);
  }

  /** Every creating request that succeeds is such a creation. */
  lemma CreationIsLinking(s: System, hash: Hash, r: Request)
    requires NodesOK(s.mount) && EntriesOK(s.mount) && Allowed(s, r) && Step(s, hash, r).1.Created?
    ensures r.Mkdir? || r.Mknod? || r.MakeSymlink?
    ensures var a := Step(s, hash, r).1.attrs;
            && FreshNode(s.mount, a)
            && (a.kind.Directory? <==> r.Mkdir?)
            && (a.kind.Symlink? <==> r.MakeSymlink? || (r.Mknod? && r.mode & S_IFMT == S_IFLNK))
            && r.parent in s.mount.dirs && r.name !in s.mount.dirs[r.parent]
            && Step(s, hash, r).0.mount == Linked(s.mount, a, r.parent, r.name)
  {
    LookupFails(s.mount, r.parent, r.name);
  }

  // ---------------------------------------------------------------- refused requests

  /** Everything known before is as it was; only an unnamed node may have been added. */
  ghost predicate Untouched(m: Mount, m': Mount) {
    && m'.dirs == m.dirs
    && forall i :: i in m.nodes ==> i in m'.nodes && m'.nodes[i] == m.nodes[i]
  }

  lemma {:induction false} UntouchedResolve(m: Mount, m': Mount, base: Inode, path: Path)
    requires NodesOK(m) && EntriesOK(m) && Untouched(m, m') && base in m.nodes && OrdinaryPath(path)
    ensures Resolve(m', base, path) == Resolve(m, base, path)
    decreases |path|
  {
    if path != [] {
      assert path[0] in path && OrdinaryPath(path[1..]);
      if base in m.dirs && path[0] in m.dirs[base] {
        var e := m.dirs[base][path[0]];
        assert EntryBacked(m, e) && NodeOK(m, e.inode);
        UntouchedResolve(m, m', e.inode, path[1..]);
      }
    }
  }

  lemma RefusedIsUntouched(s: System, hash: Hash, r: Request)
    requires NodesOK(s.mount) && KindsOK(s.mount) && Allowed(s, r) && Step(s, hash, r).1.Failed?
    ensures Untouched(s.mount, Step(s, hash, r).0.mount)
    ensures Step(s, hash, r).0.store == s.store && Step(s, hash, r).0.nextHandle == s.nextHandle
  {
    if r.MakeSymlink? {
      RefusedSymlinkIsUntouched(s.mount, s.store, hash, r.uid, r.gid, r.parent, r.name, r.target);
    } else {
      OtherRefusedIsNothing(s, hash, r);
    }
  }

  lemma OtherRefusedIsNothing(s: System, hash: Hash, r: Request)
    requires NodesOK(s.mount) && KindsOK(s.mount) && Allowed(s, r) && Step(s, hash, r).1.Failed? && !r.MakeSymlink?
    ensures Step(s, hash, r).0 == s
  {
  }

  lemma RefusedSymlinkIsUntouched(m: Mount, s: Stored, hash: Hash, uid: nat, gid: nat, parent: Inode, name: Name,
                                  target: Bytes)
    requires NodesOK(m) && KindsOK(m) && DirectoryIfAny(m, parent)
    requires DoSymlink(m, s, hash, uid, gid, parent, name, target).2.Failed?
    ensures var (m', s', _) := DoSymlink(m, s, hash, uid, gid, parent, name, target);
            Untouched(m, m') && s' == s
  {
    CounterIsFree(m);
  }

  /** A refused request is invisible: every path resolves to the same attributes as before, and the store is the same,
      although a refused symlink has already allocated a node. */
  lemma RefusedIsInvisible(s: System, hash: Hash, r: Request, base: Inode, path: Path)
    requires MountOK(s.mount) && Allowed(s, r) && Step(s, hash, r).1.Failed?
    requires base in s.mount.nodes && OrdinaryPath(path)
    ensures Resolve(Step(s, hash, r).0.mount, base, path) == Resolve(s.mount, base, path)
    ensures Step(s, hash, r).0.store == s.store
  {
    RefusedIsUntouched(s, hash, r);
    UntouchedResolve(s.mount, Step(s, hash, r).0.mount, base, path);
  }

  // ---------------------------------------------------------------- the emptiness check

  /** The entries of a directory other than "." and "..". */
  function OrdinaryNames(d: Descriptor): set<Name> {
    d.Keys - {DOT, DOTDOT}
  }

  /** The emptiness check counts all entries against two. It sees a non-empty directory exactly when the directory has
      a ".." or at least two ordinary entries: directories made from a stored tree have no "..". */
  lemma EmptinessCheck(d: Descriptor)
    requires DOT in d
    ensures |d| > 2 <==> |OrdinaryNames(d)| > (if DOTDOT in d then 0 else 1)
  {
    if DOTDOT in d {
      assert d.Keys == OrdinaryNames(d) + {DOT, DOTDOT};
      assert |{DOT, DOTDOT}| == 2;
    } else {
      assert d.Keys == OrdinaryNames(d) + {DOT};
    }
    assert |d| == |d.Keys|;
  }

  /** A rename onto a directory is refused exactly when the directory has an ordinary entry, or two if it was made from
      a stored tree. */
  lemma RenameOntoDirectory(m: Mount, uid: nat, gid: nat, parent: Inode, name: Name, newParent: Inode, newName: Name)
    requires ShapeOK(m) && Ordinary(name) && Ordinary(newName)
    requires (parent, name) in Edges(m) && (newParent, newName) in Edges(m) && Edges(m)[(newParent, newName)] in m.dirs
    requires DirectoryIfAny(m, parent) && DirectoryIfAny(m, newParent)
    ensures var d := m.dirs[Edges(m)[(newParent, newName)]];
            DoRename(m, uid, gid, parent, name, newParent, newName).1 ==
            if |OrdinaryNames(d)| > (if DOTDOT in d then 0 else 1) then Failed(ENOTEMPTY) else Panicked
  {
    RenameOutcome(m, uid, gid, parent, name, newParent, newName);
    EmptinessCheck(m.dirs[Edges(m)[(newParent, newName)]]);
  }

  // ---------------------------------------------------------------- lookup requests

  /** The reply to a lookup request. */
  function LookupReply(m: Mount, parent: Inode, name: Name): Result<Attrs, Errno> {
    if |name| > 140 then Err(ENAMETOOLONG) else LookupName(m, parent, name)
  }

  /** A created entry is found by a lookup request exactly when its name has at most 140 bytes; creation itself has no
      such limit. */
  lemma CreatedEntryIsFound(s: System, hash: Hash, r: Request)
    requires ShapeOK(s.mount) && Allowed(s, r) && Step(s, hash, r).1.Created?
    ensures r.Mkdir? || r.Mknod? || r.MakeSymlink?
    ensures LookupName(s.mount, r.parent, r.name).Err?
    ensures LookupReply(Step(s, hash, r).0.mount, r.parent, r.name) == Ok(Step(s, hash, r).1.attrs) <==> |r.name| <= 140
  {
    CounterIsFree(s.mount);
  }

  predicate ShortNames(path: Path) {
    forall n :: n in path ==> |n| <= 140
  }

  /** What a client finds that looks a path up name by name. */
  function LookUpPath(m: Mount, base: Inode, path: Path): Option<Attrs>
    decreases |path|
  {
    if path == [] then
      if base in m.nodes then Some(m.nodes[base]) else None
    else
      match LookupReply(m, base, path[0])
      case Err(_) => None
      case Ok(a) => LookUpPath(m, a.inode, path[1..])
  }

  /** A client finds what a path resolves to exactly when all its names have at most 140 bytes. */
  lemma {:induction false} LookUpPathResolves(m: Mount, base: Inode, path: Path)
    ensures LookUpPath(m, base, path) == if ShortNames(path) then Resolve(m, base, path) else None
    ensures LookUpPath(m, base, path) == Resolve(m, base, path) <==> ShortNames(path) || Resolve(m, base, path).None?
    decreases |path|
  {
    if path != [] {
      assert path == [path[0]] + path[1..];
      var found := LookupName(m, base, path[0]);
      if found.Ok? { LookUpPathResolves(m, found.value.inode, path[1..]); }
    }
  }

  /** After a mount is rooted at a tree, a client finds a path exactly when it resolves in the stored trees and all its
      names have at most 140 bytes. */
  lemma RootedMountIsFound(m: Mount, s: Stored, id: Id, path: Path)
    requires Insertable(s, id) && Bounded(m) && ROOT <= m.next && DOT !in path
    ensures var found, stored := LookUpPath(SetRoot(m, s, id), ROOT, path), ResolveEntry(s, SubTree(id), path);
            && (found.Some? <==> stored.Some? && ShortNames(path))
            && (found.Some? ==> Describes(found.value, s, stored.value))
  {
    LookUpPathResolves(SetRoot(m, s, id), ROOT, path);
    RootedMountAgreesWithStore(m, s, id, path);
  }
}
