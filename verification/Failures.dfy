/** Inputs on which the code fails, each in a state that a run reaches. What holds instead of the property that fails is
    proved, exactly, where the property belongs. */
module Failures {
  import opened Basics
  import opened Preimages
  import opened Trees
  import opened Stores
  import opened Insertability
  import opened Forests
  import opened Mounts
  import opened Materialise
  import opened Requests
  import opened Invariants
  import opened Contents
  import opened Steps
  import opened Views
  import opened Reads
  import opened Runs
  import opened Histories

  // ---------------------------------------------------------------- a mount of the empty tree

  function EmptyId(hash: Hash): Id {
    hash(TreePreimage([]))
  }

  const EMPTY_ROOT :=
    Mount(map[ROOT := NewAttrs(ROOT, Directory, 0)], map[ROOT := map[DOT := Entry(ROOT, Directory)]], 2)

  lemma InsertEmpty(m: Mount, s: Stored, id: Id, inode: Inode)
    requires id in s.trees && s.trees[id] == []
    ensures Insertable(s, id) && ProperlyNamed(s, id) && Rootable(s, id)
    ensures Insert(m, s, id, inode) ==
            m.(nodes := m.nodes[inode := NewAttrs(inode, Directory, 0)],
               dirs := m.dirs[inode := map[DOT := Entry(inode, Directory)]])
  {
    EmptyTreeIsInsertable(s, id);
  }

  /** A fresh mount rooted at the empty tree. */
  lemma RootedRun(hash: Hash) returns (t: Trace)
    ensures IsRunFromStart(t, hash) && Last(t) == System(EMPTY_ROOT, EmptyStored(hash), 1)
  {
    t := Start(hash);
    StartIsRun(hash);
    InsertEmpty(EMPTY_MOUNT.(next := 2), EmptyStored(hash), EmptyId(hash), ROOT);
    var r := SetRootTree(EmptyId(hash));
    RunGoesOn(t, hash, r);
    t := Then(t, hash, r);
  }

  /** The root of the mount is a directory without an entry of that name. */
  ghost predicate FreeInRoot(s: System, name: Name) {
    ROOT in s.mount.nodes && ROOT in s.mount.dirs && name !in s.mount.dirs[ROOT] && Ordinary(name)
  }

  lemma FreeLookup(m: Mount, name: Name)
    requires ROOT in m.dirs && name !in m.dirs[ROOT]
    ensures LookupName(m, ROOT, name).Err?
  {
  }

  lemma MkdirRun(t: Trace, hash: Hash, name: Name) returns (t': Trace)
    requires IsRunFromStart(t, hash) && FreeInRoot(Last(t), name)
    ensures IsRunFromStart(t', hash)
    ensures var m := Last(t).mount;
            Last(t') == Last(t).(mount := Linked(m, NodeFor(m, Directory, 0, 0, ROOT), ROOT, name))
  {
    ReachableNode(t, hash, ROOT, W_OK);
    FreeLookup(Last(t).mount, name);
    var r := Request.Mkdir(0, 0, ROOT, name);
    RunGoesOn(t, hash, r);
    t' := Then(t, hash, r);
  }

  lemma MknodRun(t: Trace, hash: Hash, name: Name) returns (t': Trace)
    requires IsRunFromStart(t, hash) && FreeInRoot(Last(t), name)
    ensures IsRunFromStart(t', hash)
    ensures var m := Last(t).mount;
            Last(t') == Last(t).(mount := Linked(m, NodeFor(m, File, 0, 0, ROOT), ROOT, name))
  {
    FreeLookup(Last(t).mount, name);
    var r := Request.Mknod(0, 0, ROOT, name, S_IFREG);
    assert S_IFREG & S_IFMT == S_IFREG;
    RunGoesOn(t, hash, r);
    t' := Then(t, hash, r);
  }

  lemma ReachableNode(t: Trace, hash: Hash, i: Inode, mask: bv32)
    requires IsRunFromStart(t, hash) && i in Last(t).mount.nodes
    requires mask == R_OK || mask == W_OK || mask == X_OK || mask == R_OK | W_OK
    ensures Last(t).mount.nodes[i].inode == i && MayAccess(Last(t).mount.nodes[i], 0, 0, mask)
  {
    ReachableIsOK(t, hash, |t.requests|);
    NodeIsItself(Last(t).mount, i);
    Granted(Last(t).mount, i, 0, 0, mask);
  }

  lemma OpenSucceeds(m: Mount, counter: nat, i: Inode)
    requires i in m.nodes && MayAccess(m.nodes[i], 0, 0, R_OK | W_OK) && counter < TWO_62
    ensures DoOpen(m, counter, 0, 0, i, O_RDWR, false) ==
            (SetNode(m, m.nodes[i].(openFileHandles := m.nodes[i].openFileHandles + 1)), counter + 1,
             Opened(HandleFor(counter, true, true)))
    ensures HandleReads(HandleFor(counter, true, true)) && HandleWrites(HandleFor(counter, true, true))
  {
    assert O_RDWR & O_ACCMODE == O_RDWR && OpenMode(O_RDWR, false) == Ok(Mode(R_OK | W_OK, true, true));
    HandleBits(counter, true, true);
  }

  /** A file opened for reading and writing. */
  lemma OpenRun(t: Trace, hash: Hash, i: Inode) returns (t': Trace, fh: nat)
    requires IsRunFromStart(t, hash) && IsFile(Last(t).mount, i) && Last(t).nextHandle < TWO_62
    ensures IsRunFromStart(t', hash) && HandleReads(fh) && HandleWrites(fh)
    ensures Last(t').store == Last(t).store && IsFile(Last(t').mount, i)
    ensures SameFile(Last(t).mount, Last(t').mount, i)
  {
    var r := Request.Open(0, 0, i, O_RDWR);
    fh := HandleFor(Last(t).nextHandle, true, true);
    ReachableNode(t, hash, i, R_OK | W_OK);
    OpenSucceeds(Last(t).mount, Last(t).nextHandle, i);
    RunGoesOn(t, hash, r);
    t' := Then(t, hash, r);
  }

  // ---------------------------------------------------------------- renames

  const A: Name := [97]
  const B: Name := [98]

  lemma ReachableShape(t: Trace, hash: Hash)
    requires IsRunFromStart(t, hash)
    ensures ShapeOK(Last(t).mount) && Unnamed(Edges(Last(t).mount), ROOT)
  {
    ReachableIsOK(t, hash, |t.requests|);
  }

  /** A rename from one name to another, in a root directory where both exist and the second is a directory that passes
      the emptiness check. */
  lemma RenameReplaces(m: Mount, name: Name, newName: Name)
    requires ShapeOK(m) && Unnamed(Edges(m), ROOT) && Ordinary(name) && Ordinary(newName) && ROOT in m.dirs
    requires name in m.dirs[ROOT] && newName in m.dirs[ROOT]
    requires m.dirs[ROOT][newName].inode in m.dirs && |m.dirs[m.dirs[ROOT][newName].inode]| <= 2
    ensures NotIntoItself(m, ROOT, name, ROOT)
    ensures var (m', reply) := DoRename(m, 0, 0, ROOT, name, ROOT, newName);
            reply == Panicked && (ROOT, newName) !in Edges(m')
  {
    assert (ROOT, name) in Edges(m) && (ROOT, newName) in Edges(m);
    UnnamedIsBelowNothing(Edges(m), Edges(m)[(ROOT, name)], ROOT);
    RenameOutcome(m, 0, 0, ROOT, name, ROOT, newName);
  }

  /** Renaming a directory onto an empty directory panics, with the target's entry already gone. */
  lemma RenameOntoEmptyDirectory(hash: Hash) returns (t: Trace)
    ensures IsRunFromStart(t, hash)
    ensures var m := Last(t).mount;
            && ROOT in m.dirs && A in m.dirs[ROOT] && B in m.dirs[ROOT]
            && m.dirs[ROOT][A].kind.Directory? && NotIntoItself(m, ROOT, A, ROOT)
            && m.dirs[ROOT][B].inode in m.dirs && OrdinaryNames(m.dirs[m.dirs[ROOT][B].inode]) == {}
            && var (m', reply) := DoRename(m, 0, 0, ROOT, A, ROOT, B);
               reply == Panicked && (ROOT, B) !in Edges(m')
  {
    t := RootedRun(hash);
    t := MkdirRun(t, hash, B);
    assert Last(t).mount.dirs[2] == NewDirectory(2, ROOT);
    t := MkdirRun(t, hash, A);
    var m := Last(t).mount;
    assert m.dirs[ROOT][A] == Entry(3, Directory) && m.dirs[ROOT][B] == Entry(2, Directory);
    ReachableShape(t, hash);
    RenameReplaces(m, A, B);
  }

  lemma UnnamedIsBelowNothing(g: Graph, i: Inode, j: Inode)
    requires Unnamed(g, j) && i != j
    ensures !Below(g, i, j)
  {
    if Below(g, i, j) {
      var path :| Walk(g, i, path) == Some(j);
      var s := LastStep(g, i, path);
    }
  }

  // ---------------------------------------------------------------- reads and writes

  /** A file that was created but never written cannot be read: the read panics. */
  lemma ReadOfNewFile(hash: Hash) returns (t: Trace, i: Inode, fh: nat)
    ensures IsRunFromStart(t, hash) && IsFile(Last(t).mount, i) && HandleReads(fh)
    ensures DoRead(Last(t).mount, Last(t).store, i, fh, 0, 1) == Panics
  {
    t := RootedRun(hash);
    t := MknodRun(t, hash, A);
    i := 2;
    t, fh := OpenRun(t, hash, i);
  }

  /** A file open for writing, and the state of its system. */
  lemma OpenFile(hash: Hash) returns (t: Trace, i: Inode, fh: nat)
    ensures IsRunFromStart(t, hash) && Last(t).store == EmptyStored(hash)
    ensures IsFile(Last(t).mount, i) && HandleReads(fh) && HandleWrites(fh)
    ensures Last(t).mount.nodes[i].hash == None && Last(t).mount.nodes[i].size == 0
  {
    t := RootedRun(hash);
    t := MknodRun(t, hash, A);
    i := 2;
    t, fh := OpenRun(t, hash, i);
  }

  lemma WriteRun(t: Trace, hash: Hash, i: Inode, fh: nat, offset: nat, data: Bytes) returns (t': Trace)
    requires IsRunFromStart(t, hash) && Last(t).store == EmptyStored(hash)
    requires IsFile(Last(t).mount, i) && HandleWrites(fh) && offset + |data| < TWO_63
    requires Last(t).mount.nodes[i].hash == None && Last(t).mount.nodes[i].size == 0
    requires CollisionFree(hash, {TreePreimage([]), ContentPreimage(WriteAt([], offset, data))})
    ensures IsRunFromStart(t', hash)
    ensures IsFile(Last(t').mount, i) && Last(t').mount.nodes[i].size == offset + |data|
    ensures var a, s := Last(t').mount.nodes[i], Last(t').store;
            a.hash.Some? && a.hash.value in s.files && s.files[a.hash.value] == WriteAt([], offset, data)
  {
    ReachableNode(t, hash, i, W_OK);
    var r := Request.Write(i, fh, offset, data);
    var preimage := ContentPreimage(WriteAt([], offset, data));
    assert Step(Last(t), hash, r).0.store.hashed == {TreePreimage([])} + {preimage} == {TreePreimage([]), preimage};
    RunGoesOn(t, hash, r);
    t' := Then(t, hash, r);
  }

  /** An empty write at offset 1 of a new file gives it a size of 1 and no content. */
  lemma EmptyWritePastEnd(hash: Hash) returns (t: Trace, i: Inode)
    requires CollisionFree(hash, {TreePreimage([]), ContentPreimage([])})
    ensures IsRunFromStart(t, hash) && IsFile(Last(t).mount, i)
    ensures Last(t).mount.nodes[i].size == 1 && BytesOf(Last(t), i) == []
    ensures !Exact(Last(t).mount, Last(t).store)
  {
    var fh;
    t, i, fh := OpenFile(hash);
    t := WriteRun(t, hash, i, fh, 1, []);
    assert !SizeExact(Last(t).mount.nodes[i], Last(t).store);
  }

  /** After a write of one byte at offset 2^32 - 1, one byte asked of the start of the file gives none. */
  lemma ReadOfHugeFile(hash: Hash) returns (t: Trace, i: Inode, fh: nat)
    requires CollisionFree(hash, {TreePreimage([]), ContentPreimage(WriteAt([], TWO_32 - 1, [7]))})
    ensures IsRunFromStart(t, hash) && IsFile(Last(t).mount, i) && HandleReads(fh)
    ensures |BytesOf(Last(t), i)| == TWO_32
    ensures DoRead(Last(t).mount, Last(t).store, i, fh, 0, 1) == Data([])
  {
    t, i, fh := OpenFile(hash);
    t := WriteRun(t, hash, i, fh, TWO_32 - 1, [7]);
    var content := WriteAt([], TWO_32 - 1, [7]);
    WriteAtIsOverlay([], TWO_32 - 1, [7]);
    ReadOf(Last(t).mount, Last(t).store, i, fh, 1, content);
    assert content[..0] == [];
  }

  /** When a read of a file panics, in terms of the run: `mknod` made the file and it was not written since, or the
      offset exceeds the bytes left after it. */
  lemma ReadPanicsInRun(t: Trace, hash: Hash, n: nat, i: Inode, fh: nat, offset: nat, size: nat)
    requires IsRunFromStart(t, hash) && n <= |t.requests| && IsFile(t.states[n].mount, i) && HandleReads(fh)
    ensures DoRead(t.states[n].mount, t.states[n].store, i, fh, offset, size) == Panics <==>
              || NeverWritten(t, i, n)
              || offset > ReadSize(|BytesOf(t.states[n], i)|, offset, size)
  {
    ReachableIsOK(t, hash, n);
    HashlessFiles(t, hash, i, n);
    ReadPanics(t.states[n].mount, t.states[n].store, i, fh, offset, size);
  }

  // ---------------------------------------------------------------- stored trees

  lemma StoreTreeRun(t: Trace, hash: Hash, tree: Tree) returns (t': Trace)
    requires IsRunFromStart(t, hash) && Hashable(tree) && FitsMemory(tree)
    requires CollisionFree(hash, PutTree(Last(t).store, hash, tree).hashed)
    ensures IsRunFromStart(t', hash) && Last(t') == Last(t).(store := PutTree(Last(t).store, hash, tree))
  {
    var r := StoreTree(tree);
    RunGoesOn(t, hash, r);
    t' := Then(t, hash, r);
  }

  lemma RootTreeRun(t: Trace, hash: Hash, id: Id) returns (t': Trace)
    requires IsRunFromStart(t, hash) && Insertable(Last(t).store, id) && Rootable(Last(t).store, id)
    ensures IsRunFromStart(t', hash)
    ensures Last(t') == Last(t).(mount := SetRoot(Last(t).mount, Last(t).store, id))
  {
    var r := SetRootTree(id);
    RunGoesOn(t, hash, r);
    t' := Then(t, hash, r);
  }

  /** The tree with one entry, a directory. */
  function OneDirectory(name: Name, id: Id): Tree {
    [(name, SubTree(id))]
  }

  lemma OneDirectoryIsInsertable(s: Stored, id: Id, name: Name, sub: Id)
    requires id in s.trees && s.trees[id] == OneDirectory(name, sub) && Insertable(s, sub)
    ensures Insertable(s, id)
    ensures ProperlyNamed(s, sub) && Ordinary(name) ==> ProperlyNamed(s, id) && Rootable(s, id)
  {
    InsertableEnds(s, sub);
    var fuel: nat :| Completes(s, sub, fuel);
    assert EntryCompletes(s, SubTree(sub), fuel);
    assert Completes(s, id, fuel + 1);
    InsertableEnds(s, id);
    if ProperlyNamed(s, sub) && Ordinary(name) {
      var ids: set<Id> :| sub in ids && Referring(s, ids) && ProperNames(s, ids);
      assert Referring(s, ids + {id}) && ProperNames(s, ids + {id});
      ProperIsRootable(s, id);
    }
  }

  /** How a tree with one directory is inserted. */
  lemma InsertOneDirectory(m: Mount, s: Stored, id: Id, name: Name, sub: Id, inode: Inode)
    requires id in s.trees && s.trees[id] == OneDirectory(name, sub) && Insertable(s, id) && Insertable(s, sub)
    ensures var m' := Insert(m.(next := m.next + 1), s, sub, m.next);
            Insert(m, s, id, inode) ==
            m'.(nodes := m'.nodes[inode := NewAttrs(inode, Directory, 0)],
                dirs := m'.dirs[inode := map[DOT := Entry(inode, Directory)][name := Entry(m.next, Directory)]])
  {
    var dot: Descriptor := map[DOT := Entry(inode, Directory)];
    var m' := InsertOne(m, s, id, 0);
    assert m' == Insert(m.(next := m.next + 1), s, sub, m.next);
    var entries := dot[name := Entry(m.next, Directory)];
    assert InsertEntries(m', s, id, 1, entries) == (m', entries);
    assert InsertEntries(m, s, id, 0, dot) == (m', entries);
  }

  /** A store with the empty tree, and a tree with that as its only entry. */
  ghost function OneDirectoryStore(hash: Hash, name: Name): Stored {
    PutTree(EmptyStored(hash), hash, OneDirectory(name, EmptyId(hash)))
  }

  function OneDirectoryId(hash: Hash, name: Name): Id {
    hash(TreePreimage(OneDirectory(name, EmptyId(hash))))
  }

  lemma OneDirectoryRun(hash: Hash, name: Name) returns (t: Trace)
    requires |name| < TWO_63 && CollisionFree(hash, OneDirectoryStore(hash, name).hashed)
    ensures IsRunFromStart(t, hash) && Last(t) == System(EMPTY_MOUNT, OneDirectoryStore(hash, name), 1)
    ensures var s, id := OneDirectoryStore(hash, name), OneDirectoryId(hash, name);
            && EmptyId(hash) in s.trees && s.trees[EmptyId(hash)] == []
            && id in s.trees && s.trees[id] == OneDirectory(name, EmptyId(hash))
            && Insertable(s, id) && (Ordinary(name) ==> Rootable(s, id))
    ensures var m := SetRoot(EMPTY_MOUNT, OneDirectoryStore(hash, name), OneDirectoryId(hash, name));
            && ROOT in m.dirs && m.dirs[ROOT] == map[DOT := Entry(ROOT, Directory)][name := Entry(2, Directory)]
            && 2 in m.nodes && m.nodes[2] == NewAttrs(2, Directory, 0)
  {
    t := Start(hash);
    StartIsRun(hash);
    var tree := OneDirectory(name, EmptyId(hash));
    t := StoreTreeRun(t, hash, tree);
    var s, id := OneDirectoryStore(hash, name), OneDirectoryId(hash, name);
    if id == EmptyId(hash) {
      assert TreePreimage(tree) in s.hashed && TreePreimage([]) in s.hashed;
      TreePreimageInjective(tree, []);
    }
    InsertEmpty(EMPTY_MOUNT.(next := 3), s, EmptyId(hash), 2);
    OneDirectoryIsInsertable(s, id, name, EmptyId(hash));
    InsertOneDirectory(EMPTY_MOUNT.(next := 2), s, id, name, EmptyId(hash), ROOT);
  }

  /** Rooting a mount at a tree with an entry "." is carried out, but then "." of the root is another directory. */
  lemma TreeNamingDot(hash: Hash) returns (t: Trace, id: Id)
    requires CollisionFree(hash, OneDirectoryStore(hash, DOT).hashed)
    ensures IsRunFromStart(t, hash) && Insertable(Last(t).store, id) && !Rootable(Last(t).store, id)
    ensures var m := SetRoot(Last(t).mount, Last(t).store, id);
            LookupName(m, ROOT, DOT).Ok? && LookupName(m, ROOT, DOT).value.inode != ROOT && !MountOK(m)
  {
    t := OneDirectoryRun(hash, DOT);
    id := OneDirectoryId(hash, DOT);
    HarmfulRoot(Last(t).store, id, DOT, EmptyId(hash));
  }

  /** Rooting a mount at a tree with an entry ".." is carried out, but then the root's parent is a directory in it. */
  lemma TreeNamingDotDot(hash: Hash) returns (t: Trace, id: Id)
    requires CollisionFree(hash, OneDirectoryStore(hash, DOTDOT).hashed)
    ensures IsRunFromStart(t, hash) && Insertable(Last(t).store, id) && !Rootable(Last(t).store, id)
    ensures var m := SetRoot(Last(t).mount, Last(t).store, id);
            LookupName(m, ROOT, DOTDOT).Ok? && LookupName(m, ROOT, DOTDOT).value.inode != ROOT && !MountOK(m)
  {
    t := OneDirectoryRun(hash, DOTDOT);
    id := OneDirectoryId(hash, DOTDOT);
    HarmfulRoot(Last(t).store, id, DOTDOT, EmptyId(hash));
  }

  lemma HarmfulRoot(s: Stored, id: Id, name: Name, sub: Id)
    requires Insertable(s, id) && s.trees[id] == OneDirectory(name, sub) && !Ordinary(name)
    ensures !Rootable(s, id) && !MountOK(SetRoot(EMPTY_MOUNT, s, id))
  {
    assert FindEntry(OneDirectory(name, sub), name) == Some(SubTree(sub));
    EmptyMountOK();
    SetRootKeeps(EMPTY_MOUNT, s, id);
  }

  /** A tree may be written that refers to a file which is not stored; a mount cannot be rooted at it. */
  lemma TreeWithDanglingFile(hash: Hash, file: Id) returns (t: Trace, id: Id)
    requires CollisionFree(hash, {TreePreimage([]), TreePreimage([(A, FileEntry(file, false))])})
    ensures IsRunFromStart(t, hash) && id in Last(t).store.trees && !Insertable(Last(t).store, id)
    ensures forall fuel: nat :: TryInsert(Last(t).mount, Last(t).store, id, ROOT, fuel).None?
  {
    t := Start(hash);
    StartIsRun(hash);
    var tree: Tree := [(A, FileEntry(file, false))];
    id := hash(TreePreimage(tree));
    assert PutTree(Last(t).store, hash, tree).hashed == {TreePreimage([]), TreePreimage(tree)};
    t := StoreTreeRun(t, hash, tree);
    BadEntryIsNotInsertable(Last(t).store, id, tree[0]);
    InsertionCompletes(Last(t).mount, Last(t).store, id, ROOT);
  }

  lemma LinkAndTreeRun(hash: Hash, target: Bytes, tree: Tree) returns (t: Trace)
    requires |target| < TWO_63 && Hashable(tree) && FitsMemory(tree)
    requires CollisionFree(hash, {TreePreimage([]), ProtoPreimage(target), TreePreimage(tree)})
    ensures IsRunFromStart(t, hash)
    ensures var s := Last(t).store;
            && hash(ProtoPreimage(target)) in s.symlinks && s.symlinks[hash(ProtoPreimage(target))] == target
            && hash(TreePreimage(tree)) in s.trees && s.trees[hash(TreePreimage(tree))] == tree
  {
    var all := {TreePreimage([]), ProtoPreimage(target), TreePreimage(tree)};
    t := Start(hash);
    StartIsRun(hash);
    var r := ServiceSymlink(target);
    CollisionFreeSubset(hash, Step(Last(t), hash, r).0.store.hashed, all);
    RunGoesOn(t, hash, r);
    t := Then(t, hash, r);
    CollisionFreeSubset(hash, PutTree(Last(t).store, hash, tree).hashed, all);
    t := StoreTreeRun(t, hash, tree);
  }

  /** A tree with one symlink, both written by a client, is stored and cannot be read back. */
  lemma SymlinkTreeIsNotReadBack(hash: Hash, target: Bytes) returns (t: Trace, link: Id, id: Id)
    requires |target| < TWO_63
    requires var tree := [(A, SymlinkEntry(hash(ProtoPreimage(target))))];
             CollisionFree(hash, {TreePreimage([]), ProtoPreimage(target), TreePreimage(tree)})
    ensures IsRunFromStart(t, hash) && link in Last(t).store.symlinks && id in Last(t).store.trees
    ensures var c: ClientTree, stored := map[A := ClientSymlink(link)], Last(t).store.trees[id];
            Convertible(c) && TreeFromProto(ClientToProto(c)) == Some(stored) && TreeAsProto(stored) == None
  {
    link := hash(ProtoPreimage(target));
    var tree: Tree := [(A, SymlinkEntry(link))];
    id := hash(TreePreimage(tree));
    t := LinkAndTreeRun(hash, target, tree);
    SymlinkTree(A, link);
  }

  /** An entry of a stored tree with a name of 141 bytes is listed in the mount rooted at the tree, and resolves there,
      but no lookup request finds it. */
  lemma LongNameIsNotFound(hash: Hash, name: Name) returns (t: Trace)
    requires |name| == 141 && CollisionFree(hash, OneDirectoryStore(hash, name).hashed)
    ensures IsRunFromStart(t, hash)
    ensures var m := Last(t).mount;
            && ROOT in m.dirs && (exists k :: 0 <= k < |Listing(m.dirs[ROOT])| && Listing(m.dirs[ROOT])[k].name == name)
            && Resolve(m, ROOT, [name]).Some?
            && LookupReply(m, ROOT, name) == Err(ENAMETOOLONG) && LookUpPath(m, ROOT, [name]) == None
  {
    t := OneDirectoryRun(hash, name);
    t := RootTreeRun(t, hash, OneDirectoryId(hash, name));
    LongNameInMount(Last(t).mount, name);
  }

  lemma LongNameInMount(m: Mount, name: Name)
    requires ROOT in m.dirs && name in m.dirs[ROOT] && m.dirs[ROOT][name] == Entry(2, Directory) && |name| > 140
    requires 2 in m.nodes && m.nodes[2].inode == 2
    ensures exists k :: 0 <= k < |Listing(m.dirs[ROOT])| && Listing(m.dirs[ROOT])[k].name == name
    ensures Resolve(m, ROOT, [name]).Some?
    ensures LookupReply(m, ROOT, name) == Err(ENAMETOOLONG) && LookUpPath(m, ROOT, [name]) == None
  {
    ListingIsComplete(m.dirs[ROOT]);
    assert LookupName(m, ROOT, name) == Ok(m.nodes[2]);
    assert [name][1..] == [];
    assert LookupReply(m, ROOT, name) == Err(ENAMETOOLONG);
  }

  lemma DifferentTrees(hash: Hash, hashed: set<Bytes>, a: Tree, b: Tree)
    requires Hashable(a) && FitsMemory(a) && Hashable(b) && FitsMemory(b) && a != b
    requires CollisionFree(hash, hashed) && TreePreimage(a) in hashed && TreePreimage(b) in hashed
    ensures hash(TreePreimage(a)) != hash(TreePreimage(b))
  {
    if TreePreimage(a) == TreePreimage(b) { TreePreimageInjective(a, b); }
  }

  /** Two trees written to a fresh store. */
  lemma TwoTreesRun(hash: Hash, a: Tree, b: Tree) returns (t: Trace)
    requires Hashable(a) && FitsMemory(a) && Hashable(b) && FitsMemory(b) && a != [] && b != [] && a != b
    requires CollisionFree(hash, {TreePreimage([]), TreePreimage(a), TreePreimage(b)})
    ensures IsRunFromStart(t, hash) && Last(t).mount == EMPTY_MOUNT
    ensures var trees := Last(t).store.trees;
            trees == map[EmptyId(hash) := [], hash(TreePreimage(a)) := a, hash(TreePreimage(b)) := b]
    ensures EmptyId(hash) != hash(TreePreimage(a)) && EmptyId(hash) != hash(TreePreimage(b))
    ensures hash(TreePreimage(a)) != hash(TreePreimage(b))
  {
    var empty: Tree := [];
    var all := {TreePreimage(empty), TreePreimage(a), TreePreimage(b)};
    DifferentTrees(hash, all, empty, a);
    DifferentTrees(hash, all, empty, b);
    DifferentTrees(hash, all, a, b);
    t := Start(hash);
    StartIsRun(hash);
    CollisionFreeSubset(hash, PutTree(Last(t).store, hash, a).hashed, all);
    t := StoreTreeRun(t, hash, a);
    CollisionFreeSubset(hash, PutTree(Last(t).store, hash, b).hashed, all);
    t := StoreTreeRun(t, hash, b);
  }

  /** A mount rooted at a tree with a directory that has one entry. */
  lemma NestedMount(s: Stored, empty: Id, one: Id, id: Id)
    requires empty in s.trees && s.trees[empty] == []
    requires one in s.trees && s.trees[one] == OneDirectory(A, empty)
    requires id in s.trees && s.trees[id] == OneDirectory(B, one)
    ensures Insertable(s, id) && Rootable(s, id)
    ensures var m := SetRoot(EMPTY_MOUNT, s, id);
            && ROOT in m.nodes && m.dirs.Keys == {ROOT, 2, 3} && m.next == 4
            && m.dirs[ROOT] == map[DOT := Entry(ROOT, Directory), B := Entry(2, Directory)]
            && m.dirs[2] == map[DOT := Entry(2, Directory), A := Entry(3, Directory)]
  {
    NestedIsInsertable(s, empty, one, id);
    OneDirectoryBelow(s, empty, one);
    InsertOneDirectory(EMPTY_MOUNT.(next := 2), s, id, B, one, ROOT);
  }

  lemma OneDirectoryBelow(s: Stored, empty: Id, one: Id)
    requires empty in s.trees && s.trees[empty] == [] && Insertable(s, one)
    requires one in s.trees && s.trees[one] == OneDirectory(A, empty)
    ensures var m := Insert(EMPTY_MOUNT.(next := 3), s, one, 2);
            && m.next == 4 && m.nodes.Keys == {2, 3} && m.dirs.Keys == {2, 3}
            && m.dirs[2] == map[DOT := Entry(2, Directory), A := Entry(3, Directory)]
  {
    InsertEmpty(EMPTY_MOUNT.(next := 4), s, empty, 3);
    InsertOneDirectory(EMPTY_MOUNT.(next := 3), s, one, A, empty, 2);
  }

  lemma NestedIsInsertable(s: Stored, empty: Id, one: Id, id: Id)
    requires empty in s.trees && s.trees[empty] == []
    requires one in s.trees && s.trees[one] == OneDirectory(A, empty)
    requires id in s.trees && s.trees[id] == OneDirectory(B, one)
    ensures Insertable(s, empty) && Insertable(s, one) && Insertable(s, id) && Rootable(s, id)
  {
    EmptyTreeIsInsertable(s, empty);
    OneDirectoryIsInsertable(s, one, A, empty);
    OneDirectoryIsInsertable(s, id, B, one);
  }

  lemma NestedRun(t: Trace, hash: Hash, empty: Id, one: Id, id: Id) returns (t': Trace)
    requires IsRunFromStart(t, hash) && Last(t).mount == EMPTY_MOUNT
    requires var trees := Last(t).store.trees;
             && empty in trees && trees[empty] == []
             && one in trees && trees[one] == OneDirectory(A, empty)
             && id in trees && trees[id] == OneDirectory(B, one)
    ensures IsRunFromStart(t', hash)
    ensures var m := Last(t').mount;
            && ROOT in m.dirs && 2 in m.dirs
            && m.dirs[ROOT] == map[DOT := Entry(ROOT, Directory), B := Entry(2, Directory), A := Entry(4, Directory)]
            && m.dirs[2] == map[DOT := Entry(2, Directory), A := Entry(3, Directory)]
  {
    NestedMount(Last(t).store, empty, one, id);
    t' := RootTreeRun(t, hash, id);
    t' := MkdirRun(t', hash, A);
  }

  lemma RenameInNestedMount(t: Trace, hash: Hash)
    requires IsRunFromStart(t, hash)
    requires var m := Last(t).mount;
             && ROOT in m.dirs && 2 in m.dirs
             && m.dirs[ROOT] == map[DOT := Entry(ROOT, Directory), B := Entry(2, Directory), A := Entry(4, Directory)]
             && m.dirs[2] == map[DOT := Entry(2, Directory), A := Entry(3, Directory)]
    ensures var m := Last(t).mount;
            && NotIntoItself(m, ROOT, A, ROOT)
            && OrdinaryNames(m.dirs[2]) == {A}
            && var (m', reply) := DoRename(m, 0, 0, ROOT, A, ROOT, B);
               reply == Panicked && (ROOT, B) !in Edges(m')
  {
    var m := Last(t).mount;
    assert m.dirs[2].Keys == {DOT, A} && |m.dirs[2].Keys| == |m.dirs[2]|;
    ReachableShape(t, hash);
    RenameReplaces(m, A, B);
  }

  /** A tree with a directory that has one entry, an empty directory. */
  function Nested(hash: Hash): Tree {
    OneDirectory(B, OneDirectoryId(hash, A))
  }

  /** Renaming a directory onto a directory that was made from a stored tree and has one entry is not refused: it
      panics, with the target's entry already gone. */
  lemma RenameOntoOneEntryDirectory(hash: Hash) returns (t: Trace)
    requires var one := OneDirectory(A, EmptyId(hash));
             CollisionFree(hash, {TreePreimage([]), TreePreimage(one), TreePreimage(Nested(hash))})
    ensures IsRunFromStart(t, hash)
    ensures var m := Last(t).mount;
            && ROOT in m.dirs && A in m.dirs[ROOT] && B in m.dirs[ROOT]
            && m.dirs[ROOT][A].kind.Directory? && NotIntoItself(m, ROOT, A, ROOT)
            && m.dirs[ROOT][B].inode in m.dirs && OrdinaryNames(m.dirs[m.dirs[ROOT][B].inode]) == {A}
            && var (m', reply) := DoRename(m, 0, 0, ROOT, A, ROOT, B);
               reply == Panicked && (ROOT, B) !in Edges(m')
  {
    var one, nested := OneDirectory(A, EmptyId(hash)), Nested(hash);
    assert one[0].0 == A && nested[0].0 == B;
    t := TwoTreesRun(hash, one, nested);
    t := NestedRun(t, hash, EmptyId(hash), OneDirectoryId(hash, A), hash(TreePreimage(nested)));
    RenameInNestedMount(t, hash);
  }
}
