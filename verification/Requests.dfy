/** The requests a mount serves, as steps on its state together with the shared store. Each step gives the net effect
    of the request; the file system object carries the requests out in the order of the source. */
module Requests {
  import opened Basics
  import opened Words
  import opened Preimages
  import opened Trees
  import opened Stores
  import opened Insertability
  import opened Forests
  import opened Mounts
  import opened Materialise

  datatype System = System(mount: Mount, store: Stored, nextHandle: nat)

  datatype Request =
    | Mkdir(uid: nat, gid: nat, parent: Inode, name: Name)
    | Mknod(uid: nat, gid: nat, parent: Inode, name: Name, mode: bv32)
    | MakeSymlink(uid: nat, gid: nat, parent: Inode, name: Name, target: Bytes)
    | Rename(uid: nat, gid: nat, parent: Inode, name: Name, newParent: Inode, newName: Name)
    | Write(inode: Inode, fh: nat, offset: nat, data: Bytes)
    | Open(uid: nat, gid: nat, inode: Inode, flags: bv32)
    | OpenDir(uid: nat, gid: nat, inode: Inode, flags: bv32)
    | Release(inode: Inode)
    | ReleaseDir(inode: Inode)
    | SetRootTree(id: Id)
    | StoreFile(content: Bytes)
    | StoreSymlink(target: Bytes)
    | StoreTree(tree: Tree)
    | ServiceFile(content: Bytes)
    | ServiceSymlink(target: Bytes)

  datatype Reply =
    | Created(attrs: Attrs)
    | Done
    | Written(count: nat)
    | Opened(fh: nat)
    | Wrote(id: Id)
    | Failed(errno: Errno)
    | Panicked

  // ---------------------------------------------------------------- file handles

  const READ_BIT: nat := 63
  const WRITE_BIT: nat := 62

  /** A fresh handle with the permission bits of its opening. */
  function HandleFor(counter: nat, read: bool, write: bool): nat {
    var fh := if read then OrBit(counter, READ_BIT) else counter;
    if write then OrBit(fh, WRITE_BIT) else fh
  }

  predicate HandleReads(fh: nat) { HasBit(fh, READ_BIT) }

  predicate HandleWrites(fh: nat) { HasBit(fh, WRITE_BIT) }

  /** A handle without its permission bits. */
  function Masked(fh: nat): nat {
    ValueOf(Bits(fh, 64)[READ_BIT := false][WRITE_BIT := false])
  }

  /** From a counter below 2^62, the permission bits and the counter can be read back from the handle. */
  lemma HandleBits(counter: nat, read: bool, write: bool)
    requires counter < TWO_62
    ensures var fh := HandleFor(counter, read, write);
            (HandleReads(fh) <==> read) && (HandleWrites(fh) <==> write) && Masked(fh) == counter && fh < TWO_64
  {
    var bits, fh := Bits(counter, 64), HandleFor(counter, read, write);
    TopBits(counter, read, write);
    TopBits(counter, read, false);
    TopBits(counter, false, false);
    var low := bits[READ_BIT := false][WRITE_BIT := false];
    assert low == bits;
    assert bits[READ_BIT := read][WRITE_BIT := false] == bits[READ_BIT := read];
    assert fh == ValueOf(bits[READ_BIT := read][WRITE_BIT := write]);
    assert Bits(fh, 64)[READ_BIT := false][WRITE_BIT := false] == low;
  }

  const O_ACCMODE: bv32 := 3
  const O_RDONLY: bv32 := 0
  const O_WRONLY: bv32 := 1
  const O_RDWR: bv32 := 2
  const O_TRUNC: bv32 := 0x200
  const FMODE_EXEC: bv32 := 0x20

  datatype Mode = Mode(mask: bv32, read: bool, write: bool)

  /** The access an `open` asks for. */
  function OpenMode(flags: bv32, directory: bool): Result<Mode, Errno> {
    if flags & O_ACCMODE == O_RDONLY then
      if flags & O_TRUNC != 0 then Err(EACCES)
      else if !directory && flags & FMODE_EXEC != 0 then Ok(Mode(X_OK, true, false))
      else Ok(Mode(R_OK, true, false))
    else if flags & O_ACCMODE == O_WRONLY then Ok(Mode(W_OK, false, true))
    else if flags & O_ACCMODE == O_RDWR then Ok(Mode(R_OK | W_OK, true, true))
    else Err(EINVAL)
  }

  // ---------------------------------------------------------------- file contents

  function Zeros(n: nat): (zeros: Bytes)
    ensures |zeros| == n && forall i :: 0 <= i < n ==> zeros[i] == 0
  {
    seq(n, _ => 0)
  }

  /** `write_all` at a cursor position of a byte vector: nothing for empty data; otherwise the vector is padded with
      zeros up to the position, overwritten and extended. */
  function WriteAt(content: Bytes, offset: nat, data: Bytes): Bytes {
    if data == [] then content
    else
      var padded := if |content| < offset then content + Zeros(offset - |content|) else content;
      var end := offset + |data|;
      padded[..offset] + data + (if end < |padded| then padded[end..] else [])
  }

  function Max(a: nat, b: nat): nat { if a < b then b else a }

  function Min(a: nat, b: nat): nat { if a < b then a else b }

  // ---------------------------------------------------------------- steps on the mount

  /** The mount with a new node under the inode counter, linked into a directory. */
  function AddNode(m: Mount, a: Attrs, parent: Inode, name: Name): Mount
    requires parent in m.dirs
  {
    Mount(m.nodes[a.inode := a], m.dirs[parent := m.dirs[parent][name := Entry(a.inode, a.kind)]], m.next + 1)
  }

  function NewDirectory(inode: Inode, parent: Inode): Descriptor {
    map[DOT := Entry(inode, Directory), DOTDOT := Entry(parent, Directory)]
  }

  /** The attributes of a node created by a caller in a directory. */
  function NodeFor(m: Mount, kind: FileKind, uid: nat, gid: nat, parent: Inode): Attrs
    requires parent in m.nodes
  {
    NewAttrs(m.next, kind, 0).(uid := uid, gid := CreationGid(m.nodes[parent], gid))
  }

  /** The directories a caller names exist as directories or not at all. */
  predicate DirectoryIfAny(m: Mount, inode: Inode) {
    inode in m.nodes ==> inode in m.dirs
  }

  function DoMkdir(m: Mount, uid: nat, gid: nat, parent: Inode, name: Name): (Mount, Reply)
    requires DirectoryIfAny(m, parent)
  {
    if LookupName(m, parent, name).Ok? then (m, Failed(EEXIST))
    else if parent !in m.nodes then (m, Failed(ENOENT))
    else if !MayAccess(m.nodes[parent], uid, gid, W_OK) then (m, Failed(EACCES))
    else
      var a := NodeFor(m, Directory, uid, gid, parent);
      var m' := AddNode(m, a, parent, name);
      (m'.(dirs := m'.dirs[a.inode := NewDirectory(a.inode, parent)]), Created(a))
  }

  const S_IFMT: bv32 := 0xF000
  const S_IFREG: bv32 := 0x8000
  const S_IFLNK: bv32 := 0xA000
  const S_IFDIR: bv32 := 0x4000
  const S_ISUID: bv32 := 0x800

  /** The kind of node a mode asks for. */
  function AsFileKind(mode: bv32): FileKind
    requires mode & S_IFMT == S_IFREG || mode & S_IFMT == S_IFLNK || mode & S_IFMT == S_IFDIR
  {
    if mode & S_IFMT == S_IFREG then File
    else if mode & S_IFMT == S_IFLNK then Symlink
    else Directory
  }

  /** A creation of a node panics: past the other checks, a directory is asked for. */
  predicate MknodPanics(m: Mount, parent: Inode, name: Name, mode: bv32) {
    mode & S_IFMT == S_IFDIR && LookupName(m, parent, name).Err? && parent in m.nodes
  }

  /** Asked for a directory, it panics after the node was linked. */
  function DoMknod(m: Mount, uid: nat, gid: nat, parent: Inode, name: Name, mode: bv32): (Mount, Reply)
    requires DirectoryIfAny(m, parent)
  {
    if mode & S_IFMT != S_IFREG && mode & S_IFMT != S_IFLNK && mode & S_IFMT != S_IFDIR then (m, Failed(ENOSYS))
    else if LookupName(m, parent, name).Ok? then (m, Failed(EEXIST))
    else if parent !in m.nodes then (m, Failed(ENOENT))
    else
      var a := NodeFor(m, AsFileKind(mode), uid, gid, parent);
      (AddNode(m, a, parent, name), if a.kind.Directory? then Panicked else Created(a))
  }

  /** A refused symlink has already allocated its node, which then stays behind unnamed. */
  function DoSymlink(m: Mount, s: Stored, hash: Hash, uid: nat, gid: nat, parent: Inode, name: Name, target: Bytes)
    : (Mount, Stored, Reply)
    requires DirectoryIfAny(m, parent)
  {
    if parent !in m.nodes then (m, s, Failed(ENOENT))
    else if !MayAccess(m.nodes[parent], uid, gid, W_OK) then (m, s, Failed(EACCES))
    else if LookupName(m, parent, name).Ok? then
      (SetNode(m, NewAttrs(m.next, Symlink, 0)).(next := m.next + 1), s, Failed(EEXIST))
    else
      var preimage := ContentPreimage(target);
      var a := NodeFor(m, Symlink, uid, gid, parent).(size := |target|, hash := Some(hash(preimage)));
      (AddNode(m, a, parent, name), PutSymlink(s, hash, preimage, target), Created(a))
  }

  /** What a rename finds in the way: nothing, an entry to replace, or a directory too full to replace. */
  predicate Obstructed(m: Mount, newParent: Inode, newName: Name) {
    var target := LookupName(m, newParent, newName);
    && target.Ok? && target.value.kind.Directory?
    && target.value.inode in m.dirs && |m.dirs[target.value.inode]| > 2
  }

  /** A rename panics: past the other checks it finds a directory in the way that is not too full. To replace it is not
      implemented. */
  predicate RenamePanics(m: Mount, parent: Inode, name: Name, newParent: Inode, newName: Name) {
    var target := LookupName(m, newParent, newName);
    && LookupName(m, parent, name).Ok? && parent in m.nodes && newParent in m.nodes
    && target.Ok? && target.value.kind.Directory? && !Obstructed(m, newParent, newName)
  }

  /** The directories after an entry moved: out of one slot, into the other. */
  function Moved(m: Mount, a: Attrs, parent: Inode, name: Name, newParent: Inode, newName: Name): map<Inode, Descriptor>
    requires parent in m.dirs && newParent in m.dirs
  {
    var dirs := m.dirs[parent := m.dirs[parent] - {name}];
    dirs[newParent := dirs[newParent][newName := Entry(a.inode, a.kind)]]
  }

  /** The same, with the ".." of a moved directory redirected. */
  function Relink(m: Mount, a: Attrs, parent: Inode, name: Name, newParent: Inode, newName: Name)
    : map<Inode, Descriptor>
    requires parent in m.dirs && newParent in m.dirs && (a.kind.Directory? ==> a.inode in m.dirs)
  {
    var dirs := Moved(m, a, parent, name, newParent, newName);
    if a.kind.Directory? then dirs[a.inode := dirs[a.inode][DOTDOT := Entry(newParent, Directory)]] else dirs
  }

  /** The nodes after an entry was replaced: the node it named has a link less, unless it is the moved node itself. */
  function Unlink(m: Mount, a: Attrs, newParent: Inode, newName: Name): map<Inode, Attrs> {
    match LookupName(m, newParent, newName)
    case Ok(t) => if t.inode == a.inode then m.nodes else m.nodes[t.inode := t.(hardlinks := t.hardlinks - 1)]
    case Err(_) => m.nodes
  }

  /** A directory in the way panics after its entry was removed. Directories without descriptors would also panic. */
  function DoRename(m: Mount, uid: nat, gid: nat, parent: Inode, name: Name, newParent: Inode, newName: Name)
    : (Mount, Reply)
    requires DirectoryIfAny(m, parent) && DirectoryIfAny(m, newParent)
  {
    match LookupName(m, parent, name)
    case Err(e) => (m, Failed(e))
    case Ok(a) =>
      var target := LookupName(m, newParent, newName);
      if parent !in m.nodes then (m, Failed(ENOENT))
      else if !MayAccess(m.nodes[parent], uid, gid, W_OK) then (m, Failed(EACCES))
      else if newParent !in m.nodes then (m, Failed(ENOENT))
      else if !MayAccess(m.nodes[newParent], uid, gid, W_OK) then (m, Failed(EACCES))
      else if target.Ok? && target.value.kind.Directory? && target.value.inode !in m.dirs then (m, Panicked)
      else if Obstructed(m, newParent, newName) then (m, Failed(ENOTEMPTY))
      else if a.kind.Directory? && parent != newParent && !MayAccess(a, uid, gid, W_OK) then (m, Failed(EACCES))
      else if target.Ok? && target.value.kind.Directory? then
        (m.(dirs := m.dirs[newParent := m.dirs[newParent] - {newName}]), Panicked)
      else if a.kind.Directory? && a.inode !in m.dirs then
        (Mount(Unlink(m, a, newParent, newName), Moved(m, a, parent, name, newParent, newName), m.next), Panicked)
      else
        (Mount(Unlink(m, a, newParent, newName), Relink(m, a, parent, name, newParent, newName), m.next), Done)
  }

  /** The content behind a file: empty until the first write. */
  function ContentOf(a: Attrs, files: map<Id, Bytes>): Bytes {
    match a.hash
    case None => []
    case Some(h) => if h in files then files[h] else []
  }

  function DoWrite(m: Mount, s: Stored, hash: Hash, inode: Inode, fh: nat, offset: nat, data: Bytes)
    : (Mount, Stored, Reply)
  {
    if !HandleWrites(fh) then (m, s, Failed(EACCES))
    else if inode !in m.nodes then (m, s, Failed(EBADF))
    else
      var a := m.nodes[inode];
      var content := WriteAt(ContentOf(a, s.files), offset, data);
      var preimage := ContentPreimage(content);
      var a' := a.(size := Max(a.size, offset + |data|), hash := Some(hash(preimage)));
      (SetNode(m, a'), PutFile(s, hash, preimage, content), Written(|data|))
  }

  function DoOpen(m: Mount, counter: nat, uid: nat, gid: nat, inode: Inode, flags: bv32, directory: bool)
    : (Mount, nat, Reply)
  {
    match OpenMode(flags, directory)
    case Err(e) => (m, counter, Failed(e))
    case Ok(mode) =>
      if inode !in m.nodes then (m, counter, Failed(ENOENT))
      else if !MayAccess(m.nodes[inode], uid, gid, mode.mask) then (m, counter, Failed(EACCES))
      else
        var a := m.nodes[inode];
        (SetNode(m, a.(openFileHandles := a.openFileHandles + 1)), counter + 1,
         Opened(HandleFor(counter, mode.read, mode.write)))
  }

  function DoRelease(m: Mount, inode: Inode): Mount {
    if inode in m.nodes && m.nodes[inode].openFileHandles > 0 then
      var a := m.nodes[inode];
      SetNode(m, a.(openFileHandles := a.openFileHandles - 1))
    else m
  }

  // ---------------------------------------------------------------- steps on the whole system

  /** What a caller of each request provides: the kernel's checks before a request, and the guards in front of code
      that is not implemented. A tree may be written whatever it refers to, but a mount is only rooted at a tree that
      can be inserted and has proper names. */
  ghost predicate Allowed(s: System, r: Request) {
    var m := s.mount;
    match r
    case Mkdir(_, _, parent, name) => Ordinary(name) && DirectoryIfAny(m, parent)
    case Mknod(_, _, parent, name, mode) =>
      Ordinary(name) && DirectoryIfAny(m, parent) && !MknodPanics(m, parent, name, mode)
    case MakeSymlink(_, _, parent, name, target) =>
      Ordinary(name) && DirectoryIfAny(m, parent) && |target| < TWO_63
    case Rename(_, _, parent, name, newParent, newName) =>
      && Ordinary(name) && Ordinary(newName)
      && DirectoryIfAny(m, parent) && DirectoryIfAny(m, newParent)
      && NotIntoItself(m, parent, name, newParent)
      && !RenamePanics(m, parent, name, newParent, newName)
    case Write(inode, _, offset, data) =>
      && (inode in m.nodes ==> m.nodes[inode].kind.File?)
      && offset + |data| < TWO_63
    case Open(_, _, _, _) => s.nextHandle < TWO_62
    case OpenDir(_, _, _, _) => s.nextHandle < TWO_62
    case Release(_) => true
    case ReleaseDir(_) => true
    case SetRootTree(id) => Insertable(s.store, id) && Rootable(s.store, id)
    case StoreFile(content) => |content| < TWO_63
    case StoreSymlink(target) => |target| < TWO_63
    case StoreTree(tree) => Hashable(tree) && FitsMemory(tree)
    case ServiceFile(content) => |content| < TWO_63
    case ServiceSymlink(target) => |target| < TWO_63
  }

  /** A directory is not moved into its own subtree. */
  ghost predicate NotIntoItself(m: Mount, parent: Inode, name: Name, newParent: Inode) {
    (parent, name) in Edges(m) ==> !Below(Edges(m), Edges(m)[(parent, name)], newParent)
  }

  ghost function Step(s: System, hash: Hash, r: Request): (System, Reply)
    requires Allowed(s, r)
  {
    match r
    case Mkdir(uid, gid, parent, name) =>
      var (m, reply) := DoMkdir(s.mount, uid, gid, parent, name);
      (s.(mount := m), reply)
    case Mknod(uid, gid, parent, name, mode) =>
      var (m, reply) := DoMknod(s.mount, uid, gid, parent, name, mode);
      (s.(mount := m), reply)
    case MakeSymlink(uid, gid, parent, name, target) =>
      var (m, st, reply) := DoSymlink(s.mount, s.store, hash, uid, gid, parent, name, target);
      (s.(mount := m, store := st), reply)
    case Rename(uid, gid, parent, name, newParent, newName) =>
      var (m, reply) := DoRename(s.mount, uid, gid, parent, name, newParent, newName);
      (s.(mount := m), reply)
    case Write(inode, fh, offset, data) =>
      var (m, st, reply) := DoWrite(s.mount, s.store, hash, inode, fh, offset, data);
      (s.(mount := m, store := st), reply)
    case Open(uid, gid, inode, flags) =>
      var (m, counter, reply) := DoOpen(s.mount, s.nextHandle, uid, gid, inode, flags, false);
      (s.(mount := m, nextHandle := counter), reply)
    case OpenDir(uid, gid, inode, flags) =>
      var (m, counter, reply) := DoOpen(s.mount, s.nextHandle, uid, gid, inode, flags, true);
      (s.(mount := m, nextHandle := counter), reply)
    case Release(inode) => (s.(mount := DoRelease(s.mount, inode)), Done)
    case ReleaseDir(inode) => (s.(mount := DoRelease(s.mount, inode)), Done)
    case SetRootTree(id) => (s.(mount := SetRoot(s.mount, s.store, id)), Done)
    case StoreFile(content) =>
      var preimage := ContentPreimage(content);
      (s.(store := PutFile(s.store, hash, preimage, content)), Wrote(hash(preimage)))
    case StoreSymlink(target) =>
      var preimage := ContentPreimage(target);
      (s.(store := PutSymlink(s.store, hash, preimage, target)), Wrote(hash(preimage)))
    case StoreTree(tree) =>
      (s.(store := PutTree(s.store, hash, tree)), Wrote(hash(TreePreimage(tree))))
    case ServiceFile(content) =>
      var preimage := ProtoPreimage(content);
      (s.(store := PutFile(s.store, hash, preimage, content)), Wrote(hash(preimage)))
    case ServiceSymlink(target) =>
      var preimage := ProtoPreimage(target);
      (s.(store := PutSymlink(s.store, hash, preimage, target)), Wrote(hash(preimage)))
  }
}
