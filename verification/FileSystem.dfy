/** The file system object. Every request is carried out as the source does, on copies that are fetched, changed and
    written back, and is proved to have the net effect of the corresponding step. */
module FileSystems {
  import opened Basics
  import opened Preimages
  import opened Words
  import opened Trees
  import opened Stores
  import opened Insertability
  import opened Forests
  import opened Mounts
  import opened Materialise
  import opened MountStores
  import opened Requests
  import opened Invariants
  import opened Contents
  import opened Steps
  import opened Reads
  import opened Views

  class CultivateFS {
    const store: Store
    const mountStore: MountStore
    var nextFileHandle: nat

    ghost function State(): System
      reads this, store, mountStore
    {
      System(mountStore.State(), store.State(), nextFileHandle)
    }

    /** The part of what every reachable state satisfies that carrying out requests relies on. */
    ghost predicate Valid()
      reads this, store, mountStore
    {
      ShapeOK(mountStore.State()) && Backed(mountStore.State(), store.State())
    }

    lemma ReachableIsValid()
      requires SystemOK(store.hash, State())
      ensures Valid()
    {
    }

    constructor (store: Store, mountStore: MountStore)
      ensures this.store == store && this.mountStore == mountStore
      ensures State() == System(mountStore.State(), store.State(), 1)
    {
      this.store, this.mountStore, nextFileHandle := store, mountStore, 1;
    }

    // -------------------------------------------------------------- lookups

    method GetInode(inode: Inode) returns (r: Result<Attrs, Errno>)
      ensures r == Mounts.GetInode(mountStore.State(), inode)
    {
      var attrs := mountStore.GetNode(inode);
      r := match attrs case Some(a) => Ok(a) case None => Err(ENOENT);
    }

    method LookupName(parent: Inode, name: Name) returns (r: Result<Attrs, Errno>)
      ensures r == Mounts.LookupName(mountStore.State(), parent, name)
    {
      var entries := mountStore.GetDirectoryContent(parent);
      if entries.Some? && name in entries.value {
        r := GetInode(entries.value[name].inode);
      } else {
        r := Err(ENOENT);
      }
    }

    /** A lookup refuses names longer than 140 bytes. */
    method Lookup(parent: Inode, name: Name) returns (r: Result<Attrs, Errno>)
      ensures r == LookupReply(mountStore.State(), parent, name)
    {
      if |name| > 140 {
        r := Err(ENAMETOOLONG);
      } else {
        r := LookupName(parent, name);
      }
    }

    // -------------------------------------------------------------- the root

    /** A mount without a root is rooted at the empty tree. */
    method Init()
      requires store.emptyTreeId in store.trees && store.trees[store.emptyTreeId] == []
      modifies mountStore
      ensures Insertable(store.State(), store.emptyTreeId)
      ensures mountStore.State() ==
              if ROOT in old(mountStore.nodes) then old(mountStore.State())
              else SetRoot(old(mountStore.State()), store.State(), store.emptyTreeId)
    {
      EmptyTreeIsInsertable(store.State(), store.emptyTreeId);
      var root := GetInode(ROOT);
      if root.Err? {
        mountStore.SetRootTree(store, store.emptyTreeId);
      }
    }

    // -------------------------------------------------------------- creating

    method InsertLink(uid: nat, gid: nat, parent: Inode, name: Name, inode: Inode, kind: FileKind)
      returns (error: Option<Errno>)
      requires NodesOK(mountStore.State()) && DirectoryIfAny(mountStore.State(), parent)
      modifies mountStore
      ensures var m := old(mountStore.State());
              if Mounts.LookupName(m, parent, name).Ok? then error == Some(EEXIST) && mountStore.State() == m
              else if parent !in m.nodes then error == Some(ENOENT) && mountStore.State() == m
              else if !MayAccess(m.nodes[parent], uid, gid, W_OK) then error == Some(EACCES) && mountStore.State() == m
              else error == None
                   && mountStore.State() == m.(dirs := m.dirs[parent := m.dirs[parent][name := Entry(inode, kind)]])
    {
      var existing := LookupName(parent, name);
      if existing.Ok? { return Some(EEXIST); }
      var found := GetInode(parent);
      if found.Err? { return Some(found.error); }
      var parentAttrs := found.value;
      if !MayAccess(parentAttrs, uid, gid, W_OK) { return Some(EACCES); }
      NodeIsItself(mountStore.State(), parent);
      mountStore.SetInode(parentAttrs);
      var content := mountStore.GetDirectoryContent(parent);
      var entries := content.value;
      entries := entries[name := Entry(inode, kind)];
      mountStore.SetDirectoryContent(parent, entries);
      assert mountStore.nodes == old(mountStore.nodes);
      return None;
    }

    /** Creates a node for a caller and links it; the part that directories, files and links share. */
    method CreateEntry(uid: nat, gid: nat, parent: Inode, name: Name, kind: FileKind, parentAttrs: Attrs)
      returns (attrs: Attrs)
      requires NodesOK(mountStore.State()) && KindsOK(mountStore.State())
      requires Mounts.GetInode(mountStore.State(), parent) == Ok(parentAttrs) && parent in mountStore.directories
      modifies mountStore
      ensures attrs == NodeFor(old(mountStore.State()), kind, uid, gid, parent)
      ensures mountStore.State() == AddNode(old(mountStore.State()), attrs, parent, name)
    {
      ghost var m := mountStore.State();
      NodeIsItself(m, parent);
      mountStore.SetInode(parentAttrs);
      assert mountStore.nodes == m.nodes;
      attrs := mountStore.CreateNewNode(kind);
      attrs := attrs.(uid := uid);
      attrs := attrs.(gid := CreationGid(parentAttrs, gid));
      mountStore.SetInode(attrs);
      assert mountStore.nodes == m.nodes[attrs.inode := attrs];
      var content := mountStore.GetDirectoryContent(parent);
      var entries := content.value;
      entries := entries[name := Entry(attrs.inode, attrs.kind)];
      mountStore.SetDirectoryContent(parent, entries);
    }

    method Mkdir(uid: nat, gid: nat, parent: Inode, name: Name) returns (reply: Reply)
      requires Valid() && Allowed(State(), Request.Mkdir(uid, gid, parent, name))
      modifies mountStore
      ensures (State(), reply) == Step(old(State()), store.hash, Request.Mkdir(uid, gid, parent, name))
    {
      ghost var m := mountStore.State();
      var existing := LookupName(parent, name);
      if existing.Ok? { return Failed(EEXIST); }
      var found := GetInode(parent);
      if found.Err? { return Failed(found.error); }
      if !MayAccess(found.value, uid, gid, W_OK) { return Failed(EACCES); }
      var attrs := CreateEntry(uid, gid, parent, name, Directory, found.value);
      CounterIsFree(m);
      FillNewDirectory(attrs.inode, parent, name);
      assert mountStore.directories == DoMkdir(m, uid, gid, parent, name).0.dirs;
      return Created(attrs);
    }

    /** Gives a new directory its own entries, and enters it in its parent once more. */
    method FillNewDirectory(inode: Inode, parent: Inode, name: Name)
      requires parent in mountStore.directories && inode != parent
      requires name in mountStore.directories[parent] && mountStore.directories[parent][name] == Entry(inode, Directory)
      modifies mountStore
      ensures mountStore.State() ==
              old(mountStore.State()).(dirs := old(mountStore.directories)[inode := NewDirectory(inode, parent)])
    {
      var own: Descriptor := map[];
      own := own[DOT := Entry(inode, Directory)];
      own := own[DOTDOT := Entry(parent, Directory)];
      mountStore.SetDirectoryContent(inode, own);
      assert own == NewDirectory(inode, parent);
      ghost var filled := mountStore.directories;
      var content := mountStore.GetDirectoryContent(parent);
      var entries := content.value;
      entries := entries[name := Entry(inode, Directory)];
      assert entries == filled[parent];
      mountStore.SetDirectoryContent(parent, entries);
      assert mountStore.directories == filled;
    }

    function WithoutSetIds(mode: bv32): bv32 {
      mode & !(S_ISUID | S_ISGID)
    }

    /** Clearing the set-id bits does not change the file type. */
    lemma SetIdBitsKeepType(mode: bv32)
      ensures WithoutSetIds(mode) & S_IFMT == mode & S_IFMT
    {
    }

    method Mknod(uid: nat, gid: nat, parent: Inode, name: Name, mode: bv32) returns (reply: Reply)
      requires Valid() && DirectoryIfAny(mountStore.State(), parent)
      modifies mountStore
      ensures (mountStore.State(), reply) == DoMknod(old(mountStore.State()), uid, gid, parent, name, mode)
      ensures var r := Request.Mknod(uid, gid, parent, name, mode);
              old(Allowed(State(), r)) ==> (State(), reply) == Step(old(State()), store.hash, r)
    {
      ghost var m := mountStore.State();
      var fileType := mode & S_IFMT;
      if fileType != S_IFREG && fileType != S_IFLNK && fileType != S_IFDIR { return Failed(ENOSYS); }
      var existing := LookupName(parent, name);
      if existing.Ok? { return Failed(EEXIST); }
      var found := GetInode(parent);
      if found.Err? { return Failed(found.error); }
      SetIdBitsKeepType(mode);
      reply := MakeNode(uid, gid, parent, name, if uid != 0 then WithoutSetIds(mode) else mode, found.value);
    }

    /** The creation of a node past its checks: it is linked before a directory is found not to be implemented. */
    method MakeNode(uid: nat, gid: nat, parent: Inode, name: Name, mode: bv32, parentAttrs: Attrs)
      returns (reply: Reply)
      requires NodesOK(mountStore.State()) && KindsOK(mountStore.State())
      requires Mounts.GetInode(mountStore.State(), parent) == Ok(parentAttrs) && parent in mountStore.directories
      requires mode & S_IFMT == S_IFREG || mode & S_IFMT == S_IFLNK || mode & S_IFMT == S_IFDIR
      modifies mountStore
      ensures var a := NodeFor(old(mountStore.State()), AsFileKind(mode), uid, gid, parent);
              && mountStore.State() == AddNode(old(mountStore.State()), a, parent, name)
              && reply == if AsFileKind(mode).Directory? then Panicked else Created(a)
    {
      var attrs := CreateEntry(uid, gid, parent, name, AsFileKind(mode), parentAttrs);
      if AsFileKind(mode).Directory? { return Panicked; }
      return Created(attrs);
    }

    method MakeSymlink(uid: nat, gid: nat, parent: Inode, linkName: Name, target: Bytes) returns (reply: Reply)
      requires Valid() && Allowed(State(), Request.MakeSymlink(uid, gid, parent, linkName, target))
      modifies mountStore, store
      ensures (State(), reply) ==
              Step(old(State()), store.hash, Request.MakeSymlink(uid, gid, parent, linkName, target))
    {
      var found := GetInode(parent);
      if found.Err? { return Failed(found.error); }
      var parentAttrs := found.value;
      if !MayAccess(parentAttrs, uid, gid, W_OK) { return Failed(EACCES); }
      reply := LinkNewSymlink(uid, gid, parent, linkName, target, parentAttrs);
    }

    /** A symlink request past its access check: the node is allocated before the link can be refused. */
    method LinkNewSymlink(uid: nat, gid: nat, parent: Inode, linkName: Name, target: Bytes, parentAttrs: Attrs)
      returns (reply: Reply)
      requires ShapeOK(mountStore.State()) && Ordinary(linkName) && DirectoryIfAny(mountStore.State(), parent)
      requires Mounts.GetInode(mountStore.State(), parent) == Ok(parentAttrs) && MayAccess(parentAttrs, uid, gid, W_OK)
      modifies mountStore, store
      ensures (mountStore.State(), store.State(), reply) ==
              DoSymlink(old(mountStore.State()), old(store.State()), store.hash, uid, gid, parent, linkName, target)
    {
      ghost var m := mountStore.State();
      NodeIsItself(m, parent);
      mountStore.SetInode(parentAttrs);
      assert mountStore.nodes == m.nodes;
      OrphanIsHarmless(m, parent, linkName);
      var attrs := mountStore.CreateNewNode(Symlink);
      attrs := attrs.(uid := uid);
      attrs := attrs.(gid := CreationGid(parentAttrs, gid));
      attrs := attrs.(size := |target|);
      var error := InsertLink(uid, gid, parent, linkName, attrs.inode, Symlink);
      if error.Some? { return Failed(error.value); }
      attrs := AttachTarget(attrs, target);
      assert mountStore.nodes == m.nodes[attrs.inode := attrs];
      return Created(attrs);
    }

    /** Stores the target of a link and writes the finished attributes back. */
    method AttachTarget(attrs: Attrs, target: Bytes) returns (finished: Attrs)
      modifies mountStore, store
      ensures finished == attrs.(hash := Some(store.hash(ContentPreimage(target))))
      ensures mountStore.State() == SetNode(old(mountStore.State()), finished)
      ensures store.State() == PutSymlink(old(store.State()), store.hash, ContentPreimage(target), target)
    {
      var id := store.ContentId(target);
      store.InsertSymlink(id, target, ContentPreimage(target));
      finished := attrs.(hash := Some(id));
      mountStore.SetInode(finished);
    }

    /** The mount while the link is being made: the new node is there, but nothing names it. */
    lemma OrphanIsHarmless(m: Mount, parent: Inode, name: Name)
      requires ShapeOK(m) && parent in m.nodes && DirectoryIfAny(m, parent) && Ordinary(name)
      ensures var m' := SetNode(m.(next := m.next + 1), NewAttrs(m.next, Symlink, 0));
              && NodesOK(m') && DirectoryIfAny(m', parent)
              && m'.nodes[parent] == m.nodes[parent]
              && Mounts.LookupName(m', parent, name).Ok? == Mounts.LookupName(m, parent, name).Ok?
    {
      NodeIsItself(m, parent);
      OrphanKeepsShape(m, NewAttrs(m.next, Symlink, 0));
      var m' := SetNode(m.(next := m.next + 1), NewAttrs(m.next, Symlink, 0));
      assert m' == SetNode(m, NewAttrs(m.next, Symlink, 0)).(next := m.next + 1);
      LookupFails(m, parent, name);
      LookupFails(m', parent, name);
    }

    // -------------------------------------------------------------- renaming

    /** The request, panics included. */
    method Rename(uid: nat, gid: nat, parent: Inode, name: Name, newParent: Inode, newName: Name) returns (reply: Reply)
      requires Valid() && DirectoryIfAny(mountStore.State(), parent) && DirectoryIfAny(mountStore.State(), newParent)
      modifies mountStore
      ensures (mountStore.State(), reply) ==
              DoRename(old(mountStore.State()), uid, gid, parent, name, newParent, newName)
      ensures var r := Request.Rename(uid, gid, parent, name, newParent, newName);
              old(Allowed(State(), r)) ==> (State(), reply) == Step(old(State()), store.hash, r)
    {
      ghost var m := mountStore.State();
      var found := LookupName(parent, name);
      if found.Err? { return Failed(found.error); }
      var inodeAttrs := found.value;
      NodeIsItself(m, m.dirs[parent][name].inode);
      found := GetInode(parent);
      if found.Err? { return Failed(ENOENT); }
      var parentAttrs := found.value;
      if !MayAccess(parentAttrs, uid, gid, W_OK) { return Failed(EACCES); }
      found := GetInode(newParent);
      if found.Err? { return Failed(found.error); }
      var newParentAttrs := found.value;
      if !MayAccess(newParentAttrs, uid, gid, W_OK) { return Failed(EACCES); }
      // Only an empty directory could be overwritten.
      var target := LookupName(newParent, newName);
      if target.Ok? && target.value.kind.Directory? {
        NodeIsItself(m, m.dirs[newParent][newName].inode);
        var content := mountStore.GetDirectoryContent(target.value.inode);
        if |content.value| > 2 { return Failed(ENOTEMPTY); }
      }
      if inodeAttrs.kind.Directory? && parent != newParent && !MayAccess(inodeAttrs, uid, gid, W_OK) {
        return Failed(EACCES);
      }
      reply := MoveEntry(parent, name, newParent, newName, inodeAttrs, parentAttrs, newParentAttrs);
    }

    /** Takes an entry in the way out of its directory, and a link off its node. To replace a directory is not
        implemented: it panics, with the entry already gone. */
    method DropTarget(newParent: Inode, newName: Name) returns (panicked: bool)
      requires NodesOK(mountStore.State()) && newParent in mountStore.directories
      modifies mountStore
      ensures mountStore.nextInode == old(mountStore.nextInode)
      ensures var target := Mounts.LookupName(old(mountStore.State()), newParent, newName);
              && panicked == (target.Ok? && target.value.kind.Directory?)
              && (if target.Err? then mountStore.directories == old(mountStore.directories)
                  else mountStore.directories ==
                       old(mountStore.directories)[newParent := old(mountStore.directories)[newParent] - {newName}])
              && (if target.Err? || panicked then mountStore.nodes == old(mountStore.nodes)
                  else
                    var t := target.value;
                    mountStore.nodes == old(mountStore.nodes)[t.inode := t.(hardlinks := t.hardlinks - 1)])
    {
      var target := LookupName(newParent, newName);
      if target.Ok? {
        var existingAttrs := target.value;
        var content := mountStore.GetDirectoryContent(newParent);
        var entries := content.value;
        entries := entries - {newName};
        mountStore.SetDirectoryContent(newParent, entries);
        if existingAttrs.kind.Directory? { return true; }
        existingAttrs := existingAttrs.(hardlinks := existingAttrs.hardlinks - 1);
        mountStore.SetInode(existingAttrs);
      }
      return false;
    }

    /** The rename past its checks, with the copies of the attributes fetched by then. */
    method MoveEntry(parent: Inode, name: Name, newParent: Inode, newName: Name,
                     inodeAttrs: Attrs, parentAttrs: Attrs, newParentAttrs: Attrs) returns (reply: Reply)
      requires NodesOK(mountStore.State()) && KindsOK(mountStore.State())
      requires parent in mountStore.directories && newParent in mountStore.directories
      requires Mounts.LookupName(mountStore.State(), parent, name) == Ok(inodeAttrs)
      requires Mounts.GetInode(mountStore.State(), parent) == Ok(parentAttrs)
      requires Mounts.GetInode(mountStore.State(), newParent) == Ok(newParentAttrs)
      requires inodeAttrs.kind.Directory? ==> inodeAttrs.inode in mountStore.directories
      modifies mountStore
      ensures var target := Mounts.LookupName(old(mountStore.State()), newParent, newName);
              if target.Ok? && target.value.kind.Directory? then
                && reply == Panicked
                && mountStore.State() == old(mountStore.State()).(dirs := old(mountStore.directories)[
                                           newParent := old(mountStore.directories)[newParent] - {newName}])
              else
                && reply == Done
                && mountStore.State() ==
                   Renamed(old(mountStore.State()), inodeAttrs, (parent, name), (newParent, newName))
    {
      ghost var m, a := mountStore.State(), inodeAttrs;
      NodeIsItself(m, parent);
      NodeIsItself(m, newParent);
      NodeIsItself(m, m.dirs[parent][name].inode);

      var panicked := DropTarget(newParent, newName);
      if panicked { return Panicked; }
      ghost var dropped := mountStore.nodes;

      var content := mountStore.GetDirectoryContent(parent);
      var entries := content.value;
      entries := entries - {name};
      mountStore.SetDirectoryContent(parent, entries);

      content := mountStore.GetDirectoryContent(newParent);
      entries := content.value;
      entries := entries[newName := Entry(inodeAttrs.inode, inodeAttrs.kind)];
      mountStore.SetDirectoryContent(newParent, entries);
      ghost var moved := mountStore.directories;

      // The copies fetched before go back: the parents' are current, and the moved node's restores its link count
      // when it was itself the target.
      mountStore.SetInode(parentAttrs);
      mountStore.SetInode(newParentAttrs);
      mountStore.SetInode(inodeAttrs);
      NodesWrittenBack(m, a, parent, name, newParent, newName, dropped);

      // The ".." of a moved directory is its new parent.
      if inodeAttrs.kind.Directory? {
        content := mountStore.GetDirectoryContent(inodeAttrs.inode);
        entries := content.value;
        entries := entries[DOTDOT := Entry(newParent, Directory)];
        mountStore.SetDirectoryContent(inodeAttrs.inode, entries);
      }
      DirectoriesRelinked(m, a, parent, name, newParent, newName, moved);
      return Done;
    }

    /** Writing the copies back undoes nothing but the unlinking of a node renamed onto itself. */
    lemma NodesWrittenBack(m: Mount, a: Attrs, parent: Inode, name: Name, newParent: Inode, newName: Name,
                           dropped: map<Inode, Attrs>)
      requires NodesOK(m) && KindsOK(m) && parent in m.dirs && newParent in m.dirs
      requires Mounts.LookupName(m, parent, name) == Ok(a)
      requires var target := Mounts.LookupName(m, newParent, newName);
               && (target.Ok? ==> !target.value.kind.Directory?)
               && dropped == match target
                    case Ok(t) => m.nodes[t.inode := t.(hardlinks := t.hardlinks - 1)]
                    case Err(_) => m.nodes
      ensures dropped[parent := m.nodes[parent]][newParent := m.nodes[newParent]][a.inode := a] ==
              Unlink(m, a, newParent, newName)
    {
      NodeIsItself(m, m.dirs[parent][name].inode);
      if Mounts.LookupName(m, newParent, newName).Ok? {
        NodeIsItself(m, m.dirs[newParent][newName].inode);
      }
      assert dropped[parent := m.nodes[parent]] == dropped;
      assert dropped[newParent := m.nodes[newParent]] == dropped;
    }

    /** Removing the target's entry first makes no difference to the directories. */
    lemma DirectoriesRelinked(m: Mount, a: Attrs, parent: Inode, name: Name, newParent: Inode, newName: Name,
                              moved: map<Inode, Descriptor>)
      requires parent in m.dirs && newParent in m.dirs && (a.kind.Directory? ==> a.inode in m.dirs)
      requires var dirs1 := if Mounts.LookupName(m, newParent, newName).Ok?
                            then m.dirs[newParent := m.dirs[newParent] - {newName}] else m.dirs;
               var dirs2 := dirs1[parent := dirs1[parent] - {name}];
               moved == dirs2[newParent := dirs2[newParent][newName := Entry(a.inode, a.kind)]]
      ensures Relink(m, a, parent, name, newParent, newName) ==
              if a.kind.Directory? then moved[a.inode := moved[a.inode][DOTDOT := Entry(newParent, Directory)]]
              else moved
    {
      var dirs := m.dirs[parent := m.dirs[parent] - {name}];
      var direct := dirs[newParent := dirs[newParent][newName := Entry(a.inode, a.kind)]];
      assert moved[newParent] == direct[newParent];
      assert forall d :: d in m.dirs && d != newParent ==> moved[d] == direct[d];
      assert moved == direct;
    }

    // -------------------------------------------------------------- contents

    method Write(inode: Inode, fh: nat, offset: nat, data: Bytes) returns (reply: Reply)
      requires Valid() && Allowed(State(), Request.Write(inode, fh, offset, data))
      modifies mountStore, store
      ensures (State(), reply) == Step(old(State()), store.hash, Request.Write(inode, fh, offset, data))
    {
      ghost var m, s := mountStore.State(), store.State();
      if !HandleWrites(fh) { return Failed(EACCES); }
      var node := mountStore.GetNode(inode);
      if node.None? { return Failed(EBADF); }
      NodeIsItself(m, inode);
      assert NodeBacked(m.nodes[inode], s);
      var attrs := node.value;
      var content: Bytes := [];
      if attrs.hash.Some? {
        var file := store.GetFile(attrs.hash.value);
        content := file.value;
      }
      if offset + |data| > attrs.size {
        attrs := attrs.(size := offset + |data|);
      }
      content := WriteAt(content, offset, data);
      attrs := AttachContent(attrs, content);
      return Written(|data|);
    }

    /** Stores the new content of a file and writes its attributes back. */
    method AttachContent(attrs: Attrs, content: Bytes) returns (finished: Attrs)
      modifies mountStore, store
      ensures finished == attrs.(hash := Some(store.hash(ContentPreimage(content))))
      ensures mountStore.State() == SetNode(old(mountStore.State()), finished)
      ensures store.State() == PutFile(old(store.State()), store.hash, ContentPreimage(content), content)
    {
      var id := store.ContentId(content);
      store.InsertFile(id, content, ContentPreimage(content));
      finished := attrs.(hash := Some(id));
      mountStore.SetInode(finished);
    }

    method Read(inode: Inode, fh: nat, offset: nat, size: nat) returns (reply: ReadReply)
      ensures reply == DoRead(mountStore.State(), store.State(), inode, fh, offset, size)
    {
      if !HandleReads(fh) { return Refused(EACCES); }
      var node := mountStore.GetNode(inode);
      if node.None? { return Refused(ENOENT); }
      if node.value.hash.None? { return Panics; }
      var file := store.GetFile(node.value.hash.value);
      if file.None? { return Panics; }
      var length := |file.value|;
      var readSize := Min(size, (if length < offset then 0 else length - offset) % TWO_32);
      var buffer := new byte[readSize](_ => 0);
      if offset > readSize { return Panics; }
      assert buffer[..offset] == Zeros(offset);
      ReadExact(file.value, buffer, offset);
      assert buffer[..] == Zeros(offset) + file.value[..readSize - offset];
      return Data(buffer[..]);
    }

    /** `read_exact` from the start of a file into the rest of a buffer. */
    method ReadExact(content: Bytes, buffer: array<byte>, offset: nat)
      requires offset <= buffer.Length && buffer.Length - offset <= |content|
      modifies buffer
      ensures buffer[..] == old(buffer[..offset]) + content[..buffer.Length - offset]
    {
      for k := 0 to buffer.Length - offset
        invariant buffer[..offset] == old(buffer[..offset])
        invariant buffer[offset..offset + k] == content[..k]
      {
        buffer[offset + k] := content[k];
      }
    }

    method Readlink(inode: Inode) returns (reply: ReadReply)
      ensures reply == DoReadlink(mountStore.State(), store.State(), inode)
    {
      var node := mountStore.GetNode(inode);
      if node.None? { return Refused(ENOENT); }
      if node.value.hash.None? { return Panics; }
      var target := store.GetSymlink(node.value.hash.value);
      if target.None? { return Panics; }
      return Data(target.value);
    }

    /** One directory listing request, with as much room in the reply as the client provides. */
    method ListDirectory(inode: Inode, offset: nat, room: nat) returns (reply: Result<seq<Listed>, Errno>)
      ensures reply == if inode in mountStore.directories
                       then Ok(Page(Listing(mountStore.directories[inode]), offset, room)) else Err(ENOENT)
      ensures reply.Ok? ==>
                var d := mountStore.directories[inode];
                IsPage(reply.value, d, NamesInOrder(d.Keys), offset, room)
    {
      var content := mountStore.GetDirectoryContent(inode);
      if content.None? { return Err(ENOENT); }
      var page := ReadDir(content.value, offset, room);
      return Ok(page);
    }

    // -------------------------------------------------------------- handles

    method AllocateNextFileHandle(read: bool, write: bool) returns (fh: nat)
      requires nextFileHandle < TWO_62
      modifies this
      ensures nextFileHandle == old(nextFileHandle) + 1
      ensures fh == HandleFor(old(nextFileHandle), read, write)
    {
      fh := nextFileHandle;
      nextFileHandle := nextFileHandle + 1;
      if read { fh := OrBit(fh, READ_BIT); }
      if write { fh := OrBit(fh, WRITE_BIT); }
    }

    method Open(uid: nat, gid: nat, inode: Inode, flags: bv32) returns (reply: Reply)
      requires Valid() && Allowed(State(), Request.Open(uid, gid, inode, flags))
      modifies this, mountStore
      ensures (State(), reply) == Step(old(State()), store.hash, Request.Open(uid, gid, inode, flags))
    {
      var mask, read, write;
      if flags & O_ACCMODE == O_RDONLY {
        if flags & O_TRUNC != 0 { return Failed(EACCES); }
        mask, read, write := (if flags & FMODE_EXEC != 0 then X_OK else R_OK), true, false;
      } else if flags & O_ACCMODE == O_WRONLY {
        mask, read, write := W_OK, false, true;
      } else if flags & O_ACCMODE == O_RDWR {
        mask, read, write := R_OK | W_OK, true, true;
      } else {
        return Failed(EINVAL);
      }
      reply := OpenWith(uid, gid, inode, mask, read, write);
    }

    method OpenDir(uid: nat, gid: nat, inode: Inode, flags: bv32) returns (reply: Reply)
      requires Valid() && Allowed(State(), Request.OpenDir(uid, gid, inode, flags))
      modifies this, mountStore
      ensures (State(), reply) == Step(old(State()), store.hash, Request.OpenDir(uid, gid, inode, flags))
    {
      var mask, read, write;
      if flags & O_ACCMODE == O_RDONLY {
        if flags & O_TRUNC != 0 { return Failed(EACCES); }
        mask, read, write := R_OK, true, false;
      } else if flags & O_ACCMODE == O_WRONLY {
        mask, read, write := W_OK, false, true;
      } else if flags & O_ACCMODE == O_RDWR {
        mask, read, write := R_OK | W_OK, true, true;
      } else {
        return Failed(EINVAL);
      }
      reply := OpenWith(uid, gid, inode, mask, read, write);
    }

    /** The part that opening files and directories share. */
    method OpenWith(uid: nat, gid: nat, inode: Inode, mask: bv32, read: bool, write: bool) returns (reply: Reply)
      requires NodesOK(mountStore.State()) && nextFileHandle < TWO_62
      modifies this, mountStore
      ensures store.State() == old(store.State())
      ensures var m := old(mountStore.State());
              if inode in m.nodes && MayAccess(m.nodes[inode], uid, gid, mask) then
                && mountStore.State() ==
                   SetNode(m, m.nodes[inode].(openFileHandles := m.nodes[inode].openFileHandles + 1))
                && nextFileHandle == old(nextFileHandle) + 1
                && reply == Opened(HandleFor(old(nextFileHandle), read, write))
              else
                && mountStore.State() == m && nextFileHandle == old(nextFileHandle)
                && reply == Failed(if inode in m.nodes then EACCES else ENOENT)
    {
      var found := GetInode(inode);
      if found.Err? { return Failed(found.error); }
      var attrs := found.value;
      if !MayAccess(attrs, uid, gid, mask) { return Failed(EACCES); }
      NodeIsItself(mountStore.State(), inode);
      attrs := attrs.(openFileHandles := attrs.openFileHandles + 1);
      mountStore.SetInode(attrs);
      var fh := AllocateNextFileHandle(read, write);
      return Opened(fh);
    }

    method Release(inode: Inode) returns (reply: Reply)
      requires Valid()
      modifies mountStore
      ensures (State(), reply) == Step(old(State()), store.hash, Request.Release(inode))
    {
      var found := GetInode(inode);
      if found.Ok? {
        NodeIsItself(mountStore.State(), inode);
        var attrs := found.value;
        if attrs.openFileHandles > 0 { attrs := attrs.(openFileHandles := attrs.openFileHandles - 1); }
        mountStore.SetInode(attrs);
        assert mountStore.nodes == DoRelease(old(mountStore.State()), inode).nodes;
      }
      return Done;
    }

    method ReleaseDir(inode: Inode) returns (reply: Reply)
      requires Valid()
      modifies mountStore
      ensures (State(), reply) == Step(old(State()), store.hash, Request.ReleaseDir(inode))
    {
      reply := Release(inode);
    }

    // -------------------------------------------------------------- the request loop

    /** One turn of the request loop, or of the service on the same store: in a good state, every allowed request is
        served as its step, so that serving requests one after the other is a run. */
    method Serve(r: Request) returns (reply: Reply)
      requires SystemOK(store.hash, State()) && Allowed(State(), r)
      modifies this, mountStore, store
      ensures (State(), reply) == Step(old(State()), store.hash, r)
    {
      ReachableIsValid();
      if IsForStore(r) {
        reply := ServeStore(r);
      } else {
        reply := ServeMount(r);
      }
    }

    predicate IsForStore(r: Request) {
      r.StoreFile? || r.StoreSymlink? || r.StoreTree? || r.ServiceFile? || r.ServiceSymlink? || r.SetRootTree?
    }

    method ServeMount(r: Request) returns (reply: Reply)
      requires Valid() && Allowed(State(), r)
      requires !IsForStore(r)
      modifies this, mountStore, store
      ensures (State(), reply) == Step(old(State()), store.hash, r)
    {
      match r {
        case Mkdir(uid, gid, parent, name) => reply := Mkdir(uid, gid, parent, name);
        case Mknod(uid, gid, parent, name, mode) => reply := Mknod(uid, gid, parent, name, mode);
        case MakeSymlink(uid, gid, parent, name, target) => reply := MakeSymlink(uid, gid, parent, name, target);
        case Rename(uid, gid, parent, name, newParent, newName) =>
          reply := Rename(uid, gid, parent, name, newParent, newName);
        case Write(inode, fh, offset, data) => reply := Write(inode, fh, offset, data);
        case Open(uid, gid, inode, flags) => reply := Open(uid, gid, inode, flags);
        case OpenDir(uid, gid, inode, flags) => reply := OpenDir(uid, gid, inode, flags);
        case Release(inode) => reply := Release(inode);
        case ReleaseDir(inode) => reply := ReleaseDir(inode);
      }
    }

    method ServeStore(r: Request) returns (reply: Reply)
      requires Allowed(State(), r)
      requires IsForStore(r)
      modifies mountStore, store
      ensures (State(), reply) == Step(old(State()), store.hash, r)
    {
      var service := new BackendService(store);
      var id;
      match r {
        case StoreFile(content) => id := store.WriteFile(content);
        case StoreSymlink(target) => id := store.WriteSymlink(target);
        case StoreTree(tree) => id := store.WriteTree(tree);
        case ServiceFile(content) => id := service.WriteFile(content);
        case ServiceSymlink(target) => id := service.WriteSymlink(target);
        case SetRootTree(tree) =>
          mountStore.SetRootTree(store, tree);
          return Done;
      }
      return Wrote(id);
    }
  }
}
