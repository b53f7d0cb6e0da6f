/** The mount store object: the inode tables of one mount and the materialisation of stored trees into them. */
module MountStores {
  import opened Basics
  import opened Trees
  import opened Stores
  import opened Insertability
  import opened Forests
  import opened Mounts
  import opened Materialise

  class MountStore {
    var nodes: map<Inode, Attrs>
    var directories: map<Inode, Descriptor>
    var nextInode: Inode

    ghost function State(): Mount
      reads this
    {
      Mount(nodes, directories, nextInode)
    }

    constructor ()
      ensures State() == EMPTY_MOUNT
    {
      nodes, directories, nextInode := map[], map[], 1;
    }

    method AllocateInode() returns (inode: Inode)
      modifies this
      ensures inode == old(nextInode)
      ensures State() == old(State()).(next := inode + 1)
    {
      inode := nextInode;
      nextInode := nextInode + 1;
    }

    method SetInode(attrs: Attrs)
      modifies this
      ensures State() == SetNode(old(State()), attrs)
    {
      nodes := nodes[attrs.inode := attrs];
    }

    method SetDirectoryContent(inode: Inode, descriptor: Descriptor)
      modifies this
      ensures State() == old(State()).(dirs := old(directories)[inode := descriptor])
    {
      directories := directories[inode := descriptor];
    }

    method GetDirectoryContent(inode: Inode) returns (descriptor: Option<Descriptor>)
      ensures descriptor == if inode in directories then Some(directories[inode]) else None
    {
      descriptor := if inode in directories then Some(directories[inode]) else None;
    }

    method GetNode(inode: Inode) returns (attrs: Option<Attrs>)
      ensures attrs == if inode in nodes then Some(nodes[inode]) else None
    {
      attrs := if inode in nodes then Some(nodes[inode]) else None;
    }

    method CreateNewNode(kind: FileKind) returns (attrs: Attrs)
      modifies this
      ensures attrs == NewAttrs(old(nextInode), kind, 0)
      ensures State() == SetNode(old(State()).(next := old(nextInode) + 1), attrs)
    {
      var inode := AllocateInode();
      attrs := NewAttrs(inode, kind, 0);
      SetInode(attrs);
    }

    method InsertFile(store: Store, id: Id, inode: Inode)
      requires id in store.files
      modifies this
      ensures State() == SetNode(old(State()), FileNode(inode, id, |store.files[id]|))
    {
      var file := store.GetFile(id);
      var attrs := NewAttrs(inode, File, |file.value|);
      attrs := attrs.(hash := Some(id));
      SetInode(attrs);
    }

    method InsertSymlink(store: Store, id: Id, inode: Inode)
      requires id in store.symlinks
      modifies this
      ensures State() == SetNode(old(State()), SymlinkNode(inode, id, |store.symlinks[id]|))
    {
      var target := store.GetSymlink(id);
      var attrs := NewAttrs(inode, Symlink, |target.value|);
      attrs := attrs.(hash := Some(id));
      SetInode(attrs);
    }

    method InsertTree(store: Store, id: Id, inode: Inode)
      requires Insertable(store.State(), id)
      modifies this
      ensures State() == Insert(old(State()), store.State(), id, inode)
      decreases Depth(store.State(), id)
    {
      ghost var s := store.State();
      ghost var dot: Descriptor := map[DOT := Entry(inode, Directory)];
      var tree := store.GetTree(id);
      var attrs := NewAttrs(inode, Directory, 0);
      var entries: Descriptor := map[];
      entries := entries[DOT := Entry(inode, Directory)];
      assert entries == dot;
      for k := 0 to |tree.value|
        invariant store.State() == s
        invariant InsertEntries(State(), s, id, k, entries) == InsertEntries(old(State()), s, id, 0, dot)
      {
        var (name, entry) := tree.value[k];
        EntryReady(s, id, s.trees[id][k]);
        var newInode := AllocateInode();
        match entry {
          case FileEntry(file, _) =>
            InsertFile(store, file, newInode);
            entries := entries[name := Entry(newInode, File)];
          case SubTree(subtree) =>
            InsertTree(store, subtree, newInode);
            entries := entries[name := Entry(newInode, Directory)];
          case SymlinkEntry(symlink) =>
            InsertSymlink(store, symlink, newInode);
            entries := entries[name := Entry(newInode, Symlink)];
        }
      }
      SetInode(attrs);
      SetDirectoryContent(inode, entries);
    }

    method SetRootTree(store: Store, id: Id)
      requires Insertable(store.State(), id)
      modifies this
      ensures State() == SetRoot(old(State()), store.State(), id)
    {
      var _ := AllocateInode();
      InsertTree(store, id, ROOT);
    }
  }
}
