/** The answer to every request, and what it leaves behind, field by field: each case is decided by what is in the mount
    and in the store, and exactly one applies. */
module Outcomes {
  import opened Basics
  import opened Words
  import opened LittleEndian
  import opened Trees
  import opened Streams
  import opened Stores
  import opened Insertability
  import opened Forests
  import opened Mounts
  import opened Materialise
  import opened Requests
  import opened Invariants
  import opened Contents
  import opened Steps
  import opened Views
  import opened Reads
  import opened Runs

  // ---------------------------------------------------------------- creations

  /** Every attribute of a node as it is created. */
  ghost predicate IsNew(a: Attrs, i: Inode, kind: FileKind, uid: nat, gid: nat, hash: Option<Id>, size: nat) {
    && a.inode == i && a.kind == kind
    && a.uid == uid && a.gid == gid && a.mode == 0x1FF
    && a.hash == hash && a.size == size
    && a.openFileHandles == 0 && a.hardlinks == (if kind.Directory? then 2 else 1)
  }

  /** The mount has the node besides what it had, entered in one directory, and its own entries if it is a directory. */
  ghost predicate Entered(m: Mount, m': Mount, a: Attrs, parent: Inode, name: Name) {
    && m'.next == m.next + 1 && m'.nodes == m.nodes[a.inode := a]
    && parent in m.dirs && parent != a.inode
    && m'.dirs.Keys == m.dirs.Keys + (if a.kind.Directory? then {a.inode} else {})
    && (forall d :: d in m.dirs && d != parent && d != a.inode ==> m'.dirs[d] == m.dirs[d])
    && m'.dirs[parent] == m.dirs[parent][name := Entry(a.inode, a.kind)]
    && (a.kind.Directory? ==>
          m'.dirs[a.inode] == map[DOT := Entry(a.inode, Directory), DOTDOT := Entry(parent, Directory)])
  }

  /** No parent has the set-group bit: the group of the caller is the group of the node. */
  lemma GroupIsCallers(m: Mount, parent: Inode, gid: nat)
    requires NodesOK(m) && parent in m.nodes
    ensures CreationGid(m.nodes[parent], gid) == gid
  {
    assert NodeOK(m, parent);
    assert DEFAULT_MODE & S_ISGID == 0;
  }

  lemma NameTaken(m: Mount, parent: Inode, name: Name)
    requires NodesOK(m) && KindsOK(m) && EntriesOK(m) && Ordinary(name) && DirectoryIfAny(m, parent)
    ensures LookupName(m, parent, name).Ok? <==> (parent, name) in Edges(m)
    ensures (parent, name) in Edges(m) ==> parent in m.nodes
    ensures parent in m.nodes ==> parent in m.dirs && m.next != parent
    ensures m.next !in m.nodes && m.next !in m.dirs
  {
    CounterIsFree(m);
    if parent in m.dirs { NamedNode(m, parent, name); }
  }

  lemma MkdirOutcome(m: Mount, uid: nat, gid: nat, parent: Inode, name: Name)
    requires NodesOK(m) && KindsOK(m) && EntriesOK(m) && Ordinary(name) && DirectoryIfAny(m, parent)
    ensures var (m', reply) := DoMkdir(m, uid, gid, parent, name);
            if (parent, name) in Edges(m) then (m', reply) == (m, Failed(EEXIST))
            else if parent !in m.nodes then (m', reply) == (m, Failed(ENOENT))
            else
              && reply.Created? && IsNew(reply.attrs, m.next, Directory, uid, gid, None, 0)
              && Entered(m, m', reply.attrs, parent, name)
  {
    NameTaken(m, parent, name);
    if parent in m.nodes {
      GroupIsCallers(m, parent, gid);
      Granted(m, parent, uid, gid, W_OK);
    }
  }

  lemma MknodOutcome(m: Mount, uid: nat, gid: nat, parent: Inode, name: Name, mode: bv32)
    requires NodesOK(m) && KindsOK(m) && EntriesOK(m) && Ordinary(name) && DirectoryIfAny(m, parent)
    ensures var (m', reply) := DoMknod(m, uid, gid, parent, name, mode);
            var fileType := mode & 0xF000;
            if fileType != 0x8000 && fileType != 0xA000 && fileType != 0x4000 then (m', reply) == (m, Failed(ENOSYS))
            else if (parent, name) in Edges(m) then (m', reply) == (m, Failed(EEXIST))
            else if parent !in m.nodes then (m', reply) == (m, Failed(ENOENT))
            else if fileType == 0x4000 then reply == Panicked
            else
              && reply.Created?
              && IsNew(reply.attrs, m.next, if fileType == 0xA000 then Symlink else File, uid, gid, None, 0)
              && Entered(m, m', reply.attrs, parent, name)
  {
    NameTaken(m, parent, name);
    if parent in m.nodes { GroupIsCallers(m, parent, gid); }
  }

  /** A refused link leaves an unnamed node; a created one has its target stored under the content hash. */
  lemma SymlinkOutcome(m: Mount, s: Stored, hash: Hash, uid: nat, gid: nat, parent: Inode, name: Name, target: Bytes)
    requires NodesOK(m) && KindsOK(m) && EntriesOK(m) && Ordinary(name) && DirectoryIfAny(m, parent)
    ensures var (m', s', reply) := DoSymlink(m, s, hash, uid, gid, parent, name, target);
            var id := hash(LE(|target|, 8) + target);
            if parent !in m.nodes then (m', s', reply) == (m, s, Failed(ENOENT))
            else if (parent, name) in Edges(m) then
              && reply == Failed(EEXIST) && s' == s && m'.dirs == m.dirs && m'.next == m.next + 1
              && m'.nodes.Keys == m.nodes.Keys + {m.next} && m'.nodes == m.nodes[m.next := m'.nodes[m.next]]
              && IsNew(m'.nodes[m.next], m.next, Symlink, 0, 0, None, 0)
            else
              && reply.Created? && IsNew(reply.attrs, m.next, Symlink, uid, gid, Some(id), |target|)
              && Entered(m, m', reply.attrs, parent, name)
              && s'.symlinks == s.symlinks[id := target] && s'.files == s.files && s'.trees == s.trees
  {
    NameTaken(m, parent, name);
    if parent in m.nodes {
      GroupIsCallers(m, parent, gid);
      Granted(m, parent, uid, gid, W_OK);
    }
  }

  /** What a creating request replies are the attributes it was asked for. */
  lemma CreationOutcome(s: System, hash: Hash, r: Request)
    requires NodesOK(s.mount) && KindsOK(s.mount) && EntriesOK(s.mount) && Allowed(s, r) && Step(s, hash, r).1.Created?
    ensures r.Mkdir? || r.Mknod? || r.MakeSymlink?
    ensures var a := Step(s, hash, r).1.attrs;
            && a.uid == r.uid && a.gid == r.gid && a.inode == s.mount.next && a.openFileHandles == 0
            && a.hardlinks == (if r.Mkdir? then 2 else 1)
            && a.size == (if r.MakeSymlink? then |r.target| else 0)
            && a.hash == (if r.MakeSymlink? then Some(hash(LE(|r.target|, 8) + r.target)) else None)
            && Entered(s.mount, Step(s, hash, r).0.mount, a, r.parent, r.name)
  {
    if r.Mkdir? {
      MkdirOutcome(s.mount, r.uid, r.gid, r.parent, r.name);
    } else if r.Mknod? {
      MknodOutcome(s.mount, r.uid, r.gid, r.parent, r.name, r.mode);
    } else if r.MakeSymlink? {
      SymlinkOutcome(s.mount, s.store, hash, r.uid, r.gid, r.parent, r.name, r.target);
    }
  }

  // ---------------------------------------------------------------- renames

  /** What a rename that is carried out leaves behind: the entry is in its new place and not in the old one, a moved
      directory has the new directory as "..", whether or not it had one before, and all other entries stay; a node that
      was replaced has one link less, and all other nodes stay. */
  lemma RenameEffect(m: Mount, uid: nat, gid: nat, parent: Inode, name: Name, newParent: Inode, newName: Name,
                     d: Inode, n: Name, i: Inode)
    requires ShapeOK(m) && Ordinary(name) && Ordinary(newName)
    requires DirectoryIfAny(m, parent) && DirectoryIfAny(m, newParent)
    requires DoRename(m, uid, gid, parent, name, newParent, newName).1.Done?
    ensures var m', g := DoRename(m, uid, gid, parent, name, newParent, newName).0, Edges(m);
            && (parent, name) in g && m'.next == m.next && m'.nodes.Keys == m.nodes.Keys && m'.dirs.Keys == m.dirs.Keys
            && var x := g[(parent, name)];
               && x in m.nodes
               && EntryAt(m'.dirs, d, n) ==
                  (if x in m.dirs && d == x && n == DOTDOT then Some(Entry(newParent, Directory))
                   else if (d, n) == (newParent, newName) then Some(Entry(x, m.nodes[x].kind))
                   else if (d, n) == (parent, name) then None
                   else EntryAt(m.dirs, d, n))
               && (i in m.nodes ==>
                     m'.nodes[i] ==
                     if (newParent, newName) in g && g[(newParent, newName)] == i && i != x then
                       m.nodes[i].(hardlinks := m.nodes[i].hardlinks - 1)
                     else m.nodes[i])
  {
    var a := RenameSucceeds(m, uid, gid, parent, name, newParent, newName);
    RelinkAt(m, a, (parent, name), (newParent, newName), d, n);
    NamedNode(m, parent, name);
    if newParent in m.dirs { NamedNode(m, newParent, newName); }
    var dirs := Relink(m, a, parent, name, newParent, newName);
    forall e ensures e in dirs <==> e in m.dirs {
      RelinkAt(m, a, (parent, name), (newParent, newName), e, n);
    }
  }

  // ---------------------------------------------------------------- opens and releases

  /** An open is refused for truncating a read-only file, for two access modes at once, and for a missing inode, in this
      order; otherwise it gives the next handle with the bits of its access mode. The exec flag changes nothing. */
  lemma OpenOutcome(m: Mount, counter: nat, uid: nat, gid: nat, inode: Inode, flags: bv32, directory: bool)
    requires NodesOK(m) && counter < TWO_62
    ensures var (m', counter', reply) := DoOpen(m, counter, uid, gid, inode, flags, directory);
            var mode, truncates := flags & 3, flags & 0x200 != 0;
            if mode == 0 && truncates then (m', counter', reply) == (m, counter, Failed(EACCES))
            else if mode == 3 then (m', counter', reply) == (m, counter, Failed(EINVAL))
            else if inode !in m.nodes then (m', counter', reply) == (m, counter, Failed(ENOENT))
            else
              && reply.Opened? && counter' == counter + 1
              && reply.fh == counter + (if mode != 1 then TWO_63 else 0) + (if mode != 0 then TWO_62 else 0)
              && var a := m.nodes[inode];
                 m' == m.(nodes := m.nodes[inode := a.(openFileHandles := a.openFileHandles + 1)])
  {
    AccessModes(flags);
    if inode in m.nodes { NodeIsItself(m, inode); }
    var mode := OpenMode(flags, directory);
    if mode.Ok? {
      if inode in m.nodes { Granted(m, inode, uid, gid, mode.value.mask); }
      HandleValue(counter, mode.value.read, mode.value.write);
    }
  }

  lemma AccessModes(flags: bv32)
    ensures flags & 3 == 0 || flags & 3 == 1 || flags & 3 == 2 || flags & 3 == 3
  {
  }

  lemma HandleValue(counter: nat, read: bool, write: bool)
    requires counter < TWO_62
    ensures HandleFor(counter, read, write) == counter + (if read then TWO_63 else 0) + (if write then TWO_62 else 0)
  {
    TopBits(counter, read, write);
    TopBits(counter, read, false);
    TopBits(counter, false, false);
    var bits := Bits(counter, 64);
    assert bits[63 := false][62 := false] == bits;
    assert bits[63 := read][62 := false] == bits[63 := read];
  }

  /** A release is always answered, and takes one from the open count unless it is zero. */
  lemma ReleaseOutcome(s: System, hash: Hash, inode: Inode, r: Request)
    requires NodesOK(s.mount) && (r == Release(inode) || r == ReleaseDir(inode))
    ensures var (s', reply) := Step(s, hash, r);
            && reply == Done && s'.store == s.store && s'.nextHandle == s.nextHandle
            && if inode in s.mount.nodes && s.mount.nodes[inode].openFileHandles > 0 then
                 var a := s.mount.nodes[inode];
                 s'.mount == s.mount.(nodes := s.mount.nodes[inode := a.(openFileHandles := a.openFileHandles - 1)])
               else s'.mount == s.mount
  {
    if inode in s.mount.nodes { NodeIsItself(s.mount, inode); }
  }

  // ---------------------------------------------------------------- contents

  /** The old bytes overlaid with the data, with zeros in between; unchanged for empty data. */
  ghost predicate IsOverlay(after: Bytes, before: Bytes, offset: nat, data: Bytes) {
    && |after| == (if data == [] || offset + |data| < |before| then |before| else offset + |data|)
    && forall k :: 0 <= k < |after| ==>
         after[k] == if offset <= k < offset + |data| then data[k - offset] else if k < |before| then before[k] else 0
  }

  /** A write needs a handle with the write bit and a known inode; then the file refers to the overlay of what it
      referred to, stored under its content hash, and nothing else changes but the size. */
  lemma WriteOutcome(m: Mount, s: Stored, hash: Hash, inode: Inode, fh: nat, offset: nat, data: Bytes)
    returns (content: Bytes)
    requires NodesOK(m)
    ensures var (m', s', reply) := DoWrite(m, s, hash, inode, fh, offset, data);
            if !HandleWrites(fh) then (m', s', reply) == (m, s, Failed(EACCES))
            else if inode !in m.nodes then (m', s', reply) == (m, s, Failed(EBADF))
            else
              var a, id := m.nodes[inode], hash(LE(|content|, 8) + content);
              var before := if a.hash.Some? && a.hash.value in s.files then s.files[a.hash.value] else [];
              && reply == Written(|data|) && IsOverlay(content, before, offset, data)
              && m'.dirs == m.dirs && m'.next == m.next
              && m'.nodes == m.nodes[inode := a.(hash := Some(id), size := Max(a.size, offset + |data|))]
              && s'.files == s.files[id := content] && s'.symlinks == s.symlinks && s'.trees == s.trees
  {
    content := [];
    if inode in m.nodes {
      NodeIsItself(m, inode);
      var before := ContentOf(m.nodes[inode], s.files);
      content := WriteAt(before, offset, data);
      WriteAtIsOverlay(before, offset, data);
    }
  }

  /** A read is refused exactly when the handle lacks the read bit, or else the inode is missing. */
  lemma ReadOutcome(m: Mount, s: Stored, inode: Inode, fh: nat, offset: nat, size: nat)
    ensures var reply := DoRead(m, s, inode, fh, offset, size);
            && (reply == Refused(EACCES) <==> !HandleReads(fh))
            && (reply == Refused(ENOENT) <==> HandleReads(fh) && inode !in m.nodes)
            && (reply.Refused? ==> reply.errno == EACCES || reply.errno == ENOENT)
  {
  }

  /** What a read of a file with a hash replies, at any offset: as many bytes as the file has after the offset, counted
      in 32 bits, and at most the size; of these, zeros up to the offset and then the first bytes of the file. It panics
      when the offset lies beyond that number. */
  lemma ReadFills(m: Mount, s: Stored, inode: Inode, fh: nat, offset: nat, size: nat)
    requires HandleReads(fh) && inode in m.nodes
    requires m.nodes[inode].hash.Some? && m.nodes[inode].hash.value in s.files
    ensures var content, reply := s.files[m.nodes[inode].hash.value], DoRead(m, s, inode, fh, offset, size);
            var left := if offset < |content| then (|content| - offset) % 0x1_0000_0000 else 0;
            var n := if left < size then left else size;
            if offset > n then reply == Panics
            else
              && reply.Data? && |reply.bytes| == n
              && (forall k :: 0 <= k < offset ==> reply.bytes[k] == 0) && reply.bytes[offset..] <= content
  {
  }

  /** Reading a link is refused exactly for a missing inode. */
  lemma ReadlinkOutcome(m: Mount, s: Stored, inode: Inode)
    ensures var reply := DoReadlink(m, s, inode);
            && (reply.Refused? <==> inode !in m.nodes) && (reply.Refused? ==> reply.errno == ENOENT)
            && (reply.Data? <==>
                  inode in m.nodes && m.nodes[inode].hash.Some? && m.nodes[inode].hash.value in s.symlinks)
            && (reply.Data? ==> reply.bytes == s.symlinks[m.nodes[inode].hash.value])
  {
  }

  /** A lookup is refused for a long name, and otherwise finds the node of the entry. */
  lemma LookupOutcome(m: Mount, parent: Inode, name: Name)
    requires NodesOK(m) && KindsOK(m) && EntriesOK(m) && Ordinary(name)
    ensures LookupReply(m, parent, name) ==
            if |name| > 140 then Err(ENAMETOOLONG)
            else if (parent, name) !in Edges(m) then Err(ENOENT)
            else
              assert EntryBacked(m, m.dirs[parent][name]);
              Ok(m.nodes[Edges(m)[(parent, name)]])
  {
    if parent in m.dirs { NamedNode(m, parent, name); }
  }

  // ---------------------------------------------------------------- store writes

  /** Each writer stores its value under the hash of the bytes of its scheme, and changes nothing else. */
  lemma StoreOutcome(s: System, hash: Hash, r: Request)
    requires Allowed(s, r)
    ensures r.StoreFile? || r.StoreSymlink? || r.StoreTree? || r.ServiceFile? || r.ServiceSymlink? ==>
              Step(s, hash, r).0.mount == s.mount && Step(s, hash, r).0.nextHandle == s.nextHandle
    ensures var (s', reply) := Step(s, hash, r);
            var t, t' := s.store, s'.store;
            match r
            case StoreFile(content) =>
              && reply == Wrote(hash(LE(|content|, 8) + content)) && t'.files == t.files[reply.id := content]
              && t'.symlinks == t.symlinks && t'.trees == t.trees
            case StoreSymlink(target) =>
              && reply == Wrote(hash(LE(|target|, 8) + target)) && t'.symlinks == t.symlinks[reply.id := target]
              && t'.files == t.files && t'.trees == t.trees
            case StoreTree(tree) =>
              && reply == Wrote(hash(TreeStream(tree))) && t'.trees == t.trees[reply.id := tree]
              && t'.files == t.files && t'.symlinks == t.symlinks
            case ServiceFile(content) =>
              && reply.Wrote? && (exists p :: IsMessage(p, content) && reply.id == hash(p))
              && t'.files == t.files[reply.id := content]
              && t'.symlinks == t.symlinks && t'.trees == t.trees
            case ServiceSymlink(target) =>
              && reply.Wrote? && (exists p :: IsMessage(p, target) && reply.id == hash(p))
              && t'.symlinks == t.symlinks[reply.id := target]
              && t'.files == t.files && t'.trees == t.trees
            case _ => true
  {
    match r
    case StoreTree(tree) => TreePreimageIsStream(tree);
    case ServiceFile(content) => ProtoPreimageIsMessage(content);
    case ServiceSymlink(target) => ProtoPreimageIsMessage(target);
    case _ =>
  }

  // ---------------------------------------------------------------- re-rooting

  /** Re-rooting burns an inode and then takes one for each entry of the unfolded tree; every inode it makes has the
      attributes of a fresh node of root, and the kind, hash and size of what it was made from. */
  lemma RerootOutcome(m: Mount, s: Stored, id: Id, i: Inode)
    requires Insertable(s, id) && Bounded(m) && ROOT <= m.next
    ensures var m' := SetRoot(m, s, id);
            && m'.next == m.next + 1 + TreeSize(s, id)
            && (i == ROOT || m.next < i < m'.next ==>
                  && i in m'.nodes && IsNew(m'.nodes[i], i, m'.nodes[i].kind, 0, 0, m'.nodes[i].hash, m'.nodes[i].size))
            && (i <= m.next && i != ROOT ==> SameAt(m, m', i))
            && (i in m'.nodes ==> i < m'.next)
  {
    RerootAdvances(m, s, id);
    var m' := SetRoot(m, s, id);
    var src := SetRootMirrors(m, s, id, TreesBelow(s, id));
    if i in src { MadeIsNew(m', s, src, i); }
  }

  lemma RerootAdvances(m: Mount, s: Stored, id: Id)
    requires Insertable(s, id)
    ensures SetRoot(m, s, id).next == m.next + 1 + TreeSize(s, id)
  {
    InsertCounts(m.(next := m.next + 1), s, id, ROOT);
  }

  lemma MadeIsNew(m: Mount, s: Stored, src: Origins, i: Inode)
    requires AllMirror(m, s, src) && i in src
    ensures i in m.nodes && IsNew(m.nodes[i], i, m.nodes[i].kind, 0, 0, m.nodes[i].hash, m.nodes[i].size)
  {
    assert Mirrors(m, s, src, i);
  }

  // ---------------------------------------------------------------- handles of a run

  /** The handle of an open is refused by a read exactly when the open was write-only, and by a write exactly when it
      was read-only, at any later point of any run. */
  lemma HandlesAreChecked(t: Trace, hash: Hash, k: nat, m: Mount, s: Stored, inode: Inode, offset: nat, size: nat,
                          data: Bytes)
    requires IsRun(t, hash) && k < |t.requests| && t.replies[k].Opened?
    ensures t.requests[k].Open? || t.requests[k].OpenDir?
    ensures var fh, mode := t.replies[k].fh, t.requests[k].flags & 3;
            && (DoRead(m, s, inode, fh, offset, size) == Refused(EACCES) <==> mode == 1)
            && (DoWrite(m, s, hash, inode, fh, offset, data).2 == Failed(EACCES) <==> mode == 0)
  {
    RunMoves(t, hash, k);
    HandlesCarryPermissions(t.states[k], hash, t.requests[k]);
    AccessModes(t.requests[k].flags);
    OpenedModes(t.states[k], hash, t.requests[k]);
    ReadOutcome(m, s, inode, t.replies[k].fh, offset, size);
  }

  lemma OpenedModes(s: System, hash: Hash, r: Request)
    requires Allowed(s, r) && Step(s, hash, r).1.Opened?
    ensures r.Open? || r.OpenDir?
    ensures r.flags & 3 != 3
  {
  }
}
