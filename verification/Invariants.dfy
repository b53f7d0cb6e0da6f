/** Every request keeps the shape of the mount. */
module Invariants {
  import opened Basics
  import opened Trees
  import opened Stores
  import opened Insertability
  import opened Forests
  import opened Mounts
  import opened Materialise
  import opened Requests

  // ---------------------------------------------------------------- nodes changed in place

  /** The mounts differ in node attributes only, and there not in what the shape depends on. */
  ghost predicate SameShape(m: Mount, m': Mount) {
    && m'.dirs == m.dirs && m'.next == m.next && m'.nodes.Keys == m.nodes.Keys
    && forall i :: i in m.nodes ==> SameIdentity(m.nodes[i], m'.nodes[i])
  }

  ghost predicate SameIdentity(a: Attrs, b: Attrs) {
    b.inode == a.inode && b.kind == a.kind && b.mode == a.mode && b.hardlinks == a.hardlinks
  }

  lemma SameShapeKeepsShape(m: Mount, m': Mount)
    requires ShapeOK(m) && SameShape(m, m')
    ensures ShapeOK(m')
  {
    assert Edges(m') == Edges(m);
    forall i | i in m'.nodes ensures NodeOK(m', i) {
      assert NodeOK(m, i) && SameIdentity(m.nodes[i], m'.nodes[i]);
    }
    forall i | i in m.nodes ensures m'.nodes[i].kind == m.nodes[i].kind {
      assert SameIdentity(m.nodes[i], m'.nodes[i]);
    }
    forall d, n | d in m'.dirs && n in m'.dirs[d] && Ordinary(n) ensures EntryBacked(m', m'.dirs[d][n]) {
      var e := m.dirs[d][n];
      assert EntryBacked(m, e);
      assert SameIdentity(m.nodes[e.inode], m'.nodes[e.inode]);
    }
    forall s | s in Edges(m') ensures ParentOK(m', s) {
      assert ParentOK(m, s);
    }
  }

  lemma SameShapeKeeps(m: Mount, m': Mount)
    requires MountOK(m) && SameShape(m, m')
    ensures MountOK(m')
  {
    SameShapeKeepsShape(m, m');
    assert Edges(m') == Edges(m);
  }

  // ---------------------------------------------------------------- creating nodes

  /** What a node about to be created looks like. */
  ghost predicate FreshNode(m: Mount, a: Attrs) {
    a.inode == m.next && a.mode == DEFAULT_MODE && a.hardlinks >= 1
  }

  lemma EdgesAreBounded(m: Mount)
    requires NodesOK(m) && KindsOK(m) && EntriesOK(m)
    ensures Before(Edges(m), m.next)
    ensures forall s :: s in Edges(m) ==> s.0 in m.dirs && s.0 in m.nodes && Edges(m)[s] in m.nodes
  {
    forall s | s in Edges(m) ensures s.0 < m.next && Edges(m)[s] < m.next && s.0 in m.nodes && Edges(m)[s] in m.nodes {
      assert EntryBacked(m, m.dirs[s.0][s.1]);
      assert NodeOK(m, s.0) && NodeOK(m, Edges(m)[s]);
    }
  }

  lemma CounterIsFree(m: Mount)
    requires NodesOK(m) && KindsOK(m)
    ensures m.next !in m.nodes && m.next !in m.dirs
  {
    forall i | i in m.nodes ensures i != m.next {
      assert NodeOK(m, i);
    }
  }

  /** A node that nothing names changes nothing about the shape. */
  lemma OrphanKeepsShape(m: Mount, a: Attrs)
    requires ShapeOK(m) && FreshNode(m, a) && !a.kind.Directory? && ROOT < m.next
    ensures ShapeOK(SetNode(m, a).(next := m.next + 1))
  {
    var m' := SetNode(m, a).(next := m.next + 1);
    CounterIsFree(m);
    assert Edges(m') == Edges(m);
    forall i | i in m'.nodes ensures NodeOK(m', i) {
      if i != a.inode { assert NodeOK(m, i); }
    }
    forall d, n | d in m'.dirs && n in m'.dirs[d] && Ordinary(n) ensures EntryBacked(m', m'.dirs[d][n]) {
      assert EntryBacked(m, m.dirs[d][n]);
    }
    forall s | s in Edges(m') ensures ParentOK(m', s) {
      assert ParentOK(m, s);
    }
  }

  lemma OrphanKeeps(m: Mount, a: Attrs)
    requires MountOK(m) && FreshNode(m, a) && !a.kind.Directory? && ROOT < m.next
    ensures MountOK(SetNode(m, a).(next := m.next + 1))
  {
    OrphanKeepsShape(m, a);
    assert Edges(SetNode(m, a).(next := m.next + 1)) == Edges(m);
  }

  /** The mount with the new node linked, and its own descriptor if it is a directory. */
  ghost function Linked(m: Mount, a: Attrs, parent: Inode, name: Name): Mount
    requires parent in m.dirs
  {
    var m' := AddNode(m, a, parent, name);
    if a.kind.Directory? then m'.(dirs := m'.dirs[a.inode := NewDirectory(a.inode, parent)]) else m'
  }

  lemma LinkedEdges(m: Mount, a: Attrs, parent: Inode, name: Name)
    requires parent in m.dirs && a.inode !in m.dirs && Ordinary(name)
    ensures Edges(Linked(m, a, parent, name)) == Edges(m)[(parent, name) := a.inode]
  {
    var m' := Linked(m, a, parent, name);
    var g, g' := Edges(m)[(parent, name) := a.inode], Edges(m');
    forall s ensures s in g <==> s in g' {
    }
    forall s | s in g ensures g[s] == g'[s] {
    }
  }

  lemma CreationKeepsNodes(m: Mount, a: Attrs, parent: Inode, name: Name)
    requires NodesOK(m) && KindsOK(m) && FreshNode(m, a) && parent in m.dirs
    ensures NodesOK(Linked(m, a, parent, name)) && KindsOK(Linked(m, a, parent, name))
    ensures parent < a.inode && a.inode != ROOT
  {
    var m' := Linked(m, a, parent, name);
    CounterIsFree(m);
    assert NodeOK(m, parent);
    forall i | i in m'.nodes ensures NodeOK(m', i) {
      if i != a.inode { assert NodeOK(m, i); }
    }
  }

  lemma CreationKeepsEntries(m: Mount, a: Attrs, parent: Inode, name: Name)
    requires EntriesOK(m) && DotsOK(m) && FreshNode(m, a) && Ordinary(name)
    requires parent in m.dirs && a.inode !in m.nodes && a.inode !in m.dirs
    ensures EntriesOK(Linked(m, a, parent, name)) && DotsOK(Linked(m, a, parent, name))
  {
    var m' := Linked(m, a, parent, name);
    forall d, n | d in m'.dirs && n in m'.dirs[d] && Ordinary(n) ensures EntryBacked(m', m'.dirs[d][n]) {
      if d in m.dirs && (d, n) != (parent, name) {
        assert EntryBacked(m, m.dirs[d][n]);
      }
    }
  }

  lemma CreationKeepsDotDots(m: Mount, a: Attrs, parent: Inode, name: Name)
    requires DotDotsOK(m) && Ordinary(name) && parent in m.dirs
    requires a.inode !in m.dirs && a.inode != ROOT && a.inode != parent
    requires forall s :: s in Edges(m) ==> Edges(m)[s] != a.inode
    ensures DotDotsOK(Linked(m, a, parent, name))
  {
    var m' := Linked(m, a, parent, name);
    LinkedEdges(m, a, parent, name);
    forall s | s in Edges(m') ensures ParentOK(m', s) {
      if s != (parent, name) {
        assert s in Edges(m) && ParentOK(m, s);
        assert Edges(m')[s] != a.inode;
      }
    }
  }

  lemma CreationKeeps(m: Mount, a: Attrs, parent: Inode, name: Name)
    requires MountOK(m) && FreshNode(m, a) && Ordinary(name)
    requires parent in m.dirs && name !in m.dirs[parent]
    ensures MountOK(Linked(m, a, parent, name))
  {
    CounterIsFree(m);
    EdgesAreBounded(m);
    assert forall s :: s in Edges(m) ==> Edges(m)[s] != a.inode && s.0 != a.inode;
    CreationKeepsNodes(m, a, parent, name);
    CreationKeepsEntries(m, a, parent, name);
    CreationKeepsDotDots(m, a, parent, name);
    LinkedEdges(m, a, parent, name);
    LinkKeepsForest(Edges(m), (parent, name), a.inode);
  }

  lemma LookupFails(m: Mount, parent: Inode, name: Name)
    requires EntriesOK(m) && parent in m.dirs && Ordinary(name)
    ensures LookupName(m, parent, name).Ok? <==> name in m.dirs[parent]
  {
    if name in m.dirs[parent] { assert EntryBacked(m, m.dirs[parent][name]); }
  }

  lemma MkdirKeeps(m: Mount, uid: nat, gid: nat, parent: Inode, name: Name)
    requires MountOK(m) && Ordinary(name) && DirectoryIfAny(m, parent)
    ensures MountOK(DoMkdir(m, uid, gid, parent, name).0)
  {
    if DoMkdir(m, uid, gid, parent, name).1.Created? {
      LookupFails(m, parent, name);
      CreationKeeps(m, NodeFor(m, Directory, uid, gid, parent), parent, name);
    }
  }

  /** Creating a node keeps the mount good exactly when it does not panic: making a directory this way panics after a
      directory node without entries was linked. */
  lemma MknodKeeps(m: Mount, uid: nat, gid: nat, parent: Inode, name: Name, mode: bv32)
    requires MountOK(m) && Ordinary(name) && DirectoryIfAny(m, parent)
    ensures DoMknod(m, uid, gid, parent, name, mode).1.Panicked? <==> MknodPanics(m, parent, name, mode)
    ensures MountOK(DoMknod(m, uid, gid, parent, name, mode).0) <==> !MknodPanics(m, parent, name, mode)
  {
    var (m', reply) := DoMknod(m, uid, gid, parent, name, mode);
    if reply.Created? {
      LookupFails(m, parent, name);
      CreationKeeps(m, reply.attrs, parent, name);
    } else if reply.Panicked? {
      CounterIsFree(m);
      assert m.next in m'.nodes && m'.nodes[m.next].kind.Directory? && m.next !in m'.dirs;
    }
  }

  lemma SymlinkKeeps(m: Mount, s: Stored, hash: Hash, uid: nat, gid: nat, parent: Inode, name: Name, target: Bytes)
    requires MountOK(m) && Ordinary(name) && DirectoryIfAny(m, parent)
    ensures MountOK(DoSymlink(m, s, hash, uid, gid, parent, name, target).0)
  {
    var (m', _, reply) := DoSymlink(m, s, hash, uid, gid, parent, name, target);
    if reply.Created? {
      assert m' == Linked(m, reply.attrs, parent, name);
      assert FreshNode(m, reply.attrs);
      LookupFails(m, parent, name);
      CreationKeeps(m, reply.attrs, parent, name);
    } else if m' != m {
      assert NodeOK(m, parent);
      OrphanKeeps(m, NewAttrs(m.next, Symlink, 0));
    }
  }

  // ---------------------------------------------------------------- moving entries

  /** A rename past all its checks: the moved node, and at the target at most a file or symlink. */
  ghost predicate Renaming(m: Mount, a: Attrs, from: Slot, to: Slot) {
    && Ordinary(from.1) && Ordinary(to.1)
    && from.0 in m.dirs && to.0 in m.dirs
    && from in Edges(m) && Edges(m)[from] in m.nodes && a == m.nodes[Edges(m)[from]]
    && (to in Edges(m) && Edges(m)[to] in m.nodes ==> !m.nodes[Edges(m)[to]].kind.Directory?)
  }

  ghost function Renamed(m: Mount, a: Attrs, from: Slot, to: Slot): Mount
    requires from.0 in m.dirs && to.0 in m.dirs && (a.kind.Directory? ==> a.inode in m.dirs)
  {
    Mount(Unlink(m, a, to.0, to.1), Relink(m, a, from.0, from.1, to.0, to.1), m.next)
  }

  lemma RenameOnlyPanicsThere(m: Mount, uid: nat, gid: nat, parent: Inode, name: Name, newParent: Inode, newName: Name)
    requires NodesOK(m) && KindsOK(m) && DirectoryIfAny(m, parent) && DirectoryIfAny(m, newParent)
    ensures DoRename(m, uid, gid, parent, name, newParent, newName).1.Panicked? ==>
              RenamePanics(m, parent, name, newParent, newName)
    ensures DoRename(m, uid, gid, parent, name, newParent, newName).1.Failed? ==>
              DoRename(m, uid, gid, parent, name, newParent, newName).0 == m
  {
    if LookupName(m, parent, name).Ok? { assert NodeOK(m, m.dirs[parent][name].inode); }
    if LookupName(m, newParent, newName).Ok? { assert NodeOK(m, m.dirs[newParent][newName].inode); }
  }

  lemma RenameSucceeds(m: Mount, uid: nat, gid: nat, parent: Inode, name: Name, newParent: Inode, newName: Name)
    returns (a: Attrs)
    requires ShapeOK(m) && Ordinary(name) && Ordinary(newName)
    requires DirectoryIfAny(m, parent) && DirectoryIfAny(m, newParent)
    requires DoRename(m, uid, gid, parent, name, newParent, newName).1.Done?
    ensures Renaming(m, a, (parent, name), (newParent, newName)) && a.inode == Edges(m)[(parent, name)]
    ensures a.kind.Directory? ==> a.inode in m.dirs
    ensures DoRename(m, uid, gid, parent, name, newParent, newName).0 ==
            Renamed(m, a, (parent, name), (newParent, newName))
  {
    a := LookupName(m, parent, name).value;
    assert NodeOK(m, Edges(m)[(parent, name)]);
    assert DoRename(m, uid, gid, parent, name, newParent, newName).1.Done?;
  }

  function EntryAt(dirs: map<Inode, Descriptor>, d: Inode, n: Name): Option<Entry> {
    if d in dirs && n in dirs[d] then Some(dirs[d][n]) else None
  }

  /** The entries after a rename, one by one. */
  lemma RelinkAt(m: Mount, a: Attrs, from: Slot, to: Slot, d: Inode, n: Name)
    requires Ordinary(from.1) && Ordinary(to.1) && from.0 in m.dirs && to.0 in m.dirs
    requires a.kind.Directory? ==> a.inode in m.dirs
    ensures var dirs := Relink(m, a, from.0, from.1, to.0, to.1);
            && (d in dirs <==> d in m.dirs)
            && EntryAt(dirs, d, n) ==
               if a.kind.Directory? && d == a.inode && n == DOTDOT then Some(Entry(to.0, Directory))
               else if (d, n) == to then Some(Entry(a.inode, a.kind))
               else if (d, n) == from then None
               else EntryAt(m.dirs, d, n)
  {
    var dirs1 := m.dirs[from.0 := m.dirs[from.0] - {from.1}];
    assert EntryAt(dirs1, d, n) == if (d, n) == from then None else EntryAt(m.dirs, d, n);
    var dirs2 := dirs1[to.0 := dirs1[to.0][to.1 := Entry(a.inode, a.kind)]];
    assert EntryAt(dirs2, d, n) == if (d, n) == to then Some(Entry(a.inode, a.kind)) else EntryAt(dirs1, d, n);
  }

  lemma EdgeIsEntry(m: Mount, s: Slot)
    ensures s in Edges(m) <==> Ordinary(s.1) && EntryAt(m.dirs, s.0, s.1).Some?
    ensures s in Edges(m) ==> Edges(m)[s] == EntryAt(m.dirs, s.0, s.1).value.inode
  {
  }

  lemma RenamedEdges(m: Mount, a: Attrs, from: Slot, to: Slot)
    requires Renaming(m, a, from, to) && a.inode == Edges(m)[from] && (a.kind.Directory? ==> a.inode in m.dirs)
    ensures Edges(Renamed(m, a, from, to)) == Move(Edges(m), from, to)
  {
    var m' := Renamed(m, a, from, to);
    var g, g' := Move(Edges(m), from, to), Edges(m');
    forall s ensures (s in g <==> s in g') && (s in g ==> g[s] == g'[s]) {
      RelinkAt(m, a, from, to, s.0, s.1);
      EdgeIsEntry(m, s);
      EdgeIsEntry(m', s);
    }
  }

  lemma RenameKeepsNodes(m: Mount, a: Attrs, from: Slot, to: Slot)
    requires NodesOK(m) && KindsOK(m) && EntriesOK(m)
    requires Renaming(m, a, from, to) && a.inode == Edges(m)[from] && (a.kind.Directory? ==> a.inode in m.dirs)
    ensures NodesOK(Renamed(m, a, from, to)) && KindsOK(Renamed(m, a, from, to))
  {
    var m' := Renamed(m, a, from, to);
    if to in Edges(m) { assert EntryBacked(m, m.dirs[to.0][to.1]); }
    if to in Edges(m) { assert NodeOK(m, Edges(m)[to]); }
    forall i | i in m'.nodes ensures NodeOK(m', i) {
      assert NodeOK(m, i);
    }
  }

  lemma RenameKeepsDots(m: Mount, a: Attrs, from: Slot, to: Slot)
    requires DotsOK(m)
    requires Renaming(m, a, from, to) && a.inode == Edges(m)[from] && (a.kind.Directory? ==> a.inode in m.dirs)
    ensures DotsOK(Renamed(m, a, from, to))
  {
    var m' := Renamed(m, a, from, to);
    forall d | d in m'.dirs ensures EntryAt(m'.dirs, d, DOT) == Some(Entry(d, Directory)) {
      RelinkAt(m, a, from, to, d, DOT);
    }
  }

  /** After a rename an entry is the moved one, or an old one that does not name the replaced node. */
  lemma RenameKeepsEntry(m: Mount, a: Attrs, from: Slot, to: Slot, d: Inode, n: Name)
    requires NodesOK(m) && EntriesOK(m) && Unshared(Edges(m))
    requires Renaming(m, a, from, to) && a.inode == Edges(m)[from] && (a.kind.Directory? ==> a.inode in m.dirs)
    requires Ordinary(n) && EntryAt(Renamed(m, a, from, to).dirs, d, n).Some?
    ensures EntryBacked(Renamed(m, a, from, to), EntryAt(Renamed(m, a, from, to).dirs, d, n).value)
  {
    RelinkAt(m, a, from, to, d, n);
    EdgeIsEntry(m, (d, n));
    EdgeIsEntry(m, from);
    EdgeIsEntry(m, to);
    assert EntryBacked(m, m.dirs[from.0][from.1]);
    if to in Edges(m) {
      assert EntryBacked(m, m.dirs[to.0][to.1]);
      assert NodeOK(m, Edges(m)[to]);
    }
    if (d, n) != to {
      assert EntryBacked(m, m.dirs[d][n]);
    }
  }

  lemma RenameKeepsEntries(m: Mount, a: Attrs, from: Slot, to: Slot)
    requires NodesOK(m) && EntriesOK(m) && Unshared(Edges(m))
    requires Renaming(m, a, from, to) && a.inode == Edges(m)[from] && (a.kind.Directory? ==> a.inode in m.dirs)
    ensures EntriesOK(Renamed(m, a, from, to))
  {
    var m' := Renamed(m, a, from, to);
    forall d, n | d in m'.dirs && n in m'.dirs[d] && Ordinary(n) ensures EntryBacked(m', m'.dirs[d][n]) {
      RenameKeepsEntry(m, a, from, to, d, n);
    }
  }

  lemma RenameKeepsDotDots(m: Mount, a: Attrs, from: Slot, to: Slot)
    requires DotDotsOK(m) && Unshared(Edges(m)) && Unnamed(Edges(m), ROOT)
    requires Renaming(m, a, from, to) && a.inode == Edges(m)[from] && (a.kind.Directory? ==> a.inode in m.dirs)
    requires a.inode in m.dirs ==> a.kind.Directory?
    ensures DotDotsOK(Renamed(m, a, from, to))
  {
    var m' := Renamed(m, a, from, to);
    RenamedEdges(m, a, from, to);
    forall d | d in m'.dirs && DOTDOT in m'.dirs[d] ensures m'.dirs[d][DOTDOT].kind.Directory? && d != ROOT {
      RelinkAt(m, a, from, to, d, DOTDOT);
    }
    forall s | s in Edges(m') ensures ParentOK(m', s) {
      RelinkAt(m, a, from, to, Edges(m')[s], DOTDOT);
      if s != to {
        assert ParentOK(m, s);
      }
    }
  }

  lemma RenameKeeps(m: Mount, uid: nat, gid: nat, parent: Inode, name: Name, newParent: Inode, newName: Name)
    requires MountOK(m) && Ordinary(name) && Ordinary(newName)
    requires DirectoryIfAny(m, parent) && DirectoryIfAny(m, newParent)
    requires NotIntoItself(m, parent, name, newParent) && !RenamePanics(m, parent, name, newParent, newName)
    ensures MountOK(DoRename(m, uid, gid, parent, name, newParent, newName).0)
  {
    RenameOnlyPanicsThere(m, uid, gid, parent, name, newParent, newName);
    if DoRename(m, uid, gid, parent, name, newParent, newName).1.Done? {
      var from, to := (parent, name), (newParent, newName);
      var a := RenameSucceeds(m, uid, gid, parent, name, newParent, newName);
      RenameKeepsNodes(m, a, from, to);
      RenameKeepsDots(m, a, from, to);
      RenameKeepsEntries(m, a, from, to);
      RenameKeepsDotDots(m, a, from, to);
      RenamedEdges(m, a, from, to);
      MoveKeepsForest(Edges(m), from, to);
    }
  }

  // ---------------------------------------------------------------- re-rooting

  lemma MountIsBounded(m: Mount)
    requires NodesOK(m) && KindsOK(m)
    ensures Bounded(m)
  {
    forall i | i in m.nodes ensures i < m.next { assert NodeOK(m, i); }
  }

  /** The names "." and ".." do no harm in any tree a directory was made from, nor ".." in the root. */
  ghost predicate HarmlessOrigins(s: Stored, src: Origins) {
    && (ROOT in src && src[ROOT].entry.SubTree? && src[ROOT].entry.id in s.trees ==>
          FindEntry(s.trees[src[ROOT].entry.id], DOTDOT).None?)
    && forall i :: i in src && src[i].entry.SubTree? && src[i].entry.id in s.trees ==>
         HarmlessTree(s, s.trees[src[i].entry.id])
  }

  /** What `SetRootMirrors` says of the mount before and after. */
  ghost predicate Rerooted(m: Mount, m': Mount, s: Stored, src: Origins) {
    && AllMirror(m', s, src) && Bounded(m') && m.next < m'.next
    && ROOT in src && src[ROOT].entry.SubTree?
    && (forall i :: i in src <==> i == ROOT || m.next < i < m'.next)
    && (forall i: Inode :: i <= m.next && i != ROOT ==> SameAt(m, m', i))
  }

  lemma RerootKeepsNodes(m: Mount, m': Mount, s: Stored, src: Origins)
    requires NodesOK(m) && KindsOK(m) && Rerooted(m, m', s, src)
    ensures NodesOK(m') && KindsOK(m')
  {
    forall i | i in m'.nodes ensures NodeOK(m', i) {
      if i in src { assert Mirrors(m', s, src, i); } else { assert SameAt(m, m', i) && NodeOK(m, i); }
    }
    forall i | i in m'.dirs ensures i in m'.nodes && m'.nodes[i].kind.Directory? {
      if i in src { assert Mirrors(m', s, src, i); } else { assert SameAt(m, m', i); }
    }
    forall i | i in m'.nodes && m'.nodes[i].kind.Directory? ensures i in m'.dirs {
      if i in src { assert Mirrors(m', s, src, i); } else { assert SameAt(m, m', i); }
    }
    assert Mirrors(m', s, src, ROOT);
  }

  /** A rebuilt directory has itself as "." exactly when its tree has no such entry, and a ".." exactly when its tree
      has one, which then is a directory exactly when it is one in the tree. */
  lemma RebuiltDots(m': Mount, s: Stored, src: Origins, d: Inode)
    requires AllMirror(m', s, src) && d in src && d in m'.dirs
    ensures src[d].entry.SubTree? && src[d].entry.id in s.trees
    ensures var tree := s.trees[src[d].entry.id];
            && DOT in m'.dirs[d]
            && (m'.dirs[d][DOT] == Entry(d, Directory) <==> FindEntry(tree, DOT).None?)
            && (DOTDOT in m'.dirs[d] <==> FindEntry(tree, DOTDOT).Some?)
            && (DOTDOT in m'.dirs[d] ==>
                  && (m'.dirs[d][DOTDOT].kind.Directory? <==> FindEntry(tree, DOTDOT).value.SubTree?)
                  && d < m'.dirs[d][DOTDOT].inode)
  {
    assert Mirrors(m', s, src, d);
    var tree := s.trees[src[d].entry.id];
    assert MirrorsEntry(m'.dirs[d][DOT], tree, src, d, DOT);
    if DOTDOT in m'.dirs[d] {
      var e := m'.dirs[d][DOTDOT];
      assert MirrorsEntry(e, tree, src, d, DOTDOT);
      assert Mirrors(m', s, src, e.inode);
    }
  }

  /** What an ordinary entry of a rebuilt directory was made from. */
  lemma RebuiltChild(m': Mount, s: Stored, src: Origins, t: Slot)
    requires AllMirror(m', s, src) && t in Edges(m') && t.0 in src
    ensures src[t.0].entry.SubTree? && src[t.0].entry.id in s.trees
    ensures Edges(m')[t] in src && t.0 < Edges(m')[t]
    ensures FindEntry(s.trees[src[t.0].entry.id], t.1) == Some(src[Edges(m')[t]].entry)
  {
    assert Mirrors(m', s, src, t.0);
    assert MirrorsEntry(m'.dirs[t.0][t.1], s.trees[src[t.0].entry.id], src, t.0, t.1);
  }

  lemma RerootKeepsDots(m: Mount, m': Mount, s: Stored, src: Origins)
    requires NodesOK(m) && KindsOK(m) && DotsOK(m) && Rerooted(m, m', s, src) && HarmlessOrigins(s, src)
    ensures DotsOK(m')
  {
    forall d | d in m'.dirs ensures DOT in m'.dirs[d] && m'.dirs[d][DOT] == Entry(d, Directory) {
      if d in src { RebuiltDots(m', s, src, d); } else { assert SameAt(m, m', d); }
    }
  }

  /** An entry of a rebuilt directory names a rebuilt inode after it. */
  lemma RebuiltEntry(m': Mount, s: Stored, src: Origins, d: Inode, n: Name)
    requires AllMirror(m', s, src) && d in src && d in m'.dirs && n in m'.dirs[d] && Ordinary(n)
    ensures var c := m'.dirs[d][n].inode; c in src && src[c].slot == (d, n) && d < c
    ensures EntryBacked(m', m'.dirs[d][n])
  {
    assert Mirrors(m', s, src, d);
    var e := m'.dirs[d][n];
    assert MirrorsEntry(e, s.trees[src[d].entry.id], src, d, n);
    assert Mirrors(m', s, src, e.inode);
  }

  lemma RerootKeepsEntries(m: Mount, m': Mount, s: Stored, src: Origins)
    requires NodesOK(m) && KindsOK(m) && EntriesOK(m) && Unnamed(Edges(m), ROOT) && Rerooted(m, m', s, src)
    ensures EntriesOK(m')
  {
    forall d, n | d in m'.dirs && n in m'.dirs[d] && Ordinary(n) ensures EntryBacked(m', m'.dirs[d][n]) {
      if d in src {
        RebuiltEntry(m', s, src, d, n);
      } else {
        assert SameAt(m, m', d);
        var e := m.dirs[d][n];
        assert EntryBacked(m, e) && NodeOK(m, e.inode);
        assert (d, n) in Edges(m) && e.inode != ROOT;
        assert SameAt(m, m', e.inode);
      }
    }
  }

  ghost function Rebuilt(m': Mount, src: Origins): Graph {
    map s | s in Edges(m') && s.0 in src :: Edges(m')[s]
  }

  lemma RerootEdgeAt(m: Mount, m': Mount, s: Stored, src: Origins, t: Slot)
    requires NodesOK(m) && KindsOK(m) && Rerooted(m, m', s, src)
    ensures t.0 in src ==> t !in Edges(m) || t.0 == ROOT
    ensures t.0 !in src ==>
              && t.0 != ROOT && (t in Edges(m) <==> t in Edges(m'))
              && (t in Edges(m) ==> Edges(m')[t] == Edges(m)[t])
  {
    MountIsBounded(m);
    if t.0 !in src && t.0 <= m.next { assert SameAt(m, m', t.0); }
  }

  lemma RerootEdges(m: Mount, m': Mount, s: Stored, src: Origins)
    requires NodesOK(m) && KindsOK(m) && Rerooted(m, m', s, src)
    ensures Edges(m') == Regrown(Edges(m), Rebuilt(m', src))
  {
    var h := Rebuilt(m', src);
    var g, g' := Regrown(Edges(m), h), Edges(m');
    forall t: Slot ensures (t in g <==> t in g') && (t in g ==> g[t] == g'[t]) {
      RerootEdgeAt(m, m', s, src, t);
      RegrownAt(Edges(m), h, t);
    }
  }

  lemma RegrownAt(g: Graph, h: Graph, t: Slot)
    ensures t in Regrown(g, h) <==> t in h || (t in g && t.0 != ROOT)
    ensures t in Regrown(g, h) ==> Regrown(g, h)[t] == if t in h then h[t] else g[t]
  {
  }

  lemma RebuiltIsFresh(m: Mount, m': Mount, s: Stored, src: Origins)
    requires Rerooted(m, m', s, src)
    ensures FreshGrowth(Rebuilt(m', src), m.next + 1) && Unshared(Rebuilt(m', src))
  {
    var h := Rebuilt(m', src);
    forall t | t in h ensures h[t] in src && src[h[t]].slot == t && t.0 < h[t] && (t.0 == ROOT || m.next < t.0) {
      RebuiltEntry(m', s, src, t.0, t.1);
    }
    forall t, u | t in h && u in h && h[t] == h[u] ensures t == u {
      assert src[h[t]].slot == t;
    }
  }

  lemma RerootKeepsForest(m: Mount, m': Mount, s: Stored, src: Origins)
    requires ShapeOK(m) && Forest(Edges(m)) && Rerooted(m, m', s, src)
    ensures Forest(Edges(m'))
  {
    var h := Rebuilt(m', src);
    RebuiltIsFresh(m, m', s, src);
    assert m.next > 0;
    EdgesAreBounded(m);
    RegrownIsForest(Edges(m), h, m.next + 1);
    RerootEdges(m, m', s, src);
  }

  lemma RerootKeepsDotDots(m: Mount, m': Mount, s: Stored, src: Origins)
    requires NodesOK(m) && KindsOK(m) && EntriesOK(m) && DotDotsOK(m) && Unnamed(Edges(m), ROOT)
    requires Rerooted(m, m', s, src) && HarmlessOrigins(s, src)
    ensures DotDotsOK(m')
  {
    forall d | d in m'.dirs && DOTDOT in m'.dirs[d] ensures m'.dirs[d][DOTDOT].kind.Directory? && d != ROOT {
      if d !in src { assert SameAt(m, m', d); } else { RebuiltDots(m', s, src, d); }
    }
    EdgesAreBounded(m);
    RerootEdges(m, m', s, src);
    forall t | t in Edges(m') ensures ParentOK(m', t) {
      if t.0 in src {
        RebuiltParentOK(m', s, src, t);
      } else {
        assert t in Edges(m) && ParentOK(m, t);
        if Edges(m')[t] in m'.dirs { assert SameAt(m, m', Edges(m')[t]); }
      }
    }
  }

  /** A directory that a rebuilt directory names has no "..". */
  lemma RebuiltParentOK(m': Mount, s: Stored, src: Origins, t: Slot)
    requires AllMirror(m', s, src) && HarmlessOrigins(s, src) && t in Edges(m') && t.0 in src
    ensures ParentOK(m', t)
  {
    RebuiltChild(m', s, src, t);
    if Edges(m')[t] in m'.dirs {
      RebuiltDots(m', s, src, Edges(m')[t]);
      assert LeadsToNoDotDot(s, FindEntry(s.trees[src[t.0].entry.id], t.1));
    }
  }

  lemma SetRootReroots(m: Mount, s: Stored, id: Id, ids: set<Id>) returns (src: Origins)
    requires NodesOK(m) && KindsOK(m) && Insertable(s, id) && id in ids && Referring(s, ids)
    ensures Rerooted(m, SetRoot(m, s, id), s, src) && src[ROOT].entry == SubTree(id)
    ensures MadeFrom(src, ids) && Complete(s, src)
  {
    MountIsBounded(m);
    src := SetRootMirrors(m, s, id, ids);
  }

  /** Whatever the names, re-rooting keeps everything but "." and "..". */
  lemma SetRootKeepsRest(m: Mount, s: Stored, id: Id)
    requires MountOK(m) && Insertable(s, id)
    ensures var m' := SetRoot(m, s, id);
            NodesOK(m') && KindsOK(m') && EntriesOK(m') && Forest(Edges(m'))
  {
    var m' := SetRoot(m, s, id);
    var src := SetRootReroots(m, s, id, TreesBelow(s, id));
    RerootKeepsNodes(m, m', s, src);
    RerootKeepsEntries(m, m', s, src);
    RerootKeepsForest(m, m', s, src);
  }

  lemma HarmlessNamesKeepDots(m: Mount, s: Stored, id: Id)
    requires MountOK(m) && Insertable(s, id) && Rootable(s, id)
    ensures DotsOK(SetRoot(m, s, id)) && DotDotsOK(SetRoot(m, s, id))
  {
    var m' := SetRoot(m, s, id);
    var ids: set<Id> :| id in ids && Referring(s, ids) && AllHarmless(s, ids);
    var src := SetRootReroots(m, s, id, ids);
    RerootKeepsDots(m, m', s, src);
    RerootKeepsDotDots(m, m', s, src);
  }

  /** The trees that directories were made from. */
  ghost function OriginTrees(src: Origins): set<Id> {
    set i | i in src && src[i].entry.SubTree? :: src[i].entry.id
  }

  lemma OriginTreesRefer(m': Mount, s: Stored, src: Origins)
    requires AllMirror(m', s, src) && Complete(s, src)
    ensures Referring(s, OriginTrees(src))
  {
    var ids := OriginTrees(src);
    forall t | t in ids ensures t in s.trees {
      var i :| i in src && src[i].entry == SubTree(t);
      assert Mirrors(m', s, src, i);
    }
    forall t, e | t in ids && e in s.trees[t] && e.1.SubTree? ensures e.1.id in ids {
      var i :| i in src && src[i].entry == SubTree(t);
      assert Covers(src, s.trees[src[i].entry.id]) && HasOrigin(src, e.1);
    }
  }

  lemma GoodDotsAreHarmless(m': Mount, s: Stored, src: Origins, i: Inode)
    requires DotsOK(m') && DotDotsOK(m') && AllMirror(m', s, src) && i in src && src[i].entry.SubTree?
    ensures src[i].entry.id in s.trees && HarmlessTree(s, s.trees[src[i].entry.id])
    ensures i == ROOT ==> FindEntry(s.trees[src[i].entry.id], DOTDOT).None?
  {
    assert Mirrors(m', s, src, i);
    RebuiltDots(m', s, src, i);
    var tree := s.trees[src[i].entry.id];
    forall n | Ordinary(n) ensures LeadsToNoDotDot(s, FindEntry(tree, n)) {
      var found := FindEntry(tree, n);
      if found.Some? && found.value.SubTree? && found.value.id in s.trees {
        assert n in m'.dirs[i] && (i, n) in Edges(m');
        RebuiltChild(m', s, src, (i, n));
        var c := Edges(m')[(i, n)];
        assert Mirrors(m', s, src, c);
        RebuiltDots(m', s, src, c);
        assert ParentOK(m', (i, n));
      }
    }
  }

  lemma OriginTreesAreHarmless(m': Mount, s: Stored, src: Origins)
    requires DotsOK(m') && DotDotsOK(m') && AllMirror(m', s, src) && Complete(s, src)
    ensures Referring(s, OriginTrees(src)) && AllHarmless(s, OriginTrees(src))
  {
    OriginTreesRefer(m', s, src);
    forall t | t in OriginTrees(src) ensures HarmlessTree(s, s.trees[t]) {
      var i :| i in src && src[i].entry == SubTree(t);
      GoodDotsAreHarmless(m', s, src, i);
    }
  }

  lemma GoodOriginsAreRootable(m': Mount, s: Stored, src: Origins, id: Id)
    requires DotsOK(m') && DotDotsOK(m') && AllMirror(m', s, src) && Complete(s, src)
    requires ROOT in src && src[ROOT].entry == SubTree(id)
    ensures Rootable(s, id)
  {
    OriginTreesAreHarmless(m', s, src);
    GoodDotsAreHarmless(m', s, src, ROOT);
    assert id in OriginTrees(src);
  }

  lemma GoodMountsAreRootable(m: Mount, s: Stored, id: Id)
    requires NodesOK(m) && KindsOK(m) && Insertable(s, id)
    requires DotsOK(SetRoot(m, s, id)) && DotDotsOK(SetRoot(m, s, id))
    ensures Rootable(s, id)
  {
    var src := SetRootReroots(m, s, id, TreesBelow(s, id));
    GoodOriginsAreRootable(SetRoot(m, s, id), s, src, id);
  }

  /** Rooting a good mount at an insertable tree gives a good mount exactly when the names "." and ".." do no harm in
      the trees that can be reached from it. */
  lemma SetRootKeeps(m: Mount, s: Stored, id: Id)
    requires MountOK(m) && Insertable(s, id)
    ensures MountOK(SetRoot(m, s, id)) <==> Rootable(s, id)
  {
    SetRootKeepsRest(m, s, id);
    if Rootable(s, id) { HarmlessNamesKeepDots(m, s, id); }
    if MountOK(SetRoot(m, s, id)) { GoodMountsAreRootable(m, s, id); }
  }

  /** In a mount rooted at a tree, a directory has itself as "." exactly when the tree at its path has no such entry,
      and has a ".." exactly when that tree has one. */
  lemma RootedDots(m: Mount, s: Stored, id: Id, path: Path, tree: Id)
    requires NodesOK(m) && KindsOK(m) && Insertable(s, id) && OrdinaryPath(path)
    requires ResolveEntry(s, SubTree(id), path) == Some(SubTree(tree))
    ensures var m' := SetRoot(m, s, id);
            var x := Walk(Edges(m'), ROOT, path);
            && x.Some? && x.value in m'.dirs && DOT in m'.dirs[x.value] && tree in s.trees
            && (m'.dirs[x.value][DOT] == Entry(x.value, Directory) <==> FindEntry(s.trees[tree], DOT).None?)
            && (DOTDOT !in m'.dirs[x.value] <==> FindEntry(s.trees[tree], DOTDOT).None?)
  {
    var m' := SetRoot(m, s, id);
    var src := SetRootReroots(m, s, id, TreesBelow(s, id));
    WalkMirrors(m', s, src, ROOT, path);
    var x := Walk(Edges(m'), ROOT, path).value;
    assert Mirrors(m', s, src, x);
    RebuiltDots(m', s, src, x);
  }

  /** A mount rooted at a tree has, for every path at which a tree occurs in the stored trees, a directory of its own:
      two paths to the same tree lead to directories without a common inode below them. */
  lemma TreeTwiceIsDisjoint(m: Mount, s: Stored, id: Id, p: Path, q: Path, tree: Id, x: Inode)
    requires MountOK(m) && Insertable(s, id) && OrdinaryPath(p) && OrdinaryPath(q) && p != q
    requires ResolveEntry(s, SubTree(id), p) == Some(SubTree(tree)) == ResolveEntry(s, SubTree(id), q)
    ensures var g := Edges(SetRoot(m, s, id));
            var a, b := Walk(g, ROOT, p), Walk(g, ROOT, q);
            a.Some? && b.Some? && !(Below(g, a.value, x) && Below(g, b.value, x))
  {
    var m' := SetRoot(m, s, id);
    var src := SetRootReroots(m, s, id, TreesBelow(s, id));
    SetRootKeepsRest(m, s, id);
    WalkMirrors(m', s, src, ROOT, p);
    WalkMirrors(m', s, src, ROOT, q);
    var a, b := Walk(Edges(m'), ROOT, p).value, Walk(Edges(m'), ROOT, q).value;
    if a == b { PathsAreUnique(Edges(m'), ROOT, p, q); }
    PathsStayInsertable(s, SubTree(id), p);
    SameTreeTwiceIsDisjoint(m', s, src, a, b, x);
  }

  lemma {:induction false} PathsStayInsertable(s: Stored, e: TreeEntry, path: Path)
    requires e.SubTree? ==> Insertable(s, e.id)
    ensures var found := ResolveEntry(s, e, path);
            found.Some? && found.value.SubTree? ==> Insertable(s, found.value.id)
    decreases |path|
  {
    if path != [] && e.SubTree? && e.id in s.trees {
      var found := FindEntry(s.trees[e.id], path[0]);
      if found.Some? {
        FindEntryIsListed(s.trees[e.id], path[0]);
        EntryReady(s, e.id, (path[0], found.value));
        PathsStayInsertable(s, found.value, path[1..]);
      }
    }
  }
}
