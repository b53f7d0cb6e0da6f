/** Turning a stored tree into inodes: what `insert_tree` computes, and how the result mirrors the store. */
module Materialise {
  import opened Basics
  import opened Trees
  import opened Stores
  import opened Insertability
  import opened Forests
  import opened Mounts

  function KindOf(e: TreeEntry): FileKind {
    match e
    case FileEntry(_, _) => File
    case SubTree(_) => Directory
    case SymlinkEntry(_) => Symlink
    case ConflictEntry(_) => File
  }

  function FileNode(inode: Inode, id: Id, size: nat): Attrs {
    NewAttrs(inode, File, size).(hash := Some(id))
  }

  function SymlinkNode(inode: Inode, id: Id, size: nat): Attrs {
    NewAttrs(inode, Symlink, size).(hash := Some(id))
  }

  /** A node, in the place of whatever the inode was before. */
  function SetNode(m: Mount, a: Attrs): Mount {
    m.(nodes := m.nodes[a.inode := a])
  }

  /** The mount after a stored tree has been inserted at an inode. */
  ghost function Insert(m: Mount, s: Stored, id: Id, inode: Inode): Mount
    requires Insertable(s, id)
    decreases Depth(s, id), |s.trees[id]| + 1, 0
  {
    var (m', entries) := InsertEntries(m, s, id, 0, map[DOT := Entry(inode, Directory)]);
    m'.(nodes := m'.nodes[inode := NewAttrs(inode, Directory, 0)], dirs := m'.dirs[inode := entries])
  }

  /** The mount and the descriptor after the entries of a tree from position k on. */
  ghost function InsertEntries(m: Mount, s: Stored, id: Id, k: nat, entries: Descriptor): (Mount, Descriptor)
    requires Insertable(s, id) && k <= |s.trees[id]|
    decreases Depth(s, id), |s.trees[id]| - k, 1
  {
    if k == |s.trees[id]| then (m, entries)
    else
      var (name, e) := s.trees[id][k];
      InsertEntries(InsertOne(m, s, id, k), s, id, k + 1, entries[name := Entry(m.next, KindOf(e))])
  }

  /** The mount after the k-th entry of the tree alone. */
  ghost function InsertOne(m: Mount, s: Stored, id: Id, k: nat): Mount
    requires Insertable(s, id) && k < |s.trees[id]|
    decreases Depth(s, id), |s.trees[id]| - k, 0
  {
    EntryReady(s, id, s.trees[id][k]);
    var c := m.next;
    var m1 := m.(next := c + 1);
    match s.trees[id][k].1
    case FileEntry(f, _) => SetNode(m1, FileNode(c, f, |s.files[f]|))
    case SymlinkEntry(l) => SetNode(m1, SymlinkNode(c, l, |s.symlinks[l]|))
    case SubTree(t) => Insert(m1, s, t, c)
  }

  // ---------------------------------------------------------------- when it ends

  /** The insertion as it is attempted for any id, with the recursion cut off at a depth: None stands for a failed
      lookup, a conflict entry, or a recursion that goes deeper. */
  function TryInsert(m: Mount, s: Stored, id: Id, inode: Inode, fuel: nat): Option<Mount>
    decreases fuel, 0
  {
    if fuel == 0 || id !in s.trees then None
    else
      match TryEntries(m, s, s.trees[id], map[DOT := Entry(inode, Directory)], fuel - 1)
      case None => None
      case Some((m', entries)) =>
        Some(m'.(nodes := m'.nodes[inode := NewAttrs(inode, Directory, 0)], dirs := m'.dirs[inode := entries]))
  }

  function TryEntries(m: Mount, s: Stored, tree: Tree, entries: Descriptor, fuel: nat): Option<(Mount, Descriptor)>
    decreases fuel, |tree| + 1
  {
    if tree == [] then Some((m, entries))
    else
      var (name, e) := tree[0];
      match TryOne(m, s, e, fuel)
      case None => None
      case Some(m') => TryEntries(m', s, tree[1..], entries[name := Entry(m.next, KindOf(e))], fuel)
  }

  function TryOne(m: Mount, s: Stored, e: TreeEntry, fuel: nat): Option<Mount>
    decreases fuel, 1
  {
    var c := m.next;
    var m1 := m.(next := c + 1);
    match e
    case FileEntry(f, _) => if f in s.files then Some(SetNode(m1, FileNode(c, f, |s.files[f]|))) else None
    case SymlinkEntry(l) => if l in s.symlinks then Some(SetNode(m1, SymlinkNode(c, l, |s.symlinks[l]|))) else None
    case SubTree(t) => TryInsert(m1, s, t, c, fuel)
    case ConflictEntry(_) => None
  }

  /** Within a depth, an insertion completes exactly when the recursion over the tree does, and then it computes
      `Insert`. */
  lemma {:induction false} TryInsertCompletes(m: Mount, s: Stored, id: Id, inode: Inode, fuel: nat)
    ensures TryInsert(m, s, id, inode, fuel).Some? <==> Completes(s, id, fuel)
    ensures Completes(s, id, fuel) ==>
              Insertable(s, id) && TryInsert(m, s, id, inode, fuel) == Some(Insert(m, s, id, inode))
    decreases fuel, 0
  {
    InsertableEnds(s, id);
    if fuel > 0 && id in s.trees {
      assert s.trees[id][0..] == s.trees[id];
      TryEntriesComplete(m, s, id, 0, map[DOT := Entry(inode, Directory)], fuel - 1);
    }
  }

  lemma {:induction false} TryEntriesComplete(m: Mount, s: Stored, id: Id, k: nat, entries: Descriptor, fuel: nat)
    requires id in s.trees && k <= |s.trees[id]|
    ensures TryEntries(m, s, s.trees[id][k..], entries, fuel).Some? <==>
            forall e :: e in s.trees[id][k..] ==> EntryCompletes(s, e.1, fuel)
    ensures Insertable(s, id) && TryEntries(m, s, s.trees[id][k..], entries, fuel).Some? ==>
              TryEntries(m, s, s.trees[id][k..], entries, fuel).value == InsertEntries(m, s, id, k, entries)
    decreases fuel, |s.trees[id]| - k + 1
  {
    var rest := s.trees[id][k..];
    if k < |s.trees[id]| {
      var (name, e) := rest[0];
      assert rest[1..] == s.trees[id][k + 1..];
      assert forall x :: x in rest <==> x == rest[0] || x in rest[1..];
      TryOneCompletes(m, s, e, fuel);
      var one := TryOne(m, s, e, fuel);
      if one.Some? {
        TryEntriesComplete(one.value, s, id, k + 1, entries[name := Entry(m.next, KindOf(e))], fuel);
      }
    }
  }

  lemma {:induction false} TryOneCompletes(m: Mount, s: Stored, e: TreeEntry, fuel: nat)
    ensures TryOne(m, s, e, fuel).Some? <==> EntryCompletes(s, e, fuel)
    ensures forall id, k ::
              (TryOne(m, s, e, fuel).Some? && Insertable(s, id) && 0 <= k < |s.trees[id]| && s.trees[id][k].1 == e) ==>
              TryOne(m, s, e, fuel).value == InsertOne(m, s, id, k)
    decreases fuel, 1
  {
    if e.SubTree? { TryInsertCompletes(m.(next := m.next + 1), s, e.id, m.next, fuel); }
  }

  /** An insertion completes, at some depth of the recursion, exactly for the insertable trees: for any other it fails
      or does not end. */
  lemma InsertionCompletes(m: Mount, s: Stored, id: Id, inode: Inode)
    ensures (exists fuel: nat :: TryInsert(m, s, id, inode, fuel).Some?) <==> Insertable(s, id)
    ensures forall fuel: nat :: TryInsert(m, s, id, inode, fuel).Some? ==>
              Insertable(s, id) && TryInsert(m, s, id, inode, fuel).value == Insert(m, s, id, inode)
  {
    InsertableEnds(s, id);
    forall fuel: nat
      ensures TryInsert(m, s, id, inode, fuel).Some? <==> Completes(s, id, fuel)
      ensures TryInsert(m, s, id, inode, fuel).Some? ==>
                Insertable(s, id) && TryInsert(m, s, id, inode, fuel).value == Insert(m, s, id, inode)
    {
      TryInsertCompletes(m, s, id, inode, fuel);
    }
    if Insertable(s, id) {
      var fuel: nat :| Completes(s, id, fuel);
      assert TryInsert(m, s, id, inode, fuel).Some?;
    }
  }

  // ---------------------------------------------------------------- how much is inserted

  /** The number of entries of the unfolded tree. */
  ghost function TreeSize(s: Stored, id: Id): nat
    requires Insertable(s, id)
    decreases Depth(s, id), |s.trees[id]| + 1, 0
  {
    EntriesSize(s, id, 0)
  }

  ghost function EntriesSize(s: Stored, id: Id, k: nat): nat
    requires Insertable(s, id) && k <= |s.trees[id]|
    decreases Depth(s, id), |s.trees[id]| - k, 1
  {
    if k == |s.trees[id]| then 0 else EntrySize(s, id, k) + EntriesSize(s, id, k + 1)
  }

  /** An entry counts itself and the entries below it. */
  ghost function EntrySize(s: Stored, id: Id, k: nat): nat
    requires Insertable(s, id) && k < |s.trees[id]|
    decreases Depth(s, id), |s.trees[id]| - k, 0
  {
    EntryReady(s, id, s.trees[id][k]);
    var e := s.trees[id][k].1;
    1 + if e.SubTree? then TreeSize(s, e.id) else 0
  }

  lemma {:induction false} InsertCounts(m: Mount, s: Stored, id: Id, inode: Inode)
    requires Insertable(s, id)
    ensures Insert(m, s, id, inode).next == m.next + TreeSize(s, id)
    decreases Depth(s, id), |s.trees[id]| + 1, 0
  {
    InsertEntriesCounts(m, s, id, 0, map[DOT := Entry(inode, Directory)]);
  }

  lemma {:induction false} InsertEntriesCounts(m: Mount, s: Stored, id: Id, k: nat, entries: Descriptor)
    requires Insertable(s, id) && k <= |s.trees[id]|
    ensures InsertEntries(m, s, id, k, entries).0.next == m.next + EntriesSize(s, id, k)
    decreases Depth(s, id), |s.trees[id]| - k, 1
  {
    if k < |s.trees[id]| {
      var (name, e) := s.trees[id][k];
      InsertOneCounts(m, s, id, k);
      InsertEntriesCounts(InsertOne(m, s, id, k), s, id, k + 1, entries[name := Entry(m.next, KindOf(e))]);
    }
  }

  lemma {:induction false} InsertOneCounts(m: Mount, s: Stored, id: Id, k: nat)
    requires Insertable(s, id) && k < |s.trees[id]|
    ensures InsertOne(m, s, id, k).next == m.next + EntrySize(s, id, k)
    decreases Depth(s, id), |s.trees[id]| - k, 0
  {
    var e := s.trees[id][k];
    EntryReady(s, id, e);
    if e.1.SubTree? { InsertCounts(m.(next := m.next + 1), s, e.1.id, m.next); }
  }

  // ---------------------------------------------------------------- how the result mirrors the store

  /** Which tree entry an inode was made from, and the slot that names it. */
  datatype Origin = Origin(entry: TreeEntry, slot: Slot)

  type Origins = map<Inode, Origin>

  /** The descriptor of directory i lists the entries of the tree, each under the inode made from it, and besides them
      only ".", unless the tree has an entry of that name. */
  ghost predicate MirrorsDir(entries: Descriptor, tree: Tree, src: Origins, i: Inode) {
    && (forall n :: n in entries <==> n == DOT || FindEntry(tree, n).Some?)
    && (forall n :: n in entries ==> MirrorsEntry(entries[n], tree, src, i, n))
  }

  ghost predicate MirrorsEntry(e: Entry, tree: Tree, src: Origins, i: Inode, n: Name) {
    match FindEntry(tree, n)
    case None => e == Entry(i, Directory)
    case Some(found) =>
      e.inode in src && src[e.inode] == Origin(found, (i, n)) && e.kind == KindOf(found) && i < e.inode
  }

  /** Inode i is what its origin asks for. */
  ghost predicate Mirrors(m: Mount, s: Stored, src: Origins, i: Inode)
    requires i in src
  {
    && i in m.nodes
    && match src[i].entry
       case FileEntry(f, _) => f in s.files && i !in m.dirs && m.nodes[i] == FileNode(i, f, |s.files[f]|)
       case SymlinkEntry(l) => l in s.symlinks && i !in m.dirs && m.nodes[i] == SymlinkNode(i, l, |s.symlinks[l]|)
       case SubTree(t) =>
         && t in s.trees && i in m.dirs && m.nodes[i] == NewAttrs(i, Directory, 0)
         && MirrorsDir(m.dirs[i], s.trees[t], src, i)
       case ConflictEntry(_) => false
  }

  /** Exactly the inodes from lo up to the counter were made, each as its origin asks. */
  ghost predicate Made(m: Mount, s: Stored, src: Origins, lo: Inode) {
    && (forall i :: i in src <==> lo <= i < m.next)
    && (forall i :: i in src ==> Mirrors(m, s, src, i))
  }

  /** The directories made come from trees of the set. */
  ghost predicate MadeFrom(src: Origins, ids: set<Id>) {
    forall i :: i in src && src[i].entry.SubTree? ==> src[i].entry.id in ids
  }

  /** Some inode was made from every tree that the tree refers to. */
  ghost predicate Covers(src: Origins, tree: Tree) {
    forall e :: e in tree && e.1.SubTree? ==> HasOrigin(src, e.1)
  }

  ghost predicate HasOrigin(src: Origins, e: TreeEntry) {
    exists i :: i in src && src[i].entry == e
  }

  /** Nothing that a directory was made from is left out: hidden entries are made too. */
  ghost predicate Complete(s: Stored, src: Origins) {
    forall i :: i in src && src[i].entry.SubTree? && src[i].entry.id in s.trees ==>
      Covers(src, s.trees[src[i].entry.id])
  }

  lemma CoversMore(src: Origins, src': Origins, tree: Tree)
    requires Covers(src, tree) && Extends(src, src')
    ensures Covers(src', tree)
  {
    forall e | e in tree && e.1.SubTree? ensures HasOrigin(src', e.1) {
      assert HasOrigin(src, e.1);
      var i :| i in src && src[i].entry == e.1;
      assert i in src' && src'[i].entry == e.1;
    }
  }

  lemma CoversSnoc(src: Origins, src': Origins, tree: Tree, k: nat, c: Inode)
    requires k < |tree| && Covers(src, tree[..k]) && Extends(src, src') && c in src' && src'[c].entry == tree[k].1
    ensures Covers(src', tree[..k + 1])
  {
    CoversMore(src, src', tree[..k]);
    assert HasOrigin(src', tree[k].1);
    assert tree[..k + 1] == tree[..k] + [tree[k]];
  }

  lemma CompleteLeaf(s: Stored, src: Origins, c: Inode, o: Origin)
    requires Complete(s, src) && c !in src && !o.entry.SubTree?
    ensures Complete(s, src[c := o])
  {
    assert Complete(s, map[]) && Extends(src, src[c := o]);
    assert src[c := o] == src[c := o] + map[];
    CompleteJoin(s, src, map[], c, o, src[c := o]);
  }

  lemma CompleteRoot(s: Stored, made: Origins, o: Origin, src: Origins)
    requires Complete(s, made) && ROOT !in made && src == made[ROOT := o]
    requires o.entry.SubTree? && o.entry.id in s.trees ==> Covers(made, s.trees[o.entry.id])
    ensures Complete(s, src)
  {
    assert Complete(s, map[]) && Extends(map[], src) && Extends(made, src);
    assert src == map[][ROOT := o] + made;
    CompleteJoin(s, map[], made, ROOT, o, src);
  }

  lemma CompleteJoin(s: Stored, src: Origins, below: Origins, c: Inode, o: Origin, src': Origins)
    requires Complete(s, src) && Complete(s, below) && src' == src[c := o] + below
    requires Extends(src, src') && Extends(below, src')
    requires o.entry.SubTree? && o.entry.id in s.trees ==> Covers(below, s.trees[o.entry.id])
    ensures Complete(s, src')
  {
    forall i | i in src' && src'[i].entry.SubTree? && src'[i].entry.id in s.trees
      ensures Covers(src', s.trees[src'[i].entry.id])
    {
      if i in below {
        CoversMore(below, src', s.trees[below[i].entry.id]);
      } else if i == c {
        CoversMore(below, src', s.trees[o.entry.id]);
      } else {
        CoversMore(src, src', s.trees[src[i].entry.id]);
      }
    }
  }

  /** Nothing is known of inodes from the counter on. */
  ghost predicate Bounded(m: Mount) {
    && (forall i :: i in m.nodes ==> i < m.next)
    && (forall i :: i in m.dirs ==> i < m.next)
  }

  /** The mounts agree on an inode: on whether it exists, its attributes and its entries. */
  ghost predicate SameAt(m: Mount, m': Mount, i: Inode) {
    && (i in m'.nodes <==> i in m.nodes) && (i in m.nodes ==> m'.nodes[i] == m.nodes[i])
    && (i in m'.dirs <==> i in m.dirs) && (i in m.dirs ==> m'.dirs[i] == m.dirs[i])
  }

  ghost predicate SameBelow(m: Mount, m': Mount, bound: Inode) {
    forall i: Inode :: i < bound ==> SameAt(m, m', i)
  }

  ghost predicate Extends(src: Origins, src': Origins) {
    forall i :: i in src ==> i in src' && src'[i] == src[i]
  }

  lemma MirrorsDirExtends(entries: Descriptor, tree: Tree, src: Origins, src': Origins, i: Inode)
    requires MirrorsDir(entries, tree, src, i) && Extends(src, src')
    ensures MirrorsDir(entries, tree, src', i)
  {
    forall n | n in entries ensures MirrorsEntry(entries[n], tree, src', i, n) {
      assert MirrorsEntry(entries[n], tree, src, i, n);
    }
  }

  lemma MirrorsExtends(m: Mount, m': Mount, s: Stored, src: Origins, src': Origins, i: Inode)
    requires i in src && Mirrors(m, s, src, i) && Extends(src, src') && SameAt(m, m', i)
    ensures i in src' && Mirrors(m', s, src', i)
  {
    if src[i].entry.SubTree? {
      MirrorsDirExtends(m.dirs[i], s.trees[src[i].entry.id], src, src', i);
    }
  }

  lemma MirrorsDirSnoc(entries: Descriptor, tree: Tree, src: Origins, i: Inode, name: Name, e: TreeEntry, c: Inode)
    requires MirrorsDir(entries, tree, src, i)
    requires c in src && src[c] == Origin(e, (i, name)) && i < c
    ensures MirrorsDir(entries[name := Entry(c, KindOf(e))], tree + [(name, e)], src, i)
  {
    var tree', entries' := tree + [(name, e)], entries[name := Entry(c, KindOf(e))];
    assert tree'[..|tree'| - 1] == tree;
    forall n ensures FindEntry(tree', n) == if n == name then Some(e) else FindEntry(tree, n) {
    }
    forall n | n in entries' ensures MirrorsEntry(entries'[n], tree', src, i, n) {
      if n != name { assert MirrorsEntry(entries[n], tree, src, i, n); }
    }
  }

  /** Inserting a tree makes exactly the inodes from the counter on, as the tree asks, fills the given inode, and
      leaves everything else alone. */
  lemma {:induction false} InsertMirrors(m: Mount, s: Stored, id: Id, inode: Inode, ids: set<Id>) returns (src: Origins)
    requires Insertable(s, id) && id in ids && Referring(s, ids) && Bounded(m) && inode < m.next
    ensures MadeFrom(src, ids) && Complete(s, src) && Covers(src, s.trees[id])
    ensures var m' := Insert(m, s, id, inode);
            && Bounded(m') && m.next <= m'.next
            && Made(m', s, src, m.next)
            && inode in m'.nodes && m'.nodes[inode] == NewAttrs(inode, Directory, 0)
            && inode in m'.dirs && MirrorsDir(m'.dirs[inode], s.trees[id], src, inode)
            && (forall i: Inode :: i < m.next && i != inode ==> SameAt(m, m', i))
    decreases Depth(s, id), |s.trees[id]| + 1
  {
    var dot: Descriptor := map[DOT := Entry(inode, Directory)];
    assert s.trees[id][..0] == [];
    src := InsertEntriesMirrors(m, s, id, 0, inode, dot, m.next, map[], ids);
    var (m1, entries) := InsertEntries(m, s, id, 0, dot);
    FillDirectory(m, m1, Insert(m, s, id, inode), s, inode, entries, src);
  }

  /** The directory itself is entered after everything below it. */
  lemma FillDirectory(m: Mount, m1: Mount, m': Mount, s: Stored, inode: Inode, entries: Descriptor, src: Origins)
    requires inode < m.next && Bounded(m1) && m.next <= m1.next
    requires Made(m1, s, src, m.next) && SameBelow(m, m1, m.next)
    requires m' == m1.(nodes := m1.nodes[inode := NewAttrs(inode, Directory, 0)], dirs := m1.dirs[inode := entries])
    ensures Bounded(m') && Made(m', s, src, m.next)
    ensures forall i: Inode :: i < m.next && i != inode ==> SameAt(m, m', i)
  {
    forall i | i in src ensures Mirrors(m', s, src, i) {
      assert SameAt(m1, m', i);
      MirrorsExtends(m1, m', s, src, src, i);
    }
    forall i: Inode | i < m.next && i != inode ensures SameAt(m, m', i) {
      assert SameAt(m, m1, i);
    }
  }

  lemma {:induction false} InsertEntriesMirrors(m: Mount, s: Stored, id: Id, k: nat, inode: Inode, entries: Descriptor,
                                                lo: Inode, src: Origins, ids: set<Id>)
    returns (src': Origins)
    requires Insertable(s, id) && k <= |s.trees[id]|
    requires id in ids && Referring(s, ids) && MadeFrom(src, ids)
    requires Complete(s, src) && Covers(src, s.trees[id][..k])
    ensures MadeFrom(src', ids) && Complete(s, src') && Covers(src', s.trees[id])
    requires Bounded(m) && inode < lo <= m.next && Made(m, s, src, lo)
    requires MirrorsDir(entries, s.trees[id][..k], src, inode)
    ensures var (m', entries') := InsertEntries(m, s, id, k, entries);
            && Bounded(m') && m.next <= m'.next
            && Made(m', s, src', lo)
            && MirrorsDir(entries', s.trees[id], src', inode)
            && SameBelow(m, m', m.next)
    decreases Depth(s, id), |s.trees[id]| - k
  {
    var tree := s.trees[id];
    if k == |tree| {
      assert tree[..k] == tree;
      src' := src;
    } else {
      var (name, e) := tree[k];
      var c := m.next;
      var src1, m2 := InsertOneMirrors(m, s, id, k, inode, lo, src, ids);
      EntryJoins(entries, tree, k, src, src1, inode, c);
      src' := InsertEntriesMirrors(m2, s, id, k + 1, inode, entries[name := Entry(c, KindOf(e))], lo, src1, ids);
      SameBelowTransitive(m, m2, InsertEntries(m2, s, id, k + 1, entries[name := Entry(c, KindOf(e))]).0, c, m2.next);
    }
  }

  /** One more entry, under the inode made from it. */
  lemma EntryJoins(entries: Descriptor, tree: Tree, k: nat, src: Origins, src': Origins, i: Inode, c: Inode)
    requires k < |tree| && MirrorsDir(entries, tree[..k], src, i) && Covers(src, tree[..k]) && Extends(src, src')
    requires c in src' && src'[c] == Origin(tree[k].1, (i, tree[k].0)) && i < c
    ensures MirrorsDir(entries[tree[k].0 := Entry(c, KindOf(tree[k].1))], tree[..k + 1], src', i)
    ensures Covers(src', tree[..k + 1])
  {
    MirrorsDirExtends(entries, tree[..k], src, src', i);
    MirrorsDirSnoc(entries, tree[..k], src', i, tree[k].0, tree[k].1, c);
    assert tree[..k + 1] == tree[..k] + [tree[k]];
    CoversSnoc(src, src', tree, k, c);
  }

  lemma SameBelowTransitive(m: Mount, m': Mount, m'': Mount, bound: Inode, further: Inode)
    requires SameBelow(m, m', bound) && SameBelow(m', m'', further) && bound <= further
    ensures SameBelow(m, m'', bound)
  {
    forall i: Inode | i < bound ensures SameAt(m, m'', i) {
      assert SameAt(m, m', i) && SameAt(m', m'', i);
    }
  }

  /** From one mount to the next, what was made so far was joined by an inode of the given origin, and what is below
      it. */
  ghost predicate Joined(m: Mount, m': Mount, s: Stored, lo: Inode, src: Origins, src': Origins, ids: set<Id>,
                         o: Origin)
  {
    && Bounded(m') && m.next < m'.next && SameBelow(m, m', m.next)
    && Made(m', s, src', lo) && MadeFrom(src', ids) && Complete(s, src') && Extends(src, src')
    && m.next in src' && src'[m.next] == o
  }

  lemma SubtreeEntry(m: Mount, s: Stored, id: Id, k: nat)
    requires Insertable(s, id) && k < |s.trees[id]| && s.trees[id][k].1.SubTree?
    ensures var t := s.trees[id][k].1.id;
            && Insertable(s, t) && Depth(s, t) < Depth(s, id)
            && InsertOne(m, s, id, k) == Insert(m.(next := m.next + 1), s, t, m.next)
  {
    EntryReady(s, id, s.trees[id][k]);
  }

  lemma {:induction false} InsertOneMirrors(m: Mount, s: Stored, id: Id, k: nat, inode: Inode, lo: Inode, src: Origins,
                                            ids: set<Id>)
    returns (src': Origins, m': Mount)
    requires Insertable(s, id) && k < |s.trees[id]|
    requires id in ids && Referring(s, ids) && MadeFrom(src, ids) && Complete(s, src)
    requires Bounded(m) && inode < lo <= m.next && Made(m, s, src, lo)
    ensures m' == InsertOne(m, s, id, k)
    ensures Joined(m, m', s, lo, src, src', ids, Origin(s.trees[id][k].1, (inode, s.trees[id][k].0)))
    decreases Depth(s, id), |s.trees[id]| - k, 0
  {
    var (name, e) := s.trees[id][k];
    m' := InsertOne(m, s, id, k);
    if e.SubTree? {
      SubtreeEntry(m, s, id, k);
      src' := InsertSubtreeMirrors(m, s, e.id, lo, src, ids, (inode, name));
    } else {
      src' := InsertLeafMirrors(m, s, id, k, inode, lo, src, ids);
    }
  }

  lemma {:induction false} InsertSubtreeMirrors(m: Mount, s: Stored, id: Id, lo: Inode, src: Origins, ids: set<Id>,
                                                slot: Slot)
    returns (src': Origins)
    requires Insertable(s, id) && id in ids && Referring(s, ids) && MadeFrom(src, ids) && Complete(s, src)
    requires Bounded(m) && lo <= m.next && Made(m, s, src, lo)
    ensures Joined(m, Insert(m.(next := m.next + 1), s, id, m.next), s, lo, src, src', ids, Origin(SubTree(id), slot))
    decreases Depth(s, id), |s.trees[id]| + 2, 0
  {
    var below := InsertMirrors(m.(next := m.next + 1), s, id, m.next, ids);
    src' := JoinInserted(m, s, lo, src, below, Origin(SubTree(id), slot), ids);
  }

  lemma InsertLeafMirrors(m: Mount, s: Stored, id: Id, k: nat, inode: Inode, lo: Inode, src: Origins, ids: set<Id>)
    returns (src': Origins)
    requires Insertable(s, id) && k < |s.trees[id]| && !s.trees[id][k].1.SubTree?
    requires MadeFrom(src, ids) && Complete(s, src) && Bounded(m) && lo <= m.next && Made(m, s, src, lo)
    ensures Joined(m, InsertOne(m, s, id, k), s, lo, src, src', ids,
                   Origin(s.trees[id][k].1, (inode, s.trees[id][k].0)))
  {
    var (name, e) := s.trees[id][k];
    EntryReady(s, id, (name, e));
    src' := JoinLeaf(m, InsertOne(m, s, id, k), s, lo, src, m.next, Origin(e, (inode, name)));
    CompleteLeaf(s, src, m.next, Origin(e, (inode, name)));
  }

  /** A subtree inserted at the next inode joins what was made so far. */
  lemma JoinInserted(m: Mount, s: Stored, lo: Inode, src: Origins, below: Origins, o: Origin, ids: set<Id>)
    returns (src': Origins)
    requires o.entry.SubTree? && Insertable(s, o.entry.id)
    requires lo <= m.next && Made(m, s, src, lo) && MadeFrom(src, ids) && MadeFrom(below, ids) && o.entry.id in ids
    requires Complete(s, src) && Complete(s, below) && Covers(below, s.trees[o.entry.id])
    requires var c := m.next;
             var m1 := m.(next := c + 1);
             var m' := Insert(m1, s, o.entry.id, c);
             && Made(m', s, below, c + 1) && c < m'.next
             && c in m'.nodes && m'.nodes[c] == NewAttrs(c, Directory, 0)
             && c in m'.dirs && MirrorsDir(m'.dirs[c], s.trees[o.entry.id], below, c)
             && forall i: Inode :: i < c ==> SameAt(m1, m', i)
    ensures var m' := Insert(m.(next := m.next + 1), s, o.entry.id, m.next);
            && Made(m', s, src', lo) && MadeFrom(src', ids) && Complete(s, src') && Extends(src, src')
            && m.next in src' && src'[m.next] == o
            && SameBelow(m, m', m.next)
  {
    var c := m.next;
    var m1 := m.(next := c + 1);
    var m' := Insert(m1, s, o.entry.id, c);
    forall i: Inode | i < c ensures SameAt(m, m', i) {
      assert SameAt(m1, m', i);
    }
    src' := JoinSubtree(m, m', s, lo, src, below, c, o);
    CompleteJoin(s, src, below, c, o, src');
  }

  /** A new file or symlink joins what was made so far. */
  lemma JoinLeaf(m: Mount, m': Mount, s: Stored, lo: Inode, src: Origins, c: Inode, o: Origin) returns (src': Origins)
    requires Bounded(m) && lo <= m.next == c && Made(m, s, src, lo)
    requires m'.next == c + 1 && m'.dirs == m.dirs && !o.entry.SubTree? && Present(s, o.entry)
    requires match o.entry
             case FileEntry(f, _) => f in s.files && m'.nodes == m.nodes[c := FileNode(c, f, |s.files[f]|)]
             case SymlinkEntry(l) => l in s.symlinks && m'.nodes == m.nodes[c := SymlinkNode(c, l, |s.symlinks[l]|)]
             case _ => false
    ensures Bounded(m') && Made(m', s, src', lo) && src' == src[c := o] && Extends(src, src')
    ensures SameBelow(m, m', c)
  {
    src' := src[c := o];
    forall i | i in src' ensures Mirrors(m', s, src', i) {
      if i != c { MirrorsExtends(m, m', s, src, src', i); }
    }
  }

  /** A new directory and what was made below it join what was made so far. */
  lemma JoinSubtree(m: Mount, m': Mount, s: Stored, lo: Inode, src: Origins, below: Origins, c: Inode, o: Origin)
    returns (src': Origins)
    requires lo <= m.next == c && Made(m, s, src, lo) && Made(m', s, below, c + 1) && c < m'.next
    requires o.entry.SubTree? && o.entry.id in s.trees
    requires c in m'.nodes && m'.nodes[c] == NewAttrs(c, Directory, 0)
    requires c in m'.dirs && MirrorsDir(m'.dirs[c], s.trees[o.entry.id], below, c)
    requires SameBelow(m, m', c)
    ensures Made(m', s, src', lo) && Extends(src, src') && Extends(below, src')
    ensures c in src' && src' == src[c := o] + below && src'[c] == o
  {
    src' := src[c := o] + below;
    assert Extends(below, src') && Extends(src, src');
    MirrorsDirExtends(m'.dirs[c], s.trees[o.entry.id], below, src', c);
    forall i | i in src' ensures Mirrors(m', s, src', i) {
      if i in below {
        MirrorsExtends(m', m', s, below, src', i);
      } else if i in src {
        MirrorsExtends(m, m', s, src, src', i);
      }
    }
  }

  // ---------------------------------------------------------------- what a lookup sees

  /** Resolving a path in the stored trees. */
  ghost function ResolveEntry(s: Stored, e: TreeEntry, path: Path): Option<TreeEntry>
    decreases |path|
  {
    if path == [] then Some(e)
    else if e.SubTree? && e.id in s.trees then
      match FindEntry(s.trees[e.id], path[0])
      case None => None
      case Some(e') => ResolveEntry(s, e', path[1..])
    else None
  }

  /** The attributes say what the stored entry says: kind, hash and byte size. (The executable bit is dropped.) */
  ghost predicate Describes(a: Attrs, s: Stored, e: TreeEntry) {
    match e
    case FileEntry(f, _) => a.kind.File? && a.hash == Some(f) && f in s.files && a.size == |s.files[f]|
    case SymlinkEntry(l) => a.kind.Symlink? && a.hash == Some(l) && l in s.symlinks && a.size == |s.symlinks[l]|
    case SubTree(t) => a.kind.Directory? && a.hash == None && a.size == 0 && t in s.trees
    case ConflictEntry(_) => false
  }

  ghost predicate AllMirror(m: Mount, s: Stored, src: Origins) {
    forall i :: i in src ==> Mirrors(m, s, src, i)
  }

  lemma {:induction false} ResolveMirrors(m: Mount, s: Stored, src: Origins, i: Inode, path: Path)
    requires AllMirror(m, s, src) && i in src && DOT !in path
    ensures Resolve(m, i, path).Some? <==> ResolveEntry(s, src[i].entry, path).Some?
    ensures Resolve(m, i, path).Some? ==>
              Describes(Resolve(m, i, path).value, s, ResolveEntry(s, src[i].entry, path).value)
    decreases |path|
  {
    assert Mirrors(m, s, src, i);
    if path != [] && i in m.dirs {
      var n := path[0];
      assert n in path;
      var tree := s.trees[src[i].entry.id];
      if n in m.dirs[i] {
        var c := m.dirs[i][n].inode;
        assert MirrorsEntry(m.dirs[i][n], tree, src, i, n);
        assert Mirrors(m, s, src, c);
        assert LookupName(m, i, n) == Ok(m.nodes[c]);
        assert DOT !in path[1..];
        ResolveMirrors(m, s, src, c, path[1..]);
      }
    }
  }

  /** A walk from a made inode arrives at the inode made from the entry the path resolves to. */
  lemma {:induction false} WalkMirrors(m: Mount, s: Stored, src: Origins, i: Inode, path: Path)
    requires AllMirror(m, s, src) && i in src && OrdinaryPath(path)
    ensures var x := Walk(Edges(m), i, path);
            && (x.Some? <==> ResolveEntry(s, src[i].entry, path).Some?)
            && (x.Some? ==> x.value in src && ResolveEntry(s, src[i].entry, path) == Some(src[x.value].entry))
    decreases |path|
  {
    assert Mirrors(m, s, src, i);
    if path != [] {
      var n := path[0];
      assert n in path && OrdinaryPath(path[1..]);
      assert (i, n) in Edges(m) <==> i in m.dirs && n in m.dirs[i];
      if i in m.dirs && n in m.dirs[i] {
        assert MirrorsEntry(m.dirs[i][n], s.trees[src[i].entry.id], src, i, n);
        WalkMirrors(m, s, src, m.dirs[i][n].inode, path[1..]);
      }
    }
  }

  /** Re-rooting a mount: an inode is burnt, then the tree is inserted at the root. */
  ghost function SetRoot(m: Mount, s: Stored, id: Id): Mount
    requires Insertable(s, id)
  {
    Insert(m.(next := m.next + 1), s, id, ROOT)
  }

  lemma SetRootMirrors(m: Mount, s: Stored, id: Id, ids: set<Id>) returns (src: Origins)
    requires Insertable(s, id) && id in ids && Referring(s, ids) && Bounded(m) && ROOT <= m.next
    ensures MadeFrom(src, ids) && Complete(s, src)
    ensures var m' := SetRoot(m, s, id);
            && AllMirror(m', s, src) && Bounded(m') && m.next < m'.next
            && ROOT in src && src[ROOT].entry == SubTree(id)
            && (forall i :: i in src <==> i == ROOT || m.next < i < m'.next)
            && (forall i: Inode :: i <= m.next && i != ROOT ==> SameAt(m, m', i))
  {
    var m1 := m.(next := m.next + 1);
    var made := InsertMirrors(m1, s, id, ROOT, ids);
    src := JoinRoot(m, m1, SetRoot(m, s, id), s, id, made, ids);
  }

  /** The root joins what was made below it. */
  lemma JoinRoot(m: Mount, m1: Mount, m': Mount, s: Stored, id: Id, made: Origins, ids: set<Id>) returns (src: Origins)
    requires m1 == m.(next := m.next + 1)
    requires ROOT <= m.next && Made(m', s, made, m.next + 1) && id in s.trees && id in ids && m.next < m'.next
    requires MadeFrom(made, ids) && Complete(s, made) && Covers(made, s.trees[id])
    requires ROOT in m'.nodes && m'.nodes[ROOT] == NewAttrs(ROOT, Directory, 0)
    requires ROOT in m'.dirs && MirrorsDir(m'.dirs[ROOT], s.trees[id], made, ROOT)
    requires forall i: Inode :: i <= m.next && i != ROOT ==> SameAt(m1, m', i)
    ensures AllMirror(m', s, src) && MadeFrom(src, ids) && Complete(s, src)
    ensures ROOT in src && src[ROOT].entry == SubTree(id)
    ensures forall i :: i in src <==> i == ROOT || m.next < i < m'.next
    ensures forall i: Inode :: i <= m.next && i != ROOT ==> SameAt(m, m', i)
  {
    src := made[ROOT := Origin(SubTree(id), (ROOT, DOT))];
    assert Extends(made, src);
    CompleteRoot(s, made, Origin(SubTree(id), (ROOT, DOT)), src);
    MirrorsDirExtends(m'.dirs[ROOT], s.trees[id], made, src, ROOT);
    forall i | i in src ensures Mirrors(m', s, src, i) {
      if i != ROOT { MirrorsExtends(m', m', s, made, src, i); }
    }
    forall i: Inode | i <= m.next && i != ROOT ensures SameAt(m, m', i) {
      assert SameAt(m1, m', i);
    }
  }

  /** After a mount is rooted at a tree, a path without "." resolves from the root exactly when it resolves in the
      stored trees, to attributes that describe the stored entry. The names in the trees may be any. */
  lemma RootedMountAgreesWithStore(m: Mount, s: Stored, id: Id, path: Path)
    requires Insertable(s, id) && Bounded(m) && ROOT <= m.next && DOT !in path
    ensures var found, stored := Resolve(SetRoot(m, s, id), ROOT, path), ResolveEntry(s, SubTree(id), path);
            && (found.Some? <==> stored.Some?)
            && (found.Some? ==> Describes(found.value, s, stored.value))
  {
    var src := SetRootMirrors(m, s, id, TreesBelow(s, id));
    ResolveMirrors(SetRoot(m, s, id), s, src, ROOT, path);
  }

  /** Inserting a tree advances the counter by the size of the unfolded tree, defines exactly the given inode and the
      inodes counted, and leaves every other node and directory as it was. */
  lemma InsertFrame(m: Mount, s: Stored, id: Id, inode: Inode)
    requires Insertable(s, id) && Bounded(m) && inode < m.next
    ensures var m' := Insert(m, s, id, inode);
            && m'.next == m.next + TreeSize(s, id)
            && (forall i: Inode :: i in m'.nodes <==> i in m.nodes || i == inode || m.next <= i < m'.next)
            && (forall i: Inode :: i < m.next && i != inode ==> SameAt(m, m', i))
            && (forall i: Inode :: i in m'.dirs ==> i in m.dirs || i == inode || m.next <= i < m'.next)
  {
    InsertCounts(m, s, id, inode);
    var src := InsertMirrors(m, s, id, inode, TreesBelow(s, id));
    var m' := Insert(m, s, id, inode);
    forall i: Inode ensures i in m'.nodes <==> i in m.nodes || i == inode || m.next <= i < m'.next {
      if i < m.next && i != inode { assert SameAt(m, m', i); }
      if m.next <= i < m'.next { assert i in src && Mirrors(m', s, src, i); }
    }
    forall i: Inode | i in m'.dirs ensures i in m.dirs || i == inode || m.next <= i < m'.next {
      if i < m.next && i != inode { assert SameAt(m, m', i); }
    }
  }

  /** Below a materialised tree, every materialised tree is less deep. */
  lemma {:induction false} DepthDescends(m: Mount, s: Stored, src: Origins, i: Inode, path: Path)
    requires AllMirror(m, s, src) && i in src && src[i].entry.SubTree? && Insertable(s, src[i].entry.id)
    requires Walk(Edges(m), i, path).Some?
    ensures var x := Walk(Edges(m), i, path).value;
            x in src && (path != [] && src[x].entry.SubTree? ==>
                           Insertable(s, src[x].entry.id) && Depth(s, src[x].entry.id) < Depth(s, src[i].entry.id))
    decreases |path|
  {
    if path != [] {
      assert Mirrors(m, s, src, i);
      var n := path[0];
      assert (i, n) in Edges(m);
      var c, tree := m.dirs[i][n].inode, s.trees[src[i].entry.id];
      assert MirrorsEntry(m.dirs[i][n], tree, src, i, n);
      FindEntryIsListed(tree, n);
      EntryReady(s, src[i].entry.id, (n, src[c].entry));
      if src[c].entry.SubTree? {
        DepthDescends(m, s, src, c, path[1..]);
      } else {
        assert Mirrors(m, s, src, c);
        assert path[1..] == [];
      }
    }
  }

  /** A tree that occurs twice is materialised as two disjoint subtrees. */
  lemma SameTreeTwiceIsDisjoint(m: Mount, s: Stored, src: Origins, a: Inode, b: Inode, x: Inode)
    requires AllMirror(m, s, src) && Unshared(Edges(m))
    requires a in src && b in src && a != b
    requires src[a].entry.SubTree? && src[a].entry == src[b].entry && Insertable(s, src[a].entry.id)
    ensures !(Below(Edges(m), a, x) && Below(Edges(m), b, x))
  {
    var g := Edges(m);
    if Below(g, a, x) && Below(g, b, x) {
      var p :| Walk(g, a, p) == Some(x);
      var q :| Walk(g, b, q) == Some(x);
      CommonDescendant(g, a, b, p, q);
      if Below(g, a, b) {
        var r :| Walk(g, a, r) == Some(b);
        DepthDescends(m, s, src, a, r);
      } else {
        var r :| Walk(g, b, r) == Some(a);
        DepthDescends(m, s, src, b, r);
      }
    }
  }
}
