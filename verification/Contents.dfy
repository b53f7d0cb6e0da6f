/** Node attributes and the bytes behind them, across the copy-on-write store. */
module Contents {
  import opened Basics
  import opened Preimages
  import opened Stores
  import opened Insertability
  import opened Forests
  import opened Mounts
  import opened Materialise
  import opened Requests
  import opened Invariants

  // ---------------------------------------------------------------- writes on byte strings

  /** A non-empty write is the zero-filled overlay: the data in its range, the old bytes elsewhere, zeros between the
      old end and the data. An empty write changes nothing. */
  lemma WriteAtIsOverlay(content: Bytes, offset: nat, data: Bytes)
    ensures var r := WriteAt(content, offset, data);
            && |r| == (if data == [] then |content| else Max(|content|, offset + |data|))
            && forall k :: 0 <= k < |r| ==>
                 r[k] == if offset <= k < offset + |data| then data[k - offset]
                         else if k < |content| then content[k] else 0
  {
  }

  /** The new size agrees with the new content exactly when the write is not an empty one past the end. */
  lemma SizeAfterWrite(content: Bytes, offset: nat, data: Bytes)
    ensures Max(|content|, offset + |data|) == |WriteAt(content, offset, data)| <==> data != [] || offset <= |content|
  {
  }

  // ---------------------------------------------------------------- attributes agree with the store

  ghost predicate NodeBacked(a: Attrs, s: Stored) {
    match a.kind
    case Directory => a.hash == None && a.size == 0
    case File => (a.hash.Some? ==> a.hash.value in s.files) && |ContentOf(a, s.files)| <= a.size
    case Symlink =>
      match a.hash
      case None => a.size == 0
      case Some(h) => h in s.symlinks && a.size == |s.symlinks[h]|
  }

  /** Every hash is present in the map of its kind; the size of a symlink is the length of its target, and that of a
      file covers its content. */
  ghost predicate Backed(m: Mount, s: Stored) {
    forall i :: i in m.nodes ==> NodeBacked(m.nodes[i], s)
  }

  ghost predicate SizeExact(a: Attrs, s: Stored) {
    a.kind.File? ==> a.size == |ContentOf(a, s.files)|
  }

  /** The size of every file is the length of its content. */
  ghost predicate Exact(m: Mount, s: Stored) {
    forall i :: i in m.nodes ==> SizeExact(m.nodes[i], s)
  }

  lemma ContentIsStable(a: Attrs, s: Stored, s': Stored)
    requires NodeBacked(a, s) && a.kind.File? && Grows(s, s')
    ensures ContentOf(a, s'.files) == ContentOf(a, s.files)
  {
  }

  lemma BackedGrows(m: Mount, s: Stored, s': Stored)
    requires Backed(m, s) && Grows(s, s')
    ensures Backed(m, s') && (Exact(m, s) ==> Exact(m, s'))
  {
    forall i | i in m.nodes
      ensures NodeBacked(m.nodes[i], s') && (SizeExact(m.nodes[i], s) ==> SizeExact(m.nodes[i], s'))
    {
      assert NodeBacked(m.nodes[i], s);
      if m.nodes[i].kind.File? { ContentIsStable(m.nodes[i], s, s'); }
    }
  }

  /** One node set, the store grown. */
  lemma BackedSetNode(m: Mount, m': Mount, s: Stored, s': Stored, a: Attrs)
    requires Backed(m, s) && Grows(s, s') && m'.nodes == m.nodes[a.inode := a] && NodeBacked(a, s')
    ensures Backed(m', s')
    ensures Exact(m, s) && SizeExact(a, s') ==> Exact(m', s')
  {
    BackedGrows(m, s, s');
    forall i | i in m'.nodes ensures NodeBacked(m'.nodes[i], s') {
      if i != a.inode { assert NodeBacked(m.nodes[i], s'); }
    }
    if Exact(m, s) && SizeExact(a, s') {
      forall i | i in m'.nodes ensures SizeExact(m'.nodes[i], s') {
        if i != a.inode { assert SizeExact(m.nodes[i], s'); }
      }
    }
  }

  lemma GrowsRefl(s: Stored)
    ensures Grows(s, s)
  {
  }

  /** A node made from a stored entry has the hash and the size of that entry. */
  lemma RebuiltNodeBacked(m': Mount, s: Stored, src: Origins, i: Inode)
    requires AllMirror(m', s, src) && i in src
    ensures i in m'.nodes && NodeBacked(m'.nodes[i], s) && SizeExact(m'.nodes[i], s)
  {
    assert Mirrors(m', s, src, i);
  }

  lemma RerootBacked(m: Mount, m': Mount, s: Stored, src: Origins)
    requires Rerooted(m, m', s, src) && Backed(m, s)
    ensures Backed(m', s) && (Exact(m, s) ==> Exact(m', s))
  {
    forall i | i in m'.nodes ensures NodeBacked(m'.nodes[i], s) && (Exact(m, s) ==> SizeExact(m'.nodes[i], s)) {
      if i in src { RebuiltNodeBacked(m', s, src, i); } else { assert SameAt(m, m', i); }
    }
  }

  lemma SetRootBacked(m: Mount, s: Stored, id: Id)
    requires NodesOK(m) && KindsOK(m) && Insertable(s, id) && Backed(m, s)
    ensures Backed(SetRoot(m, s, id), s) && (Exact(m, s) ==> Exact(SetRoot(m, s, id), s))
  {
    MountIsBounded(m);
    var src := SetRootMirrors(m, s, id, TreesBelow(s, id));
    RerootBacked(m, SetRoot(m, s, id), s, src);
  }

  /** After a write that is carried out, the node refers to the written content. */
  lemma DoWriteStores(m: Mount, s: Stored, hash: Hash, inode: Inode, fh: nat, offset: nat, data: Bytes)
    requires NodesOK(m) && inode in m.nodes && HandleWrites(fh)
    ensures var (m', s', reply) := DoWrite(m, s, hash, inode, fh, offset, data);
            && reply == Written(|data|)
            && inode in m'.nodes && m'.nodes[inode].hash.Some? && m'.nodes[inode].hash.value in s'.files
            && s'.files[m'.nodes[inode].hash.value] == WriteAt(ContentOf(m.nodes[inode], s.files), offset, data)
  {
    assert NodeOK(m, inode);
  }

  /** The attributes and the store after a write that is carried out. */
  lemma WriteBacked(m: Mount, s: Stored, hash: Hash, inode: Inode, offset: nat, data: Bytes, content: Bytes, a: Attrs)
    requires Backed(m, s) && inode in m.nodes && m.nodes[inode].kind.File?
    requires content == WriteAt(ContentOf(m.nodes[inode], s.files), offset, data)
    requires var before := m.nodes[inode];
             a == before.(size := Max(before.size, offset + |data|), hash := Some(hash(ContentPreimage(content))))
    ensures var s' := PutFile(s, hash, ContentPreimage(content), content);
            NodeBacked(a, s') && ContentOf(a, s'.files) == content
    ensures var s' := PutFile(s, hash, ContentPreimage(content), content);
            SizeExact(m.nodes[inode], s) ==> (SizeExact(a, s') <==> data != [] || offset <= m.nodes[inode].size)
  {
    assert NodeBacked(m.nodes[inode], s);
    SizeAfterWrite(ContentOf(m.nodes[inode], s.files), offset, data);
  }
}
