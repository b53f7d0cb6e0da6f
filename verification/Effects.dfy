/** What path lookups see of the requests that leave all entries alone: writes, opens, releases and store writes. */
module Effects {
  import opened Basics
  import opened Forests
  import opened Mounts
  import opened Requests
  import opened Invariants
  import opened Steps
  import opened Histories

  predicate ChangesEntries(r: Request) {
    r.Mkdir? || r.Mknod? || r.MakeSymlink? || r.Rename? || r.SetRootTree?
  }

  lemma EntriesStay(s: System, hash: Hash, r: Request)
    requires NodesOK(s.mount) && Allowed(s, r) && !ChangesEntries(r)
    ensures SameShape(s.mount, Step(s, hash, r).0.mount)
  {
    if (r.Write? || r.Open? || r.OpenDir? || r.Release? || r.ReleaseDir?) && r.inode in s.mount.nodes {
      NodeIsItself(s.mount, r.inode);
    }
  }

  /** Where only attributes change, a path leads to the same inode. */
  lemma {:induction false} SameShapeResolve(m: Mount, m': Mount, base: Inode, path: Path)
    requires NodesOK(m) && SameShape(m, m')
    ensures Resolve(m', base, path).Some? <==> Resolve(m, base, path).Some?
    ensures Resolve(m, base, path).Some? ==>
              && Resolve(m, base, path).value.inode in m.nodes
              && Resolve(m, base, path).value == m.nodes[Resolve(m, base, path).value.inode]
              && Resolve(m', base, path).value == m'.nodes[Resolve(m, base, path).value.inode]
    decreases |path|
  {
    if path == [] {
      if base in m.nodes { assert NodeOK(m, base); }
    } else {
      var found := LookupName(m, base, path[0]);
      if found.Ok? {
        var i := m.dirs[base][path[0]].inode;
        assert NodeOK(m, i) && SameIdentity(m.nodes[i], m'.nodes[i]);
        SameShapeResolve(m, m', found.value.inode, path[1..]);
      }
    }
  }

  /** The attributes before and after a request, as the request changes them: open count, size, hash and the content
      behind it where the request is about the inode, and nothing else. */
  ghost predicate ChangedBy(a: Attrs, a': Attrs, files: map<Id, Bytes>, files': map<Id, Bytes>, r: Request,
                            reply: Reply)
  {
    && SameIdentity(a, a') && a'.uid == a.uid && a'.gid == a.gid
    && a'.openFileHandles == NextCount(a.openFileHandles, a.inode, r, reply)
    && a'.size == NextExtent(a.size, a.inode, true, r, reply)
    && (!WritesTo(a.inode, r, reply) ==> a'.hash == a.hash)
    && (a.kind.File? ==> ContentOf(a', files') == NextBytes(ContentOf(a, files), a.inode, r, reply))
  }

  lemma StepChangesAttributes(s: System, hash: Hash, r: Request, i: Inode)
    requires SystemOK(hash, s) && Allowed(s, r) && !ChangesEntries(r) && i in s.mount.nodes
    requires CollisionFree(hash, Step(s, hash, r).0.store.hashed)
    ensures i in Step(s, hash, r).0.mount.nodes
    ensures var (s', reply) := Step(s, hash, r);
            ChangedBy(s.mount.nodes[i], s'.mount.nodes[i], s.store.files, s'.store.files, r, reply)
  {
    NodeIsItself(s.mount, i);
    StepChangesFields(s, hash, r, i);
    StepCounts(s, hash, r, i);
    if IsFile(s.mount, i) { StepRefinesFlatFiles(s, hash, r, i); }
  }

  lemma StepChangesFields(s: System, hash: Hash, r: Request, i: Inode)
    requires NodesOK(s.mount) && Allowed(s, r) && !ChangesEntries(r) && i in s.mount.nodes
    ensures i in Step(s, hash, r).0.mount.nodes
    ensures var a, a', reply := s.mount.nodes[i], Step(s, hash, r).0.mount.nodes[i], Step(s, hash, r).1;
            && SameIdentity(a, a') && a'.uid == a.uid && a'.gid == a.gid
            && a'.size == NextExtent(a.size, i, true, r, reply)
            && (!WritesTo(i, r, reply) ==> a'.hash == a.hash)
  {
    if (r.Write? || r.Open? || r.OpenDir? || r.Release? || r.ReleaseDir?) && r.inode in s.mount.nodes {
      NodeIsItself(s.mount, r.inode);
    }
  }

  /** A write, open, release or store write changes no path: every path resolves as before, to the same attributes
      unless it arrives at the inode of the request, and there to attributes changed as the request says. */
  lemma EffectIsSeen(s: System, hash: Hash, r: Request, base: Inode, path: Path)
    requires SystemOK(hash, s) && Allowed(s, r) && !ChangesEntries(r)
    requires CollisionFree(hash, Step(s, hash, r).0.store.hashed)
    ensures var (s', reply) := Step(s, hash, r);
            var before, after := Resolve(s.mount, base, path), Resolve(s'.mount, base, path);
            && (before.Some? <==> after.Some?)
            && (before.Some? ==> ChangedBy(before.value, after.value, s.store.files, s'.store.files, r, reply))
            && (before.Some? && !IsAbout(r, before.value.inode) ==> after == before)
  {
    EntriesStay(s, hash, r);
    SameShapeResolve(s.mount, Step(s, hash, r).0.mount, base, path);
    var found := Resolve(s.mount, base, path);
    if found.Some? {
      StepChangesAttributes(s, hash, r, found.value.inode);
    }
  }

  predicate IsAbout(r: Request, i: Inode) {
    (r.Write? || r.Open? || r.OpenDir? || r.Release? || r.ReleaseDir?) && r.inode == i
  }
}
