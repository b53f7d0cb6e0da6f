/** Symlinks without a target: which of them a run leaves behind, and which of them can be read. */
module Links {
  import opened Basics
  import opened Trees
  import opened Stores
  import opened Insertability
  import opened Forests
  import opened Mounts
  import opened Materialise
  import opened Requests
  import opened Invariants
  import opened Contents
  import opened Steps
  import opened Views
  import opened Reads
  import opened Runs
  import opened Histories
  import opened Effects

  ghost predicate IsLink(m: Mount, i: Inode) {
    i in m.nodes && m.nodes[i].kind.Symlink?
  }

  /** The request makes a link without a target by `mknod`. */
  predicate MakesBareLink(i: Inode, r: Request, reply: Reply) {
    r.Mknod? && reply.Created? && reply.attrs.inode == i && reply.attrs.kind.Symlink?
  }

  /** A symlink request is refused because of its name, and leaves behind the node it had allocated. */
  predicate LeavesOrphan(s: System, i: Inode, r: Request, reply: Reply) {
    r.MakeSymlink? && reply == Failed(EEXIST) && i == s.mount.next
  }

  // ---------------------------------------------------------------- one request

  lemma LinkStays(s: System, hash: Hash, r: Request, i: Inode)
    requires NodesOK(s.mount) && KindsOK(s.mount) && Allowed(s, r) && IsLink(s.mount, i)
    ensures IsLink(Step(s, hash, r).0.mount, i)
    ensures Step(s, hash, r).0.mount.nodes[i].hash == s.mount.nodes[i].hash
  {
    assert i != ROOT;
    OtherRequestsKeepFile(s, hash, r, i);
  }

  lemma RerootedLinksHaveTargets(m: Mount, s: Stored, id: Id, i: Inode)
    requires NodesOK(m) && KindsOK(m) && Insertable(s, id) && i !in m.nodes && IsLink(SetRoot(m, s, id), i)
    ensures SetRoot(m, s, id).nodes[i].hash.Some?
  {
    MountIsBounded(m);
    var m' := SetRoot(m, s, id);
    var src := SetRootMirrors(m, s, id, TreesBelow(s, id));
    assert i <= m.next && i != ROOT ==> SameAt(m, m', i);
    assert i in src && Mirrors(m', s, src, i);
  }

  lemma NewLinks(s: System, hash: Hash, r: Request, i: Inode)
    requires NodesOK(s.mount) && KindsOK(s.mount) && Allowed(s, r) && !r.SetRootTree?
    requires i !in s.mount.nodes && IsLink(Step(s, hash, r).0.mount, i)
    ensures var reply := Step(s, hash, r).1;
            Step(s, hash, r).0.mount.nodes[i].hash.None? <==> MakesBareLink(i, r, reply) || LeavesOrphan(s, i, r, reply)
  {
    var m := s.mount;
    if (r.Write? || r.Open? || r.OpenDir? || r.Release? || r.ReleaseDir?) && r.inode in m.nodes {
      NodeIsItself(m, r.inode);
    }
    if r.Rename? && LookupName(m, r.newParent, r.newName).Ok? {
      NodeIsItself(m, m.dirs[r.newParent][r.newName].inode);
    }
  }

  lemma BareLinksAreNew(s: System, hash: Hash, r: Request, i: Inode)
    requires NodesOK(s.mount) && KindsOK(s.mount) && Allowed(s, r)
    requires MakesBareLink(i, r, Step(s, hash, r).1) || LeavesOrphan(s, i, r, Step(s, hash, r).1)
    ensures i !in s.mount.nodes && IsLink(Step(s, hash, r).0.mount, i)
  {
    CounterIsFree(s.mount);
  }

  /** After a request, a link has no target exactly when the request made it so, or it had none. */
  lemma StepLinks(s: System, hash: Hash, r: Request, i: Inode)
    requires NodesOK(s.mount) && KindsOK(s.mount) && Allowed(s, r) && IsLink(Step(s, hash, r).0.mount, i)
    ensures var reply := Step(s, hash, r).1;
            Step(s, hash, r).0.mount.nodes[i].hash.None? <==>
              || MakesBareLink(i, r, reply) || LeavesOrphan(s, i, r, reply)
              || (IsLink(s.mount, i) && s.mount.nodes[i].hash.None?)
  {
    var reply := Step(s, hash, r).1;
    if MakesBareLink(i, r, reply) || LeavesOrphan(s, i, r, reply) { BareLinksAreNew(s, hash, r, i); }
    if i in s.mount.nodes {
      OldLinkIsLink(s, hash, r, i);
      LinkStays(s, hash, r, i);
    } else if r.SetRootTree? {
      RerootedLinksHaveTargets(s.mount, s.store, r.id, i);
    } else {
      NewLinks(s, hash, r, i);
    }
  }

  lemma OldLinkIsLink(s: System, hash: Hash, r: Request, i: Inode)
    requires NodesOK(s.mount) && KindsOK(s.mount) && Allowed(s, r)
    requires i in s.mount.nodes && IsLink(Step(s, hash, r).0.mount, i)
    ensures IsLink(s.mount, i)
  {
    if r.Write? && r.inode == i {
      NodeIsItself(s.mount, i);
    } else if !(r.SetRootTree? && i == ROOT) {
      OtherRequestsKeepFile(s, hash, r, i);
    }
  }

  // ---------------------------------------------------------------- names

  lemma CreationKeepsUnnamed(s: System, hash: Hash, r: Request, i: Inode)
    requires NodesOK(s.mount) && KindsOK(s.mount) && EntriesOK(s.mount) && Allowed(s, r)
    requires Step(s, hash, r).1.Created? && i in s.mount.nodes && Unnamed(Edges(s.mount), i)
    ensures Unnamed(Edges(Step(s, hash, r).0.mount), i)
  {
    CounterIsFree(s.mount);
    CreationIsLinking(s, hash, r);
    LinkedEdges(s.mount, Step(s, hash, r).1.attrs, r.parent, r.name);
  }

  lemma RenameKeepsUnnamed(m: Mount, uid: nat, gid: nat, parent: Inode, name: Name, newParent: Inode, newName: Name,
                           i: Inode)
    requires ShapeOK(m) && Ordinary(name) && Ordinary(newName)
    requires DirectoryIfAny(m, parent) && DirectoryIfAny(m, newParent)
    requires DoRename(m, uid, gid, parent, name, newParent, newName).1.Done? && Unnamed(Edges(m), i)
    ensures Unnamed(Edges(DoRename(m, uid, gid, parent, name, newParent, newName).0), i)
  {
    var a := RenameSucceeds(m, uid, gid, parent, name, newParent, newName);
    RenamedEdges(m, a, (parent, name), (newParent, newName));
  }

  lemma RerootKeepsUnnamed(m: Mount, s: Stored, id: Id, i: Inode)
    requires NodesOK(m) && KindsOK(m) && Insertable(s, id) && i in m.nodes && Unnamed(Edges(m), i)
    ensures Unnamed(Edges(SetRoot(m, s, id)), i)
  {
    var m' := SetRoot(m, s, id);
    var src := SetRootReroots(m, s, id, TreesBelow(s, id));
    NodeIsItself(m, i);
    RebuiltIsFresh(m, m', s, src);
    RerootEdges(m, m', s, src);
  }

  /** A request gives a name only to the inodes it makes. */
  lemma StepKeepsUnnamed(s: System, hash: Hash, r: Request, i: Inode)
    requires SystemOK(hash, s) && Allowed(s, r) && i in s.mount.nodes && Unnamed(Edges(s.mount), i)
    ensures Unnamed(Edges(Step(s, hash, r).0.mount), i)
  {
    var (s', reply) := Step(s, hash, r);
    if !ChangesEntries(r) {
      EntriesStay(s, hash, r);
      assert Edges(s'.mount) == Edges(s.mount);
    } else if r.SetRootTree? {
      RerootKeepsUnnamed(s.mount, s.store, r.id, i);
    } else if reply.Created? {
      CreationKeepsUnnamed(s, hash, r, i);
    } else if reply.Failed? {
      RefusedIsUntouched(s, hash, r);
      assert Edges(s'.mount) == Edges(s.mount);
    } else {
      NamingReplies(s, hash, r);
      RenameKeepsUnnamed(s.mount, r.uid, r.gid, r.parent, r.name, r.newParent, r.newName, i);
    }
  }

  lemma NamingReplies(s: System, hash: Hash, r: Request)
    requires NodesOK(s.mount) && KindsOK(s.mount) && Allowed(s, r) && ChangesEntries(r) && !r.SetRootTree?
    requires !Step(s, hash, r).1.Created? && !Step(s, hash, r).1.Failed?
    ensures r.Rename? && Step(s, hash, r).1.Done?
  {
    if r.Rename? {
      RenameOnlyPanicsThere(s.mount, r.uid, r.gid, r.parent, r.name, r.newParent, r.newName);
    }
  }

  lemma OrphanIsUnnamed(s: System, hash: Hash, r: Request, i: Inode)
    requires NodesOK(s.mount) && KindsOK(s.mount) && EntriesOK(s.mount) && Allowed(s, r)
    requires LeavesOrphan(s, i, r, Step(s, hash, r).1)
    ensures i in Step(s, hash, r).0.mount.nodes && Unnamed(Edges(Step(s, hash, r).0.mount), i)
  {
    EdgesAreBounded(s.mount);
    CounterIsFree(s.mount);
    RefusedIsUntouched(s, hash, r);
    assert Edges(Step(s, hash, r).0.mount) == Edges(s.mount);
  }

  // ---------------------------------------------------------------- runs

  lemma MoveLinks(s: System, hash: Hash, r: Request, s': System, reply: Reply, i: Inode)
    requires SystemOK(hash, s) && Moves(s, hash, r, s', reply)
    ensures IsLink(s'.mount, i) ==>
              (s'.mount.nodes[i].hash.None? <==>
                 || MakesBareLink(i, r, reply) || LeavesOrphan(s, i, r, reply)
                 || (IsLink(s.mount, i) && s.mount.nodes[i].hash.None?))
    ensures IsLink(s.mount, i) || MakesBareLink(i, r, reply) || LeavesOrphan(s, i, r, reply) ==> IsLink(s'.mount, i)
  {
    if IsLink(s.mount, i) { LinkStays(s, hash, r, i); }
    if MakesBareLink(i, r, reply) || LeavesOrphan(s, i, r, reply) { BareLinksAreNew(s, hash, r, i); }
    if IsLink(s'.mount, i) { StepLinks(s, hash, r, i); }
  }

  lemma MoveNames(s: System, hash: Hash, r: Request, s': System, reply: Reply, i: Inode)
    requires SystemOK(hash, s) && Moves(s, hash, r, s', reply)
    ensures LeavesOrphan(s, i, r, reply) ==> Unnamed(Edges(s'.mount), i)
    ensures i in s.mount.nodes && Unnamed(Edges(s.mount), i) ==> Unnamed(Edges(s'.mount), i)
  {
    if LeavesOrphan(s, i, r, reply) { OrphanIsUnnamed(s, hash, r, i); }
    if i in s.mount.nodes && Unnamed(Edges(s.mount), i) { StepKeepsUnnamed(s, hash, r, i); }
  }

  /** Some request before the n-th state made the link without a target. */
  ghost predicate MadeBare(t: Trace, i: Inode, n: nat)
    requires n <= |t.requests| == |t.replies|
  {
    exists k :: 0 <= k < n && MakesBareLink(i, t.requests[k], t.replies[k])
  }

  /** Some symlink request before the n-th state was refused and left the link behind. */
  ghost predicate Orphaned(t: Trace, i: Inode, n: nat)
    requires n <= |t.requests| == |t.replies| && n <= |t.states|
  {
    exists k :: 0 <= k < n && LeavesOrphan(t.states[k], i, t.requests[k], t.replies[k])
  }

  lemma BareNext(t: Trace, i: Inode, k: nat)
    requires k < |t.requests| == |t.replies| && k < |t.states|
    ensures MadeBare(t, i, k + 1) <==> MadeBare(t, i, k) || MakesBareLink(i, t.requests[k], t.replies[k])
    ensures Orphaned(t, i, k + 1) <==> Orphaned(t, i, k) || LeavesOrphan(t.states[k], i, t.requests[k], t.replies[k])
  {
  }

  lemma ReachableLinks(t: Trace, hash: Hash, i: Inode, k: nat)
    requires IsRunFromStart(t, hash) && k < |t.requests|
    ensures var m, m', r, reply := t.states[k].mount, t.states[k + 1].mount, t.requests[k], t.replies[k];
            var bare := MakesBareLink(i, r, reply) || LeavesOrphan(t.states[k], i, r, reply);
            && (IsLink(m', i) ==> (m'.nodes[i].hash.None? <==> bare || (IsLink(m, i) && m.nodes[i].hash.None?)))
            && (IsLink(m, i) || bare ==> IsLink(m', i))
  {
    ReachableIsOK(t, hash, k);
    RunMoves(t, hash, k);
    MoveLinks(t.states[k], hash, t.requests[k], t.states[k + 1], t.replies[k], i);
  }

  lemma {:induction false} BareLinksAreLinks(t: Trace, hash: Hash, i: Inode, n: nat)
    requires IsRunFromStart(t, hash) && n <= |t.requests| && (MadeBare(t, i, n) || Orphaned(t, i, n))
    ensures IsLink(t.states[n].mount, i)
  {
    if n > 0 {
      var k := n - 1;
      BareNext(t, i, k);
      ReachableLinks(t, hash, i, k);
      if MadeBare(t, i, k) || Orphaned(t, i, k) { BareLinksAreLinks(t, hash, i, k); }
      assert k + 1 == n;
    }
  }

  /** In every reachable state, a symlink has no target exactly when `mknod` made it, or a refused symlink request left
      it behind. */
  lemma {:induction false} HashlessLinks(t: Trace, hash: Hash, i: Inode, n: nat)
    requires IsRunFromStart(t, hash) && n <= |t.requests| && IsLink(t.states[n].mount, i)
    ensures t.states[n].mount.nodes[i].hash.None? <==> MadeBare(t, i, n) || Orphaned(t, i, n)
  {
    if n > 0 {
      var k := n - 1;
      BareNext(t, i, k);
      ReachableLinks(t, hash, i, k);
      if IsLink(t.states[k].mount, i) { HashlessLinks(t, hash, i, k); }
      if MadeBare(t, i, k) || Orphaned(t, i, k) { BareLinksAreLinks(t, hash, i, k); }
      assert k + 1 == n;
    }
  }

  lemma ReachableNames(t: Trace, hash: Hash, i: Inode, k: nat)
    requires IsRunFromStart(t, hash) && k < |t.requests|
    ensures LeavesOrphan(t.states[k], i, t.requests[k], t.replies[k]) ==> Unnamed(Edges(t.states[k + 1].mount), i)
    ensures i in t.states[k].mount.nodes && Unnamed(Edges(t.states[k].mount), i) ==>
              Unnamed(Edges(t.states[k + 1].mount), i)
  {
    ReachableIsOK(t, hash, k);
    RunMoves(t, hash, k);
    MoveNames(t.states[k], hash, t.requests[k], t.states[k + 1], t.replies[k], i);
  }

  lemma NoNamers(m: Mount, i: Inode)
    ensures Namers(m, i) == {} <==> Unnamed(Edges(m), i)
  {
    if Namers(m, i) == {} {
      forall s | s in Edges(m) ensures Edges(m)[s] != i {
        assert s !in Namers(m, i);
      }
    }
  }

  ghost predicate NamelessLink(t: Trace, i: Inode, n: nat)
    requires n < |t.states|
  {
    IsLink(t.states[n].mount, i) && Namers(t.states[n].mount, i) == {}
  }

  lemma NamelessLinkStays(t: Trace, hash: Hash, i: Inode, k: nat)
    requires IsRunFromStart(t, hash) && k < |t.requests| && NamelessLink(t, i, k)
    ensures NamelessLink(t, i, k + 1)
  {
    NoNamers(t.states[k].mount, i);
    ReachableNames(t, hash, i, k);
    ReachableLinks(t, hash, i, k);
    NoNamers(t.states[k + 1].mount, i);
  }

  lemma {:induction false} NamelessLinksStay(t: Trace, hash: Hash, i: Inode, k: nat, n: nat)
    requires IsRunFromStart(t, hash) && k <= n <= |t.requests| && NamelessLink(t, i, k)
    ensures NamelessLink(t, i, n)
    decreases n - k
  {
    if k < n {
      NamelessLinkStays(t, hash, i, k);
      NamelessLinksStay(t, hash, i, k + 1, n);
    }
  }

  /** A link left behind by a refused request is never named. */
  lemma OrphansStayUnnamed(t: Trace, hash: Hash, i: Inode, n: nat)
    requires IsRunFromStart(t, hash) && n <= |t.requests| && Orphaned(t, i, n)
    ensures Namers(t.states[n].mount, i) == {}
  {
    var k :| 0 <= k < n && LeavesOrphan(t.states[k], i, t.requests[k], t.replies[k]);
    OrphanIsNameless(t, hash, i, k);
    NamelessLinksStay(t, hash, i, k + 1, n);
  }

  lemma OrphanIsNameless(t: Trace, hash: Hash, i: Inode, k: nat)
    requires IsRunFromStart(t, hash) && k < |t.requests|
    requires LeavesOrphan(t.states[k], i, t.requests[k], t.replies[k])
    ensures NamelessLink(t, i, k + 1)
  {
    ReachableNames(t, hash, i, k);
    ReachableLinks(t, hash, i, k);
    NoNamers(t.states[k + 1].mount, i);
  }

  lemma ReadlinkReply(m: Mount, s: Stored, i: Inode)
    requires Backed(m, s) && IsLink(m, i)
    ensures match m.nodes[i].hash
            case None => DoReadlink(m, s, i) == Panics
            case Some(h) =>
              h in s.symlinks && DoReadlink(m, s, i) == Data(s.symlinks[h]) && |s.symlinks[h]| == m.nodes[i].size
  {
    assert NodeBacked(m.nodes[i], s);
  }

  /** Reading a link that some entry names panics exactly when `mknod` made it, and otherwise gives a target of the
      length that is its size. */
  lemma NamedLinksRead(t: Trace, hash: Hash, i: Inode, n: nat)
    requires IsRunFromStart(t, hash) && n <= |t.requests| && IsLink(t.states[n].mount, i)
    requires Namers(t.states[n].mount, i) != {}
    ensures var reply := DoReadlink(t.states[n].mount, t.states[n].store, i);
            if MadeBare(t, i, n) then reply == Panics
            else reply.Data? && |reply.bytes| == t.states[n].mount.nodes[i].size
  {
    ReachableIsOK(t, hash, n);
    HashlessLinks(t, hash, i, n);
    if Orphaned(t, i, n) { OrphansStayUnnamed(t, hash, i, n); }
    ReadlinkReply(t.states[n].mount, t.states[n].store, i);
  }
}
