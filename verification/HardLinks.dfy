/** The exact number of links of every node, from the requests of a run. */
module HardLinks {
  import opened Basics
  import opened Trees
  import opened Forests
  import opened Mounts
  import opened Requests
  import opened Invariants
  import opened Steps
  import opened Views
  import opened Runs
  import opened Outcomes

  /** A rename that is carried out puts another node in the place of this one. */
  ghost predicate Replaces(s: System, i: Inode, r: Request, reply: Reply) {
    var g := Edges(s.mount);
    && r.Rename? && reply.Done?
    && (r.newParent, r.newName) in g && g[(r.newParent, r.newName)] == i
    && (r.parent, r.name) in g && g[(r.parent, r.name)] != i
  }

  // ---------------------------------------------------------------- one request

  lemma RenameCountsLinks(m: Mount, uid: nat, gid: nat, parent: Inode, name: Name, newParent: Inode, newName: Name,
                          i: Inode)
    requires ShapeOK(m) && Ordinary(name) && Ordinary(newName) && i in m.nodes
    requires DirectoryIfAny(m, parent) && DirectoryIfAny(m, newParent)
    requires DoRename(m, uid, gid, parent, name, newParent, newName).1.Done?
    ensures var m', g := DoRename(m, uid, gid, parent, name, newParent, newName).0, Edges(m);
            var replaced := (newParent, newName) in g && g[(newParent, newName)] == i && g[(parent, name)] != i;
            && (parent, name) in g && i in m'.nodes && m'.nodes.Keys == m.nodes.Keys
            && (if replaced then
                  var a := m.nodes[i];
                  !a.kind.Directory? && a.hardlinks >= 1 && m'.nodes[i] == a.(hardlinks := a.hardlinks - 1)
                else m'.nodes[i] == m.nodes[i])
  {
    var a := RenameSucceeds(m, uid, gid, parent, name, newParent, newName);
    if newParent in m.dirs { NamedNode(m, newParent, newName); }
    if (newParent, newName) in Edges(m) { assert EntryBacked(m, m.dirs[newParent][newName]); }
  }

  /** The node keeps its kind, and loses a link exactly when the request replaces it; then it was a file or symlink that
      had one. */
  lemma StepLinkCount(s: System, hash: Hash, r: Request, i: Inode)
    requires ShapeOK(s.mount) && Allowed(s, r) && i in s.mount.nodes && !(r.SetRootTree? && i == ROOT)
    ensures i in Step(s, hash, r).0.mount.nodes
    ensures var a, a' := s.mount.nodes[i], Step(s, hash, r).0.mount.nodes[i];
            && a'.kind == a.kind
            && if Replaces(s, i, r, Step(s, hash, r).1) then
                 !a.kind.Directory? && a.hardlinks >= 1 && a'.hardlinks == a.hardlinks - 1
               else a'.hardlinks == a.hardlinks
  {
    if r.Rename? {
      RenameStepCountsLinks(s, hash, r, i);
    } else {
      OtherStepKeepsLinks(s, hash, r, i);
    }
  }

  lemma RenameStepCountsLinks(s: System, hash: Hash, r: Request, i: Inode)
    requires ShapeOK(s.mount) && Allowed(s, r) && i in s.mount.nodes && r.Rename?
    ensures i in Step(s, hash, r).0.mount.nodes
    ensures var a, a' := s.mount.nodes[i], Step(s, hash, r).0.mount.nodes[i];
            && a'.kind == a.kind
            && if Replaces(s, i, r, Step(s, hash, r).1) then
                 !a.kind.Directory? && a.hardlinks >= 1 && a'.hardlinks == a.hardlinks - 1
               else a'.hardlinks == a.hardlinks
  {
    RenameOutcome(s.mount, r.uid, r.gid, r.parent, r.name, r.newParent, r.newName);
    if Step(s, hash, r).1.Done? {
      RenameCountsLinks(s.mount, r.uid, r.gid, r.parent, r.name, r.newParent, r.newName, i);
    }
  }

  lemma OtherStepKeepsLinks(s: System, hash: Hash, r: Request, i: Inode)
    requires NodesOK(s.mount) && KindsOK(s.mount) && Allowed(s, r) && i in s.mount.nodes
    requires !r.Rename? && !(r.SetRootTree? && i == ROOT)
    ensures i in Step(s, hash, r).0.mount.nodes
    ensures var a, a' := s.mount.nodes[i], Step(s, hash, r).0.mount.nodes[i];
            a'.kind == a.kind && a'.hardlinks == a.hardlinks
  {
    NodeIsItself(s.mount, i);
    CounterIsFree(s.mount);
    if r.SetRootTree? {
      MountIsBounded(s.mount);
      RerootOutcome(s.mount, s.store, r.id, i);
    } else if (r.Write? || r.Open? || r.OpenDir? || r.Release? || r.ReleaseDir?) && r.inode in s.mount.nodes {
      NodeIsItself(s.mount, r.inode);
    }
  }

  /** A node that a request makes has two links if it is a directory, and one otherwise. */
  lemma NewLinkCount(s: System, hash: Hash, r: Request, i: Inode)
    requires ShapeOK(s.mount) && Allowed(s, r) && i in Step(s, hash, r).0.mount.nodes
    requires i !in s.mount.nodes || (r.SetRootTree? && i == ROOT)
    ensures var a := Step(s, hash, r).0.mount.nodes[i]; a.hardlinks == if a.kind.Directory? then 2 else 1
  {
    if r.SetRootTree? {
      MountIsBounded(s.mount);
      RerootOutcome(s.mount, s.store, r.id, i);
    } else if Step(s, hash, r).1.Created? {
      CreationOutcome(s, hash, r);
      CreationIsLinking(s, hash, r);
    } else if r.MakeSymlink? {
      SymlinkOutcome(s.mount, s.store, hash, r.uid, r.gid, r.parent, r.name, r.target);
    } else {
      NodesStay(s, hash, r);
    }
  }

  lemma NodesStay(s: System, hash: Hash, r: Request)
    requires ShapeOK(s.mount) && Allowed(s, r) && !r.SetRootTree? && !r.MakeSymlink? && !Step(s, hash, r).1.Created?
    ensures Step(s, hash, r).0.mount.nodes.Keys == s.mount.nodes.Keys
  {
    if (r.Write? || r.Open? || r.OpenDir? || r.Release? || r.ReleaseDir?) && r.inode in s.mount.nodes {
      NodeIsItself(s.mount, r.inode);
    }
    if r.Rename? && LookupName(s.mount, r.newParent, r.newName).Ok? {
      NodeIsItself(s.mount, s.mount.dirs[r.newParent][r.newName].inode);
    }
  }

  // ---------------------------------------------------------------- runs

  /** Some rename before the n-th state put another node in the place of this one. */
  ghost predicate Replaced(t: Trace, i: Inode, n: nat)
    requires n <= |t.requests| == |t.replies| && n <= |t.states|
  {
    exists k :: 0 <= k < n && Replaces(t.states[k], i, t.requests[k], t.replies[k])
  }

  lemma ReplacedNext(t: Trace, i: Inode, k: nat)
    requires k < |t.requests| == |t.replies| && k < |t.states|
    ensures Replaced(t, i, k + 1) <==> Replaced(t, i, k) || Replaces(t.states[k], i, t.requests[k], t.replies[k])
  {
  }

  lemma ReplacedIsNode(m: Mount, s: System, i: Inode, r: Request, reply: Reply)
    requires m == s.mount && EntriesOK(m) && Replaces(s, i, r, reply)
    ensures i in m.nodes
  {
    assert EntryBacked(m, m.dirs[r.newParent][r.newName]);
  }

  lemma MoveLinkCount(s: System, hash: Hash, r: Request, s': System, reply: Reply, i: Inode)
    requires SystemOK(hash, s) && Moves(s, hash, r, s', reply)
    ensures Replaces(s, i, r, reply) ==> i in s.mount.nodes && !(r.SetRootTree? && i == ROOT)
    ensures i in s.mount.nodes && !(r.SetRootTree? && i == ROOT) ==>
              && i in s'.mount.nodes && s'.mount.nodes[i].kind == s.mount.nodes[i].kind
              && if Replaces(s, i, r, reply) then
                   && !s.mount.nodes[i].kind.Directory? && s.mount.nodes[i].hardlinks >= 1
                   && s'.mount.nodes[i].hardlinks == s.mount.nodes[i].hardlinks - 1
                 else s'.mount.nodes[i].hardlinks == s.mount.nodes[i].hardlinks
    ensures i in s'.mount.nodes && (i !in s.mount.nodes || (r.SetRootTree? && i == ROOT)) ==>
              s'.mount.nodes[i].hardlinks == if s'.mount.nodes[i].kind.Directory? then 2 else 1
  {
    if Replaces(s, i, r, reply) { ReplacedIsNode(s.mount, s, i, r, reply); }
    if i in s.mount.nodes && !(r.SetRootTree? && i == ROOT) { StepLinkCount(s, hash, r, i); }
    if i in s'.mount.nodes && (i !in s.mount.nodes || (r.SetRootTree? && i == ROOT)) { NewLinkCount(s, hash, r, i); }
  }

  /** What the requests so far make of the links of a node: none once a rename replaced it. */
  ghost predicate CountIs(t: Trace, i: Inode, n: nat)
    requires n <= |t.requests| == |t.replies| && n < |t.states|
  {
    var m := t.states[n].mount;
    if i in m.nodes then
      m.nodes[i].hardlinks == if m.nodes[i].kind.Directory? then 2 else if Replaced(t, i, n) then 0 else 1
    else !Replaced(t, i, n)
  }

  lemma CountIsNext(t: Trace, hash: Hash, i: Inode, k: nat)
    requires IsRunFromStart(t, hash) && k < |t.requests| && CountIs(t, i, k)
    requires ROOT in t.states[k].mount.nodes ==> t.states[k].mount.nodes[ROOT].kind.Directory?
    ensures CountIs(t, i, k + 1)
  {
    ReachableIsOK(t, hash, k);
    RunMoves(t, hash, k);
    MoveLinkCount(t.states[k], hash, t.requests[k], t.states[k + 1], t.replies[k], i);
    ReplacedNext(t, i, k);
    if t.requests[k].SetRootTree? && i == ROOT { RerootedRoot(t.states[k], hash, t.requests[k]); }
  }

  lemma RerootedRoot(s: System, hash: Hash, r: Request)
    requires Allowed(s, r) && r.SetRootTree?
    ensures var m := Step(s, hash, r).0.mount; ROOT in m.nodes && m.nodes[ROOT].kind.Directory?
  {
  }

  lemma RootIsDirectory(t: Trace, hash: Hash, n: nat)
    requires IsRunFromStart(t, hash) && n <= |t.requests|
    ensures ROOT in t.states[n].mount.nodes ==> t.states[n].mount.nodes[ROOT].kind.Directory?
  {
    ReachableIsOK(t, hash, n);
  }

  lemma {:induction false} CountsAre(t: Trace, hash: Hash, i: Inode, n: nat)
    requires IsRunFromStart(t, hash) && n <= |t.requests|
    ensures CountIs(t, i, n)
  {
    if n > 0 {
      var k := n - 1;
      CountsAre(t, hash, i, k);
      RootIsDirectory(t, hash, k);
      CountIsNext(t, hash, i, k);
      assert k + 1 == n;
    }
  }

  /** In every reachable state a directory has two links; a file or symlink has none if a rename replaced it, and one
      otherwise. */
  lemma ReachableLinkCounts(t: Trace, hash: Hash, i: Inode, n: nat)
    requires IsRunFromStart(t, hash) && n <= |t.requests| && i in t.states[n].mount.nodes
    ensures var a := t.states[n].mount.nodes[i];
            a.hardlinks == if a.kind.Directory? then 2 else if Replaced(t, i, n) then 0 else 1
  {
    CountsAre(t, hash, i, n);
  }
}
