/** What a run leaves behind on one inode: its open count and its bytes, computed from the requests alone. */
module Histories {
  import opened Basics
  import opened Trees
  import opened Stores
  import opened Insertability
  import opened Forests
  import opened Mounts
  import opened Materialise
  import opened Requests
  import opened Invariants
  import opened Contents
  import opened Steps
  import opened Runs

  // ---------------------------------------------------------------- open counts

  function HandlesOn(m: Mount, i: Inode): nat {
    if i in m.nodes then m.nodes[i].openFileHandles else 0
  }

  predicate OpensInode(i: Inode, r: Request, reply: Reply) {
    ((r.Open? && r.inode == i) || (r.OpenDir? && r.inode == i)) && reply.Opened?
  }

  predicate ReleasesInode(i: Inode, r: Request) {
    (r.Release? && r.inode == i) || (r.ReleaseDir? && r.inode == i)
  }

  /** An open counts up, a release down but not below zero, and re-rooting forgets the root's opens. */
  function NextCount(count: nat, i: Inode, r: Request, reply: Reply): nat {
    if OpensInode(i, r, reply) then count + 1
    else if ReleasesInode(i, r) then (if count > 0 then count - 1 else 0)
    else if r.SetRootTree? && i == ROOT then 0
    else count
  }

  lemma RerootCounts(m: Mount, s: Stored, id: Id, i: Inode)
    requires NodesOK(m) && KindsOK(m) && Insertable(s, id)
    ensures HandlesOn(SetRoot(m, s, id), i) == if i == ROOT then 0 else HandlesOn(m, i)
  {
    MountIsBounded(m);
    var m' := SetRoot(m, s, id);
    var src := SetRootMirrors(m, s, id, TreesBelow(s, id));
    if i in src {
      assert Mirrors(m', s, src, i);
      if i != ROOT { assert i !in m.nodes; }
    } else if i <= m.next {
      assert SameAt(m, m', i);
    }
  }

  lemma OpenCounts(m: Mount, counter: nat, uid: nat, gid: nat, inode: Inode, flags: bv32, directory: bool, i: Inode)
    requires NodesOK(m)
    ensures var (m', _, reply) := DoOpen(m, counter, uid, gid, inode, flags, directory);
            HandlesOn(m', i) == if i == inode && reply.Opened? then HandlesOn(m, i) + 1 else HandlesOn(m, i)
  {
    if inode in m.nodes { NodeIsItself(m, inode); }
  }

  lemma ReleaseCounts(m: Mount, inode: Inode, i: Inode)
    requires NodesOK(m)
    ensures HandlesOn(DoRelease(m, inode), i) ==
            if i == inode && HandlesOn(m, i) > 0 then HandlesOn(m, i) - 1 else HandlesOn(m, i)
  {
    if inode in m.nodes { NodeIsItself(m, inode); }
  }

  lemma RenameCounts(m: Mount, uid: nat, gid: nat, parent: Inode, name: Name, newParent: Inode, newName: Name, i: Inode)
    requires KindsOK(m) && NodesOK(m) && DirectoryIfAny(m, parent) && DirectoryIfAny(m, newParent)
    ensures HandlesOn(DoRename(m, uid, gid, parent, name, newParent, newName).0, i) == HandlesOn(m, i)
  {
    if LookupName(m, newParent, newName).Ok? {
      NodeIsItself(m, m.dirs[newParent][newName].inode);
    }
  }

  lemma WriteCounts(m: Mount, s: Stored, hash: Hash, inode: Inode, fh: nat, offset: nat, data: Bytes, i: Inode)
    requires NodesOK(m)
    ensures HandlesOn(DoWrite(m, s, hash, inode, fh, offset, data).0, i) == HandlesOn(m, i)
  {
    if inode in m.nodes { NodeIsItself(m, inode); }
  }

  lemma SymlinkCounts(m: Mount, s: Stored, hash: Hash, uid: nat, gid: nat, parent: Inode, name: Name, target: Bytes,
                      i: Inode)
    requires NodesOK(m) && KindsOK(m) && DirectoryIfAny(m, parent)
    ensures HandlesOn(DoSymlink(m, s, hash, uid, gid, parent, name, target).0, i) == HandlesOn(m, i)
  {
    CounterIsFree(m);
  }

  lemma CreationCounts(m: Mount, uid: nat, gid: nat, parent: Inode, name: Name, mode: bv32, i: Inode)
    requires NodesOK(m) && KindsOK(m) && DirectoryIfAny(m, parent)
    ensures HandlesOn(DoMkdir(m, uid, gid, parent, name).0, i) == HandlesOn(m, i)
    ensures HandlesOn(DoMknod(m, uid, gid, parent, name, mode).0, i) == HandlesOn(m, i)
  {
    CounterIsFree(m);
  }

  lemma NamingStepCounts(s: System, hash: Hash, r: Request, i: Inode)
    requires NodesOK(s.mount) && KindsOK(s.mount) && Allowed(s, r)
    requires r.Mkdir? || r.Mknod? || r.MakeSymlink? || r.Rename? || r.SetRootTree?
    ensures HandlesOn(Step(s, hash, r).0.mount, i) == if r.SetRootTree? && i == ROOT then 0 else HandlesOn(s.mount, i)
  {
    var m := s.mount;
    match r
    case Mkdir(uid, gid, parent, name) => CreationCounts(m, uid, gid, parent, name, 0, i);
    case Mknod(uid, gid, parent, name, mode) => CreationCounts(m, uid, gid, parent, name, mode, i);
    case MakeSymlink(uid, gid, parent, name, target) =>
      SymlinkCounts(m, s.store, hash, uid, gid, parent, name, target, i);
    case Rename(uid, gid, parent, name, newParent, newName) =>
      RenameCounts(m, uid, gid, parent, name, newParent, newName, i);
    case SetRootTree(id) => RerootCounts(m, s.store, id, i);
  }

  /** Every request moves the open count of every inode exactly so: no write-back of attributes fetched earlier loses
      an open or a release. */
  lemma StepCounts(s: System, hash: Hash, r: Request, i: Inode)
    requires NodesOK(s.mount) && KindsOK(s.mount) && Allowed(s, r)
    ensures HandlesOn(Step(s, hash, r).0.mount, i) == NextCount(HandlesOn(s.mount, i), i, r, Step(s, hash, r).1)
  {
    var m := s.mount;
    if r.Mkdir? || r.Mknod? || r.MakeSymlink? || r.Rename? || r.SetRootTree? {
      NamingStepCounts(s, hash, r, i);
    } else {
      match r
      case Write(inode, fh, offset, data) => WriteCounts(m, s.store, hash, inode, fh, offset, data, i);
      case Open(uid, gid, inode, flags) => OpenCounts(m, s.nextHandle, uid, gid, inode, flags, false, i);
      case OpenDir(uid, gid, inode, flags) => OpenCounts(m, s.nextHandle, uid, gid, inode, flags, true, i);
      case Release(inode) => ReleaseCounts(m, inode, i);
      case ReleaseDir(inode) => ReleaseCounts(m, inode, i);
      case _ =>
    }
  }

  /** What the first n requests of a run make of the open count of an inode. */
  function CountAfter(t: Trace, i: Inode, n: nat): nat
    requires 0 < |t.states| && n <= |t.requests| == |t.replies|
  {
    if n == 0 then HandlesOn(t.states[0].mount, i)
    else NextCount(CountAfter(t, i, n - 1), i, t.requests[n - 1], t.replies[n - 1])
  }

  lemma MoveCounts(s: System, hash: Hash, r: Request, s': System, reply: Reply, i: Inode)
    requires SystemOK(hash, s) && Moves(s, hash, r, s', reply)
    ensures HandlesOn(s'.mount, i) == NextCount(HandlesOn(s.mount, i), i, r, reply)
  {
    StepCounts(s, hash, r, i);
  }

  lemma ReachableCounts(t: Trace, hash: Hash, i: Inode, k: nat)
    requires IsRunFromStart(t, hash) && k < |t.requests|
    ensures HandlesOn(t.states[k + 1].mount, i) ==
            NextCount(HandlesOn(t.states[k].mount, i), i, t.requests[k], t.replies[k])
  {
    ReachableIsOK(t, hash, k);
    RunMoves(t, hash, k);
    MoveCounts(t.states[k], hash, t.requests[k], t.states[k + 1], t.replies[k], i);
  }

  /** At every point of every run, re-rooting included, the open count is what the requests so far add up to. */
  lemma {:induction false} RunCounts(t: Trace, hash: Hash, i: Inode, n: nat)
    requires IsRunFromStart(t, hash) && n <= |t.requests|
    ensures HandlesOn(t.states[n].mount, i) == CountAfter(t, i, n)
  {
    if n > 0 {
      var k := n - 1;
      RunCounts(t, hash, i, k);
      ReachableCounts(t, hash, i, k);
      assert k + 1 == n;
    }
  }

  /** Opens minus releases among the first n requests. */
  function Outstanding(t: Trace, i: Inode, n: nat): int
    requires n <= |t.requests| == |t.replies|
  {
    if n == 0 then 0
    else
      Outstanding(t, i, n - 1) +
      (if OpensInode(i, t.requests[n - 1], t.replies[n - 1]) then 1
       else if ReleasesInode(i, t.requests[n - 1]) then -1 else 0)
  }

  /** Each release of the inode matches an earlier open, and the mount is not re-rooted while the inode is the root. */
  ghost predicate Matched(t: Trace, i: Inode)
    requires |t.requests| == |t.replies|
  {
    && (forall n: nat :: n <= |t.requests| ==> Outstanding(t, i, n) >= 0)
    && (forall r :: r in t.requests && r.SetRootTree? ==> i != ROOT)
  }

  lemma {:induction false} MatchedCounts(t: Trace, i: Inode, n: nat)
    requires 0 < |t.states| && n <= |t.requests| == |t.replies| && HandlesOn(t.states[0].mount, i) == 0
    requires Matched(t, i)
    ensures CountAfter(t, i, n) == Outstanding(t, i, n)
  {
    if n > 0 {
      assert t.requests[n - 1] in t.requests;
      assert Outstanding(t, i, n) >= 0;
      MatchedCounts(t, i, n - 1);
    }
  }

  /** In every run in which each release of an inode matches an earlier open (and, for the root, the mount is not
      re-rooted), the open count of the inode equals its outstanding opens at every point, and no release finds the
      count at zero. */
  lemma OpenCountsAreConserved(t: Trace, hash: Hash, i: Inode, n: nat)
    requires IsRunFromStart(t, hash) && n <= |t.requests| && Matched(t, i)
    ensures HandlesOn(t.states[n].mount, i) == Outstanding(t, i, n)
    ensures n < |t.requests| && ReleasesInode(i, t.requests[n]) ==> HandlesOn(t.states[n].mount, i) > 0
  {
    RunCounts(t, hash, i, n);
    MatchedCounts(t, i, n);
    if n < |t.requests| {
      assert Outstanding(t, i, n + 1) >= 0;
    }
  }

  // ---------------------------------------------------------------- bytes

  /** The bytes of a flat file after one request: overlaid by a write to the file that was carried out. */
  function NextBytes(bytes: Bytes, i: Inode, r: Request, reply: Reply): Bytes {
    if r.Write? && r.inode == i && reply.Written? then WriteAt(bytes, r.offset, r.data) else bytes
  }

  ghost predicate IsFile(m: Mount, i: Inode) {
    i in m.nodes && m.nodes[i].kind.File?
  }

  function BytesOf(s: System, i: Inode): Bytes {
    if i in s.mount.nodes then ContentOf(s.mount.nodes[i], s.store.files) else []
  }

  /** The file node still refers to the same stored bytes. */
  lemma SameHashSameBytes(s: System, s': System, i: Inode)
    requires IsFile(s.mount, i) && NodeBacked(s.mount.nodes[i], s.store) && Grows(s.store, s'.store)
    requires i in s'.mount.nodes && s'.mount.nodes[i].hash == s.mount.nodes[i].hash
    ensures BytesOf(s', i) == BytesOf(s, i)
  {
    ContentIsStable(s.mount.nodes[i], s.store, s'.store);
  }

  /** The inode keeps what its content depends on. */
  ghost predicate SameFile(m: Mount, m': Mount, i: Inode)
    requires i in m.nodes
  {
    && i in m'.nodes
    && m'.nodes[i].hash == m.nodes[i].hash && m'.nodes[i].kind == m.nodes[i].kind && m'.nodes[i].size == m.nodes[i].size
  }

  lemma RerootKeepsFile(m: Mount, s: Stored, id: Id, i: Inode)
    requires NodesOK(m) && KindsOK(m) && Insertable(s, id) && i in m.nodes && i != ROOT
    ensures SameFile(m, SetRoot(m, s, id), i)
  {
    MountIsBounded(m);
    var src := SetRootMirrors(m, s, id, TreesBelow(s, id));
    assert NodeOK(m, i);
    assert SameAt(m, SetRoot(m, s, id), i);
  }

  lemma RenameKeepsFile(m: Mount, uid: nat, gid: nat, parent: Inode, name: Name, newParent: Inode, newName: Name,
                        i: Inode)
    requires NodesOK(m) && DirectoryIfAny(m, parent) && DirectoryIfAny(m, newParent) && i in m.nodes
    ensures SameFile(m, DoRename(m, uid, gid, parent, name, newParent, newName).0, i)
  {
    if LookupName(m, newParent, newName).Ok? {
      NodeIsItself(m, m.dirs[newParent][newName].inode);
    }
  }

  lemma CreationKeepsFile(m: Mount, uid: nat, gid: nat, parent: Inode, name: Name, mode: bv32, i: Inode)
    requires NodesOK(m) && KindsOK(m) && DirectoryIfAny(m, parent) && i in m.nodes
    ensures SameFile(m, DoMkdir(m, uid, gid, parent, name).0, i)
    ensures SameFile(m, DoMknod(m, uid, gid, parent, name, mode).0, i)
  {
    CounterIsFree(m);
  }

  lemma SymlinkKeepsFile(m: Mount, s: Stored, hash: Hash, uid: nat, gid: nat, parent: Inode, name: Name, target: Bytes,
                         i: Inode)
    requires NodesOK(m) && KindsOK(m) && DirectoryIfAny(m, parent) && i in m.nodes
    ensures SameFile(m, DoSymlink(m, s, hash, uid, gid, parent, name, target).0, i)
  {
    CounterIsFree(m);
  }

  lemma NamingStepKeepsFile(s: System, hash: Hash, r: Request, i: Inode)
    requires NodesOK(s.mount) && KindsOK(s.mount) && Allowed(s, r) && i in s.mount.nodes
    requires r.Mkdir? || r.Mknod? || r.MakeSymlink? || r.Rename? || (r.SetRootTree? && i != ROOT)
    ensures SameFile(s.mount, Step(s, hash, r).0.mount, i)
  {
    var m := s.mount;
    match r
    case Mkdir(uid, gid, parent, name) => CreationKeepsFile(m, uid, gid, parent, name, 0, i);
    case Mknod(uid, gid, parent, name, mode) => CreationKeepsFile(m, uid, gid, parent, name, mode, i);
    case MakeSymlink(uid, gid, parent, name, target) =>
      SymlinkKeepsFile(m, s.store, hash, uid, gid, parent, name, target, i);
    case Rename(uid, gid, parent, name, newParent, newName) =>
      RenameKeepsFile(m, uid, gid, parent, name, newParent, newName, i);
    case SetRootTree(id) => RerootKeepsFile(m, s.store, id, i);
  }

  /** Apart from writes to the file, no request changes the hash, kind or size of a node, except that re-rooting makes
      the root anew. */
  lemma OtherRequestsKeepFile(s: System, hash: Hash, r: Request, i: Inode)
    requires NodesOK(s.mount) && KindsOK(s.mount) && Allowed(s, r) && i in s.mount.nodes
    requires !(r.Write? && r.inode == i) && !(r.SetRootTree? && i == ROOT)
    ensures SameFile(s.mount, Step(s, hash, r).0.mount, i)
  {
    if r.Mkdir? || r.Mknod? || r.MakeSymlink? || r.Rename? || r.SetRootTree? {
      NamingStepKeepsFile(s, hash, r, i);
    } else if (r.Write? || r.Open? || r.OpenDir? || r.Release? || r.ReleaseDir?) && r.inode in s.mount.nodes {
      NodeIsItself(s.mount, r.inode);
    }
  }

  lemma FileIsNotRoot(m: Mount, i: Inode)
    requires KindsOK(m) && IsFile(m, i)
    ensures i != ROOT
  {
  }

  lemma WriteSetsBytes(s: System, hash: Hash, r: Request)
    requires NodesOK(s.mount) && Allowed(s, r) && r.Write? && IsFile(s.mount, r.inode)
    ensures var (s', reply) := Step(s, hash, r);
            IsFile(s'.mount, r.inode) && BytesOf(s', r.inode) == NextBytes(BytesOf(s, r.inode), r.inode, r, reply)
  {
    NodeIsItself(s.mount, r.inode);
  }

  /** One request on the copy-on-write store does to the bytes behind each file what it does to flat files: a write
      overlays its own file, and nothing changes the bytes of any other, even where files shared a hash. */
  lemma StepRefinesFlatFiles(s: System, hash: Hash, r: Request, i: Inode)
    requires SystemOK(hash, s) && Allowed(s, r) && IsFile(s.mount, i)
    requires CollisionFree(hash, Step(s, hash, r).0.store.hashed)
    ensures IsFile(Step(s, hash, r).0.mount, i)
    ensures BytesOf(Step(s, hash, r).0, i) == NextBytes(BytesOf(s, i), i, r, Step(s, hash, r).1)
  {
    if r.Write? && r.inode == i {
      WriteSetsBytes(s, hash, r);
    } else {
      StepKeepsStore(s, hash, r);
      FileIsNotRoot(s.mount, i);
      OtherRequestsKeepFile(s, hash, r, i);
      assert NodeBacked(s.mount.nodes[i], s.store);
      SameHashSameBytes(s, Step(s, hash, r).0, i);
    }
  }

  /** What the requests from n to k of a run make of the bytes of a flat file. */
  function BytesAfter(t: Trace, i: Inode, bytes: Bytes, n: nat, k: nat): Bytes
    requires n <= k <= |t.requests| == |t.replies|
    decreases k - n
  {
    if n == k then bytes else BytesAfter(t, i, NextBytes(bytes, i, t.requests[n], t.replies[n]), n + 1, k)
  }

  lemma MoveRefines(s: System, hash: Hash, r: Request, s': System, reply: Reply, i: Inode, all: set<Bytes>)
    requires SystemOK(hash, s) && Moves(s, hash, r, s', reply) && IsFile(s.mount, i)
    requires s'.store.hashed <= all && CollisionFree(hash, all)
    ensures IsFile(s'.mount, i) && BytesOf(s', i) == NextBytes(BytesOf(s, i), i, r, reply)
  {
    CollisionFreeSubset(hash, s'.store.hashed, all);
    StepRefinesFlatFiles(s, hash, r, i);
  }

  lemma RunStepRefines(t: Trace, hash: Hash, i: Inode, k: nat)
    requires IsRun(t, hash) && k < |t.requests| && SystemOK(hash, t.states[k]) && IsFile(t.states[k].mount, i)
    requires CollisionFree(hash, t.states[|t.requests|].store.hashed)
    ensures IsFile(t.states[k + 1].mount, i)
    ensures BytesOf(t.states[k + 1], i) == NextBytes(BytesOf(t.states[k], i), i, t.requests[k], t.replies[k])
  {
    RunMoves(t, hash, k);
    var all := t.states[|t.requests|].store.hashed;
    MoveRefines(t.states[k], hash, t.requests[k], t.states[k + 1], t.replies[k], i, all);
  }

  lemma ReachableRefines(t: Trace, hash: Hash, i: Inode, k: nat)
    requires IsRunFromStart(t, hash) && k < |t.requests| && IsFile(t.states[k].mount, i)
    ensures IsFile(t.states[k + 1].mount, i)
    ensures BytesOf(t.states[k + 1], i) == NextBytes(BytesOf(t.states[k], i), i, t.requests[k], t.replies[k])
  {
    ReachableIsOK(t, hash, k);
    RunStepRefines(t, hash, i, k);
  }

  /** From any point of a run to any later one, the bytes behind a file become the overlay, in order, of the writes
      made to it in between. */
  lemma {:induction false} RunRefinesFlatFiles(t: Trace, hash: Hash, i: Inode, n: nat, k: nat)
    requires IsRunFromStart(t, hash) && n <= k <= |t.requests| && IsFile(t.states[n].mount, i)
    ensures IsFile(t.states[k].mount, i)
    ensures BytesOf(t.states[k], i) == BytesAfter(t, i, BytesOf(t.states[n], i), n, k)
    decreases k - n
  {
    if n < k {
      ReachableRefines(t, hash, i, n);
      RunRefinesFlatFiles(t, hash, i, n + 1, k);
    }
  }

  // ---------------------------------------------------------------- sizes

  predicate WritesTo(i: Inode, r: Request, reply: Reply) {
    r.Write? && r.inode == i && reply.Written?
  }

  /** How far the writes reach that were carried out on a file from n to k, empty ones included or not. */
  function Extent(t: Trace, i: Inode, extent: nat, empties: bool, n: nat, k: nat): nat
    requires n <= k <= |t.requests| == |t.replies|
    decreases k - n
  {
    if n == k then extent
    else Extent(t, i, NextExtent(extent, i, empties, t.requests[n], t.replies[n]), empties, n + 1, k)
  }

  function NextExtent(extent: nat, i: Inode, empties: bool, r: Request, reply: Reply): nat {
    if WritesTo(i, r, reply) && (empties || r.data != []) then Max(extent, r.offset + |r.data|) else extent
  }

  /** The extent is the largest of its start and the ends of the writes counted. */
  lemma {:induction false} ExtentIsLargest(t: Trace, i: Inode, extent: nat, empties: bool, n: nat, k: nat)
    requires n <= k <= |t.requests| == |t.replies|
    ensures var e := Extent(t, i, extent, empties, n, k);
            && extent <= e
            && (forall j :: n <= j < k && Counts(t, i, empties, j) ==> t.requests[j].offset + |t.requests[j].data| <= e)
            && (e == extent ||
                exists j :: n <= j < k && Counts(t, i, empties, j) && t.requests[j].offset + |t.requests[j].data| == e)
    decreases k - n
  {
    if n < k {
      var next := NextExtent(extent, i, empties, t.requests[n], t.replies[n]);
      ExtentIsLargest(t, i, next, empties, n + 1, k);
      if next != extent { assert Counts(t, i, empties, n); }
    }
  }

  predicate Counts(t: Trace, i: Inode, empties: bool, j: nat)
    requires j < |t.requests| == |t.replies|
  {
    WritesTo(i, t.requests[j], t.replies[j]) && (empties || t.requests[j].data != [])
  }

  function SizeOf(m: Mount, i: Inode): nat {
    if i in m.nodes then m.nodes[i].size else 0
  }

  lemma StepSizes(s: System, hash: Hash, r: Request, i: Inode)
    requires NodesOK(s.mount) && KindsOK(s.mount) && Allowed(s, r) && IsFile(s.mount, i)
    ensures SizeOf(Step(s, hash, r).0.mount, i) == NextExtent(SizeOf(s.mount, i), i, true, r, Step(s, hash, r).1)
  {
    if r.Write? && r.inode == i {
      NodeIsItself(s.mount, i);
    } else {
      FileIsNotRoot(s.mount, i);
      OtherRequestsKeepFile(s, hash, r, i);
    }
  }

  lemma MoveSizes(s: System, hash: Hash, r: Request, s': System, reply: Reply, i: Inode)
    requires SystemOK(hash, s) && Moves(s, hash, r, s', reply) && IsFile(s.mount, i)
    ensures SizeOf(s'.mount, i) == NextExtent(SizeOf(s.mount, i), i, true, r, reply)
  {
    StepSizes(s, hash, r, i);
  }

  lemma NextBytesReach(bytes: Bytes, i: Inode, r: Request, reply: Reply)
    ensures |NextBytes(bytes, i, r, reply)| == NextExtent(|bytes|, i, false, r, reply)
  {
    if r.Write? { WriteAtIsOverlay(bytes, r.offset, r.data); }
  }

  lemma ReachableSizes(t: Trace, hash: Hash, i: Inode, k: nat)
    requires IsRunFromStart(t, hash) && k < |t.requests| && IsFile(t.states[k].mount, i)
    ensures IsFile(t.states[k + 1].mount, i)
    ensures SizeOf(t.states[k + 1].mount, i) ==
            NextExtent(SizeOf(t.states[k].mount, i), i, true, t.requests[k], t.replies[k])
    ensures |BytesOf(t.states[k + 1], i)| ==
            NextExtent(|BytesOf(t.states[k], i)|, i, false, t.requests[k], t.replies[k])
  {
    ReachableRefines(t, hash, i, k);
    NextBytesReach(BytesOf(t.states[k], i), i, t.requests[k], t.replies[k]);
    ReachableIsOK(t, hash, k);
    RunMoves(t, hash, k);
    MoveSizes(t.states[k], hash, t.requests[k], t.states[k + 1], t.replies[k], i);
  }

  /** Between any two points of a run, the size of a file becomes the end of its furthest write, and the length of its
      content the end of its furthest non-empty write: only empty writes past the end tell them apart. */
  lemma {:induction false} RunExtents(t: Trace, hash: Hash, i: Inode, n: nat, k: nat)
    requires IsRunFromStart(t, hash) && n <= k <= |t.requests| && IsFile(t.states[n].mount, i)
    ensures SizeOf(t.states[k].mount, i) == Extent(t, i, SizeOf(t.states[n].mount, i), true, n, k)
    ensures |BytesOf(t.states[k], i)| == Extent(t, i, |BytesOf(t.states[n], i)|, false, n, k)
    decreases k - n
  {
    if n < k {
      ReachableSizes(t, hash, i, n);
      RunExtents(t, hash, i, n + 1, k);
    }
  }

  // ---------------------------------------------------------------- files never written

  predicate MakesFile(i: Inode, r: Request, reply: Reply) {
    r.Mknod? && reply.Created? && reply.attrs.inode == i && reply.attrs.kind.File?
  }

  lemma RerootedFilesHaveHashes(m: Mount, s: Stored, id: Id, i: Inode)
    requires NodesOK(m) && KindsOK(m) && Insertable(s, id)
    requires i !in m.nodes || i == ROOT
    requires IsFile(SetRoot(m, s, id), i)
    ensures i != ROOT && SetRoot(m, s, id).nodes[i].hash.Some?
  {
    MountIsBounded(m);
    var m' := SetRoot(m, s, id);
    var src := SetRootMirrors(m, s, id, TreesBelow(s, id));
    assert i <= m.next && i != ROOT ==> SameAt(m, m', i);
    assert i in src && Mirrors(m', s, src, i);
  }

  /** After a request, a file has no hash exactly when the request made it, or it had none and was not written. */
  lemma StepHashes(s: System, hash: Hash, r: Request, i: Inode)
    requires NodesOK(s.mount) && KindsOK(s.mount) && Allowed(s, r) && IsFile(Step(s, hash, r).0.mount, i)
    ensures Step(s, hash, r).0.mount.nodes[i].hash.None? <==>
              || MakesFile(i, r, Step(s, hash, r).1)
              || (IsFile(s.mount, i) && s.mount.nodes[i].hash.None? && !WritesTo(i, r, Step(s, hash, r).1))
  {
    var m := s.mount;
    CounterIsFree(m);
    if r.SetRootTree? && (i !in m.nodes || i == ROOT) {
      RerootedFilesHaveHashes(m, s.store, r.id, i);
    } else if i !in m.nodes {
      NewFilesAreMade(s, hash, r, i);
    } else if r.Write? && r.inode == i {
      NodeIsItself(m, i);
    } else {
      OtherRequestsKeepFile(s, hash, r, i);
    }
  }

  lemma NewFilesAreMade(s: System, hash: Hash, r: Request, i: Inode)
    requires NodesOK(s.mount) && KindsOK(s.mount) && Allowed(s, r) && !r.SetRootTree?
    requires i !in s.mount.nodes && IsFile(Step(s, hash, r).0.mount, i)
    ensures MakesFile(i, r, Step(s, hash, r).1) && Step(s, hash, r).0.mount.nodes[i].hash.None?
  {
    var m := s.mount;
    if (r.Write? || r.Open? || r.OpenDir? || r.Release? || r.ReleaseDir?) && r.inode in m.nodes {
      NodeIsItself(m, r.inode);
    }
    if r.Rename? && LookupName(m, r.newParent, r.newName).Ok? {
      NodeIsItself(m, m.dirs[r.newParent][r.newName].inode);
    }
  }

  lemma MadeFilesAreNew(s: System, hash: Hash, r: Request, i: Inode)
    requires NodesOK(s.mount) && KindsOK(s.mount) && Allowed(s, r) && MakesFile(i, r, Step(s, hash, r).1)
    ensures i !in s.mount.nodes && IsFile(Step(s, hash, r).0.mount, i)
  {
    CounterIsFree(s.mount);
  }

  lemma MoveHashes(s: System, hash: Hash, r: Request, s': System, reply: Reply, i: Inode)
    requires SystemOK(hash, s) && Moves(s, hash, r, s', reply)
    ensures IsFile(s'.mount, i) ==>
              (s'.mount.nodes[i].hash.None? <==>
                 || MakesFile(i, r, reply)
                 || (IsFile(s.mount, i) && s.mount.nodes[i].hash.None? && !WritesTo(i, r, reply)))
    ensures MakesFile(i, r, reply) ==> i !in s.mount.nodes && IsFile(s'.mount, i)
  {
    if MakesFile(i, r, reply) { MadeFilesAreNew(s, hash, r, i); }
    if IsFile(s'.mount, i) { StepHashes(s, hash, r, i); }
  }

  /** Some request before the n-th state made the file, and no write to it was carried out since. */
  ghost predicate NeverWritten(t: Trace, i: Inode, n: nat)
    requires n <= |t.requests| == |t.replies|
  {
    exists k :: 0 <= k < n && MakesFile(i, t.requests[k], t.replies[k]) && UnwrittenSince(t, i, k + 1, n)
  }

  ghost predicate UnwrittenSince(t: Trace, i: Inode, k: nat, n: nat)
    requires k <= n <= |t.requests| == |t.replies|
  {
    forall j :: k <= j < n ==> !WritesTo(i, t.requests[j], t.replies[j])
  }

  lemma NeverWrittenNext(t: Trace, i: Inode, k: nat)
    requires k < |t.requests| == |t.replies|
    ensures NeverWritten(t, i, k + 1) <==>
              || MakesFile(i, t.requests[k], t.replies[k])
              || (NeverWritten(t, i, k) && !WritesTo(i, t.requests[k], t.replies[k]))
  {
    if NeverWritten(t, i, k + 1) && !MakesFile(i, t.requests[k], t.replies[k]) {
      var j :| 0 <= j < k + 1 && MakesFile(i, t.requests[j], t.replies[j]) && UnwrittenSince(t, i, j + 1, k + 1);
      assert UnwrittenSince(t, i, j + 1, k);
    }
    if NeverWritten(t, i, k) && !WritesTo(i, t.requests[k], t.replies[k]) {
      var j :| 0 <= j < k && MakesFile(i, t.requests[j], t.replies[j]) && UnwrittenSince(t, i, j + 1, k);
      assert UnwrittenSince(t, i, j + 1, k + 1);
    }
    if MakesFile(i, t.requests[k], t.replies[k]) { assert UnwrittenSince(t, i, k + 1, k + 1); }
  }

  lemma ReachableHashes(t: Trace, hash: Hash, i: Inode, k: nat)
    requires IsRunFromStart(t, hash) && k < |t.requests|
    ensures IsFile(t.states[k + 1].mount, i) ==>
              (t.states[k + 1].mount.nodes[i].hash.None? <==>
                 || MakesFile(i, t.requests[k], t.replies[k])
                 || (IsFile(t.states[k].mount, i) && t.states[k].mount.nodes[i].hash.None?
                     && !WritesTo(i, t.requests[k], t.replies[k])))
    ensures MakesFile(i, t.requests[k], t.replies[k]) ==> IsFile(t.states[k + 1].mount, i)
  {
    ReachableIsOK(t, hash, k);
    RunMoves(t, hash, k);
    MoveHashes(t.states[k], hash, t.requests[k], t.states[k + 1], t.replies[k], i);
  }

  lemma MadeFilesStay(t: Trace, hash: Hash, i: Inode, n: nat)
    requires IsRunFromStart(t, hash) && n <= |t.requests| && NeverWritten(t, i, n)
    ensures IsFile(t.states[n].mount, i)
  {
    var k :| 0 <= k < n && MakesFile(i, t.requests[k], t.replies[k]) && UnwrittenSince(t, i, k + 1, n);
    ReachableHashes(t, hash, i, k);
    RunRefinesFlatFiles(t, hash, i, k + 1, n);
  }

  /** In every reachable state, a file has no hash exactly when `mknod` made it and no write to it was carried out
      since: files made from a stored tree have one from the start. */
  lemma {:induction false} HashlessFiles(t: Trace, hash: Hash, i: Inode, n: nat)
    requires IsRunFromStart(t, hash) && n <= |t.requests| && IsFile(t.states[n].mount, i)
    ensures t.states[n].mount.nodes[i].hash.None? <==> NeverWritten(t, i, n)
  {
    if n > 0 {
      var k := n - 1;
      NeverWrittenNext(t, i, k);
      ReachableHashes(t, hash, i, k);
      if IsFile(t.states[k].mount, i) { HashlessFiles(t, hash, i, k); }
      if NeverWritten(t, i, k) { MadeFilesStay(t, hash, i, k); }
      assert k + 1 == n;
    }
  }

  /** A file starts empty. */
  lemma NewFilesAreEmpty(s: System, hash: Hash, r: Request)
    requires NodesOK(s.mount) && KindsOK(s.mount) && Allowed(s, r) && r.Mknod? && Step(s, hash, r).1.Created?
    ensures var (s', reply) := Step(s, hash, r);
            reply.attrs.inode !in s.mount.nodes && BytesOf(s', reply.attrs.inode) == []
  {
    CounterIsFree(s.mount);
  }
}
