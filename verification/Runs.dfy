/** Whole runs: any sequence of file system requests, re-rootings and service writes, in any interleaving. */
module Runs {
  import opened Basics
  import opened Trees
  import opened Stores
  import opened Insertability
  import opened Forests
  import opened Mounts
  import opened Requests
  import opened Contents
  import opened Steps

  /** A run: the states it goes through, and the request and the reply between each two of them. */
  datatype Trace = Trace(states: seq<System>, requests: seq<Request>, replies: seq<Reply>)

  /** One step, taken where it is allowed. */
  ghost predicate Moves(s: System, hash: Hash, r: Request, s': System, reply: Reply) {
    Allowed(s, r) && Step(s, hash, r) == (s', reply)
  }

  /** The first n steps of the trace are taken. */
  ghost predicate Stepped(t: Trace, hash: Hash, n: nat)
    requires |t.states| == |t.requests| + 1 && |t.replies| == |t.requests| && n <= |t.requests|
  {
    n > 0 ==>
      && Stepped(t, hash, n - 1)
      && Moves(t.states[n - 1], hash, t.requests[n - 1], t.states[n], t.replies[n - 1])
  }

  ghost predicate IsRun(t: Trace, hash: Hash) {
    && |t.states| == |t.requests| + 1 && |t.replies| == |t.requests|
    && Stepped(t, hash, |t.requests|)
  }

  /** A run from a fresh store and an empty mount, without collisions among all it hashes. */
  ghost predicate IsRunFromStart(t: Trace, hash: Hash) {
    && IsRun(t, hash) && t.states[0] == InitialSystem(hash)
    && CollisionFree(hash, t.states[|t.requests|].store.hashed)
  }

  lemma {:induction false} StepOf(t: Trace, hash: Hash, n: nat, k: nat)
    requires |t.states| == |t.requests| + 1 && |t.replies| == |t.requests| && k < n <= |t.requests|
    requires Stepped(t, hash, n)
    ensures Moves(t.states[k], hash, t.requests[k], t.states[k + 1], t.replies[k])
  {
    if k < n - 1 { StepOf(t, hash, n - 1, k); }
  }

  // ---------------------------------------------------------------- runs go on

  ghost function Start(hash: Hash): Trace {
    Trace([InitialSystem(hash)], [], [])
  }

  ghost function Last(t: Trace): System
    requires t.states != []
  {
    t.states[|t.states| - 1]
  }

  /** A run followed by one more request. */
  ghost function Then(t: Trace, hash: Hash, r: Request): Trace
    requires t.states != [] && Allowed(Last(t), r)
  {
    var (s', reply) := Step(Last(t), hash, r);
    Trace(t.states + [s'], t.requests + [r], t.replies + [reply])
  }

  lemma StartIsRun(hash: Hash)
    ensures IsRunFromStart(Start(hash), hash)
  {
  }

  /** No run is ever stuck: whatever request is allowed goes on with it, unless it makes the hash function collide. */
  lemma RunGoesOn(t: Trace, hash: Hash, r: Request)
    requires IsRunFromStart(t, hash) && Allowed(Last(t), r)
    requires CollisionFree(hash, Step(Last(t), hash, r).0.store.hashed)
    ensures IsRunFromStart(Then(t, hash, r), hash) && Last(Then(t, hash, r)) == Step(Last(t), hash, r).0
  {
    SteppedStays(t, Then(t, hash, r), hash, |t.requests|);
  }

  lemma {:induction false} SteppedStays(t: Trace, t': Trace, hash: Hash, n: nat)
    requires |t.states| == |t.requests| + 1 && |t.replies| == |t.requests| && n <= |t.requests|
    requires |t'.states| == |t'.requests| + 1 && |t'.replies| == |t'.requests|
    requires t.states <= t'.states && t.requests <= t'.requests && t.replies <= t'.replies
    requires Stepped(t, hash, n)
    ensures Stepped(t', hash, n)
  {
    if n > 0 { SteppedStays(t, t', hash, n - 1); }
  }

  // ---------------------------------------------------------------- safety

  lemma {:induction false} RunHashesMore(t: Trace, hash: Hash, n: nat)
    requires IsRun(t, hash) && n <= |t.requests|
    ensures t.states[n].store.hashed <= t.states[|t.requests|].store.hashed
    decreases |t.requests| - n
  {
    if n < |t.requests| {
      StepOf(t, hash, |t.requests|, n);
      StepHashesMore(t.states[n], hash, t.requests[n]);
      RunHashesMore(t, hash, n + 1);
    }
  }

  lemma CollisionFreeSubset(hash: Hash, hashed: set<Bytes>, all: set<Bytes>)
    requires CollisionFree(hash, all) && hashed <= all
    ensures CollisionFree(hash, hashed)
  {
  }

  lemma GrowsTransitive(a: Stored, b: Stored, c: Stored)
    requires Grows(a, b) && Grows(b, c)
    ensures Grows(a, c)
  {
  }

  lemma MoveKeeps(s: System, hash: Hash, r: Request, s': System, reply: Reply, all: set<Bytes>)
    requires SystemOK(hash, s) && Moves(s, hash, r, s', reply)
    requires s'.store.hashed <= all && CollisionFree(hash, all)
    ensures SystemOK(hash, s') && Grows(s.store, s'.store) && CollisionFree(hash, s'.store.hashed)
  {
    CollisionFreeSubset(hash, s'.store.hashed, all);
    StepKeeps(s, hash, r);
  }

  lemma RunMoves(t: Trace, hash: Hash, k: nat)
    requires IsRun(t, hash) && k < |t.requests|
    ensures Moves(t.states[k], hash, t.requests[k], t.states[k + 1], t.replies[k])
    ensures t.states[k + 1].store.hashed <= t.states[|t.requests|].store.hashed
  {
    StepOf(t, hash, |t.requests|, k);
    RunHashesMore(t, hash, k + 1);
  }

  lemma RunStepKeeps(t: Trace, hash: Hash, k: nat)
    requires IsRun(t, hash) && k < |t.requests| && SystemOK(hash, t.states[k])
    requires CollisionFree(hash, t.states[|t.requests|].store.hashed)
    ensures SystemOK(hash, t.states[k + 1]) && Grows(t.states[k].store, t.states[k + 1].store)
  {
    RunMoves(t, hash, k);
    MoveKeeps(t.states[k], hash, t.requests[k], t.states[k + 1], t.replies[k], t.states[|t.requests|].store.hashed);
  }

  /** As long as no two hashed byte strings collide, every state of a run from a good state is good. */
  lemma {:induction false} RunKeeps(t: Trace, hash: Hash, n: nat)
    requires IsRun(t, hash) && n <= |t.requests| && SystemOK(hash, t.states[0])
    requires CollisionFree(hash, t.states[|t.requests|].store.hashed)
    ensures SystemOK(hash, t.states[n])
  {
    if n > 0 {
      var k := n - 1;
      RunKeeps(t, hash, k);
      RunStepKeeps(t, hash, k);
      assert k + 1 == n;
    }
  }

  lemma ReachableIsOK(t: Trace, hash: Hash, n: nat)
    requires IsRunFromStart(t, hash) && n <= |t.requests|
    ensures SystemOK(hash, t.states[n])
  {
    InitialSystemOK(hash);
    RunKeeps(t, hash, n);
  }

  lemma ReachableGrows(t: Trace, hash: Hash, n: nat)
    requires IsRunFromStart(t, hash) && n < |t.requests|
    ensures Grows(t.states[n].store, t.states[n + 1].store)
  {
    ReachableIsOK(t, hash, n);
    RunStepKeeps(t, hash, n);
  }

  /** Nothing stored at some point of a run is lost or bound to another value later, whatever the interleaving of file
      system and service writes. */
  lemma {:induction false} RunGrows(t: Trace, hash: Hash, n: nat, k: nat)
    requires IsRunFromStart(t, hash) && n <= k <= |t.requests|
    ensures Grows(t.states[n].store, t.states[k].store)
    decreases k - n
  {
    if n == k {
      GrowsRefl(t.states[n].store);
    } else {
      ReachableGrows(t, hash, n);
      RunGrows(t, hash, n + 1, k);
      GrowsTransitive(t.states[n].store, t.states[n + 1].store, t.states[k].store);
    }
  }

  /** The reply names a key under which the store holds what the request wrote. */
  ghost predicate HoldsWritten(s: Stored, r: Request, reply: Reply) {
    match r
    case StoreFile(content) => reply.Wrote? && reply.id in s.files && s.files[reply.id] == content
    case ServiceFile(content) => reply.Wrote? && reply.id in s.files && s.files[reply.id] == content
    case StoreSymlink(target) => reply.Wrote? && reply.id in s.symlinks && s.symlinks[reply.id] == target
    case ServiceSymlink(target) => reply.Wrote? && reply.id in s.symlinks && s.symlinks[reply.id] == target
    case StoreTree(tree) => reply.Wrote? && reply.id in s.trees && s.trees[reply.id] == tree
    case _ => true
  }

  lemma StepWrites(s: System, hash: Hash, r: Request)
    requires Allowed(s, r)
    ensures HoldsWritten(Step(s, hash, r).0.store, r, Step(s, hash, r).1)
  {
  }

  /** What is written stays readable under the key that was replied, whatever else the run writes under either key
      scheme. */
  lemma WrittenStaysReadable(t: Trace, hash: Hash, n: nat, k: nat)
    requires IsRunFromStart(t, hash) && n < k <= |t.requests|
    ensures HoldsWritten(t.states[k].store, t.requests[n], t.replies[n])
  {
    RunMoves(t, hash, n);
    StepWrites(t.states[n], hash, t.requests[n]);
    RunGrows(t, hash, n + 1, k);
  }

  /** Some request before the n-th state writes a tree that has an improper name or refers to something not stored. */
  ghost predicate WritesDangling(t: Trace, n: nat)
    requires n <= |t.requests| < |t.states|
  {
    exists k :: 0 <= k < n && DanglingWrite(t.states[k], t.requests[k])
  }

  /** Every store of the run up to some point is closed. */
  ghost predicate ClosedThrough(t: Trace, n: nat)
    requires n < |t.states|
  {
    forall k :: 0 <= k <= n ==> Closed(t.states[k].store)
  }

  lemma OneFurther(t: Trace, k: nat)
    requires k < |t.requests| < |t.states|
    ensures ClosedThrough(t, k + 1) <==> ClosedThrough(t, k) && Closed(t.states[k + 1].store)
    ensures WritesDangling(t, k + 1) <==> WritesDangling(t, k) || DanglingWrite(t.states[k], t.requests[k])
  {
  }

  /** The stores of a run are closed up to some point exactly when no such tree was written before. */
  lemma {:induction false} RunStaysClosed(t: Trace, hash: Hash, n: nat)
    requires IsRunFromStart(t, hash) && n <= |t.requests|
    ensures ClosedThrough(t, n) <==> !WritesDangling(t, n)
  {
    if n == 0 {
      EmptyStoredOK(hash);
    } else {
      var k := n - 1;
      RunStaysClosed(t, hash, k);
      OneFurther(t, k);
      if ClosedThrough(t, k) { ReachableCloses(t, hash, k); }
      assert k + 1 == n;
    }
  }

  lemma ReachableCloses(t: Trace, hash: Hash, k: nat)
    requires IsRunFromStart(t, hash) && k < |t.requests| && Closed(t.states[k].store)
    ensures Closed(t.states[k + 1].store) <==> !DanglingWrite(t.states[k], t.requests[k])
  {
    ReachableIsOK(t, hash, k);
    RunMoves(t, hash, k);
    MoveCloses(t.states[k], hash, t.requests[k], t.states[k + 1], t.replies[k], t.states[|t.requests|].store.hashed);
  }

  lemma MoveCloses(s: System, hash: Hash, r: Request, s': System, reply: Reply, all: set<Bytes>)
    requires SystemOK(hash, s) && Moves(s, hash, r, s', reply) && Closed(s.store)
    requires s'.store.hashed <= all && CollisionFree(hash, all)
    ensures Closed(s'.store) <==> !DanglingWrite(s, r)
  {
    CollisionFreeSubset(hash, s'.store.hashed, all);
    StepKeepsClosed(s, hash, r);
  }

  /** While every tree was written after what it refers to, every stored tree refers to stored files, symlinks and
      trees, and to trees written before it, and every stored tree can be inserted. */
  lemma ReachableStoreIsClosed(t: Trace, hash: Hash, n: nat, id: Id, e: (Name, TreeEntry))
    requires IsRunFromStart(t, hash) && n <= |t.requests| && !WritesDangling(t, n)
    requires id in t.states[n].store.trees
    ensures var s := t.states[n].store;
            && Insertable(s, id) && ProperlyNamed(s, id) && Rootable(s, id)
            && (e in s.trees[id] ==>
                  && Present(s, e.1) && Ordinary(e.0)
                  && (e.1.SubTree? ==> e.1.id in s.order && id in s.order && s.order[e.1.id] < s.order[id]))
  {
    ReachableIsOK(t, hash, n);
    RunStaysClosed(t, hash, n);
    ClosedSpelledOut(t.states[n].store, id, e);
  }

  lemma ClosedSpelledOut(s: Stored, id: Id, e: (Name, TreeEntry))
    requires Closed(s) && Ordered(s) && id in s.trees
    ensures Insertable(s, id) && ProperlyNamed(s, id) && Rootable(s, id)
    ensures e in s.trees[id] ==>
              && Present(s, e.1) && Ordinary(e.0)
              && (e.1.SubTree? ==> e.1.id in s.order && id in s.order && s.order[e.1.id] < s.order[id])
  {
    ClosedIsInsertable(s, id);
    if e in s.trees[id] { assert EntryOK(s, id, e); }
  }

  /** Some request before the n-th state is an empty write past the end of a file. */
  ghost predicate WritesHole(t: Trace, n: nat)
    requires n <= |t.requests| < |t.states|
  {
    exists k :: 0 <= k < n && HoleWrite(t.states[k], t.requests[k])
  }

  lemma {:induction false} RunKeepsExact(t: Trace, hash: Hash, n: nat)
    requires IsRunFromStart(t, hash) && n <= |t.requests| && !WritesHole(t, n)
    ensures Exact(t.states[n].mount, t.states[n].store)
  {
    if n == 0 {
      InitialSystemOK(hash);
    } else {
      var k := n - 1;
      assert !HoleWrite(t.states[k], t.requests[k]);
      RunKeepsExact(t, hash, k);
      ReachableExact(t, hash, k);
      assert k + 1 == n;
    }
  }

  lemma ReachableExact(t: Trace, hash: Hash, k: nat)
    requires IsRunFromStart(t, hash) && k < |t.requests| && !HoleWrite(t.states[k], t.requests[k])
    requires Exact(t.states[k].mount, t.states[k].store)
    ensures Exact(t.states[k + 1].mount, t.states[k + 1].store)
  {
    ReachableIsOK(t, hash, k);
    RunMoves(t, hash, k);
    ReachableGrows(t, hash, k);
    MoveExact(t.states[k], hash, t.requests[k], t.states[k + 1], t.replies[k]);
  }

  lemma MoveExact(s: System, hash: Hash, r: Request, s': System, reply: Reply)
    requires SystemOK(hash, s) && Moves(s, hash, r, s', reply) && Grows(s.store, s'.store)
    requires Exact(s.mount, s.store) && !HoleWrite(s, r)
    ensures Exact(s'.mount, s'.store)
  {
    StepKeepsBacked(s, hash, r);
  }

  /** In every reachable state, a node's hash is present in the map of its kind and its size is the length of what it
      refers to (for files, unless some request was an empty write past the end); without a hash the size is zero. */
  lemma ReachableAttributesAgree(t: Trace, hash: Hash, n: nat, i: Inode)
    requires IsRunFromStart(t, hash) && n <= |t.requests| && !WritesHole(t, n)
    requires i in t.states[n].mount.nodes
    ensures var s, a := t.states[n].store, t.states[n].mount.nodes[i];
            match a.hash
            case None => a.size == 0
            case Some(h) =>
              match a.kind
              case File => h in s.files && a.size == |s.files[h]|
              case Symlink => h in s.symlinks && a.size == |s.symlinks[h]|
              case Directory => false
  {
    ReachableIsOK(t, hash, n);
    RunKeepsExact(t, hash, n);
    AttributesSpelledOut(t.states[n], i);
  }

  lemma AttributesSpelledOut(s: System, i: Inode)
    requires Backed(s.mount, s.store) && Exact(s.mount, s.store) && i in s.mount.nodes
    ensures var a := s.mount.nodes[i];
            match a.hash
            case None => a.size == 0
            case Some(h) =>
              match a.kind
              case File => h in s.store.files && a.size == |s.store.files[h]|
              case Symlink => h in s.store.symlinks && a.size == |s.store.symlinks[h]|
              case Directory => false
  {
    assert NodeBacked(s.mount.nodes[i], s.store) && SizeExact(s.mount.nodes[i], s.store);
  }

  /** The directory entries that name an inode. */
  ghost function Namers(m: Mount, i: Inode): set<Slot> {
    set s | s in Edges(m) && Edges(m)[s] == i
  }

  lemma NamedOnce(m: Mount, i: Inode)
    requires Unshared(Edges(m))
    ensures |Namers(m, i)| <= 1
  {
    var names := Namers(m, i);
    if names != {} {
      var s :| s in names;
      assert names == {s};
    }
  }

  /** Every reachable mount is a forest. Spelled out: every inode is named by at most one entry, the root by none;
      following entries never leads back; the directories are exactly the inodes with descriptors; an entry names an
      existing inode of its kind; "." is the directory itself; a ".." in a named directory is its naming parent. */
  lemma ReachableMountIsForest(t: Trace, hash: Hash, n: nat)
    requires IsRunFromStart(t, hash) && n <= |t.requests|
    ensures var m := t.states[n].mount;
            && (forall i: Inode :: |Namers(m, i)| <= 1)
            && Namers(m, ROOT) == {}
            && (forall i: Inode, path: Path :: path != [] ==> Walk(Edges(m), i, path) != Some(i))
            && (forall i: Inode :: i in m.dirs <==> i in m.nodes && m.nodes[i].kind.Directory?)
            && (forall d, n :: d in m.dirs && n in m.dirs[d] && Ordinary(n) ==>
                  m.dirs[d][n].inode in m.nodes && m.nodes[m.dirs[d][n].inode].kind == m.dirs[d][n].kind)
            && (forall d :: d in m.dirs ==> DOT in m.dirs[d] && m.dirs[d][DOT].inode == d)
            && (forall e :: e in Edges(m) && Edges(m)[e] in m.dirs && DOTDOT in m.dirs[Edges(m)[e]] ==>
                  m.dirs[Edges(m)[e]][DOTDOT].inode == e.0)
  {
    ReachableIsOK(t, hash, n);
    ForestSpelledOut(t.states[n].mount);
    EntriesSpelledOut(t.states[n].mount);
  }

  lemma ForestSpelledOut(m: Mount)
    requires MountOK(m)
    ensures forall i: Inode :: |Namers(m, i)| <= 1
    ensures Namers(m, ROOT) == {}
    ensures forall i: Inode, path: Path :: path != [] ==> Walk(Edges(m), i, path) != Some(i)
  {
    forall i: Inode ensures |Namers(m, i)| <= 1 {
      NamedOnce(m, i);
    }
    forall i: Inode, path: Path | path != [] ensures Walk(Edges(m), i, path) != Some(i) {
      if Walk(Edges(m), i, path) == Some(i) { NoCycle(Edges(m), i, path); }
    }
  }

  lemma EntriesSpelledOut(m: Mount)
    requires ShapeOK(m)
    ensures forall d, n :: d in m.dirs && n in m.dirs[d] && Ordinary(n) ==>
              m.dirs[d][n].inode in m.nodes && m.nodes[m.dirs[d][n].inode].kind == m.dirs[d][n].kind
    ensures forall t :: t in Edges(m) && Edges(m)[t] in m.dirs && DOTDOT in m.dirs[Edges(m)[t]] ==>
              m.dirs[Edges(m)[t]][DOTDOT].inode == t.0
  {
    forall d, n | d in m.dirs && n in m.dirs[d] && Ordinary(n)
      ensures m.dirs[d][n].inode in m.nodes && m.nodes[m.dirs[d][n].inode].kind == m.dirs[d][n].kind
    {
      assert EntryBacked(m, m.dirs[d][n]);
    }
    forall t | t in Edges(m) && Edges(m)[t] in m.dirs && DOTDOT in m.dirs[Edges(m)[t]]
      ensures m.dirs[Edges(m)[t]][DOTDOT].inode == t.0
    {
      assert ParentOK(m, t);
    }
  }

  /** Link counts cover the entries and never underflow: no file or symlink has more naming entries than links, and
      the link a rename takes from a replaced node is there to be taken. */
  lemma LinksCoverEntries(t: Trace, hash: Hash, n: nat, i: Inode)
    requires IsRunFromStart(t, hash) && n <= |t.requests|
    requires i in t.states[n].mount.nodes && !t.states[n].mount.nodes[i].kind.Directory?
    ensures var m := t.states[n].mount;
            && |Namers(m, i)| <= m.nodes[i].hardlinks
            && forall d, name ::
                 Ordinary(name) && LookupName(m, d, name) == Ok(m.nodes[i]) ==> m.nodes[i].hardlinks >= 1
  {
    ReachableIsOK(t, hash, n);
    LinksSpelledOut(t.states[n].mount, i);
  }

  lemma LinksSpelledOut(m: Mount, i: Inode)
    requires MountOK(m) && i in m.nodes && !m.nodes[i].kind.Directory?
    ensures |Namers(m, i)| <= m.nodes[i].hardlinks
    ensures forall d, n :: Ordinary(n) && LookupName(m, d, n) == Ok(m.nodes[i]) ==> m.nodes[i].hardlinks >= 1
  {
    NamedOnce(m, i);
    assert NodeOK(m, i);
    if Namers(m, i) != {} {
      var s :| s in Namers(m, i);
      assert EntryBacked(m, m.dirs[s.0][s.1]);
    }
    forall d, n | Ordinary(n) && LookupName(m, d, n) == Ok(m.nodes[i]) ensures m.nodes[i].hardlinks >= 1 {
      assert EntryBacked(m, m.dirs[d][n]);
    }
  }

  // ---------------------------------------------------------------- file handles

  /** The number of successful opens among the first n requests. */
  function Opens(replies: seq<Reply>, n: nat): nat
    requires n <= |replies|
  {
    if n == 0 then 0 else Opens(replies, n - 1) + (if replies[n - 1].Opened? then 1 else 0)
  }

  lemma StepCountsHandles(s: System, hash: Hash, r: Request)
    requires Allowed(s, r)
    ensures var (s', reply) := Step(s, hash, r);
            && s'.nextHandle == s.nextHandle + (if reply.Opened? then 1 else 0)
            && (reply.Opened? ==> (r.Open? || r.OpenDir?) && Masked(reply.fh) == s.nextHandle < TWO_62)
  {
    if r.Open? || r.OpenDir? {
      var mode := OpenMode(r.flags, r.OpenDir?);
      if mode.Ok? { HandleBits(s.nextHandle, mode.value.read, mode.value.write); }
    }
  }

  lemma MoveCountsHandles(t: Trace, hash: Hash, k: nat)
    requires IsRun(t, hash) && k < |t.requests|
    ensures var s, s', reply := t.states[k], t.states[k + 1], t.replies[k];
            && s'.nextHandle == s.nextHandle + (if reply.Opened? then 1 else 0)
            && (reply.Opened? ==> Masked(reply.fh) == s.nextHandle < TWO_62)
  {
    RunMoves(t, hash, k);
    StepCountsHandles(t.states[k], hash, t.requests[k]);
  }

  /** The counter counts the opens: it stays below 2^62, as the source asserts, exactly while a run has made fewer than
      2^62 - 1 of them. */
  lemma {:induction false} HandleCounter(t: Trace, hash: Hash, n: nat)
    requires IsRun(t, hash) && t.states[0] == InitialSystem(hash) && n <= |t.requests|
    ensures t.states[n].nextHandle == 1 + Opens(t.replies, n)
    ensures t.states[n].nextHandle < TWO_62 <==> Opens(t.replies, n) < TWO_62 - 1
  {
    if n > 0 {
      HandleCounter(t, hash, n - 1);
      MoveCountsHandles(t, hash, n - 1);
    }
  }

  lemma {:induction false} CounterGrows(t: Trace, hash: Hash, n: nat, k: nat)
    requires IsRun(t, hash) && n <= k <= |t.requests|
    ensures t.states[n].nextHandle <= t.states[k].nextHandle
    decreases k
  {
    if n < k {
      CounterGrows(t, hash, n, k - 1);
      MoveCountsHandles(t, hash, k - 1);
    }
  }

  /** All handles of a run differ, even with the permission bits masked. */
  lemma HandlesAreUnique(t: Trace, hash: Hash, i: nat, j: nat)
    requires IsRun(t, hash) && i < j < |t.requests|
    requires t.replies[i].Opened? && t.replies[j].Opened?
    ensures Masked(t.replies[i].fh) != Masked(t.replies[j].fh)
  {
    MoveCountsHandles(t, hash, i);
    CounterGrows(t, hash, i + 1, j);
    MoveCountsHandles(t, hash, j);
  }

  /** A handle passes the read and write checks exactly as the access mode it was opened with says. */
  lemma HandlesCarryPermissions(s: System, hash: Hash, r: Request)
    requires Allowed(s, r) && Step(s, hash, r).1.Opened?
    ensures r.Open? || r.OpenDir?
    ensures var fh, mode := Step(s, hash, r).1.fh, r.flags & O_ACCMODE;
            && (HandleReads(fh) <==> mode == O_RDONLY || mode == O_RDWR)
            && (HandleWrites(fh) <==> mode == O_WRONLY || mode == O_RDWR)
            && fh < TWO_64
  {
    StepCountsHandles(s, hash, r);
    var mode := OpenMode(r.flags, r.OpenDir?).value;
    HandleBits(s.nextHandle, mode.read, mode.write);
  }
}
