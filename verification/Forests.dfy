/** Graphs of named links between inodes, walks along paths of names, and the forest shape. A slot is a directory
    inode with a name in it; a graph maps the occupied slots to the inodes they name. */
module Forests {
  import opened Basics
  import opened Trees

  type Inode = nat
  type Slot = (Inode, Name)
  type Graph = map<Slot, Inode>
  type Path = seq<Name>

  /** The inode every mount is rooted at. */
  const ROOT: Inode := 1

  /** Follows a path of names from an inode. */
  function Walk(g: Graph, base: Inode, path: Path): Option<Inode>
    decreases |path|
  {
    if path == [] then Some(base)
    else if (base, path[0]) in g then Walk(g, g[(base, path[0])], path[1..])
    else None
  }

  ghost predicate Below(g: Graph, top: Inode, inode: Inode) {
    exists path :: Walk(g, top, path) == Some(inode)
  }

  /** No inode is named twice. */
  ghost predicate Unshared(g: Graph) {
    forall s, t :: s in g && t in g && g[s] == g[t] ==> s == t
  }

  /** The inode is named nowhere. */
  ghost predicate Unnamed(g: Graph, inode: Inode) {
    forall s :: s in g ==> g[s] != inode
  }

  ghost predicate Descending(g: Graph, rank: Inode -> nat) {
    forall s :: s in g ==> rank(s.0) < rank(g[s])
  }

  /** The links are well-founded. */
  ghost predicate Acyclic(g: Graph) {
    exists rank :: Descending(g, rank)
  }

  ghost predicate Forest(g: Graph) {
    Unshared(g) && Unnamed(g, ROOT) && Acyclic(g)
  }

  // ---------------------------------------------------------------- walks

  lemma {:induction false} WalkAppend(g: Graph, base: Inode, p: Path, q: Path)
    ensures Walk(g, base, p + q) ==
            match Walk(g, base, p) case None => None case Some(x) => Walk(g, x, q)
    decreases |p|
  {
    if p == [] {
      assert p + q == q;
    } else {
      assert (p + q)[1..] == p[1..] + q;
      if (base, p[0]) in g {
        WalkAppend(g, g[(base, p[0])], p[1..], q);
      }
    }
  }

  lemma WalkSnoc(g: Graph, base: Inode, p: Path, n: Name)
    ensures Walk(g, base, p + [n]) ==
            match Walk(g, base, p)
            case None => None
            case Some(x) => if (x, n) in g then Some(g[(x, n)]) else None
  {
    WalkAppend(g, base, p, [n]);
    match Walk(g, base, p)
    case None =>
    case Some(x) =>
      if (x, n) in g {
        assert Walk(g, x, [n]) == Walk(g, g[(x, n)], [n][1..]);
      }
  }

  lemma WalkStep(g: Graph, base: Inode, p: Path, k: nat)
    requires k < |p|
    ensures Walk(g, base, p[..k + 1]) ==
            match Walk(g, base, p[..k])
            case None => None
            case Some(x) => if (x, p[k]) in g then Some(g[(x, p[k])]) else None
  {
    assert p[..k + 1] == p[..k] + [p[k]];
    WalkSnoc(g, base, p[..k], p[k]);
  }

  lemma BelowExtends(g: Graph, top: Inode, s: Slot)
    requires Below(g, top, s.0) && s in g
    ensures Below(g, top, g[s])
  {
    var path :| Walk(g, top, path) == Some(s.0);
    WalkSnoc(g, top, path, s.1);
    assert Walk(g, top, path + [s.1]) == Some(g[s]);
  }

  lemma BelowSelf(g: Graph, top: Inode)
    ensures Below(g, top, top)
  {
    assert Walk(g, top, []) == Some(top);
  }

  lemma {:induction false} RankGrows(g: Graph, rank: Inode -> nat, base: Inode, path: Path)
    requires Descending(g, rank) && Walk(g, base, path).Some?
    ensures rank(base) + |path| <= rank(Walk(g, base, path).value)
    decreases |path|
  {
    if path != [] {
      assert (base, path[0]) in g;
      RankGrows(g, rank, g[(base, path[0])], path[1..]);
    }
  }

  lemma NoCycle(g: Graph, base: Inode, path: Path)
    requires Acyclic(g) && Walk(g, base, path) == Some(base)
    ensures path == []
  {
    var rank :| Descending(g, rank);
    RankGrows(g, rank, base, path);
  }

  lemma LastStep(g: Graph, base: Inode, path: Path) returns (slot: Slot)
    requires path != [] && Walk(g, base, path).Some?
    ensures slot in g && Walk(g, base, path) == Some(g[slot])
    ensures Walk(g, base, path[..|path| - 1]) == Some(slot.0) && path[|path| - 1] == slot.1
  {
    assert path[..|path|] == path;
    WalkStep(g, base, path, |path| - 1);
    slot := (Walk(g, base, path[..|path| - 1]).value, path[|path| - 1]);
  }

  /** From an unnamed inode, an inode is reached along one path only. */
  lemma {:induction false} PathsAreUnique(g: Graph, base: Inode, p: Path, q: Path)
    requires Unshared(g) && Unnamed(g, base)
    requires Walk(g, base, p).Some? && Walk(g, base, p) == Walk(g, base, q)
    ensures p == q
    decreases |p|
  {
    if p != [] && q != [] {
      var s := LastStep(g, base, p);
      var t := LastStep(g, base, q);
      assert s == t;
      PathsAreUnique(g, base, p[..|p| - 1], q[..|q| - 1]);
      assert p == p[..|p| - 1] + [s.1] && q == q[..|q| - 1] + [s.1];
    } else if p != [] {
      var s := LastStep(g, base, p);
    } else if q != [] {
      var s := LastStep(g, base, q);
    }
  }

  /** Two inodes with a common descendant lie on one branch. */
  lemma {:induction false} CommonDescendant(g: Graph, a: Inode, b: Inode, p: Path, q: Path)
    requires Unshared(g)
    requires Walk(g, a, p).Some? && Walk(g, a, p) == Walk(g, b, q)
    ensures Below(g, a, b) || Below(g, b, a)
    decreases |p|
  {
    if p != [] && q != [] {
      var s := LastStep(g, a, p);
      var t := LastStep(g, b, q);
      CommonDescendant(g, a, b, p[..|p| - 1], q[..|q| - 1]);
    }
  }

  // ---------------------------------------------------------------- adding a link to something new

  /** Nothing links to or from the inode. */
  ghost predicate Isolated(g: Graph, inode: Inode) {
    forall s :: s in g ==> s.0 != inode && g[s] != inode
  }

  lemma LinkKeepsForest(g: Graph, slot: Slot, inode: Inode)
    requires Forest(g) && Isolated(g, inode) && inode != slot.0 && inode != ROOT
    ensures Forest(g[slot := inode])
  {
    var rank :| Descending(g, rank);
    var rank' := (x: Inode) => if x == inode then rank(slot.0) + 1 else rank(x);
    assert Descending(g[slot := inode], rank');
  }

  /** Replacing everything under the root by a new graph on new inodes: below `start` the old links, from `start` on
      the new ones. */
  function Regrown(g: Graph, h: Graph): Graph {
    (map s | s in g && s.0 != ROOT :: g[s]) + h
  }

  /** h hangs off the root and lies on inodes from `start` on, children after their directories. */
  ghost predicate FreshGrowth(h: Graph, start: Inode) {
    forall s :: s in h ==> (s.0 == ROOT || start <= s.0) && start <= h[s] && s.0 < h[s]
  }

  /** Every link of g lies below `start`. */
  ghost predicate Before(g: Graph, start: Inode) {
    forall s :: s in g ==> s.0 < start && g[s] < start
  }

  lemma RegrownIsAcyclic(g: Graph, h: Graph, start: Inode)
    requires Acyclic(g) && Unnamed(g, ROOT) && FreshGrowth(h, start) && ROOT < start && Before(g, start)
    ensures Acyclic(Regrown(g, h))
  {
    var rank: Inode -> nat :| Descending(g, rank);
    var rank': Inode -> nat := (x: Inode) => if x == ROOT then 0 else if x < start then rank(x) else x;
    var g' := Regrown(g, h);
    forall s | s in g' ensures rank'(s.0) < rank'(g'[s]) {
      if s in h {
        assert s.0 < h[s] && start <= h[s];
      } else {
        assert s.0 != ROOT && g[s] != ROOT;
      }
    }
    assert Descending(g', rank');
  }

  lemma RegrownIsUnshared(g: Graph, h: Graph, start: Inode)
    requires Unshared(g) && Unshared(h) && FreshGrowth(h, start) && Before(g, start)
    ensures Unshared(Regrown(g, h))
  {
    var g' := Regrown(g, h);
    forall s, t | s in g' && t in g' && g'[s] == g'[t] ensures s == t {
      assert s in h <==> g'[s] >= start;
      assert t in h <==> g'[t] >= start;
    }
  }

  lemma RegrownIsForest(g: Graph, h: Graph, start: Inode)
    requires Forest(g) && Unshared(h) && FreshGrowth(h, start) && ROOT < start && Before(g, start)
    ensures Forest(Regrown(g, h))
  {
    RegrownIsAcyclic(g, h, start);
    RegrownIsUnshared(g, h, start);
    assert Unnamed(Regrown(g, h), ROOT);
  }

  // ---------------------------------------------------------------- moving a link

  /** The link in slot `from` moves to slot `to`, replacing what was there. */
  function Move(g: Graph, from: Slot, to: Slot): Graph
    requires from in g
  {
    (g - {from})[to := g[from]]
  }

  /** A move that does not put an inode below itself keeps the forest. */
  lemma MoveKeepsForest(g: Graph, from: Slot, to: Slot)
    requires Forest(g) && from in g && !Below(g, g[from], to.0)
    ensures Forest(Move(g, from, to))
  {
    var c, g' := g[from], Move(g, from, to);
    var rank :| Descending(g, rank);
    var rank' := (x: Inode) => if Below(g, c, x) then rank(x) + rank(to.0) + 1 else rank(x);
    BelowSelf(g, c);
    forall s | s in g' ensures rank'(s.0) < rank'(g'[s]) {
      if s != to {
        if Below(g, c, s.0) { BelowExtends(g, c, s); }
      }
    }
    assert Descending(g', rank');
  }

  /** The path goes through the slot at position k. */
  ghost predicate Via(g: Graph, base: Inode, path: Path, slot: Slot, k: nat) {
    k < |path| && Walk(g, base, path[..k]) == Some(slot.0) && path[k] == slot.1
  }

  ghost predicate Avoids(g: Graph, base: Inode, path: Path, slot: Slot) {
    forall k: nat :: !Via(g, base, path, slot, k)
  }

  lemma AvoidsPrefix(g: Graph, base: Inode, path: Path, slot: Slot, k: nat)
    requires k <= |path|
    requires forall j: nat :: j < k ==> !Via(g, base, path, slot, j)
    ensures Avoids(g, base, path[..k], slot)
  {
    forall j: nat | j < k ensures !Via(g, base, path[..k], slot, j) {
      assert path[..k][..j] == path[..j];
      assert !Via(g, base, path, slot, j);
    }
  }

  /** Walks that use neither slot are as before. */
  lemma {:induction false} MoveElsewhere(g: Graph, from: Slot, to: Slot, base: Inode, path: Path)
    requires from in g
    requires Avoids(g, base, path, from) && Avoids(g, base, path, to)
    ensures Walk(Move(g, from, to), base, path) == Walk(g, base, path)
    decreases |path|
  {
    if path != [] {
      var k := |path| - 1;
      AvoidsPrefix(g, base, path, from, k);
      AvoidsPrefix(g, base, path, to, k);
      MoveElsewhere(g, from, to, base, path[..k]);
      assert path[..k + 1] == path;
      WalkStep(g, base, path, k);
      WalkStep(Move(g, from, to), base, path, k);
      assert !Via(g, base, path, from, k) && !Via(g, base, path, to, k);
    }
  }

  /** Walks inside the moved subtree are as before. */
  lemma {:induction false} MoveInside(g: Graph, from: Slot, to: Slot, base: Inode, path: Path)
    requires from in g && Acyclic(g) && !Below(g, g[from], to.0) && Below(g, g[from], base)
    ensures Walk(Move(g, from, to), base, path) == Walk(g, base, path)
    decreases |path|
  {
    if path != [] {
      var s := (base, path[0]);
      assert s != to;
      assert s != from by {
        if s == from {
          var p :| Walk(g, g[from], p) == Some(base);
          WalkSnoc(g, g[from], p, from.1);
          NoCycle(g, g[from], p + [from.1]);
        }
      }
      if s in g {
        BelowExtends(g, g[from], s);
        MoveInside(g, from, to, g[s], path[1..]);
      }
    }
  }

  lemma SplitAt(g: Graph, base: Inode, path: Path, k: nat)
    requires k < |path|
    ensures Walk(g, base, path) ==
            match Walk(g, base, path[..k + 1]) case None => None case Some(x) => Walk(g, x, path[k + 1..])
  {
    assert path == path[..k + 1] + path[k + 1..];
    WalkAppend(g, base, path[..k + 1], path[k + 1..]);
  }

  /** A path reaches a slot once. */
  lemma ViaOnce(g: Graph, base: Inode, path: Path, slot: Slot, j: nat, k: nat)
    requires Acyclic(g) && j <= k && Via(g, base, path, slot, j) && Via(g, base, path, slot, k)
    ensures j == k
  {
    var between := path[j..k];
    assert path[..k] == path[..j] + between;
    WalkAppend(g, base, path[..j], between);
    NoCycle(g, slot.0, between);
  }

  lemma ViaLeadsBelow(g: Graph, base: Inode, path: Path, from: Slot, j: nat, k: nat)
    requires from in g && j < k <= |path| && Via(g, base, path, from, j) && Walk(g, base, path[..k]).Some?
    ensures Below(g, g[from], Walk(g, base, path[..k]).value)
  {
    WalkStep(g, base, path, j);
    assert path[..k] == path[..j + 1] + path[j + 1..k];
    WalkAppend(g, base, path[..j + 1], path[j + 1..k]);
    assert Walk(g, g[from], path[j + 1..k]) == Walk(g, base, path[..k]);
  }

  lemma NotBelowAvoids(g: Graph, base: Inode, path: Path, from: Slot, k: nat)
    requires from in g && k <= |path| && Walk(g, base, path[..k]).Some?
    requires !Below(g, g[from], Walk(g, base, path[..k]).value)
    ensures forall j: nat :: j < k ==> !Via(g, base, path, from, j)
  {
    forall j: nat | j < k ensures !Via(g, base, path, from, j) {
      if Via(g, base, path, from, j) { ViaLeadsBelow(g, base, path, from, j, k); }
    }
  }

  /** What every walk from every inode becomes after a move: through the new slot it continues in the moved subtree,
      through the vacated slot it fails, and otherwise it is unchanged. */
  lemma MoveWalks(g: Graph, from: Slot, to: Slot, base: Inode, path: Path)
    requires Acyclic(g) && from in g && !Below(g, g[from], to.0)
    ensures forall k: nat :: Via(g, base, path, to, k) ==>
              Walk(Move(g, from, to), base, path) == Walk(g, g[from], path[k + 1..])
    ensures Avoids(g, base, path, to) && !Avoids(g, base, path, from) ==> Walk(Move(g, from, to), base, path) == None
    ensures Avoids(g, base, path, to) && Avoids(g, base, path, from) ==>
              Walk(Move(g, from, to), base, path) == Walk(g, base, path)
  {
    forall k: nat | Via(g, base, path, to, k)
      ensures Walk(Move(g, from, to), base, path) == Walk(g, g[from], path[k + 1..])
    {
      MoveThroughNewSlot(g, from, to, base, path, k);
    }
    if Avoids(g, base, path, to) {
      if Avoids(g, base, path, from) {
        MoveElsewhere(g, from, to, base, path);
      } else {
        var k: nat :| Via(g, base, path, from, k);
        MoveThroughOldSlot(g, from, to, base, path, k);
      }
    }
  }

  lemma MoveThroughNewSlot(g: Graph, from: Slot, to: Slot, base: Inode, path: Path, k: nat)
    requires Acyclic(g) && from in g && !Below(g, g[from], to.0)
    requires Via(g, base, path, to, k)
    ensures Walk(Move(g, from, to), base, path) == Walk(g, g[from], path[k + 1..])
  {
    var g' := Move(g, from, to);
    NotBelowAvoids(g, base, path, from, k);
    AvoidsPrefix(g, base, path, from, k);
    forall j: nat | j < k ensures !Via(g, base, path, to, j) {
      if Via(g, base, path, to, j) { ViaOnce(g, base, path, to, j, k); }
    }
    AvoidsPrefix(g, base, path, to, k);
    MoveElsewhere(g, from, to, base, path[..k]);
    WalkStep(g', base, path, k);
    SplitAt(g', base, path, k);
    BelowSelf(g, g[from]);
    MoveInside(g, from, to, g[from], path[k + 1..]);
  }

  lemma MoveThroughOldSlot(g: Graph, from: Slot, to: Slot, base: Inode, path: Path, k: nat)
    requires Acyclic(g) && from in g
    requires Avoids(g, base, path, to) && Via(g, base, path, from, k)
    ensures Walk(Move(g, from, to), base, path) == None
  {
    var g' := Move(g, from, to);
    forall j: nat | j < k ensures !Via(g, base, path, from, j) {
      if Via(g, base, path, from, j) { ViaOnce(g, base, path, from, j, k); }
    }
    AvoidsPrefix(g, base, path, from, k);
    AvoidsPrefix(g, base, path, to, k);
    MoveElsewhere(g, from, to, base, path[..k]);
    assert from != to by { assert !Via(g, base, path, to, k); }
    WalkStep(g', base, path, k);
    SplitAt(g', base, path, k);
  }

  // ---------------------------------------------------------------- a new link, as walks see it

  /** Walks that do not use the new slot are as before. */
  lemma {:induction false} LinkElsewhere(g: Graph, slot: Slot, inode: Inode, base: Inode, path: Path)
    requires Avoids(g, base, path, slot)
    ensures Walk(g[slot := inode], base, path) == Walk(g, base, path)
    decreases |path|
  {
    if path != [] {
      var k := |path| - 1;
      AvoidsPrefix(g, base, path, slot, k);
      LinkElsewhere(g, slot, inode, base, path[..k]);
      assert path[..k + 1] == path;
      WalkStep(g, base, path, k);
      WalkStep(g[slot := inode], base, path, k);
      assert !Via(g, base, path, slot, k);
    }
  }

  /** Through the new slot, a walk arrives at the new inode or fails. */
  lemma LinkThroughSlot(g: Graph, slot: Slot, inode: Inode, base: Inode, path: Path, k: nat)
    requires slot !in g && Isolated(g, inode) && inode != slot.0 && Via(g, base, path, slot, k)
    ensures Walk(g[slot := inode], base, path) == if |path| == k + 1 then Some(inode) else None
  {
    var g' := g[slot := inode];
    forall j: nat | j < k ensures !Via(g, base, path, slot, j) {
      if Via(g, base, path, slot, j) { ViaVacantSlot(g, slot, base, path, j, k); }
    }
    AvoidsPrefix(g, base, path, slot, k);
    LinkElsewhere(g, slot, inode, base, path[..k]);
    WalkStep(g', base, path, k);
    SplitAt(g', base, path, k);
    if |path| > k + 1 {
      assert (inode, path[k + 1..][0]) !in g';
    }
  }

  lemma ViaVacantSlot(g: Graph, slot: Slot, base: Inode, path: Path, j: nat, k: nat)
    requires slot !in g && j < k <= |path| && Via(g, base, path, slot, j)
    ensures Walk(g, base, path[..k]) == None
  {
    WalkStep(g, base, path, j);
    assert path[..k] == path[..j + 1] + path[j + 1..k];
    WalkAppend(g, base, path[..j + 1], path[j + 1..k]);
  }

  // ---------------------------------------------------------------- the move, seen from the root

  lemma ViaIsPrefix(g: Graph, dir: Path, slot: Slot, path: Path)
    requires Unshared(g) && Unnamed(g, ROOT) && Walk(g, ROOT, dir) == Some(slot.0)
    ensures dir + [slot.1] <= path <==> !Avoids(g, ROOT, path, slot)
    ensures dir + [slot.1] <= path ==> Via(g, ROOT, path, slot, |dir|)
  {
    if dir + [slot.1] <= path {
      assert path[..|dir|] == dir;
      assert path[|dir|] == (dir + [slot.1])[|dir|];
      assert Via(g, ROOT, path, slot, |dir|);
    }
    if !Avoids(g, ROOT, path, slot) {
      var k: nat :| Via(g, ROOT, path, slot, k);
      PathsAreUnique(g, ROOT, dir, path[..k]);
      assert dir + [slot.1] == path[..k + 1];
    }
  }

  /** The path that a path has after the move: its counterpart below the old path, nothing, or itself. */
  function Counterpart(oldPath: Path, newPath: Path, path: Path): Option<Path> {
    if newPath <= path then Some(oldPath + path[|newPath|..])
    else if oldPath <= path then None
    else Some(path)
  }

  function WalkMoved(g: Graph, oldPath: Path, newPath: Path, path: Path): Option<Inode> {
    match Counterpart(oldPath, newPath, path)
    case None => None
    case Some(p) => Walk(g, ROOT, p)
  }

  /** A move takes the subtree at one path to another path: below the new path everything resolves as it did below
      the old one, nothing resolves below the old one, and every other path is unchanged. */
  lemma MoveMovesSubtree(g: Graph, oldDir: Path, from: Slot, newDir: Path, to: Slot, path: Path)
    requires Forest(g) && from in g && !Below(g, g[from], to.0)
    requires Walk(g, ROOT, oldDir) == Some(from.0)
    requires Walk(g, ROOT, newDir) == Some(to.0)
    ensures Walk(Move(g, from, to), ROOT, path) == WalkMoved(g, oldDir + [from.1], newDir + [to.1], path)
  {
    var oldPath, newPath := oldDir + [from.1], newDir + [to.1];
    ViaIsPrefix(g, newDir, to, path);
    ViaIsPrefix(g, oldDir, from, path);
    MoveWalks(g, from, to, ROOT, path);
    if newPath <= path {
      WalkSnoc(g, ROOT, oldDir, from.1);
      WalkAppend(g, ROOT, oldPath, path[|newPath|..]);
    }
  }

  /** A new link adds one path and changes no other. */
  lemma LinkAddsPath(g: Graph, dir: Path, slot: Slot, inode: Inode, path: Path)
    requires Unshared(g) && Unnamed(g, ROOT) && Walk(g, ROOT, dir) == Some(slot.0)
    requires slot !in g && Isolated(g, inode) && inode != slot.0
    ensures Walk(g[slot := inode], ROOT, path) ==
            if path == dir + [slot.1] then Some(inode)
            else if dir + [slot.1] <= path then None
            else Walk(g, ROOT, path)
  {
    ViaIsPrefix(g, dir, slot, path);
    if dir + [slot.1] <= path {
      LinkThroughSlot(g, slot, inode, ROOT, path, |dir|);
      assert |path| == |dir| + 1 ==> path == dir + [slot.1];
    } else {
      LinkElsewhere(g, slot, inode, ROOT, path);
    }
  }
}
