/** Which stored trees can be turned into inodes. The condition looks only at the trees below the one inserted: what
    else is stored does not matter. */
module Insertability {
  import opened Basics
  import opened Trees
  import opened Stores

  // ---------------------------------------------------------------- the condition

  /** What one entry of a tree of rank `above` refers to is stored, and is a tree of the set with a smaller rank or no
      tree. */
  ghost predicate EntryCertified(s: Stored, rank: map<Id, nat>, above: nat, e: TreeEntry) {
    match e
    case FileEntry(id, _) => id in s.files
    case SubTree(id) => id in rank && rank[id] < above
    case SymlinkEntry(id) => id in s.symlinks
    case ConflictEntry(_) => false
  }

  /** The ranked trees are stored, refer to stored things only, and among themselves only to trees of smaller rank. */
  ghost predicate Certifies(s: Stored, rank: map<Id, nat>) {
    && rank.Keys <= s.trees.Keys
    && forall id, e :: id in rank && e in s.trees[id] ==> EntryCertified(s, rank, rank[id], e.1)
  }

  /** The tree belongs to a set of stored trees without dangling references, conflicts and cycles. */
  ghost predicate Insertable(s: Stored, id: Id) {
    id in s.trees && exists rank: map<Id, nat> :: id in rank && Certifies(s, rank)
  }

  /** A set of stored trees that has, with every tree, the trees it refers to. */
  ghost predicate Referring(s: Stored, ids: set<Id>) {
    && ids <= s.trees.Keys
    && forall id, e :: id in ids && e in s.trees[id] && e.1.SubTree? ==> e.1.id in ids
  }

  /** Some set of trees that has the given one and all it refers to. */
  ghost function TreesBelow(s: Stored, id: Id): (ids: set<Id>)
    requires Insertable(s, id)
    ensures id in ids && Referring(s, ids)
  {
    var rank: map<Id, nat> :| id in rank && Certifies(s, rank);
    assert forall t, e :: t in rank && e in s.trees[t] ==> EntryCertified(s, rank, rank[t], e.1);
    rank.Keys
  }

  // ---------------------------------------------------------------- names

  /** The entry a tree holds under a name; a later entry hides an earlier one. */
  function FindEntry(tree: Tree, name: Name): Option<TreeEntry> {
    if tree == [] then None
    else
      var last := tree[|tree| - 1];
      if last.0 == name then Some(last.1) else FindEntry(tree[..|tree| - 1], name)
  }

  lemma {:induction false} FindEntryIsListed(tree: Tree, name: Name)
    ensures FindEntry(tree, name).Some? ==> (name, FindEntry(tree, name).value) in tree
  {
    if tree != [] {
      FindEntryIsListed(tree[..|tree| - 1], name);
      assert tree == tree[..|tree| - 1] + [tree[|tree| - 1]];
    }
  }

  /** A tree in which the names "." and ".." do no harm: it has no entry ".", an entry ".." is a directory, and no
      ordinary name leads to a directory that has an entry "..". */
  ghost predicate HarmlessTree(s: Stored, tree: Tree) {
    && FindEntry(tree, DOT).None?
    && (FindEntry(tree, DOTDOT).Some? ==> FindEntry(tree, DOTDOT).value.SubTree?)
    && forall n :: Ordinary(n) ==> LeadsToNoDotDot(s, FindEntry(tree, n))
  }

  ghost predicate AllHarmless(s: Stored, ids: set<Id>)
    requires ids <= s.trees.Keys
  {
    forall t :: t in ids ==> HarmlessTree(s, s.trees[t])
  }

  ghost predicate LeadsToNoDotDot(s: Stored, found: Option<TreeEntry>) {
    found.Some? && found.value.SubTree? && found.value.id in s.trees ==>
      FindEntry(s.trees[found.value.id], DOTDOT).None?
  }

  /** The names "." and ".." do no harm in any tree that can be reached from this one, nor ".." in this one itself. */
  ghost predicate Rootable(s: Stored, id: Id) {
    && id in s.trees && FindEntry(s.trees[id], DOTDOT).None?
    && exists ids: set<Id> :: id in ids && Referring(s, ids) && AllHarmless(s, ids)
  }

  /** No tree that can be reached from this one names an entry "." or "..". */
  ghost predicate ProperlyNamed(s: Stored, id: Id) {
    exists ids: set<Id> :: id in ids && Referring(s, ids) && ProperNames(s, ids)
  }

  ghost predicate ProperNames(s: Stored, ids: set<Id>)
    requires ids <= s.trees.Keys
  {
    forall id, e :: id in ids && e in s.trees[id] ==> Ordinary(e.0)
  }

  lemma ProperIsRootable(s: Stored, id: Id)
    requires ProperlyNamed(s, id)
    ensures Rootable(s, id)
  {
    var ids: set<Id> :| id in ids && Referring(s, ids) && ProperNames(s, ids);
    forall t | t in ids ensures FindEntry(s.trees[t], DOT).None? && FindEntry(s.trees[t], DOTDOT).None? {
      FindEntryIsListed(s.trees[t], DOT);
      FindEntryIsListed(s.trees[t], DOTDOT);
    }
    forall t | t in ids ensures HarmlessTree(s, s.trees[t]) {
      forall n | Ordinary(n) ensures LeadsToNoDotDot(s, FindEntry(s.trees[t], n)) {
        FindEntryIsListed(s.trees[t], n);
      }
    }
    assert AllHarmless(s, ids);
  }

  lemma FindLast(tree: Tree, e: (Name, TreeEntry), name: Name)
    ensures FindEntry(tree + [e], name) == if e.0 == name then Some(e.1) else FindEntry(tree, name)
  {
    assert (tree + [e])[..|tree|] == tree;
  }

  /** An entry ".." can be harmless: when the tree that has it only occurs where another entry hides it. */
  lemma HiddenDotDotIsHarmless(s: Stored, name: Name, empty: Id, hidden: Id, id: Id)
    requires Ordinary(name) && {empty, hidden, id} <= s.trees.Keys
    requires s.trees[empty] == [] && s.trees[hidden] == [(DOTDOT, SubTree(empty))]
    requires s.trees[id] == [(name, SubTree(hidden)), (name, SubTree(empty))]
    ensures Rootable(s, id) && !ProperlyNamed(s, id)
  {
    var tree, ids := s.trees[id], {empty, hidden, id};
    forall n ensures FindEntry(tree, n) == if n == name then Some(SubTree(empty)) else None {
      FindLast([(name, SubTree(hidden))], (name, SubTree(empty)), n);
      FindLast([], (name, SubTree(hidden)), n);
    }
    forall n ensures FindEntry(s.trees[hidden], n) == if n == DOTDOT then Some(SubTree(empty)) else None {
      FindLast([], (DOTDOT, SubTree(empty)), n);
    }
    assert Referring(s, ids) && AllHarmless(s, ids);
    assert tree[0].1 == SubTree(hidden) && tree[0] in tree;
    forall all: set<Id> | id in all && Referring(s, all) ensures !ProperNames(s, all) {
      assert hidden in all && s.trees[hidden][0] in s.trees[hidden];
    }
  }

  // ---------------------------------------------------------------- how deep an insertion recurses

  /** The recursion over the tree ends without a failure within the given depth. */
  ghost predicate Completes(s: Stored, id: Id, fuel: nat)
    decreases fuel, 0
  {
    fuel > 0 && id in s.trees && forall e :: e in s.trees[id] ==> EntryCompletes(s, e.1, fuel - 1)
  }

  ghost predicate EntryCompletes(s: Stored, e: TreeEntry, fuel: nat)
    decreases fuel, 1
  {
    match e
    case FileEntry(id, _) => id in s.files
    case SubTree(id) => Completes(s, id, fuel)
    case SymlinkEntry(id) => id in s.symlinks
    case ConflictEntry(_) => false
  }

  ghost predicate Ends(s: Stored, id: Id) {
    exists fuel: nat :: Completes(s, id, fuel)
  }

  lemma {:induction false} CompletesMore(s: Stored, id: Id, fuel: nat, more: nat)
    requires Completes(s, id, fuel) && fuel <= more
    ensures Completes(s, id, more)
    decreases fuel
  {
    forall e | e in s.trees[id] ensures EntryCompletes(s, e.1, more - 1) {
      assert EntryCompletes(s, e.1, fuel - 1);
      if e.1.SubTree? { CompletesMore(s, e.1.id, fuel - 1, more - 1); }
    }
  }

  /** The least depth that is enough. */
  ghost function Least(s: Stored, id: Id, fuel: nat): (least: nat)
    requires Completes(s, id, fuel)
    ensures Completes(s, id, least)
    ensures least > 0 && !Completes(s, id, least - 1)
  {
    if Completes(s, id, fuel - 1) then Least(s, id, fuel - 1) else fuel
  }

  ghost function EndsAt(s: Stored, id: Id): nat
    requires Ends(s, id)
  {
    var fuel: nat :| Completes(s, id, fuel);
    Least(s, id, fuel)
  }

  lemma EndsAtIsLeast(s: Stored, id: Id)
    requires Ends(s, id)
    ensures EndsAt(s, id) > 0 && Completes(s, id, EndsAt(s, id)) && !Completes(s, id, EndsAt(s, id) - 1)
  {
  }

  /** What a tree refers to ends earlier than the tree. */
  lemma EntryEndsEarlier(s: Stored, id: Id, e: (Name, TreeEntry))
    requires Ends(s, id) && id in s.trees && e in s.trees[id]
    ensures Present(s, e.1)
    ensures e.1.SubTree? ==> Ends(s, e.1.id) && EndsAt(s, e.1.id) < EndsAt(s, id)
  {
    var depth := EndsAt(s, id);
    EndsAtIsLeast(s, id);
    assert EntryCompletes(s, e.1, depth - 1);
    if e.1.SubTree? {
      assert Completes(s, e.1.id, depth - 1);
      EndsAtIsLeast(s, e.1.id);
      if EndsAt(s, e.1.id) >= depth {
        CompletesMore(s, e.1.id, depth - 1, EndsAt(s, e.1.id) - 1);
      }
    }
  }

  lemma {:induction false} CertifiedCompletes(s: Stored, rank: map<Id, nat>, id: Id)
    requires Certifies(s, rank) && id in rank
    ensures Completes(s, id, rank[id] + 1)
    decreases rank[id]
  {
    forall e | e in s.trees[id] ensures EntryCompletes(s, e.1, rank[id]) {
      assert EntryCertified(s, rank, rank[id], e.1);
      if e.1.SubTree? {
        CertifiedCompletes(s, rank, e.1.id);
        CompletesMore(s, e.1.id, rank[e.1.id] + 1, rank[id]);
      }
    }
  }

  /** A tree can be inserted exactly when the recursion over it ends within some depth. */
  lemma InsertableEnds(s: Stored, id: Id)
    ensures Insertable(s, id) <==> Ends(s, id)
  {
    if Insertable(s, id) {
      var rank: map<Id, nat> :| id in rank && Certifies(s, rank);
      CertifiedCompletes(s, rank, id);
    }
    if Ends(s, id) {
      var rank: map<Id, nat> := map t | t in s.trees && Ends(s, t) :: EndsAt(s, t);
      forall t, e | t in rank && e in s.trees[t] ensures EntryCertified(s, rank, rank[t], e.1) {
        EntryEndsEarlier(s, t, e);
      }
      assert Certifies(s, rank);
    }
  }

  /** A measure that decreases from an insertable tree to the trees in it. */
  ghost function Depth(s: Stored, id: Id): nat
    requires Insertable(s, id)
  {
    InsertableEnds(s, id);
    EndsAt(s, id)
  }

  /** What an insertable tree refers to is stored and insertable, at a smaller depth. */
  lemma EntryReady(s: Stored, id: Id, e: (Name, TreeEntry))
    requires Insertable(s, id) && e in s.trees[id]
    ensures Present(s, e.1)
    ensures e.1.SubTree? ==> Insertable(s, e.1.id) && Depth(s, e.1.id) < Depth(s, id)
  {
    InsertableEnds(s, id);
    EntryEndsEarlier(s, id, e);
    if e.1.SubTree? { InsertableEnds(s, e.1.id); }
  }

  // ---------------------------------------------------------------- trees that are and trees that are not

  /** In a closed store every tree can be inserted: the order of first writes is a rank. */
  lemma ClosedIsInsertable(s: Stored, id: Id)
    requires Closed(s) && Ordered(s) && id in s.trees
    ensures Insertable(s, id) && ProperlyNamed(s, id) && Rootable(s, id)
  {
    forall t, e | t in s.order && e in s.trees[t] ensures EntryCertified(s, s.order, s.order[t], e.1) && Ordinary(e.0) {
      assert EntryOK(s, t, e);
    }
    assert Certifies(s, s.order);
    forall t, e | t in s.trees && e in s.trees[t] && e.1.SubTree? ensures e.1.id in s.trees.Keys {
      assert EntryOK(s, t, e);
    }
    assert Referring(s, s.trees.Keys) && ProperNames(s, s.trees.Keys);
    ProperIsRootable(s, id);
  }

  lemma EmptyTreeIsInsertable(s: Stored, id: Id)
    requires id in s.trees && s.trees[id] == []
    ensures Insertable(s, id) && ProperlyNamed(s, id) && Rootable(s, id)
  {
    assert Certifies(s, map[id := 0]);
    assert Referring(s, {id}) && ProperNames(s, {id});
    ProperIsRootable(s, id);
  }

  /** A tree with a dangling reference, a conflict or a reference to itself cannot be inserted. */
  lemma BadEntryIsNotInsertable(s: Stored, id: Id, e: (Name, TreeEntry))
    requires id in s.trees && e in s.trees[id]
    requires !Present(s, e.1) || e.1 == SubTree(id)
    ensures !Insertable(s, id)
  {
    if Insertable(s, id) { EntryReady(s, id, e); }
  }

  /** Trees stored elsewhere do not matter: what can be inserted still can after the store has grown. */
  lemma InsertableGrows(s: Stored, s': Stored, id: Id)
    requires Insertable(s, id) && Grows(s, s')
    ensures Insertable(s', id)
  {
    var rank: map<Id, nat> :| id in rank && Certifies(s, rank);
    forall t, e | t in rank && e in s'.trees[t] ensures EntryCertified(s', rank, rank[t], e.1) {
      assert EntryCertified(s, rank, rank[t], e.1);
    }
    assert Certifies(s', rank);
  }
}
