/** The content-addressed store, its writers, and what every run of writers keeps. */
module Stores {
  import opened Basics
  import opened ContentHash
  import opened Preimages
  import opened Trees

  /** The contents of the store. `hashed` collects the byte strings hashed to make keys; `order` records at which
      position each tree id was first written. */
  datatype Stored = Stored(
    trees: map<Id, Tree>,
    files: map<Id, Bytes>,
    symlinks: map<Id, Bytes>,
    hashed: set<Bytes>,
    order: map<Id, nat>)

  // ---------------------------------------------------------------- the writers

  /** A fresh store holds the empty tree. */
  function EmptyStored(hash: Hash): Stored {
    var empty: Tree := [];
    var id := hash(TreePreimage(empty));
    Stored(map[id := empty], map[], map[], {TreePreimage(empty)}, map[id := 0])
  }

  function PutFile(s: Stored, hash: Hash, preimage: Bytes, content: Bytes): Stored {
    s.(files := s.files[hash(preimage) := content], hashed := s.hashed + {preimage})
  }

  function PutSymlink(s: Stored, hash: Hash, preimage: Bytes, target: Bytes): Stored {
    s.(symlinks := s.symlinks[hash(preimage) := target], hashed := s.hashed + {preimage})
  }

  function PutTree(s: Stored, hash: Hash, tree: Tree): Stored
    requires Hashable(tree)
  {
    var id := hash(TreePreimage(tree));
    s.(trees := s.trees[id := tree],
       hashed := s.hashed + {TreePreimage(tree)},
       order := if id in s.order then s.order else s.order[id := |s.trees|])
  }

  // ---------------------------------------------------------------- what the writers keep

  /** The key is the hash of one of the two preimages of the content, and that preimage was hashed. */
  ghost predicate Keyed(hash: Hash, hashed: set<Bytes>, id: Id, content: Bytes) {
    && |content| < TWO_63
    && (|| (ContentPreimage(content) in hashed && id == hash(ContentPreimage(content)))
        || (ProtoPreimage(content) in hashed && id == hash(ProtoPreimage(content))))
  }

  ghost predicate TreeKeyed(hash: Hash, hashed: set<Bytes>, id: Id, tree: Tree) {
    && Hashable(tree) && FitsMemory(tree)
    && TreePreimage(tree) in hashed && id == hash(TreePreimage(tree))
  }

  /** What a tree entry refers to is stored. */
  ghost predicate Present(s: Stored, e: TreeEntry) {
    match e
    case FileEntry(id, _) => id in s.files
    case SubTree(id) => id in s.trees
    case SymlinkEntry(id) => id in s.symlinks
    case ConflictEntry(_) => false
  }

  ghost predicate EntryOK(s: Stored, parent: Id, entry: (Name, TreeEntry)) {
    && Ordinary(entry.0)
    && Present(s, entry.1)
    && (entry.1.SubTree? ==> parent in s.order && entry.1.id in s.order && s.order[entry.1.id] < s.order[parent])
  }

  /** Every stored tree refers to stored things, and to trees first written before it: the first-write order is a
      strictly decreasing measure along the references. */
  ghost predicate Closed(s: Stored) {
    forall id, e :: id in s.trees && e in s.trees[id] ==> EntryOK(s, id, e)
  }

  ghost predicate Ordered(s: Stored) {
    && s.order.Keys == s.trees.Keys
    && forall id :: id in s.order ==> s.order[id] < |s.trees|
  }

  ghost predicate StoredOK(hash: Hash, s: Stored) {
    && (forall id :: id in s.files ==> Keyed(hash, s.hashed, id, s.files[id]))
    && (forall id :: id in s.symlinks ==> Keyed(hash, s.hashed, id, s.symlinks[id]))
    && (forall id :: id in s.trees ==> TreeKeyed(hash, s.hashed, id, s.trees[id]))
    && Ordered(s)
  }

  /** Nothing stored is lost or bound to another value. */
  ghost predicate Grows(s: Stored, s': Stored) {
    && (forall id :: id in s.files ==> id in s'.files && s'.files[id] == s.files[id])
    && (forall id :: id in s.symlinks ==> id in s'.symlinks && s'.symlinks[id] == s.symlinks[id])
    && (forall id :: id in s.trees ==> id in s'.trees && s'.trees[id] == s.trees[id])
    && (forall id :: id in s.order ==> id in s'.order && s'.order[id] == s.order[id])
    && s.hashed <= s'.hashed
  }

  /** A tree with proper names that refers to stored things only. The writers do not check this. */
  ghost predicate Supported(s: Stored, tree: Tree) {
    forall e :: e in tree ==> Ordinary(e.0) && Present(s, e.1)
  }

  lemma EmptyStoredOK(hash: Hash)
    ensures StoredOK(hash, EmptyStored(hash)) && Closed(EmptyStored(hash))
  {
  }

  /** The key schemes never rebind: a key made of either preimage of a content can only be bound to that content. */
  lemma KeyDetermines(hash: Hash, hashed: set<Bytes>, id: Id, a: Bytes, b: Bytes)
    requires CollisionFree(hash, hashed)
    requires Keyed(hash, hashed, id, a) && Keyed(hash, hashed, id, b)
    ensures a == b
  {
    SchemesNeverClash(a, b);
    SchemesNeverClash(b, a);
    if ContentPreimage(a) == ContentPreimage(b) { ContentPreimageInjective(a, b); }
    if ProtoPreimage(a) == ProtoPreimage(b) { ProtoPreimageInjective(a, b); }
  }

  /** One of the two preimages under which a content may be written. */
  ghost predicate IsPreimage(preimage: Bytes, content: Bytes) {
    preimage == ContentPreimage(content) || preimage == ProtoPreimage(content)
  }

  lemma GrowsKeepsEntries(s: Stored, s': Stored)
    requires Closed(s) && Grows(s, s') && s'.trees == s.trees
    ensures Closed(s')
  {
    forall id, e | id in s'.trees && e in s'.trees[id] ensures EntryOK(s', id, e) {
      assert EntryOK(s, id, e);
    }
  }

  lemma PutFileKeeps(hash: Hash, s: Stored, preimage: Bytes, content: Bytes)
    requires StoredOK(hash, s) && |content| < TWO_63 && IsPreimage(preimage, content)
    requires CollisionFree(hash, PutFile(s, hash, preimage, content).hashed)
    ensures StoredOK(hash, PutFile(s, hash, preimage, content))
    ensures Grows(s, PutFile(s, hash, preimage, content))
  {
    var s' := PutFile(s, hash, preimage, content);
    var id := hash(preimage);
    assert Keyed(hash, s'.hashed, id, content);
    if id in s.files {
      KeyDetermines(hash, s'.hashed, id, s.files[id], content);
    }
  }

  lemma PutSymlinkKeeps(hash: Hash, s: Stored, preimage: Bytes, target: Bytes)
    requires StoredOK(hash, s) && |target| < TWO_63 && IsPreimage(preimage, target)
    requires CollisionFree(hash, PutSymlink(s, hash, preimage, target).hashed)
    ensures StoredOK(hash, PutSymlink(s, hash, preimage, target))
    ensures Grows(s, PutSymlink(s, hash, preimage, target))
  {
    var s' := PutSymlink(s, hash, preimage, target);
    var id := hash(preimage);
    assert Keyed(hash, s'.hashed, id, target);
    if id in s.symlinks {
      KeyDetermines(hash, s'.hashed, id, s.symlinks[id], target);
    }
  }

  lemma RewritingATree(hash: Hash, s: Stored, tree: Tree)
    requires StoredOK(hash, s) && Hashable(tree) && FitsMemory(tree)
    requires CollisionFree(hash, PutTree(s, hash, tree).hashed)
    requires hash(TreePreimage(tree)) in s.trees
    ensures PutTree(s, hash, tree) == s.(hashed := s.hashed + {TreePreimage(tree)})
  {
    var id := hash(TreePreimage(tree));
    assert TreeKeyed(hash, s.hashed, id, s.trees[id]);
    assert TreePreimage(s.trees[id]) in PutTree(s, hash, tree).hashed;
    TreePreimageInjective(s.trees[id], tree);
    assert s.trees[id := tree] == s.trees;
  }

  lemma NewTreeKeeps(hash: Hash, s: Stored, tree: Tree)
    requires StoredOK(hash, s) && Hashable(tree) && FitsMemory(tree)
    requires hash(TreePreimage(tree)) !in s.trees
    ensures StoredOK(hash, PutTree(s, hash, tree)) && Grows(s, PutTree(s, hash, tree))
  {
    var preimage := TreePreimage(tree);
    var id := hash(preimage);
    var s' := PutTree(s, hash, tree);
    assert s'.trees == s.trees[id := tree] && s'.hashed == s.hashed + {preimage};
    assert |s'.trees| == |s.trees| + 1;
    assert TreeKeyed(hash, s'.hashed, id, tree);
  }

  /** Writing a tree rebinds nothing and keeps the record of first writes; writing one that is already stored changes
      nothing. */
  lemma PutTreeKeeps(hash: Hash, s: Stored, tree: Tree)
    requires StoredOK(hash, s) && Hashable(tree) && FitsMemory(tree)
    requires CollisionFree(hash, PutTree(s, hash, tree).hashed)
    ensures StoredOK(hash, PutTree(s, hash, tree))
    ensures Grows(s, PutTree(s, hash, tree))
    ensures hash(TreePreimage(tree)) in s.trees ==>
              PutTree(s, hash, tree) == s.(hashed := s.hashed + {TreePreimage(tree)})
  {
    if hash(TreePreimage(tree)) in s.trees {
      RewritingATree(hash, s, tree);
    } else {
      NewTreeKeeps(hash, s, tree);
    }
  }

  lemma NewTreeCloses(hash: Hash, s: Stored, tree: Tree)
    requires Closed(s) && Ordered(s) && Hashable(tree)
    requires hash(TreePreimage(tree)) !in s.trees
    ensures Closed(PutTree(s, hash, tree)) <==> Supported(s, tree)
  {
    var s' := PutTree(s, hash, tree);
    var id := hash(TreePreimage(tree));
    if Supported(s, tree) {
      forall i, e | i in s'.trees && e in s'.trees[i] ensures EntryOK(s', i, e) {
        if i != id { assert EntryOK(s, i, e); }
      }
    }
    if Closed(s') {
      forall e | e in tree ensures Ordinary(e.0) && Present(s, e.1) {
        assert EntryOK(s', id, e);
      }
    }
  }

  /** A tree written to a closed store leaves it closed exactly when the tree has proper names and refers to stored
      things only. */
  lemma WriteCloses(hash: Hash, s: Stored, tree: Tree)
    requires StoredOK(hash, s) && Closed(s) && Hashable(tree) && FitsMemory(tree)
    requires CollisionFree(hash, PutTree(s, hash, tree).hashed)
    ensures Closed(PutTree(s, hash, tree)) <==> Supported(s, tree)
  {
    var id := hash(TreePreimage(tree));
    if id in s.trees {
      RewritingATree(hash, s, tree);
      GrowsKeepsEntries(s, PutTree(s, hash, tree));
      assert tree == s.trees[id] by { assert PutTree(s, hash, tree).trees[id] == tree; }
      forall e | e in tree ensures Ordinary(e.0) && Present(s, e.1) {
        assert EntryOK(s, id, e);
      }
    } else {
      NewTreeCloses(hash, s, tree);
    }
  }

  // ---------------------------------------------------------------- the shared store object

  class Store {
    const hash: Hash
    const emptyTreeId: Id
    var trees: map<Id, Tree>
    var files: map<Id, Bytes>
    var symlinks: map<Id, Bytes>
    ghost var hashed: set<Bytes>
    ghost var order: map<Id, nat>

    ghost function State(): Stored
      reads this
    {
      Stored(trees, files, symlinks, hashed, order)
    }

    constructor (hash: Hash)
      ensures this.hash == hash
      ensures State() == EmptyStored(hash) && emptyTreeId in trees && trees[emptyTreeId] == []
    {
      var empty: Tree := [];
      var hasher := new Hasher();
      hasher.Update(TreeVal(empty));
      var id := hash(hasher.input);
      assert hasher.input == TreePreimage(empty);
      this.hash := hash;
      emptyTreeId := id;
      trees, files, symlinks := map[id := empty], map[], map[];
      hashed, order := {TreePreimage(empty)}, map[id := 0];
    }

    method GetTree(id: Id) returns (tree: Option<Tree>)
      ensures tree == if id in trees then Some(trees[id]) else None
    {
      tree := if id in trees then Some(trees[id]) else None;
    }

    method GetFile(id: Id) returns (content: Option<Bytes>)
      ensures content == if id in files then Some(files[id]) else None
    {
      content := if id in files then Some(files[id]) else None;
    }

    method GetSymlink(id: Id) returns (target: Option<Bytes>)
      ensures target == if id in symlinks then Some(symlinks[id]) else None
    {
      target := if id in symlinks then Some(symlinks[id]) else None;
    }

    /** `get_hash` of a file or symlink. */
    method ContentId(content: Bytes) returns (id: Id)
      ensures id == hash(ContentPreimage(content))
    {
      var hasher := new Hasher();
      hasher.Update(VPair(BytesVal(content), VUnit));
      ContentPreimageIsStream(content);
      assert hasher.input == ContentPreimage(content);
      id := hash(hasher.input);
    }

    /** Binds a file under the key made of the given preimage. */
    method InsertFile(id: Id, content: Bytes, ghost preimage: Bytes)
      requires id == hash(preimage)
      modifies this
      ensures State() == PutFile(old(State()), hash, preimage, content)
    {
      files := files[id := content];
      hashed := hashed + {preimage};
    }

    method InsertSymlink(id: Id, target: Bytes, ghost preimage: Bytes)
      requires id == hash(preimage)
      modifies this
      ensures State() == PutSymlink(old(State()), hash, preimage, target)
    {
      symlinks := symlinks[id := target];
      hashed := hashed + {preimage};
    }

    method WriteFile(content: Bytes) returns (id: Id)
      modifies this
      ensures id == hash(ContentPreimage(content))
      ensures State() == PutFile(old(State()), hash, ContentPreimage(content), content)
    {
      id := ContentId(content);
      InsertFile(id, content, ContentPreimage(content));
    }

    method WriteSymlink(target: Bytes) returns (id: Id)
      modifies this
      ensures id == hash(ContentPreimage(target))
      ensures State() == PutSymlink(old(State()), hash, ContentPreimage(target), target)
    {
      id := ContentId(target);
      InsertSymlink(id, target, ContentPreimage(target));
    }

    method WriteTree(tree: Tree) returns (id: Id)
      requires Hashable(tree)
      modifies this
      ensures id == hash(TreePreimage(tree))
      ensures State() == PutTree(old(State()), hash, tree)
    {
      var hasher := new Hasher();
      hasher.Update(TreeVal(tree));
      assert hasher.input == TreePreimage(tree);
      id := hash(hasher.input);
      if id !in order { order := order[id := |trees|]; }
      trees := trees[id := tree];
      hashed := hashed + {TreePreimage(tree)};
    }
  }

  /** The service side of the same store: keys are hashes of the encoded messages. */
  class BackendService {
    const store: Store

    constructor (store: Store)
      ensures this.store == store
    {
      this.store := store;
    }

    method WriteFile(data: Bytes) returns (id: Id)
      modifies store
      ensures id == store.hash(ProtoPreimage(data))
      ensures store.State() == PutFile(old(store.State()), store.hash, ProtoPreimage(data), data)
    {
      id := store.hash(ProtoPreimage(data));
      store.InsertFile(id, data, ProtoPreimage(data));
    }

    /** None stands for the panic on an unknown id. */
    method ReadFile(id: Bytes) returns (data: Option<Bytes>)
      ensures data == if |id| == 32 && id in store.files then Some(store.files[id]) else None
    {
      if |id| == 32 {
        data := store.GetFile(id);
      } else {
        data := None;
      }
    }

    method WriteSymlink(target: Bytes) returns (id: Id)
      modifies store
      ensures id == store.hash(ProtoPreimage(target))
      ensures store.State() == PutSymlink(old(store.State()), store.hash, ProtoPreimage(target), target)
    {
      id := store.hash(ProtoPreimage(target));
      store.InsertSymlink(id, target, ProtoPreimage(target));
    }

    method ReadSymlink(id: Bytes) returns (target: Option<Bytes>)
      ensures target == if |id| == 32 && id in store.symlinks then Some(store.symlinks[id]) else None
    {
      if |id| == 32 {
        target := store.GetSymlink(id);
      } else {
        target := None;
      }
    }

    method WriteTree(proto: ProtoTree) returns (id: Id)
      requires TreeFromProto(proto).Some? && Hashable(TreeFromProto(proto).value)
      modifies store
      ensures id == store.hash(TreePreimage(TreeFromProto(proto).value))
      ensures store.State() == PutTree(old(store.State()), store.hash, TreeFromProto(proto).value)
    {
      var tree := DaemonTreeFromProto(proto);
      id := store.WriteTree(tree);
    }
  }
}
