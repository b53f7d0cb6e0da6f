/** Stored trees, their content hash, and the conversions a tree goes through between a client and the daemon. */
module Trees {
  import opened Basics
  import opened Ordering
  import opened ContentHash
  import opened Preimages

  type Name = Bytes

  /** The directory entries "." and "..". */
  const DOT: Name := [46]
  const DOTDOT: Name := [46, 46]

  /** A name that may be created, looked up along a path or stored in a tree. */
  predicate Ordinary(name: Name) {
    name != DOT && name != DOTDOT
  }

  datatype TreeEntry =
    | FileEntry(id: Id, executable: bool)
    | SubTree(id: Id)
    | SymlinkEntry(id: Id)
    | ConflictEntry(id: Id)

  /** The daemon's tree: a vector of named entries, kept as received. */
  type Tree = seq<(Name, TreeEntry)>

  // ---------------------------------------------------------------- the content hash of a tree

  /** Hashing a conflict entry is not implemented: it panics. */
  predicate Hashable(tree: Tree) {
    forall e :: e in tree ==> !e.1.ConflictEntry?
  }

  /** What any vector in memory satisfies. */
  ghost predicate FitsMemory(tree: Tree) {
    |tree| < TWO_63 && forall e :: e in tree ==> |e.0| < TWO_63
  }

  function EntryVal(e: TreeEntry): Val
    requires !e.ConflictEntry?
  {
    match e
    case FileEntry(id, executable) => VTag(48, VPair(BytesVal(id), VBool(executable)))
    case SubTree(id) => VTag(49, BytesVal(id))
    case SymlinkEntry(id) => VTag(50, BytesVal(id))
  }

  const ENTRY_TY: Ty := TTag([48, 49, 50], [TPair(BYTES_TY, TBool), BYTES_TY, BYTES_TY])

  function EntriesVal(tree: Tree): (xs: seq<Val>)
    requires Hashable(tree)
    ensures |xs| == |tree|
    ensures forall i :: 0 <= i < |xs| ==> xs[i] == VPair(BytesVal(tree[i].0), EntryVal(tree[i].1))
  {
    seq(|tree|, i requires 0 <= i < |tree| => VPair(BytesVal(tree[i].0), EntryVal(tree[i].1)))
  }

  function TreeVal(tree: Tree): Val
    requires Hashable(tree)
  {
    VPair(VSeq(EntriesVal(tree)), VUnit)
  }

  const TREE_TY: Ty := TPair(TSeq(TPair(BYTES_TY, ENTRY_TY)), TUnit)

  function TreePreimage(tree: Tree): Bytes
    requires Hashable(tree)
  {
    Encode(TreeVal(tree))
  }

  lemma BytesValIsTyped(bytes: Bytes)
    requires |bytes| < TWO_63
    ensures HasType(BYTES_TY, BytesVal(bytes))
  {
  }

  lemma EntryValIsTyped(e: TreeEntry)
    requires !e.ConflictEntry?
    ensures HasType(ENTRY_TY, EntryVal(e))
  {
    BytesValIsTyped(e.id);
    var tags: seq<byte> := [48, 49, 50];
    assert TagIndex(tags, 48) == 0;
    assert tags[1..] == [49, 50] && TagIndex([49, 50], 49) == 0;
    assert tags[1..][1..] == [50] && TagIndex([50], 50) == 0;
    assert TagIndex([49, 50], 50) == 1;
    assert TagIndex(tags, EntryVal(e).tag) ==
           match e case FileEntry(_, _) => 0 case SubTree(_) => 1 case SymlinkEntry(_) => 2;
  }

  lemma TreeValIsTyped(tree: Tree)
    requires Hashable(tree) && FitsMemory(tree)
    ensures HasType(TREE_TY, TreeVal(tree))
  {
    var xs := EntriesVal(tree);
    forall x | x in xs ensures HasType(TPair(BYTES_TY, ENTRY_TY), x) {
      var i :| 0 <= i < |xs| && xs[i] == x;
      assert tree[i] in tree;
      BytesValIsTyped(tree[i].0);
      EntryValIsTyped(tree[i].1);
    }
  }

  lemma EntryValInjective(a: TreeEntry, b: TreeEntry)
    requires !a.ConflictEntry? && !b.ConflictEntry?
    requires EntryVal(a) == EntryVal(b)
    ensures a == b
  {
    BytesValInjective(a.id, b.id);
  }

  /** Different trees have different streams. */
  lemma TreePreimageInjective(a: Tree, b: Tree)
    requires Hashable(a) && FitsMemory(a) && Hashable(b) && FitsMemory(b)
    requires TreePreimage(a) == TreePreimage(b)
    ensures a == b
  {
    TreeValIsTyped(a);
    TreeValIsTyped(b);
    assert TreePreimage(a) + [] == TreePreimage(b) + [];
    UniquelyDecodable(TREE_TY, TreeVal(a), TreeVal(b), [], []);
    var xs, ys := EntriesVal(a), EntriesVal(b);
    assert |a| == |xs| == |b|;
    forall i | 0 <= i < |a| ensures a[i] == b[i] {
      assert xs[i] == ys[i];
      BytesValInjective(a[i].0, b[i].0);
      EntryValInjective(a[i].1, b[i].1);
    }
  }

  // ---------------------------------------------------------------- the messages

  datatype ProtoValue =
    | ProtoFile(id: Bytes, executable: bool)
    | ProtoSymlinkId(id: Bytes)
    | ProtoTreeId(id: Bytes)
    | ProtoConflictId(id: Bytes)

  datatype ProtoTreeValue = ProtoTreeValue(value: Option<ProtoValue>)

  datatype ProtoEntry = ProtoEntry(name: Name, value: Option<ProtoTreeValue>)

  type ProtoTree = seq<ProtoEntry>

  // ---------------------------------------------------------------- the daemon's conversions

  /** An identifier received as a byte vector must have 32 bytes; None stands for the panic otherwise. */
  function AsId(bytes: Bytes): Option<Id> {
    if |bytes| == 32 then Some(bytes) else None
  }

  function EntryFromProto(p: ProtoTreeValue): Option<TreeEntry> {
    match p.value
    case None => None
    case Some(v) =>
      match AsId(v.id)
      case None => None
      case Some(id) =>
        Some(match v
             case ProtoTreeId(_) => SubTree(id)
             case ProtoSymlinkId(_) => SymlinkEntry(id)
             case ProtoConflictId(_) => ConflictEntry(id)
             case ProtoFile(_, executable) => FileEntry(id, executable))
  }

  /** `Tree::from` a message, entry by entry; None when an `unwrap` on the way panics. */
  function TreeFromProto(p: ProtoTree): Option<Tree> {
    if p == [] then Some([])
    else
      match p[0].value
      case None => None
      case Some(v) =>
        match (EntryFromProto(v), TreeFromProto(p[1..]))
        case (Some(e), Some(tree)) => Some([(p[0].name, e)] + tree)
        case _ => None
  }

  predicate ReceivableEntry(p: ProtoEntry) {
    p.value.Some? && p.value.value.value.Some? && |p.value.value.value.value.id| == 32
  }

  /** The conversion succeeds exactly on messages whose values are all present with 32-byte ids, and keeps names,
      ids, kinds and order. */
  lemma {:induction false} TreeFromProtoDomain(p: ProtoTree)
    ensures TreeFromProto(p).Some? <==> forall e :: e in p ==> ReceivableEntry(e)
    ensures TreeFromProto(p).Some? ==>
              var tree := TreeFromProto(p).value;
              && |tree| == |p|
              && forall i :: 0 <= i < |p| ==>
                   && ReceivableEntry(p[i]) && tree[i].0 == p[i].name
                   && Some(tree[i].1) == EntryFromProto(p[i].value.value)
  {
    if p != [] {
      TreeFromProtoDomain(p[1..]);
      assert p == [p[0]] + p[1..];
      assert TreeFromProto(p).Some? <==> ReceivableEntry(p[0]) && TreeFromProto(p[1..]).Some?;
    }
  }

  /** `TreeEntry::as_proto` covers files only; None stands for its `todo!()`. */
  function EntryAsProto(e: TreeEntry): Option<ProtoTreeValue> {
    match e
    case FileEntry(id, executable) => Some(ProtoTreeValue(Some(ProtoFile(id, executable))))
    case _ => None
  }

  function TreeAsProto(tree: Tree): Option<ProtoTree> {
    if tree == [] then Some([])
    else
      match (EntryAsProto(tree[0].1), TreeAsProto(tree[1..]))
      case (Some(v), Some(p)) => Some([ProtoEntry(tree[0].0, Some(v))] + p)
      case _ => None
  }

  // ---------------------------------------------------------------- the client's conversions

  datatype ClientValue =
    | ClientFile(id: Bytes, executable: bool)
    | ClientSymlink(id: Bytes)
    | ClientTreeRef(id: Bytes)
    | ClientConflict(id: Bytes)
    | ClientSubmodule(id: Bytes)

  /** The client keeps a tree in an ordered map from names to values. */
  type ClientTree = map<Name, ClientValue>

  /** Converting a submodule panics. */
  predicate Convertible(t: ClientTree) {
    forall n :: n in t ==> !t[n].ClientSubmodule?
  }

  function ValueToProto(v: ClientValue): ProtoTreeValue
    requires !v.ClientSubmodule?
  {
    ProtoTreeValue(Some(match v
                        case ClientFile(id, executable) => ProtoFile(id, executable)
                        case ClientSymlink(id) => ProtoSymlinkId(id)
                        case ClientTreeRef(id) => ProtoTreeId(id)
                        case ClientConflict(id) => ProtoConflictId(id)))
  }

  function ValueFromProto(p: ProtoTreeValue): Option<ClientValue> {
    match p.value
    case None => None
    case Some(ProtoTreeId(id)) => Some(ClientTreeRef(id))
    case Some(ProtoFile(id, executable)) => Some(ClientFile(id, executable))
    case Some(ProtoSymlinkId(id)) => Some(ClientSymlink(id))
    case Some(ProtoConflictId(id)) => Some(ClientConflict(id))
  }

  /** Names in byte order, the order an ordered map keyed by names is walked in. */
  function NamesInOrder(s: set<Name>): (xs: seq<Name>)
    ensures forall n :: n in xs <==> n in s
  {
    LexIsTotalOrder();
    AscendingEnumerates(s, LexLe);
    Ascending(s, LexLe)
  }

  lemma NamesInOrderIsSorted(s: set<Name>)
    ensures Sorted(LexLe, NamesInOrder(s)) && Enumerates(NamesInOrder(s), s) && |NamesInOrder(s)| == |s|
  {
    LexIsTotalOrder();
    AscendingEnumerates(s, LexLe);
  }

  /** The entries of a message for the given names. */
  function ProtoFor(t: ClientTree, names: seq<Name>): (p: ProtoTree)
    requires Convertible(t) && forall n :: n in names ==> n in t
    ensures |p| == |names|
    ensures forall i :: 0 <= i < |p| ==> p[i] == ProtoEntry(names[i], Some(ValueToProto(t[names[i]])))
  {
    if names == [] then []
    else [ProtoEntry(names[0], Some(ValueToProto(t[names[0]])))] + ProtoFor(t, names[1..])
  }

  /** The message of a client tree: its entries in name order. */
  function ClientToProto(t: ClientTree): (p: ProtoTree)
    requires Convertible(t)
  {
    ProtoFor(t, NamesInOrder(t.Keys))
  }

  /** Setting the entries of a message one after the other; None when an `unwrap` on the way panics. */
  function SetAll(p: ProtoTree, t: ClientTree): Option<ClientTree>
    decreases |p|
  {
    if p == [] then Some(t)
    else
      match p[0].value
      case None => None
      case Some(v) =>
        match ValueFromProto(v)
        case None => None
        case Some(value) => SetAll(p[1..], t[p[0].name := value])
  }

  function ClientFromProto(p: ProtoTree): Option<ClientTree> {
    SetAll(p, map[])
  }

  method ClientTreeToProto(t: ClientTree) returns (proto: ProtoTree)
    requires Convertible(t)
    ensures proto == ClientToProto(t)
  {
    proto := [];
    var names := NamesInOrder(t.Keys);
    for i := 0 to |names|
      invariant |proto| == i
      invariant forall j :: 0 <= j < i ==> proto[j] == ProtoEntry(names[j], Some(ValueToProto(t[names[j]])))
    {
      assert names[i] in names;
      proto := proto + [ProtoEntry(names[i], Some(ValueToProto(t[names[i]])))];
    }
  }

  method ClientTreeFromProto(proto: ProtoTree) returns (tree: ClientTree)
    requires ClientFromProto(proto).Some?
    ensures Some(tree) == ClientFromProto(proto)
  {
    tree := map[];
    for i := 0 to |proto|
      invariant SetAll(proto[i..], tree) == ClientFromProto(proto)
    {
      assert proto[i..][0] == proto[i] && proto[i..][1..] == proto[i + 1..];
      var value := ValueFromProto(proto[i].value.value);
      tree := tree[proto[i].name := value.value];
    }
  }

  method DaemonTreeFromProto(proto: ProtoTree) returns (tree: Tree)
    requires TreeFromProto(proto).Some?
    ensures Some(tree) == TreeFromProto(proto)
  {
    TreeFromProtoDomain(proto);
    tree := [];
    for i := 0 to |proto|
      invariant tree == TreeFromProto(proto).value[..i]
    {
      assert ReceivableEntry(proto[i]);
      var entry := EntryFromProto(proto[i].value.value);
      tree := tree + [(proto[i].name, entry.value)];
    }
    assert TreeFromProto(proto).value[..|proto|] == TreeFromProto(proto).value;
  }

  // ---------------------------------------------------------------- identity of trees, end to end

  /** part holds some of the entries of t. */
  ghost predicate PartOf(part: ClientTree, t: ClientTree) {
    forall n :: n in part ==> n in t && part[n] == t[n]
  }

  lemma {:induction false} SetAllCollects(t: ClientTree, names: seq<Name>, acc: ClientTree)
    requires Convertible(t) && forall n :: n in names ==> n in t
    requires PartOf(acc, t)
    ensures var r := SetAll(ProtoFor(t, names), acc);
            r.Some? && PartOf(r.value, t) && forall n :: n in names || n in acc ==> n in r.value
    decreases |names|
  {
    var p := ProtoFor(t, names);
    if names != [] {
      var n := names[0];
      assert p[1..] == ProtoFor(t, names[1..]);
      assert ValueFromProto(ValueToProto(t[n])) == Some(t[n]);
      SetAllCollects(t, names[1..], acc[n := t[n]]);
      assert names == [n] + names[1..];
    }
  }

  /** A client tree survives its message, conflict entries included. */
  lemma ClientRoundTrip(t: ClientTree)
    requires Convertible(t)
    ensures ClientFromProto(ClientToProto(t)) == Some(t)
  {
    SetAllCollects(t, NamesInOrder(t.Keys), map[]);
    var r := ClientFromProto(ClientToProto(t)).value;
    forall n | n in t ensures n in r && r[n] == t[n] {
      assert n in NamesInOrder(t.Keys);
    }
    assert r == t;
  }

  /** The values the daemon can store: files, trees and symlinks with 32-byte ids. */
  predicate StorableValue(v: ClientValue) {
    (v.ClientFile? || v.ClientTreeRef? || v.ClientSymlink?) && |v.id| == 32
  }

  predicate Storable(t: ClientTree) {
    forall n :: n in t ==> StorableValue(t[n])
  }

  function StoredValue(v: ClientValue): TreeEntry
    requires StorableValue(v)
  {
    match v
    case ClientFile(id, executable) => FileEntry(id, executable)
    case ClientTreeRef(id) => SubTree(id)
    case ClientSymlink(id) => SymlinkEntry(id)
  }

  function StoredFor(t: ClientTree, names: seq<Name>): (tree: Tree)
    requires Storable(t) && forall n :: n in names ==> n in t
    ensures |tree| == |names|
    ensures forall i :: 0 <= i < |tree| ==> tree[i] == (names[i], StoredValue(t[names[i]]))
  {
    if names == [] then [] else [(names[0], StoredValue(t[names[0]]))] + StoredFor(t, names[1..])
  }

  /** The tree the daemon ends up with for a client tree. */
  function Received(t: ClientTree): (tree: Tree)
    requires Storable(t)
    ensures Hashable(tree)
  {
    StoredFor(t, NamesInOrder(t.Keys))
  }

  lemma {:induction false} DaemonReceives(t: ClientTree, names: seq<Name>)
    requires Storable(t) && forall n :: n in names ==> n in t
    ensures Convertible(t) && TreeFromProto(ProtoFor(t, names)) == Some(StoredFor(t, names))
  {
    if names != [] {
      DaemonReceives(t, names[1..]);
      assert ProtoFor(t, names)[1..] == ProtoFor(t, names[1..]);
    }
  }

  /** An entry says of a client's value what it is and where it is stored. */
  ghost predicate SameKind(v: ClientValue, e: TreeEntry) {
    match v
    case ClientFile(id, executable) => e.FileEntry? && e.id == id && e.executable == executable
    case ClientTreeRef(id) => e.SubTree? && e.id == id
    case ClientSymlink(id) => e.SymlinkEntry? && e.id == id
    case ClientConflict(id) => e.ConflictEntry? && e.id == id
    case ClientSubmodule(_) => false
  }

  /** So does a message. */
  ghost predicate SameMessage(v: ClientValue, p: ProtoEntry) {
    && p.value.Some? && p.value.value.value.Some?
    && match p.value.value.value.value
       case ProtoFile(id, executable) => v.ClientFile? && v.id == id && v.executable == executable
       case ProtoTreeId(id) => v.ClientTreeRef? && v.id == id
       case ProtoSymlinkId(id) => v.ClientSymlink? && v.id == id
       case ProtoConflictId(id) => v.ClientConflict? && v.id == id
  }

  /** A client sends the entries of its tree in byte order of their names, each as what it is. */
  lemma ClientSends(t: ClientTree, i: nat, j: nat)
    requires Convertible(t) && i < |ClientToProto(t)|
    ensures |ClientToProto(t)| == |t.Keys|
    ensures ClientToProto(t)[i].name in t && SameMessage(t[ClientToProto(t)[i].name], ClientToProto(t)[i])
    ensures i < j < |ClientToProto(t)| ==>
              && LexLe(ClientToProto(t)[i].name, ClientToProto(t)[j].name)
              && ClientToProto(t)[i].name != ClientToProto(t)[j].name
  {
    NamesInOrderIsSorted(t.Keys);
    assert NamesInOrder(t.Keys)[i] in NamesInOrder(t.Keys);
  }

  /** The daemon stores for a client tree one entry for each name, of the client's kind, in byte order of the names. */
  lemma DaemonStores(t: ClientTree, i: nat)
    requires Storable(t) && i < |Received(t)|
    ensures Convertible(t) && TreeFromProto(ClientToProto(t)) == Some(Received(t)) && |Received(t)| == |t.Keys|
    ensures Received(t)[i].0 == ClientToProto(t)[i].name
    ensures Received(t)[i].0 in t && SameKind(t[Received(t)[i].0], Received(t)[i].1)
  {
    DaemonReceives(t, NamesInOrder(t.Keys));
    NamesInOrderIsSorted(t.Keys);
    assert NamesInOrder(t.Keys)[i] in NamesInOrder(t.Keys);
  }

  /** The daemon takes every entry of a message for what the message says. */
  lemma DaemonTakes(p: ProtoTree, i: nat, v: ClientValue)
    requires TreeFromProto(p).Some? && i < |p|
    ensures |TreeFromProto(p).value| == |p| && TreeFromProto(p).value[i].0 == p[i].name
    ensures SameMessage(v, p[i]) ==> SameKind(v, TreeFromProto(p).value[i].1)
  {
    TreeFromProtoDomain(p);
  }

  lemma ReceivedDetermines(t: ClientTree, u: ClientTree)
    requires Storable(t) && Storable(u)
    requires Received(t) == Received(u)
    ensures forall n :: n in t ==> n in u && u[n] == t[n]
  {
    var names, others := NamesInOrder(t.Keys), NamesInOrder(u.Keys);
    forall n | n in t ensures n in u && u[n] == t[n] {
      assert n in names;
      var i :| 0 <= i < |names| && names[i] == n;
      assert Received(t)[i] == (n, StoredValue(t[n]));
      assert Received(u)[i] == (others[i], StoredValue(u[others[i]]));
    }
  }

  lemma EqualStreamsEqualTrees(t: ClientTree, u: ClientTree)
    requires Storable(t) && FitsMemory(Received(t))
    requires Storable(u) && FitsMemory(Received(u))
    requires TreePreimage(Received(t)) == TreePreimage(Received(u))
    ensures t == u
  {
    TreePreimageInjective(Received(t), Received(u));
    ReceivedDetermines(t, u);
    ReceivedDetermines(u, t);
  }

  /** Tree ids are canonical: of all storable client trees, exactly the equal ones reach the hash function as equal
      byte streams, after the client's conversion, the daemon's conversion and the content hash. */
  lemma TreeIdsAreCanonical(t: ClientTree, u: ClientTree)
    requires Storable(t) && FitsMemory(Received(t))
    requires Storable(u) && FitsMemory(Received(u))
    ensures Convertible(t) && TreeFromProto(ClientToProto(t)) == Some(Received(t))
    ensures TreePreimage(Received(t)) == TreePreimage(Received(u)) <==> t == u
  {
    DaemonReceives(t, NamesInOrder(t.Keys));
    if TreePreimage(Received(t)) == TreePreimage(Received(u)) {
      EqualStreamsEqualTrees(t, u);
    }
  }

  /** So tree ids identify trees, as long as the hash function has no collision among what was hashed. */
  lemma TreeIdsIdentifyTrees(hash: Hash, hashed: set<Bytes>, t: ClientTree, u: ClientTree)
    requires Storable(t) && FitsMemory(Received(t)) && TreePreimage(Received(t)) in hashed
    requires Storable(u) && FitsMemory(Received(u)) && TreePreimage(Received(u)) in hashed
    requires CollisionFree(hash, hashed)
    ensures hash(TreePreimage(Received(t))) == hash(TreePreimage(Received(u))) <==> t == u
  {
    TreeIdsAreCanonical(t, u);
  }

  lemma {:induction false} DaemonReplies(t: ClientTree, names: seq<Name>)
    requires Storable(t) && Convertible(t) && forall n :: n in names ==> n in t
    ensures TreeAsProto(StoredFor(t, names)) ==
            if forall n :: n in names ==> t[n].ClientFile? then Some(ProtoFor(t, names)) else None
  {
    if names != [] {
      var rest := names[1..];
      DaemonReplies(t, rest);
      assert StoredFor(t, names)[1..] == StoredFor(t, rest);
      assert forall n :: n in names <==> n == names[0] || n in rest;
      assert EntryAsProto(StoredFor(t, names)[0].1).Some? <==> t[names[0]].ClientFile?;
    }
  }

  /** A stored tree can be read back exactly when it holds files only, and then the client gets its own tree. */
  lemma ReadBack(t: ClientTree)
    requires Storable(t)
    ensures TreeAsProto(Received(t)).Some? <==> forall n :: n in t ==> t[n].ClientFile?
    ensures TreeAsProto(Received(t)).Some? ==> ClientFromProto(TreeAsProto(Received(t)).value) == Some(t)
  {
    var names := NamesInOrder(t.Keys);
    DaemonReplies(t, names);
    ClientRoundTrip(t);
    assert forall n :: n in t <==> n in names;
  }

  /** A client tree of one symlink is accepted, but cannot be read back. */
  lemma SymlinkTree(name: Name, id: Id)
    ensures var t: ClientTree := map[name := ClientSymlink(id)];
            && Storable(t) && Convertible(t)
            && TreeFromProto(ClientToProto(t)) == Some(Received(t)) && TreeAsProto(Received(t)) == None
            && Received(t) == [(name, SymlinkEntry(id))]
  {
    var t: ClientTree := map[name := ClientSymlink(id)];
    var names := NamesInOrder(t.Keys);
    DaemonReceives(t, names);
    ReadBack(t);
    assert !t[name].ClientFile?;
    assert t.Keys == {name};
    NamesInOrderIsSorted(t.Keys);
    assert |names| == 1 && names[0] in names;
    assert Received(t)[0] == (name, SymlinkEntry(id));
  }
}
