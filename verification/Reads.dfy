/** Requests that only read: file contents, link targets and directory listings. */
module Reads {
  import opened Basics
  import opened Ordering
  import opened Trees
  import opened Stores
  import opened Forests
  import opened Mounts
  import opened Requests
  import opened Contents

  /** A read replies with data or an error, or panics. */
  datatype ReadReply = Data(bytes: Bytes) | Refused(errno: Errno) | Panics

  // ---------------------------------------------------------------- file contents

  /** The number of bytes a read asks the content for: the length left after the offset, truncated to 32 bits,
      and at most the size asked for. */
  function ReadSize(length: nat, offset: nat, size: nat): nat {
    Min(size, (if length < offset then 0 else length - offset) % TWO_32)
  }

  /** A buffer of zeros of the read size, filled from the offset on with the first bytes of the file. */
  function DoRead(m: Mount, s: Stored, inode: Inode, fh: nat, offset: nat, size: nat): ReadReply {
    if !HandleReads(fh) then Refused(EACCES)
    else if inode !in m.nodes then Refused(ENOENT)
    else
      match m.nodes[inode].hash
      case None => Panics
      case Some(h) =>
        if h !in s.files then Panics
        else
          var content := s.files[h];
          var n := ReadSize(|content|, offset, size);
          if offset > n then Panics
          else
            assert n - offset <= |content|;
            Data(Zeros(offset) + content[..n - offset])
  }

  /** A read at the start of a file that was ever written returns the prefix asked for exactly when the file is shorter
      than 2^32 bytes or the truncated length still covers the size asked for. */
  lemma ReadFromStart(m: Mount, s: Stored, inode: Inode, fh: nat, size: nat)
    requires Backed(m, s) && inode in m.nodes && m.nodes[inode].kind.File? && m.nodes[inode].hash.Some?
    requires HandleReads(fh) && size < TWO_32
    ensures var content := ContentOf(m.nodes[inode], s.files);
            DoRead(m, s, inode, fh, 0, size) == Data(content[..Min(size, |content|)]) <==>
            |content| < TWO_32 || size <= |content| % TWO_32
  {
    assert NodeBacked(m.nodes[inode], s);
    var content := ContentOf(m.nodes[inode], s.files);
    var n := ReadSize(|content|, 0, size);
    assert Zeros(0) + content[..n] == content[..n];
    assert |content[..n]| == n && |content[..Min(size, |content|)]| == Min(size, |content|);
    assert |content| % TWO_32 <= |content|;
  }

  /** A read of a file node panics exactly when the node has no hash, or the offset exceeds the bytes left
      after it (truncated, and limited by the size asked for). */
  lemma ReadPanics(m: Mount, s: Stored, inode: Inode, fh: nat, offset: nat, size: nat)
    requires Backed(m, s) && inode in m.nodes && m.nodes[inode].kind.File? && HandleReads(fh)
    ensures DoRead(m, s, inode, fh, offset, size) == Panics <==>
              || m.nodes[inode].hash == None
              || offset > ReadSize(|ContentOf(m.nodes[inode], s.files)|, offset, size)
  {
    assert NodeBacked(m.nodes[inode], s);
  }

  /** What was written at the start of a file is read back from it. */
  lemma ReadYourWrite(m: Mount, s: Stored, hash: Hash, inode: Inode, fh: nat, data: Bytes)
    requires Backed(m, s) && NodesOK(m) && inode in m.nodes && m.nodes[inode].kind.File?
    requires HandleReads(fh) && HandleWrites(fh) && 0 < |data| < TWO_32
    requires |ContentOf(m.nodes[inode], s.files)| < TWO_32
    ensures var (m', s', reply) := DoWrite(m, s, hash, inode, fh, 0, data);
            DoRead(m', s', inode, fh, 0, |data|) == Data(data)
  {
    var (m', s', _) := DoWrite(m, s, hash, inode, fh, 0, data);
    var content := WriteAt(ContentOf(m.nodes[inode], s.files), 0, data);
    DoWriteStores(m, s, hash, inode, fh, 0, data);
    WriteAtIsOverlay(ContentOf(m.nodes[inode], s.files), 0, data);
    ReadOf(m', s', inode, fh, |data|, content);
    ReadSizeWithin(|content|, |data|);
    assert content[..|data|] == data;
  }

  lemma ReadSizeWithin(length: nat, size: nat)
    requires size <= length < TWO_32
    ensures ReadSize(length, 0, size) == size
  {
  }

  lemma ReadOf(m: Mount, s: Stored, inode: Inode, fh: nat, size: nat, content: Bytes)
    requires inode in m.nodes && m.nodes[inode].hash.Some? && m.nodes[inode].hash.value in s.files
    requires s.files[m.nodes[inode].hash.value] == content && HandleReads(fh)
    ensures DoRead(m, s, inode, fh, 0, size) == Data(content[..ReadSize(|content|, 0, size)])
  {
    assert Zeros(0) == [];
  }

  /** The target of a link; panics for a link without a stored target. */
  function DoReadlink(m: Mount, s: Stored, inode: Inode): ReadReply {
    if inode !in m.nodes then Refused(ENOENT)
    else
      match m.nodes[inode].hash
      case None => Panics
      case Some(h) => if h in s.symlinks then Data(s.symlinks[h]) else Panics
  }

  /** A new link reads back as its target, and its size is the target's length. */
  lemma SymlinkReadsBack(m: Mount, s: Stored, hash: Hash, uid: nat, gid: nat, parent: Inode, name: Name, target: Bytes)
    requires DirectoryIfAny(m, parent) && DoSymlink(m, s, hash, uid, gid, parent, name, target).2.Created?
    ensures var (m', s', reply) := DoSymlink(m, s, hash, uid, gid, parent, name, target);
            DoReadlink(m', s', reply.attrs.inode) == Data(target) && reply.attrs.size == |target|
  {
  }

  // ---------------------------------------------------------------- directory listings

  datatype Listed = Listed(inode: Inode, cookie: nat, kind: FileKind, name: Name)

  /** The entries under the given names, each with the cookie of the position after it. */
  function ListingOf(d: Descriptor, names: seq<Name>): (all: seq<Listed>)
    requires forall n :: n in names ==> n in d
    ensures |all| == |names|
    ensures forall k :: 0 <= k < |all| ==>
              names[k] in d && all[k] == Listed(d[names[k]].inode, k + 1, d[names[k]].kind, names[k])
  {
    assert forall k :: 0 <= k < |names| ==> names[k] in names;
    seq(|names|, k requires 0 <= k < |names| => Listed(d[names[k]].inode, k + 1, d[names[k]].kind, names[k]))
  }

  /** All entries of a directory in name order. */
  function Listing(d: Descriptor): seq<Listed> {
    ListingOf(d, NamesInOrder(d.Keys))
  }

  /** A listing has every entry once, in name order, numbered by its cookies. */
  lemma ListingIsComplete(d: Descriptor)
    ensures |Listing(d)| == |d.Keys|
    ensures forall k :: 0 <= k < |Listing(d)| ==>
              && Listing(d)[k].cookie == k + 1
              && Listing(d)[k].name in d
              && d[Listing(d)[k].name] == Entry(Listing(d)[k].inode, Listing(d)[k].kind)
    ensures forall n :: n in d ==> exists k :: 0 <= k < |Listing(d)| && Listing(d)[k].name == n
  {
    var names, all := NamesInOrder(d.Keys), Listing(d);
    assert |names| == |d.Keys| by { NamesInOrderIsSorted(d.Keys); }
    forall n | n in d ensures exists k :: 0 <= k < |all| && all[k].name == n {
      assert n in names;
      var k :| 0 <= k < |names| && names[k] == n;
      assert all[k].name == n;
    }
  }

  lemma ListingIsInOrder(d: Descriptor, j: nat, k: nat)
    requires j < k < |Listing(d)|
    ensures LexLe(Listing(d)[j].name, Listing(d)[k].name) && Listing(d)[j].name != Listing(d)[k].name
  {
    NamesInOrderIsSorted(d.Keys);
    var names := NamesInOrder(d.Keys);
    assert LexLe(names[j], names[k]) && names[j] != names[k];
  }

  /** The reply has the entries after the offset that fit, each as the directory has it, with the cookie of the position
      after it. */
  ghost predicate IsPage(reply: seq<Listed>, d: Descriptor, names: seq<Name>, offset: nat, room: nat) {
    && |reply| == (if |names| <= offset then 0 else if |names| - offset < room then |names| - offset else room)
    && forall k :: 0 <= k < |reply| ==> IsListed(reply[k], d, names[offset + k], offset + k + 1)
  }

  ghost predicate IsListed(l: Listed, d: Descriptor, name: Name, cookie: nat) {
    name in d && l.name == name && l.cookie == cookie && l.inode == d[name].inode && l.kind == d[name].kind
  }

  lemma PageIsPage(d: Descriptor, names: seq<Name>, offset: nat, room: nat)
    requires forall n :: n in names ==> n in d
    ensures IsPage(Page(ListingOf(d, names), offset, room), d, names, offset, room)
  {
  }

  /** One reply: the entries from the offset on, as many as the reply buffer takes. */
  function Page(all: seq<Listed>, offset: nat, room: nat): seq<Listed> {
    if offset >= |all| then [] else all[offset..Min(|all|, offset + room)]
  }

  /** A reply has exactly as many entries as fit and are left, taken from the listing one after the other. */
  lemma PageHolds(d: Descriptor, offset: nat, room: nat, k: nat)
    ensures var page, left := Page(Listing(d), offset, room), if offset < |d.Keys| then |d.Keys| - offset else 0;
            && |page| == (if left < room then left else room)
            && |Listing(d)| == |d.Keys|
            && (k < |page| ==> page[k] == Listing(d)[offset + k] && page[k].cookie == offset + k + 1)
  {
    ListingIsComplete(d);
  }

  /** The loop over the entries after the offset, until the reply buffer is full. */
  method FillReply(d: Descriptor, names: seq<Name>, offset: nat, room: nat) returns (reply: seq<Listed>)
    requires forall n :: n in names ==> n in d
    ensures reply == Page(ListingOf(d, names), offset, room) && IsPage(reply, d, names, offset, room)
  {
    PageIsPage(d, names, offset, room);
    reply := [];
    ghost var all := ListingOf(d, names);
    var index := 0;
    while offset + index < |names|
      invariant index <= room
      invariant if offset <= |all| then offset + index <= |all| && reply == all[offset..offset + index] else reply == []
    {
      if index == room { break; }
      var name := names[offset + index];
      assert name in names;
      reply := reply + [Listed(d[name].inode, offset + index + 1, d[name].kind, name)];
      index := index + 1;
    }
  }

  method ReadDir(d: Descriptor, offset: nat, room: nat) returns (reply: seq<Listed>)
    ensures reply == Page(Listing(d), offset, room) && IsPage(reply, d, NamesInOrder(d.Keys), offset, room)
  {
    reply := FillReply(d, NamesInOrder(d.Keys), offset, room);
  }

  ghost predicate Numbered(all: seq<Listed>) {
    forall k :: 0 <= k < |all| ==> all[k].cookie == k + 1
  }

  /** A page that has room and entries left is not empty, and its last cookie is the position after it. */
  lemma PageAdvances(all: seq<Listed>, offset: nat, room: nat)
    requires Numbered(all) && room > 0 && offset <= |all|
    ensures var page := Page(all, offset, room);
            if offset == |all| then page == []
            else && page != [] && offset + |page| <= |all|
                 && all[..offset] + page == all[..offset + |page|]
                 && page[|page| - 1].cookie == offset + |page|
  {
  }

  /** A client reading an unchanged directory to the end: it asks again from the last cookie until a reply is empty.
      However much each reply buffer takes, as long as it takes something, the client sees every entry exactly once in
      name order, in at most one call more than there are entries. */
  method ReadWholeDirectory(d: Descriptor, rooms: nat -> nat) returns (seen: seq<Listed>, calls: nat)
    requires forall k :: rooms(k) > 0
    ensures seen == Listing(d)
    ensures calls <= |d.Keys| + 1
  {
    ghost var all := Listing(d);
    assert |all| == |d.Keys| && Numbered(all) by { ListingIsComplete(d); }
    seen, calls := [], 0;
    var offset, more := 0, true;
    while more
      invariant offset == |seen| <= |all| && seen == all[..offset]
      invariant calls <= offset + (if more then 0 else 1)
      invariant !more ==> offset == |all|
      decreases more, |all| - offset
    {
      var page := ReadDir(d, offset, rooms(calls));
      PageAdvances(all, offset, rooms(calls));
      calls := calls + 1;
      seen := seen + page;
      if page == [] {
        more := false;
      } else {
        offset := page[|page| - 1].cookie;
      }
    }
    assert all[..|all|] == all;
  }
}
