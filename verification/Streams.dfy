/** The bytes under every key, laid out one by one: what content hashing feeds to the hash function, and the messages
    the service hashes. */
module Streams {
  import opened Basics
  import opened Ordering
  import opened LittleEndian
  import opened ContentHash
  import opened Preimages
  import opened Trees

  // ---------------------------------------------------------------- content hashing

  /** Booleans and bytes are one byte, a unit nothing, structs their fields in order, enums a tag and its fields. */
  lemma ScalarStreams(u: byte, x: Val, y: Val)
    ensures Encode(VUnit) == [] && Encode(VBool(true)) == [1] && Encode(VBool(false)) == [0] && Encode(VU8(u)) == [u]
    ensures Encode(VPair(x, y))[..|Encode(x)|] == Encode(x) && Encode(VPair(x, y))[|Encode(x)|..] == Encode(y)
    ensures |Encode(VTag(u, x))| == 1 + |Encode(x)|
    ensures Encode(VTag(u, x))[0] == u && Encode(VTag(u, x))[1..] == Encode(x)
  {
  }

  /** A 32-bit integer is the four digits of its two's complement, lowest first. */
  lemma I32Stream(i: int, k: nat)
    requires -0x8000_0000 <= i < 0x8000_0000 && k < 4
    ensures |Encode(VI32(i))| == 4 && Pow256(k) > 0
    ensures Encode(VI32(i))[k] == (if i < 0 then i + 0x1_0000_0000 else i) / Pow256(k) % 256
  {
    LEDigit(i % TWO_32, 4, k);
    assert i % TWO_32 == if i < 0 then i + 0x1_0000_0000 else i;
  }

  /** A 64-bit integer is the eight digits of its two's complement, lowest first. */
  lemma I64Stream(l: int, k: nat)
    requires -0x8000_0000_0000_0000 <= l < 0x8000_0000_0000_0000 && k < 8
    ensures |Encode(VI64(l))| == 8 && Pow256(k) > 0
    ensures Encode(VI64(l))[k] == (if l < 0 then l + 0x1_0000_0000_0000_0000 else l) / Pow256(k) % 256
  {
    LEDigit(l % TWO_64, 8, k);
    assert Encode(VI64(l)) == LE(l % TWO_64, 8);
    assert l % TWO_64 == if l < 0 then l + 0x1_0000_0000_0000_0000 else l;
  }

  /** A slice is its length in eight bytes and the streams of its elements, one after the other. */
  lemma {:induction false} SliceStreams(xs: seq<Val>, x: Val, k: nat)
    ensures |Encode(VSeq([]))| == 8 && Encode(VSeq(xs))[8..] + Encode(x) == Encode(VSeq(xs + [x]))[8..]
    ensures k < 8 ==> Pow256(k) > 0 && Encode(VSeq(xs))[k] == |xs| / Pow256(k) % 256
  {
    AllStreams(xs, x);
    if k < 8 { LEDigit(|xs|, 8, k); }
  }

  lemma Regroup(a: Bytes, b: Bytes, c: Bytes)
    ensures a + (b + c) == (a + b) + c
  {
  }

  lemma {:induction false} AllStreams(xs: seq<Val>, x: Val)
    ensures EncodeAll(xs + [x]) == EncodeAll(xs) + Encode(x)
  {
    if xs == [] {
      assert [x][1..] == [];
    } else {
      AllStreams(xs[1..], x);
      assert (xs + [x])[1..] == xs[1..] + [x];
      Regroup(Encode(xs[0]), EncodeAll(xs[1..]), Encode(x));
    }
  }

  // ---------------------------------------------------------------- trees

  function IdStream(id: Id): Bytes {
    [32, 0, 0, 0, 0, 0, 0, 0] + id
  }

  /** The bytes of one tree entry: the name with its length, the tag character of its kind, and what it refers to. */
  function EntryStream(name: Name, e: TreeEntry): Bytes
    requires !e.ConflictEntry?
  {
    LE(|name|, 8) + name +
    match e
    case FileEntry(id, executable) => [0x30] + IdStream(id) + [if executable then 1 else 0]
    case SubTree(id) => [0x31] + IdStream(id)
    case SymlinkEntry(id) => [0x32] + IdStream(id)
  }

  /** The bytes of a tree: the number of entries and the entries in order. */
  function TreeStream(tree: Tree): Bytes
    requires Hashable(tree)
  {
    LE(|tree|, 8) + EntryStreams(tree)
  }

  function EntryStreams(tree: Tree): Bytes
    requires Hashable(tree)
  {
    if tree == [] then []
    else EntryStreams(tree[..|tree| - 1]) + EntryStream(tree[|tree| - 1].0, tree[|tree| - 1].1)
  }

  lemma BytesStream(bytes: Bytes)
    ensures Encode(BytesVal(bytes)) == LE(|bytes|, 8) + bytes
  {
    ByteStream(BytesVal(bytes).xs, bytes);
  }

  lemma IdLength()
    ensures LE(32, 8) == [32, 0, 0, 0, 0, 0, 0, 0]
  {
    assert LE(0, 4) == [0, 0, 0, 0];
    assert LE(0, 7) == [0, 0, 0] + LE(0, 4);
  }

  lemma EntryHasStream(name: Name, e: TreeEntry)
    requires !e.ConflictEntry?
    ensures Encode(VPair(BytesVal(name), EntryVal(e))) == EntryStream(name, e)
  {
    BytesStream(name);
    BytesStream(e.id);
    IdLength();
    assert Encode(BytesVal(e.id)) == IdStream(e.id);
    if e.FileEntry? {
      assert Encode(VPair(BytesVal(e.id), VBool(e.executable))) == IdStream(e.id) + [if e.executable then 1 else 0];
      assert Encode(EntryVal(e)) == [0x30] + (IdStream(e.id) + [if e.executable then 1 else 0]);
    }
  }

  lemma {:induction false} EntriesHaveStreams(tree: Tree)
    requires Hashable(tree)
    ensures EncodeAll(EntriesVal(tree)) == EntryStreams(tree)
  {
    if tree != [] {
      var front, last := tree[..|tree| - 1], tree[|tree| - 1];
      EntriesHaveStreams(front);
      EntryHasStream(last.0, last.1);
      AllStreams(EntriesVal(front), VPair(BytesVal(last.0), EntryVal(last.1)));
      assert EntriesVal(tree) == EntriesVal(front) + [VPair(BytesVal(last.0), EntryVal(last.1))];
    }
  }

  /** What is hashed for a tree is these bytes. */
  lemma TreePreimageIsStream(tree: Tree)
    requires Hashable(tree)
    ensures TreePreimage(tree) == TreeStream(tree)
  {
    EntriesHaveStreams(tree);
    assert Encode(VPair(VSeq(EntriesVal(tree)), VUnit)) == Encode(VSeq(EntriesVal(tree)));
  }

  // ---------------------------------------------------------------- messages of the service

  /** The number that a base-128 varint stands for. */
  function FromVarint(bytes: Bytes): nat {
    if bytes == [] then 0 else bytes[0] % 128 + 128 * FromVarint(bytes[1..])
  }

  /** The bytes are the shortest varint of the number: all but the last have the top bit set. */
  ghost predicate IsVarint(bytes: Bytes, n: nat) {
    && bytes != [] && FromVarint(bytes) == n
    && (forall i :: 0 <= i < |bytes| - 1 ==> bytes[i] >= 128)
    && bytes[|bytes| - 1] < 128
    && (|bytes| > 1 ==> bytes[|bytes| - 1] > 0)
  }

  lemma {:induction false} VarintIsVarint(n: nat)
    ensures IsVarint(Varint(n), n)
  {
    if n >= 128 {
      var rest := Varint(n / 128);
      VarintIsVarint(n / 128);
      assert Varint(n)[1..] == rest;
      assert forall i :: 1 <= i < |Varint(n)| ==> Varint(n)[i] == rest[i - 1];
    }
  }

  /** The bytes are the message with the content in field 1: nothing for an empty content, otherwise the tag of a
      length-delimited field 1, the length as a varint, and the content. */
  ghost predicate IsMessage(bytes: Bytes, content: Bytes) {
    if content == [] then bytes == []
    else exists length: Bytes :: IsVarint(length, |content|) && bytes == [0x0A] + length + content
  }

  lemma ProtoPreimageIsMessage(content: Bytes)
    ensures IsMessage(ProtoPreimage(content), content)
  {
    VarintIsVarint(|content|);
  }

  // ---------------------------------------------------------------- the order of keys

  lemma {:induction false} ByteOrder(xs: seq<Val>, ys: seq<Val>, a: Bytes, b: Bytes)
    requires |xs| == |a| && forall i :: 0 <= i < |xs| ==> xs[i] == VU8(a[i])
    requires |ys| == |b| && forall i :: 0 <= i < |ys| ==> ys[i] == VU8(b[i])
    ensures LtAll(xs, ys) <==> LexLe(a, b) && a != b
  {
    if a != [] && b != [] {
      ByteOrder(xs[1..], ys[1..], a[1..], b[1..]);
      assert a == [a[0]] + a[1..] && b == [b[0]] + b[1..];
    }
  }

  /** Strings are hashed in byte order, numbers in numeric order, `false` before `true`. */
  lemma KeyOrder(a: Bytes, b: Bytes, i: int, j: int)
    ensures Lt(BytesVal(a), BytesVal(b)) <==> a < b || exists k: nat :: DiffersBelow(a, b, k)
    ensures (Lt(VI32(i), VI32(j)) <==> i < j) && (Lt(VI64(i), VI64(j)) <==> i < j)
    ensures Lt(VBool(false), VBool(true)) && !Lt(VBool(true), VBool(false))
  {
    ByteOrder(BytesVal(a).xs, BytesVal(b).xs, a, b);
    LexByFirstDifference(a, b);
    if k: nat :| DiffersBelow(a, b, k) { assert a != b; }
  }

  /** Structs are ordered by their first field, and where that is equal by the rest; enums by their tag, and where that
      is equal by their fields; slices by the first elements that differ. */
  lemma CompoundOrder(x: Val, y: Val, v: Val, w: Val, p: byte, q: byte, front: seq<Val>, xs: seq<Val>, ys: seq<Val>)
    ensures x != v ==> (Lt(VPair(x, y), VPair(v, w)) <==> Lt(x, v))
    ensures Lt(VPair(x, y), VPair(x, w)) <==> Lt(y, w)
    ensures p != q ==> (Lt(VTag(p, y), VTag(q, w)) <==> p < q)
    ensures Lt(VTag(p, y), VTag(p, w)) <==> Lt(y, w)
    ensures x != v ==> (Lt(VSeq(front + [x] + xs), VSeq(front + [v] + ys)) <==> Lt(x, v))
    ensures Lt(VSeq(front), VSeq(front + [x] + xs)) && !Lt(VSeq(front + [x] + xs), VSeq(front))
  {
    LtIrreflexive(x);
    LtIrreflexive(v);
    if x != v { FirstDifferenceDecides(front, x, v, xs, ys); }
    PrefixComesFirst(front, [x] + xs);
    assert front + ([x] + xs) == front + [x] + xs;
  }

  lemma {:induction false} FirstDifferenceDecides(front: seq<Val>, x: Val, v: Val, xs: seq<Val>, ys: seq<Val>)
    requires x != v
    ensures LtAll(front + [x] + xs, front + [v] + ys) <==> Lt(x, v)
  {
    if front != [] {
      FirstDifferenceDecides(front[1..], x, v, xs, ys);
      LtIrreflexive(front[0]);
      assert (front + [x] + xs)[1..] == front[1..] + [x] + xs;
      assert (front + [v] + ys)[1..] == front[1..] + [v] + ys;
    }
  }

  lemma {:induction false} PrefixComesFirst(front: seq<Val>, more: seq<Val>)
    requires more != []
    ensures LtAll(front, front + more) && !LtAll(front + more, front)
  {
    if front != [] {
      PrefixComesFirst(front[1..], more);
      LtIrreflexive(front[0]);
      assert (front + more)[1..] == front[1..] + more;
    }
  }
}
