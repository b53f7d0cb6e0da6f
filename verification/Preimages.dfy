/** The two byte strings under which the same `files` map (and the same `symlinks` map) is keyed: the content-hash
    stream of the value, and its protobuf encoding. */
module Preimages {
  import opened Basics
  import opened LittleEndian
  import opened ContentHash

  /** A byte string as a hashed value: a `Vec<u8>`, or the bytes of a `String`. */
  function BytesVal(bytes: Bytes): Val {
    VSeq(seq(|bytes|, i requires 0 <= i < |bytes| => VU8(bytes[i])))
  }

  const BYTES_TY: Ty := TSeq(TU8)

  lemma {:induction false} ByteStream(xs: seq<Val>, bytes: Bytes)
    requires |xs| == |bytes| && forall i :: 0 <= i < |xs| ==> xs[i] == VU8(bytes[i])
    ensures EncodeAll(xs) == bytes
  {
    if xs != [] {
      ByteStream(xs[1..], bytes[1..]);
      assert bytes == [bytes[0]] + bytes[1..];
    }
  }

  lemma BytesValInjective(a: Bytes, b: Bytes)
    requires BytesVal(a) == BytesVal(b)
    ensures a == b
  {
    assert |a| == |BytesVal(a).xs| == |b|;
    forall i | 0 <= i < |a| ensures a[i] == b[i] {
      assert BytesVal(a).xs[i] == BytesVal(b).xs[i];
    }
  }

  /** What `File::get_hash` and `Symlink::get_hash` feed to the hash function: the length, then the bytes. */
  function ContentPreimage(content: Bytes): Bytes {
    LE(|content|, 8) + content
  }

  /** That is the stream of a struct of one byte string. */
  lemma ContentPreimageIsStream(content: Bytes)
    ensures Encode(VPair(BytesVal(content), VUnit)) == ContentPreimage(content)
  {
    var bytes := BytesVal(content);
    ByteStream(bytes.xs, content);
    assert Encode(bytes) == LE(|content|, 8) + content;
    assert Encode(VPair(bytes, VUnit)) == Encode(bytes) + Encode(VUnit);
  }

  /** A base-128 varint. */
  function Varint(n: nat): (bytes: Bytes)
    ensures bytes != []
  {
    if n < 128 then [n] else [128 + n % 128] + Varint(n / 128)
  }

  /** The protobuf encoding of a message whose one field, number 1, is this byte string or string: nothing for the
      default value, otherwise the tag of a length-delimited field 1, the length and the bytes. */
  function ProtoPreimage(content: Bytes): Bytes {
    if content == [] then [] else [0x0A] + Varint(|content|) + content
  }

  lemma VarintHead(m: nat, r: Bytes)
    ensures var stream := Varint(m) + r;
            if m < 128 then stream[0] == m && stream[1..] == r
            else stream[0] == 128 + m % 128 && stream[1..] == Varint(m / 128) + r
  {
  }

  lemma {:induction false} VarintPrefixFree(m: nat, n: nat, r: Bytes, s: Bytes)
    requires Varint(m) + r == Varint(n) + s
    ensures m == n && r == s
  {
    VarintHead(m, r);
    VarintHead(n, s);
    if m >= 128 {
      VarintPrefixFree(m / 128, n / 128, r, s);
    }
  }

  lemma {:induction false} VarintContinues(n: nat, i: nat)
    requires i + 1 < |Varint(n)|
    ensures Varint(n)[i] >= 128
  {
    if i > 0 { VarintContinues(n / 128, i - 1); }
  }

  /** Read as plain little-endian bytes, a varint is at least the number it stands for. */
  lemma {:induction false} VarintBelowLE(n: nat)
    ensures n <= FromLE(Varint(n))
  {
    if n >= 128 {
      VarintBelowLE(n / 128);
      assert Varint(n)[1..] == Varint(n / 128);
    }
  }

  lemma {:induction false} FromLEPrefix(a: Bytes, b: Bytes)
    ensures FromLE(a) <= FromLE(a + b)
  {
    if a != [] {
      FromLEPrefix(a[1..], b);
      assert (a + b)[1..] == a[1..] + b;
    }
  }

  lemma {:induction false} FromLETopByte(bytes: Bytes, i: nat)
    requires i < |bytes|
    ensures FromLE(bytes) >= Pow256(i) * bytes[i]
  {
    if i > 0 {
      FromLETopByte(bytes[1..], i - 1);
      var p, b := Pow256(i - 1), bytes[i];
      assert Pow256(i) * b == 256 * (p * b);
    }
  }

  lemma ProtoPreimageInjective(a: Bytes, b: Bytes)
    requires ProtoPreimage(a) == ProtoPreimage(b)
    ensures a == b
  {
    if a != [] && b != [] {
      assert ProtoPreimage(a)[1..] == Varint(|a|) + a;
      assert ProtoPreimage(b)[1..] == Varint(|b|) + b;
      VarintPrefixFree(|a|, |b|, a, b);
    }
  }

  lemma ContentPreimageInjective(a: Bytes, b: Bytes)
    requires |a| < TWO_63 && |b| < TWO_63
    requires ContentPreimage(a) == ContentPreimage(b)
    ensures a == b
  {
    assert ContentPreimage(a)[8..] == a && ContentPreimage(b)[8..] == b;
  }

  /** The second to eighth bytes of the content stream, when it starts like a protobuf field. */
  lemma ContentStreamHead(n: nat, head: Bytes)
    requires n < TWO_63
    requires LE(n, 8) == [0x0A] + head
    ensures |head| == 7 && n == 10 + 256 * FromLE(head) && head[6] < 128
  {
    WidthValues();
    FromLEInverts(n, 8);
    assert LE(n, 8)[1..] == head;
    FromLETopByte(head, 6);
    assert Pow256(6) == 0x1_0000_0000_0000 by {
      assert Pow256(6) == 256 * (256 * Pow256(4));
    }
    var top: int := head[6];
    assert FromLE(head) >= 0x1_0000_0000_0000 * top;
  }

  lemma VarintEndsInHead(m: nat, rest: Bytes, head: Bytes)
    requires |head| == 7 && head[6] < 128
    requires |Varint(m) + rest| >= 7 && (Varint(m) + rest)[..7] == head
    ensures |Varint(m)| <= 7 && m <= FromLE(head)
  {
    var v := Varint(m);
    if |v| > 7 {
      assert (v + rest)[..7][6] == v[6];
      VarintContinues(m, 6);
    }
    VarintBelowLE(m);
    assert head == v + head[|v|..] by {
      assert forall i :: 0 <= i < |v| ==> head[i] == (v + rest)[..7][i] == v[i];
    }
    FromLEPrefix(v, head[|v|..]);
  }

  /** No content-hash stream is a protobuf encoding, so one key never stands for two scheme's contents. The bound is
      the largest a byte vector can be. */
  lemma SchemesNeverClash(a: Bytes, b: Bytes)
    requires |a| < TWO_63 && |b| < TWO_63
    ensures ContentPreimage(a) != ProtoPreimage(b)
  {
    var stream := LE(|a|, 8) + a;
    if b != [] && stream == ProtoPreimage(b) {
      var tail := Varint(|b|) + b;
      assert |stream| == 8 + |a| == 1 + |Varint(|b|)| + |b|;
      assert stream[0] == 0x0A && stream[1..] == tail;
      var head := stream[1..8];
      assert LE(|a|, 8) == stream[..8] == [0x0A] + head;
      ContentStreamHead(|a|, head);
      assert tail[..7] == head;
      VarintEndsInHead(|b|, b, head);
    }
  }
}
